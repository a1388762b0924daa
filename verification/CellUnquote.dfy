/** In-place unquoting of one cell: the quote handling of `cell_dl`. */
module CellUnquote {
  import opened Csv
  import opened CsvFacts
  import opened Memory

  /** The parser's quote flags, one per bit. */
  datatype Flags = Flags(unclosed: bool, closed: bool, needed: bool, embedded: bool, pending: bool)

  const NONE := Flags(false, false, false, false, false)

  function FlagsFor(q: Quoting): Flags {
    Flags(q.mode in {Open, Pending}, q.mode == Closed, q.needed, q.embedded, q.mode == Pending)
  }

  // ---------------------------------------------------------------------------------------
  // Removing doubled quotes
  // ---------------------------------------------------------------------------------------

  /** `b` came from `b0` by working on b0[s..s + n] only. */
  ghost predicate Within(b0: bytes, b: bytes, s: nat, n: nat) {
    |b| == |b0| && s + n <= |b| && b[..s] == b0[..s] && b[s + n..] == b0[s + n..]
  }

  /** The first `i` bytes of b[s..s + m] are settled and the rest is still to be collapsed. */
  ghost predicate Collapsing(b0: bytes, b: bytes, s: nat, n: nat, m: nat, i: nat) {
    && Within(b0, b, s, n)
    && i <= m <= n
    && Collapse(b0[s..s + n]) == b[s..s + i] + Collapse(b[s + i..s + m])
  }

  lemma CollapseUnfold(rest: bytes)
    requires |rest| >= 2
    ensures rest[0] == QT && rest[1] == QT ==> Collapse(rest) == [QT] + Collapse(rest[2..])
    ensures !(rest[0] == QT && rest[1] == QT) ==> Collapse(rest) == [rest[0]] + Collapse(rest[1..])
  {
  }

  lemma CollapseStep(done: bytes, rest: bytes, whole: bytes)
    requires |rest| >= 2 && whole == done + Collapse(rest)
    ensures rest[0] == QT && rest[1] == QT ==> whole == (done + [QT]) + Collapse(rest[2..])
    ensures !(rest[0] == QT && rest[1] == QT) ==> whole == (done + [rest[0]]) + Collapse(rest[1..])
  {
    hide *;
    CollapseUnfold(rest);
    if rest[0] == QT && rest[1] == QT {
      Assoc(done, [QT], Collapse(rest[2..]));
    } else {
      Assoc(done, [rest[0]], Collapse(rest[1..]));
    }
  }

  lemma CollapseKeep(b0: bytes, b: bytes, s: nat, n: nat, m: nat, i: nat)
    requires Collapsing(b0, b, s, n, m, i) && i + 1 < m
    requires b[s + i] != QT || b[s + i + 1] != QT
    ensures Collapsing(b0, b, s, n, m, i + 1)
  {
    var done, rest := b[s..s + i], b[s + i..s + m];
    CollapseStep(done, rest, Collapse(b0[s..s + n]));
    assert b[s..s + i + 1] == done + [rest[0]];
    assert b[s + i + 1..s + m] == rest[1..];
  }

  lemma CollapseDrop(b0: bytes, b: bytes, s: nat, n: nat, m: nat, i: nat)
    requires Collapsing(b0, b, s, n, m, i) && i + 1 < m
    requires b[s + i] == QT && b[s + i + 1] == QT
    ensures Collapsing(b0, Moved(b, s + i + 1, s + i + 2, m - i - 2), s, n, m - 1, i + 1)
  {
    var done, rest := b[s..s + i], b[s + i..s + m];
    CollapseStep(done, rest, Collapse(b0[s..s + n]));
    var b' := Moved(b, s + i + 1, s + i + 2, m - i - 2);
    assert b'[s..s + i + 1] == done + [QT];
    assert b'[s + i + 1..s + m - 1] == rest[2..];
    MovedWithin(b, s + i + 1, s + i + 2, m - i - 2, s, n);
  }

  lemma MovedWithin(b: bytes, dst: nat, src: nat, k: nat, s: nat, n: nat)
    requires s <= dst && dst + k <= s + n <= |b| && src + k <= |b|
    ensures Within(b, Moved(b, dst, src, k), s, n)
  {
  }

  lemma MovedNothing(b: bytes, dst: nat, src: nat)
    requires dst <= |b| && src <= |b|
    ensures Moved(b, dst, src, 0) == b
  {
  }

  /** The loop that removes the second of each two adjacent quotes. */
  method CollapseInPlace(a: array<byte>, s: nat, n: nat) returns (m: nat)
    requires s + n <= a.Length
    modifies a
    ensures m <= n && Part(a[..], s, m) == Collapse(Part(old(a[..]), s, n))
    ensures Within(old(a[..]), a[..], s, n)
  {
    hide *;
    ghost var b0 := a[..];
    m := n;
    var i := 0;
    CollapseBegin(b0, s, n);
    while i + 1 < m
      invariant i <= m <= n && Collapsing(b0, a[..], s, n, m, i)
    {
      ghost var b := a[..];
      if a[s + i] == QT && a[s + i + 1] == QT {
        CollapseDrop(b0, b, s, n, m, i);
        if m > i + 2 {
          MemMove(a, s + i + 1, s + i + 2, m - i - 2);
        } else {
          MovedNothing(b, s + i + 1, s + i + 2);
        }
        m := m - 1;
      } else {
        CollapseKeep(b0, b, s, n, m, i);
      }
      i := i + 1;
    }
    CollapseEnd(b0, a[..], s, n, m, i);
  }

  lemma CollapseBegin(b0: bytes, s: nat, n: nat)
    requires s + n <= |b0|
    ensures Collapsing(b0, b0, s, n, n, 0)
  {
    assert b0[s..s] == [];
  }

  lemma CollapseEnd(b0: bytes, b: bytes, s: nat, n: nat, m: nat, i: nat)
    requires Collapsing(b0, b, s, n, m, i) && i + 1 >= m
    ensures m <= n && s + n <= |b| == |b0| && Part(b, s, m) == Collapse(Part(b0, s, n))
    ensures Within(b0, b, s, n)
  {
    assert b[s..s + m] == b[s..s + i] + b[s + i..s + m];
  }

  // ---------------------------------------------------------------------------------------
  // Unquoting
  // ---------------------------------------------------------------------------------------

  /** The scanner's flags and closing-quote position describe the finished cell `raw`. */
  ghost predicate Describes(d: Dialect, raw: bytes, quoted: Flags, close: nat) {
    && Scan(d, raw, |raw|).mode != Open
    && quoted == FlagsFor(Final(d, raw))
    && (quoted != NONE ==> close == Final(d, raw).close)
  }

  lemma DescribesMeaning(d: Dialect, raw: bytes, quoted: Flags, close: nat)
    requires Describes(d, raw, quoted, close)
    ensures quoted == NONE || close == 0 ==> Norm(d, raw) == raw
    ensures quoted != NONE && close == 0 ==> |raw| > 1
    ensures quoted != NONE && close != 0 ==>
      && close < |raw|
      && Norm(d, raw) == Collapse(raw[1..close] + raw[close + 1..])
      && (!quoted.embedded ==> Norm(d, raw) == raw[1..close] + raw[close + 1..])
      && (close + 1 == |raw| ==> Collapse(raw[1..]) == Norm(d, raw) + [QT])
  {
    FinalMeaning(d, raw);
    ScanMeaning(d, raw, |raw|);
    hide CloseAt, Norm, Collapse, Scan;
    if quoted.closed {
      if !quoted.embedded {
        NormUnembedded(d, raw);
      }
      if close + 1 == |raw| {
        NormToTheEnd(d, raw);
      }
    }
  }

  /** The content before the closing quote is moved over it, next to what follows it. */
  lemma ClosingQuoteOverwritten(b: bytes, s: nat, n: nat, close: nat)
    requires s + n <= |b| && 0 < close < n
    ensures var raw, b' := Part(b, s, n), Moved(b, s + 1, s, close);
      Part(b', s + 2, n - 2) == raw[1..close] + raw[close + 1..] && Within(b, b', s, n)
  {
    var raw, b' := b[s..s + n], Moved(b, s + 1, s, close);
    var rest := raw[1..close] + raw[close + 1..];
    forall j | 0 <= j < n - 2 ensures b'[s + 2 + j] == rest[j] {
      if j < close - 1 {
        assert b'[s + 2 + j] == b[s..s + close][1 + j] == raw[1..close][j];
      } else {
        assert b'[s + 2 + j] == b[s + 1 + close..][1 + j - close] == raw[close + 1..][1 + j - close];
      }
    }
    assert b'[s + 2..s + n] == rest;
  }

  lemma WithinPart(b0: bytes, b1: bytes, b2: bytes, s: nat, n: nat, s': nat, n': nat)
    requires Within(b0, b1, s, n) && Within(b1, b2, s', n') && s <= s' && s' + n' <= s + n
    ensures Within(b0, b2, s, n)
  {
    assert b2[..s] == b2[..s'][..s] == b1[..s];
    assert b2[s + n..] == b2[s' + n'..][s + n - s' - n'..] == b1[s + n..];
  }

  lemma SubSlice(b: bytes, s: nat, n: nat, i: nat, j: nat)
    requires s + n <= |b| && i <= j <= n
    ensures b[s..s + n][i..j] == b[s + i..s + j]
  {
    var part, direct := b[s..s + n][i..j], b[s + i..s + j];
    forall k | 0 <= k < j - i ensures part[k] == direct[k] {
      assert b[s..s + n][i + k] == b[s + i + k];
    }
  }

  /** Only the surrounding quotes go. */
  lemma TrimQuotes(b: bytes, s: nat, n: nat)
    requires 1 < n && s + n <= |b|
    ensures var raw := Part(b, s, n); Part(b, s + 1, n - 2) == raw[1..n - 1] + raw[n..]
    ensures Part(b, s + 1, n - 1) == Part(b, s, n)[1..]
  {
    var raw := b[s..s + n];
    assert raw[n..] == [];
    assert raw[1..n - 1] + [] == raw[1..n - 1];
    SubSlice(b, s, n, 1, n - 1);
    assert s + 1 + (n - 2) == s + (n - 1);
  }

  lemma DropLast(b: bytes, s: nat, n: nat, t: bytes)
    requires s + n <= |b| && Part(b, s, n) == t + [QT]
    ensures 0 < n && Part(b, s, n - 1) == t
  {
    assert n == |t| + 1;
    assert b[s..s + (n - 1)] == b[s..s + n][..n - 1];
  }

  /** The closing quote is the cell's last byte, and there are quotes in between. */
  method UnquoteEmbedded(d: Dialect, a: array<byte>, s: nat, n: nat) returns (m: nat)
    requires 1 < n && s + n <= a.Length
    requires Collapse(Part(a[..], s, n)[1..]) == Norm(d, Part(a[..], s, n)) + [QT]
    modifies a
    ensures m + 1 < n && Within(old(a[..]), a[..], s, n)
    ensures Part(a[..], s + 1, m) == Norm(d, Part(old(a[..]), s, n))
  {
    hide *;
    ghost var b := a[..];
    TrimQuotes(b, s, n);
    m := CollapseInPlace(a, s + 1, n - 1);
    WithinRefl(b, s, n);
    WithinPart(b, b, a[..], s, n, s + 1, n - 1);
    DropLast(a[..], s + 1, m, Norm(d, Part(b, s, n)));
    m := m - 1;
  }

  /** Bytes follow the closing quote: it is overwritten by what precedes it. */
  method UnquoteMiddle(a: array<byte>, s: nat, n: nat, embedded: bool, close: nat) returns (m: nat)
    requires s + n <= a.Length && 0 < close < n
    modifies a
    ensures m + 2 <= n && Within(old(a[..]), a[..], s, n)
    ensures var raw := Part(old(a[..]), s, n);
      Part(a[..], s + 2, m) ==
        if embedded then Collapse(raw[1..close] + raw[close + 1..]) else raw[1..close] + raw[close + 1..]
  {
    hide *;
    ghost var b := a[..];
    ClosingQuoteOverwritten(b, s, n, close);
    MemMove(a, s + 1, s, close);
    m := n - 2;
    if embedded {
      ghost var b1 := a[..];
      m := CollapseInPlace(a, s + 2, m);
      WithinPart(b, b1, a[..], s, n, s + 2, n - 2);
    }
  }

  /** `cell_dl`'s quote handling: the cell at a[s..s + n] shrinks to its content, in place. */
  method Unquote(d: Dialect, a: array<byte>, s: nat, n: nat, quoted: Flags, close: nat)
    returns (s': nat, n': nat)
    requires s + n <= a.Length && Describes(d, Part(a[..], s, n), quoted, close)
    modifies a
    ensures s <= s' && s' + n' <= s + n && Within(old(a[..]), a[..], s, n)
    ensures Part(a[..], s', n') == Norm(d, Part(old(a[..]), s, n))
  {
    hide *;
    ghost var raw := Part(a[..], s, n);
    DescribesMeaning(d, raw, quoted, close);
    WithinRefl(a[..], s, n);
    s', n' := s, n;
    if quoted != NONE {
      if close + 1 == n {
        s' := s + 1;
        if !quoted.embedded {
          TrimQuotes(a[..], s, n);
          n' := n - 2;
        } else {
          n' := UnquoteEmbedded(d, a, s, n);
        }
      } else if close != 0 {
        s' := s + 2;
        n' := UnquoteMiddle(a, s, n, quoted.embedded, close);
      }
    }
  }

  lemma WithinRefl(b: bytes, s: nat, n: nat)
    requires s + n <= |b|
    ensures Within(b, b, s, n)
  {
  }
}
