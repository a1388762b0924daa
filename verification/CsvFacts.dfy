/** What holds of the reference machine after any number of bytes. */
module CsvFacts {
  import opened Csv

  lemma Assoc(a: bytes, b: bytes, c: bytes)
    ensures a + (b + c) == (a + b) + c
  {
  }

  /** The machine depends only on the bytes it has read. */
  lemma {:induction false} RunPrefix(d: Dialect, s: bytes, t: bytes, p: nat)
    requires p <= |s| && p <= |t| && s[..p] == t[..p]
    ensures Run(d, s, p) == Run(d, t, p)
  {
    if p > 0 {
      assert s[..p - 1] == s[..p][..p - 1] == t[..p - 1];
      assert s[p - 1] == s[..p][p - 1] == t[p - 1];
      RunPrefix(d, s, t, p - 1);
    }
  }

  lemma {:induction false} ScanPrefix(d: Dialect, raw: bytes, t: bytes, k: nat)
    requires k <= |raw| && k <= |t| && raw[..k] == t[..k]
    ensures Scan(d, raw, k) == Scan(d, t, k)
  {
    if k > 0 {
      assert raw[..k - 1] == raw[..k][..k - 1] == t[..k - 1];
      assert raw[k - 1] == raw[..k][k - 1] == t[k - 1];
      ScanPrefix(d, raw, t, k - 1);
    }
  }

  // ---------------------------------------------------------------------------------------
  // The state invariant
  // ---------------------------------------------------------------------------------------

  /** Finished cells of a row that starts at `lo`: back to back, one separator byte apart. */
  ghost predicate Chained(row: seq<Span>, lo: nat, next: nat) {
    && (row == [] ==> lo == next)
    && (row != [] ==> row[0].lo == lo && row[|row| - 1].hi + 1 == next)
    && (forall k :: 0 <= k < |row| ==> row[k].lo <= row[k].hi)
    && (forall k :: 0 < k < |row| ==> row[k].lo == row[k - 1].hi + 1)
  }

  ghost predicate WfRow(row: seq<Span>) {
    row != [] && Chained(row, row[0].lo, row[|row| - 1].hi + 1)
  }

  ghost predicate Wf(d: Dialect, s: bytes, p: nat, st: State)
    requires p <= |s|
  {
    && st.pos == p
    && st.rowAt <= st.cellAt <= p
    && st.prev == (if p == 0 then 0 else s[p - 1])
    && st.q == Scan(d, s[st.cellAt..p], p - st.cellAt)
    && (st.q.mode == Start <==> st.cellAt == p)
    && Chained(st.row, st.rowAt, st.cellAt)
    && (forall r :: 0 <= r < |st.rows| ==> WfRow(st.rows[r]) && st.rows[r][|st.rows[r]| - 1].hi < st.rowAt)
    && (st.prev == CR && st.q.mode != Open ==> st.q == FRESH && st.row == [] && st.rowAt == st.cellAt == p)
  }

  lemma {:induction false} RunWf(d: Dialect, s: bytes, p: nat)
    requires d.Valid() && p <= |s|
    ensures Wf(d, s, p, Run(d, s, p))
  {
    if p > 0 {
      RunWf(d, s, p - 1);
      StepWf(d, s, p - 1, Run(d, s, p - 1));
    }
  }

  lemma RunChained(d: Dialect, s: bytes, p: nat)
    requires d.Valid() && p <= |s|
    ensures var st := Run(d, s, p);
      st.pos == p && st.rowAt <= st.cellAt <= p && Chained(st.row, st.rowAt, st.cellAt)
  {
    RunWf(d, s, p);
  }

  lemma RunPrev(d: Dialect, s: bytes, p: nat)
    requires d.Valid() && p <= |s|
    ensures Run(d, s, p).prev == if p == 0 then 0 else s[p - 1]
  {
    RunWf(d, s, p);
  }

  /** The quoting of the current cell, as of its bytes alone. */
  lemma RunQuoting(d: Dialect, s: bytes, p: nat)
    requires d.Valid() && p <= |s|
    ensures var st := Run(d, s, p);
      st.cellAt <= p && st.q == Scan(d, Slice(s, Span(st.cellAt, p)), |Slice(s, Span(st.cellAt, p))|)
  {
    RunWf(d, s, p);
  }

  lemma StepWf(d: Dialect, s: bytes, p: nat, st: State)
    requires d.Valid() && p < |s| && Wf(d, s, p, st)
    ensures Wf(d, s, p + 1, Step(d, st, s[p]))
  {
    if !d.IsSeparator(s[p]) || st.q.mode == Open {
      FeedWf(d, s, p, st);
    } else {
      CutWf(d, s, p, st);
    }
  }

  /** The byte at `p` joins the current cell. */
  lemma FeedWf(d: Dialect, s: bytes, p: nat, st: State)
    requires d.Valid() && p < |s| && Wf(d, s, p, st)
    requires !d.IsSeparator(s[p]) || st.q.mode == Open
    ensures Wf(d, s, p + 1, Step(d, st, s[p]))
  {
    var raw, raw' := s[st.cellAt..p], s[st.cellAt..p + 1];
    assert raw'[..|raw|] == raw;
    ScanPrefix(d, raw, raw', |raw|);
    assert raw'[|raw|] == s[p];
  }

  /** The byte at `p` ends the current cell, or is the LF of a CR LF. */
  lemma CutWf(d: Dialect, s: bytes, p: nat, st: State)
    requires d.Valid() && p < |s| && Wf(d, s, p, st)
    requires d.IsSeparator(s[p]) && st.q.mode != Open
    ensures Wf(d, s, p + 1, Step(d, st, s[p]))
  {
    ChainedSnoc(st.row, st.rowAt, st.cellAt, p);
  }

  lemma ChainedSnoc(row: seq<Span>, lo: nat, at: nat, hi: nat)
    requires Chained(row, lo, at) && at <= hi
    ensures Chained(row + [Span(at, hi)], lo, hi + 1)
  {
  }

  lemma {:induction false} ChainedLo(row: seq<Span>, lo: nat, next: nat, k: nat)
    requires Chained(row, lo, next) && k < |row|
    ensures lo <= row[k].lo
  {
    if k > 0 {
      ChainedLo(row, lo, next, k - 1);
    }
  }

  lemma {:induction false} ChainedTo(row: seq<Span>, lo: nat, next: nat, k: nat)
    requires Chained(row, lo, next) && k < |row|
    ensures row[k].hi < next
    decreases |row| - k
  {
    if k + 1 < |row| {
      ChainedTo(row, lo, next, k + 1);
    }
  }

  lemma ChainedBefore(row: seq<Span>, lo: nat, next: nat, k: nat)
    requires Chained(row, lo, next) && k < |row|
    ensures lo <= row[k].lo <= row[k].hi < next
  {
    ChainedLo(row, lo, next, k);
    ChainedTo(row, lo, next, k);
  }

  /** A row of `s` starts at `a`, after the rows `before`: nothing is carried over from the bytes before. */
  ghost predicate StartsAt(d: Dialect, s: bytes, a: nat, before: seq<seq<Span>>) {
    && a <= |s|
    && var st := Run(d, s, a);
    && st.q == FRESH && st.row == [] && st.rowAt == st.cellAt == st.pos == a && st.rows == before
    && (a < |s| && st.prev == CR ==> s[a] != LF)
  }

  /** Finished rows stay. */
  lemma {:induction false} RowsGrow(d: Dialect, s: bytes, k: nat, p: nat)
    requires k <= p <= |s|
    ensures Run(d, s, k).rows <= Run(d, s, p).rows
  {
    hide Feed;
    if k < p {
      RowsGrow(d, s, k, p - 1);
    }
  }

  // ---------------------------------------------------------------------------------------
  // Quoting and content
  // ---------------------------------------------------------------------------------------

  /** What the quoting of a cell's first `k` bytes says about where its quote closes. */
  ghost predicate ScanSays(d: Dialect, raw: bytes, k: nat, q: Quoting)
    requires k <= |raw|
  {
    && (q.mode == Start <==> k == 0)
    && (q.mode == Start ==> q == FRESH)
    && (q.mode == Plain ==> !q.needed && q.close == 0 && (d.noQuotes || raw[0] != QT))
    && (q.mode == Plain && q.embedded ==> k > 1)
    && (q.mode in {Open, Pending} ==> q.close == 0)
    && (q.mode in {Open, Pending, Closed} ==> !d.noQuotes && raw[0] == QT)
    && (q.mode == Open ==> CloseAt(raw, 1) == CloseAt(raw, k))
    && (q.mode == Pending ==> k > 1 && raw[k - 1] == QT && CloseAt(raw, 1) == CloseAt(raw, k - 1))
    && (q.mode == Closed ==> 0 < q.close < k && raw[q.close] == QT && CloseAt(raw, 1) == q.close)
  }

  lemma {:induction false} ScanMeaning(d: Dialect, raw: bytes, k: nat)
    requires k <= |raw|
    ensures ScanSays(d, raw, k, Scan(d, raw, k))
  {
    if k > 0 {
      ScanMeaning(d, raw, k - 1);
    }
  }

  /** Unless a cell is flagged `embedded`, its only quotes are the surrounding ones. */
  lemma {:induction false} NoEmbedded(d: Dialect, raw: bytes, k: nat, j: nat)
    requires j < k <= |raw| && !Scan(d, raw, k).embedded && !d.noQuotes && raw[j] == QT
    ensures j == 0
         || (Scan(d, raw, k).mode == Pending && j == k - 1)
         || (Scan(d, raw, k).mode == Closed && j == Scan(d, raw, k).close)
  {
    ScanMeaning(d, raw, k - 1);
    if j < k - 1 {
      NoEmbedded(d, raw, k - 1, j);
    }
  }

  lemma {:induction false} CollapseNoQuotes(s: bytes)
    requires forall i :: 0 <= i < |s| ==> s[i] != QT
    ensures Collapse(s) == s
  {
    if |s| >= 2 {
      CollapseNoQuotes(s[1..]);
    }
  }

  lemma CollapseHead(b: byte, s: bytes)
    requires b != QT
    ensures Collapse([b] + s) == [b] + Collapse(s)
  {
    assert ([b] + s)[1..] == s;
  }

  lemma CollapsePair(s: bytes)
    ensures Collapse([QT, QT] + s) == [QT] + Collapse(s)
  {
    assert ([QT, QT] + s)[2..] == s;
  }

  /** Up to the closing quote all quotes are paired, so what follows collapses on its own. */
  lemma {:induction false} CollapsePaired(raw: bytes, i: nat, t: bytes)
    requires i <= |raw|
    ensures Collapse(raw[i..CloseAt(raw, i)] + t) == Collapse(raw[i..CloseAt(raw, i)]) + Collapse(t)
    decreases |raw| - i
  {
    var c := CloseAt(raw, i);
    if c == i {
      assert raw[i..c] + t == t;
    } else if raw[i] != QT {
      CollapsePaired(raw, i + 1, t);
      var rest := raw[i + 1..c];
      CollapseHead(raw[i], rest);
      CollapseHead(raw[i], rest + t);
      assert raw[i..c] == [raw[i]] + rest;
      Assoc([raw[i]], rest, t);
      Assoc([raw[i]], Collapse(rest), Collapse(t));
    } else {
      CollapsePaired(raw, i + 2, t);
      var rest := raw[i + 2..c];
      CollapsePair(rest);
      CollapsePair(rest + t);
      assert raw[i..c] == [QT, QT] + rest;
      Assoc([QT, QT], rest, t);
      Assoc([QT], Collapse(rest), Collapse(t));
    }
  }

  /** A finished cell's mode, and where its closing quote is. */
  lemma FinalMeaning(d: Dialect, raw: bytes)
    requires Scan(d, raw, |raw|).mode != Open
    ensures var f := Final(d, raw);
      && f.mode in {Start, Plain, Closed}
      && (f.mode != Closed ==> Norm(d, raw) == raw && f.close == 0 && !f.needed)
      && (f.mode == Closed ==>
        && 0 < f.close < |raw| && raw[f.close] == QT && f.close == CloseAt(raw, 1)
        && Norm(d, raw) == Collapse(raw[1..f.close] + raw[f.close + 1..]))
  {
    ScanMeaning(d, raw, |raw|);
  }

  /** Without the `embedded` flag only the surrounding quotes have to go. */
  lemma NormUnembedded(d: Dialect, raw: bytes)
    requires Final(d, raw).mode == Closed && !Final(d, raw).embedded
    ensures var c := Final(d, raw).close;
      0 < c < |raw| && Norm(d, raw) == raw[1..c] + raw[c + 1..]
  {
    FinalMeaning(d, raw);
    var c := Final(d, raw).close;
    var rest := raw[1..c] + raw[c + 1..];
    forall i | 0 <= i < |rest| ensures rest[i] != QT {
      var j := if i < c - 1 then i + 1 else i + 2;
      assert rest[i] == raw[j];
      if raw[j] == QT {
        ScanMeaning(d, raw, |raw|);
        NoEmbedded(d, raw, |raw|, j);
      }
    }
    CollapseNoQuotes(rest);
  }

  /** When the closing quote is the last byte, it survives collapsing and can be dropped after. */
  lemma NormToTheEnd(d: Dialect, raw: bytes)
    requires Final(d, raw).mode == Closed && Final(d, raw).close + 1 == |raw|
    ensures Collapse(raw[1..]) == Norm(d, raw) + [QT]
  {
    FinalMeaning(d, raw);
    var c := Final(d, raw).close;
    CollapsePaired(raw, 1, [QT]);
    assert raw[1..] == raw[1..c] + [QT];
    assert raw[1..c] + raw[c + 1..] == raw[1..c];
  }
}
