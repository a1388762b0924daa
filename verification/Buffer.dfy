/** Moving an unfinished row to the front of the buffer, and receiving more bytes. */
module Buffer {
  import opened Csv
  import opened CsvFacts
  import opened Memory
  import opened Scanner

  // ---------------------------------------------------------------------------------------
  // More bytes
  // ---------------------------------------------------------------------------------------

  lemma SliceGrows(s: bytes, t: bytes, span: Span)
    requires span.lo <= span.hi <= |s|
    ensures Slice(s + t, span) == Slice(s, span)
  {
  }

  lemma {:induction false} ValuesGrow(e: Engine, d: Dialect, s: bytes, t: bytes, row: seq<Span>, n: nat)
    requires n <= |row| && forall k :: 0 <= k < |row| ==> row[k].lo <= row[k].hi <= |s|
    ensures Values(e, d, s + t, row, n) == Values(e, d, s, row, n)
  {
    hide Slice, Norm, FlagsOf;
    if n > 0 {
      SliceGrows(s, t, row[n - 1]);
      ValuesGrow(e, d, s, t, row, n - 1);
    }
  }

  lemma RowGrows(e: Engine, d: Dialect, s: bytes, t: bytes, row: seq<Span>, limit: nat)
    requires WfRow(row) && row[|row| - 1].hi <= |s|
    ensures EventOf(e, d, s + t, row, limit) == EventOf(e, d, s, row, limit)
  {
    hide Values;
    forall k | 0 <= k < |row| ensures row[k].lo <= row[k].hi <= |s| {
      ChainedBefore(row, row[0].lo, row[|row| - 1].hi + 1, k);
    }
    ValuesGrow(e, d, s, t, row, Min(|row|, limit));
  }

  /** Events of finished rows do not change as the stream grows. */
  lemma {:induction false} EventsGrow(e: Engine, d: Dialect, s: bytes, t: bytes, rows: seq<seq<Span>>, limit: nat)
    requires forall r :: 0 <= r < |rows| ==> WfRow(rows[r]) && rows[r][|rows[r]| - 1].hi <= |s|
    ensures Events(e, d, s + t, rows, limit) == Events(e, d, s, rows, limit)
  {
    hide EventOf, WfRow;
    if rows != [] {
      RowGrows(e, d, s, t, rows[|rows| - 1], limit);
      EventsGrow(e, d, s, t, rows[..|rows| - 1], limit);
    }
  }

  lemma HeldGrows(v: View, t: bytes, c: Cell, span: Span)
    requires Held(v, c, span)
    ensures Held(v.(s := v.s + t), c, span)
  {
    hide Slice, Norm, FlagsOf;
    SliceGrows(v.s, t, span);
  }

  lemma RowHeldGrows(v: View, t: bytes, row: seq<Span>)
    requires RowHeld(v, row)
    ensures RowHeld(v.(s := v.s + t), row)
  {
    hide Held;
    forall k | 0 <= k < v.used ensures Held(v.(s := v.s + t), v.cells[k], row[k]) {
      HeldGrows(v, t, v.cells[k], row[k]);
    }
  }

  /** What was delivered stays what the reference delivers for the longer stream. */
  lemma StreamGrows(e: Engine, d: Dialect, s: bytes, t: bytes, limit: nat)
    requires d.Valid()
    ensures Run(d, s + t, |s|) == Run(d, s, |s|)
    ensures var rows := Run(d, s, |s|).rows; Events(e, d, s + t, rows, limit) == Events(e, d, s, rows, limit)
  {
    hide Events, Run, Chained, Scan;
    RunPrefix(d, s + t, s, |s|);
    RunWf(d, s, |s|);
    EventsGrow(e, d, s, t, Run(d, s, |s|).rows, limit);
  }

  // ---------------------------------------------------------------------------------------
  // Moving the partial row
  // ---------------------------------------------------------------------------------------

  /** The first `n` cells point `shift` bytes lower. */
  function Rebased(cells: seq<Cell>, n: nat, shift: nat): (r: seq<Cell>)
    ensures |r| == |cells|
  {
    seq(|cells|, k requires 0 <= k < |cells| =>
      if k < n && shift <= cells[k].str then cells[k].(str := cells[k].str - shift) else cells[k])
  }

  /** The view after the `len` bytes at `shift` have been moved to the front. */
  ghost function MovedView(v: View, shift: nat, len: nat): View
    requires shift + len <= |v.b|
  {
    v.(base := v.base + shift, b := Moved(v.b, 0, shift, len), cells := Rebased(v.cells, v.used, shift))
  }

  lemma PartMoved(b: bytes, shift: nat, len: nat, s: nat, n: nat)
    requires shift <= s && s + n <= shift + len <= |b|
    ensures Part(Moved(b, 0, shift, len), s - shift, n) == Part(b, s, n)
  {
    var moved, was := Part(Moved(b, 0, shift, len), s - shift, n), Part(b, s, n);
    forall k | 0 <= k < n ensures moved[k] == was[k] {
      assert Moved(b, 0, shift, len)[s - shift + k] == b[shift..shift + len][s - shift + k] == b[s + k];
    }
  }

  lemma HeldMoved(v: View, shift: nat, len: nat, c: Cell, span: Span)
    requires Held(v, c, span) && shift + len <= |v.b| && v.base + shift <= span.lo && span.hi <= v.base + shift + len
    ensures Held(MovedView(v, shift, len), c.(str := c.str - shift), span)
  {
    hide ValueOf, Part;
    PartMoved(v.b, shift, len, c.str, c.len);
  }

  /** The cells of the partial row survive the move, although their pointers change. */
  lemma RowHeldMoved(v: View, shift: nat, len: nat, row: seq<Span>, next: nat)
    requires RowHeld(v, row) && Chained(row, v.base + shift, next) && shift + len <= |v.b|
    requires next <= v.base + shift + len
    ensures RowHeld(MovedView(v, shift, len), row)
  {
    hide Held, Chained;
    var v' := MovedView(v, shift, len);
    forall k | 0 <= k < v.used ensures Held(v', v'.cells[k], row[k]) {
      ChainedBefore(row, v.base + shift, next, k);
      var c := v.cells[k];
      HeldRange(v, c, row[k]);
      HeldMoved(v, shift, len, c, row[k]);
      assert v'.cells[k] == c.(str := c.str - shift);
    }
  }

  lemma HeldRange(v: View, c: Cell, span: Span)
    requires Held(v, c, span)
    ensures span.lo <= v.base + c.str
  {
  }

  lemma LoadedMoved(v: View, shift: nat, len: nat, from: nat)
    requires Loaded(v, Pred(shift + from), shift + len) && from <= len && shift + len <= |v.b|
    ensures Loaded(MovedView(v, shift, len), Pred(from), len)
  {
    var v' := MovedView(v, shift, len);
    forall j | Pred(from) <= j < len ensures v'.b[j] == v'.s[v'.base + j] {
      assert v'.b[j] == v.b[shift..shift + len][j] == v.b[shift + j];
    }
  }

  /** The loop that rebases the row's cells. */
  method RebaseCells(cells: array<Cell>, used: nat, shift: nat)
    requires used <= cells.Length && forall k :: 0 <= k < used ==> shift <= cells[k].str
    modifies cells
    ensures cells[..] == Rebased(old(cells[..]), used, shift)
  {
    ghost var was := cells[..];
    var k := 0;
    while k < used
      invariant k <= used
      invariant forall j :: 0 <= j < k ==> cells[j] == was[j].(str := was[j].str - shift)
      invariant forall j :: k <= j < cells.Length ==> cells[j] == was[j]
    {
      cells[k] := cells[k].(str := cells[k].str - shift);
      k := k + 1;
    }
    var now := cells[..];
    forall j | 0 <= j < cells.Length ensures now[j] == Rebased(was, used, shift)[j] {
    }
  }

  lemma EventsAtGrow(e: Engine, d: Dialect, s: bytes, t: bytes, k: nat, limit: nat)
    requires d.Valid() && k <= |s|
    ensures Run(d, s + t, k) == Run(d, s, k)
    ensures Events(e, d, s + t, Run(d, s, k).rows, limit) == Events(e, d, s, Run(d, s, k).rows, limit)
  {
    hide Events, Run, Chained, Scan;
    RunPrefix(d, s + t, s, k);
    RunWf(d, s, k);
    EventsGrow(e, d, s, t, Run(d, s, k).rows, limit);
  }
}
