/** The scanner object both delimiter engines work on, and what it means for it to be in step. */
module Scanner {
  import opened Csv
  import opened CsvFacts
  import opened CellUnquote
  import opened Memory
  import opened Words

  /** A stored cell: `str` is its position in the scanner's buffer. */
  datatype Cell = Cell(str: nat, len: nat, quoted: Flags)

  /** What a row handler sees: each cell's text and flags, and the row's reported byte offsets. */
  datatype CellValue = CellValue(text: bytes, quoted: Flags)
  datatype RowEvent = RowEvent(cells: seq<CellValue>, start: nat, end: nat)

  datatype Engine = Compat | Fast

  /** The cell as a row handler can read it through pointer and length. */
  function Content(b: bytes, c: Cell): CellValue {
    CellValue(if c.str + c.len <= |b| then Part(b, c.str, c.len) else [], c.quoted)
  }

  function Contents(b: bytes, cells: seq<Cell>, used: nat): seq<CellValue>
    requires used <= |cells|
  {
    if used == 0 then [] else Contents(b, cells, used - 1) + [Content(b, cells[used - 1])]
  }

  // ---------------------------------------------------------------------------------------
  // What the handler should see, from the reference alone
  // ---------------------------------------------------------------------------------------

  function FlagsOf(d: Dialect, raw: bytes): Flags {
    var flags := FlagsFor(Final(d, raw));
    if d.noQuotes then Flags(true, false, false, false, false)
    else if flags == NONE && d.delim != 44 && 44 in raw then Flags(false, false, true, false, false)
    else flags
  }

  /** The compat engine delivers unquoted cells, the fast engine raw ones. */
  function ValueOf(e: Engine, d: Dialect, s: bytes, span: Span): CellValue {
    match e
    case Compat => CellValue(Norm(d, Slice(s, span)), FlagsOf(d, Slice(s, span)))
    case Fast => CellValue(Slice(s, span), if d.noQuotes then Flags(true, false, false, false, false) else NONE)
  }

  function Values(e: Engine, d: Dialect, s: bytes, row: seq<Span>, n: nat): seq<CellValue>
    requires n <= |row|
  {
    if n == 0 then [] else Values(e, d, s, row, n - 1) + [ValueOf(e, d, s, row[n - 1])]
  }

  function Min(x: nat, y: nat): nat {
    if x < y then x else y
  }

  /** Cells past the column limit are dropped. */
  function EventOf(e: Engine, d: Dialect, s: bytes, row: seq<Span>, limit: nat): RowEvent {
    RowEvent(Values(e, d, s, row, Min(|row|, limit)),
             if row == [] then 0 else row[0].lo, if row == [] then 0 else row[|row| - 1].hi)
  }

  function Events(e: Engine, d: Dialect, s: bytes, rows: seq<seq<Span>>, limit: nat): seq<RowEvent> {
    if rows == [] then []
    else Events(e, d, s, rows[..|rows| - 1], limit) + [EventOf(e, d, s, rows[|rows| - 1], limit)]
  }

  // ---------------------------------------------------------------------------------------
  // The scanner's memory, as a value
  // ---------------------------------------------------------------------------------------

  /** `b` is the buffer, whose first byte is byte `base` of the stream `s`. */
  datatype View = View(e: Engine, d: Dialect, s: bytes, base: nat, b: bytes, cells: seq<Cell>, used: nat)

  /** Buffer bytes from..end are still those of the stream. */
  ghost predicate Loaded(v: View, from: nat, end: nat) {
    && v.base + end <= |v.s| && end <= |v.b|
    && forall j {:trigger v.b[j]} :: from <= j < end ==> v.b[j] == v.s[v.base + j]
  }

  /** The stored cell `c` is the cell `span` of the stream, and lies within it in the buffer. */
  ghost predicate Held(v: View, c: Cell, span: Span) {
    && v.base <= span.lo <= span.hi <= |v.s|
    && span.lo <= v.base + c.str && v.base + c.str + c.len <= span.hi <= v.base + |v.b|
    && Content(v.b, c) == ValueOf(v.e, v.d, v.s, span)
  }

  ghost predicate RowHeld(v: View, row: seq<Span>) {
    && v.used == Min(|row|, |v.cells|)
    && forall k :: 0 <= k < v.used ==> Held(v, v.cells[k], row[k])
  }

  lemma {:induction false} ContentsHeld(v: View, row: seq<Span>, n: nat)
    requires RowHeld(v, row) && n <= v.used
    ensures Contents(v.b, v.cells, n) == Values(v.e, v.d, v.s, row, n)
  {
    hide Content, ValueOf;
    if n > 0 {
      ContentsHeld(v, row, n - 1);
      assert Held(v, v.cells[n - 1], row[n - 1]);
    }
  }

  lemma HeldFrame(v: View, b: bytes, c: Cell, span: Span, m: nat)
    requires Held(v, c, span) && m <= |b| == |v.b| && b[..m] == v.b[..m] && span.hi <= v.base + m
    ensures Held(v.(b := b), c, span)
  {
    hide ValueOf;
    assert b[c.str..c.str + c.len] == b[..m][c.str..c.str + c.len] == v.b[c.str..c.str + c.len];
  }

  /** A change to the buffer past all stored cells keeps them. */
  lemma RowHeldFrame(v: View, b: bytes, row: seq<Span>, m: nat)
    requires RowHeld(v, row) && m <= |b| == |v.b| && b[..m] == v.b[..m]
    requires forall k :: 0 <= k < |row| ==> row[k].hi <= v.base + m
    ensures RowHeld(v.(b := b), row)
  {
    hide Held;
    forall k | 0 <= k < v.used ensures Held(v.(b := b), v.cells[k], row[k]) {
      assert Held(v, v.cells[k], row[k]);
      HeldFrame(v, b, v.cells[k], row[k], m);
    }
  }

  /** The view once `c` has been appended to the row, unless the row is full. */
  function Stored(v: View, c: Cell): View
    requires v.used <= |v.cells|
  {
    if v.used < |v.cells| then v.(cells := v.cells[v.used := c], used := v.used + 1) else v
  }

  lemma RowHeldSnoc(v: View, row: seq<Span>, c: Cell, span: Span)
    requires RowHeld(v, row) && Held(v, c, span)
    ensures RowHeld(Stored(v, c), row + [span])
  {
    var v' := Stored(v, c);
    forall k | 0 <= k < v'.used ensures Held(v', v'.cells[k], (row + [span])[k]) {
      if k < |row| {
        assert Held(v, v.cells[k], row[k]);
      }
    }
  }

  lemma EventsSnoc(e: Engine, d: Dialect, s: bytes, rows: seq<seq<Span>>, row: seq<Span>, limit: nat)
    ensures Events(e, d, s, rows + [row], limit) == Events(e, d, s, rows, limit) + [EventOf(e, d, s, row, limit)]
  {
    assert (rows + [row])[..|rows|] == rows;
  }

  /** Storing the cell that ends the row so far, after its bytes were rewritten in place. */
  lemma StoreInPlace(v: View, b: bytes, row: seq<Span>, lo: nat, span: Span, c: Cell)
    requires RowHeld(v, row) && Chained(row, lo, span.lo)
    requires v.base <= span.lo <= span.hi <= |v.s| && span.hi <= v.base + |v.b|
    requires Within(v.b, b, span.lo - v.base, span.hi - span.lo)
    requires span.lo <= v.base + c.str && v.base + c.str + c.len <= span.hi
    requires Content(b, c) == ValueOf(v.e, v.d, v.s, span)
    ensures RowHeld(Stored(v.(b := b), c), row + [span])
  {
    hide ValueOf;
    forall k | 0 <= k < |row| ensures row[k].hi <= span.lo {
      ChainedBefore(row, lo, span.lo, k);
    }
    RowHeldFrame(v, b, row, span.lo - v.base);
    RowHeldSnoc(v.(b := b), row, c, span);
  }

  // ---------------------------------------------------------------------------------------
  // The object
  // ---------------------------------------------------------------------------------------

  function Pred(n: nat): nat {
    if n == 0 then 0 else n - 1
  }

  /** The flags the compat engine keeps after a byte, once it has looked at the next one. */
  function Ahead(d: Dialect, q: Quoting, k: nat, next: byte): Quoting {
    if q.mode != Pending then q
    else if d.IsQuote(next) then Feed(d, q, k, next)
    else Settle(q, k)
  }

  /** The registers the pull parser saves when it suspends inside a scan. */
  datatype Registers =
    Registers(location: nat, i: nat, chunkEnd: nat, bytesRead: nat, skip: bool, mask: Word, maskStart: nat)

  datatype Status = Ok | RowReady | NoMoreInput | Truncated | Nonstandard | Cancelled

  class Scanner {
    const e: Engine
    const d: Dialect
    const pull: bool
    const buff: array<byte>
    const cells: array<Cell>
    var used: nat
    var last: byte
    var cellStart: nat
    var rowStart: nat
    var quoted: Flags
    var closeAt: nat
    var scanned: nat
    var cumScanned: nat
    var partial: nat
    var oldBytesRead: nat
    var pullNow: bool
    var pullUsed: nat
    var regs: Registers
    var abort: bool
    var log: seq<RowEvent>       // the rows handed to the row handler
    ghost var stream: bytes      // every byte received so far
    ghost var base: nat          // the stream position of the buffer's first byte

    constructor (e: Engine, d: Dialect, pull: bool, bufferSize: nat, maxColumns: nat)
      requires d.Valid()
      ensures this.e == e && this.d == d && this.pull == pull
      ensures buff.Length == bufferSize && cells.Length == maxColumns && fresh(buff) && fresh(cells)
      ensures used == cellStart == rowStart == pullUsed == 0
      ensures scanned == cumScanned == partial == oldBytesRead == 0
      ensures quoted == NONE && closeAt == 0 && !pullNow && !abort && regs.location == 0 && log == []
      ensures stream == [] && base == 0
    {
      this.e, this.d, this.pull := e, d, pull;
      buff, cells := new byte[bufferSize], new Cell[maxColumns];
      used, cellStart, rowStart, pullUsed := 0, 0, 0, 0;
      scanned, cumScanned, partial, oldBytesRead := 0, 0, 0, 0;
      last, quoted, closeAt, pullNow, abort := 0, NONE, 0, false, false;
      regs := Registers(0, 0, 0, 0, false, [], 0);
      log, stream, base := [], [], 0;
    }

    ghost function V(): View
      reads `stream, `base, `used, buff, cells
    {
      View(e, d, stream, base, buff[..], cells[..], used)
    }

    /** The reference state once the buffer's first `p` bytes are read. */
    ghost function St(p: nat): State
      reads `stream, `base
      requires base + p <= |stream|
    {
      Run(d, stream, base + p)
    }

    /** Flags and closing-quote position say what the reference knows of the current cell. */
    ghost predicate Flagged(q: Quoting)
      reads `quoted, `closeAt
    {
      quoted == FlagsFor(q) && (quoted != NONE ==> closeAt == q.close)
    }

    /** Counters that are fixed during a scan. */
    ghost predicate Placed(end: nat)
      reads `stream, `base, `cumScanned
    {
      && d.Valid() && base + end == |stream| && end <= buff.Length
      && cumScanned == base
    }

    /** All buffer bytes before `p`, and none after, have been taken account of. */
    ghost predicate At(p: nat, end: nat)
      reads `stream, `base, `cumScanned, `last, `used, `cellStart, `rowStart, `log, buff, cells
    {
      && Placed(end) && rowStart <= cellStart <= p <= end && used <= cells.Length
      && (p == 0 ==> last == St(p).prev)
      && cellStart + base == St(p).cellAt && rowStart + base == St(p).rowAt
      && Loaded(V(), Pred(cellStart), end)
      && RowHeld(V(), St(p).row)
      && log == Events(e, d, stream, St(p).rows, cells.Length)
    }

    /**
     The compat engine is about to look at buffer byte `i`: its flags already take that byte
     into account where it decides a pending quote, and `skip` marks the second quote of a pair.
     */
    ghost predicate Ready(i: nat, end: nat, skip: bool)
      reads `stream, `base, `quoted, `closeAt
      requires i <= end && base + end <= |stream|
    {
      var st := St(i);
      if i == end then !skip && Flagged(st.q)
      else
        && skip == (st.q.mode == Pending && d.IsQuote(stream[base + i]))
        && Flagged(Ahead(d, st.q, st.Offset(), stream[base + i]))
    }

    /** Append to the row's cells, unless there are as many as a row may have. */
    method StoreCell(c: Cell)
      requires used <= cells.Length
      modifies `used, cells
      ensures V() == Stored(old(V()), c) && used <= cells.Length
    {
      if used < cells.Length {
        cells[used] := c;
        used := used + 1;
      }
    }

    /** The flags stored with a cell whose content is the `n` bytes at `s`. */
    method CellFlags(s: nat, n: nat, ghost raw: bytes) returns (flags: Flags)
      requires s + n <= buff.Length
      requires Describes(d, raw, quoted, closeAt) && Part(buff[..], s, n) == Norm(d, raw)
      ensures flags == FlagsOf(d, raw)
    {
      DescribesMeaning(d, raw, quoted, closeAt);
      hide Norm, Final, Scan, Part;
      flags := quoted;
      if flags == NONE && d.delim != 44 {
        var comma := MemChr(buff, s, n, 44);
        if comma {
          flags := Flags(false, false, true, false, false);
        }
      }
      if d.noQuotes {
        flags := Flags(true, false, false, false, false);
      }
    }

    /** `row_dl`: hand the row to the row handler. A pull parser's handler only asks to suspend. */
    method RowDl()
      requires used <= cells.Length && rowStart <= scanned
      modifies `log, `used, `pullNow, `pullUsed
      ensures log == old(log) + [RowEvent(Contents(buff[..], cells[..], old(used)),
                                          cumScanned + rowStart, cumScanned + scanned)]
      ensures used == 0 && pullNow == (pull || old(pullNow)) && (pull ==> pullUsed == old(used))
    {
      hide Contents;
      var end := cumScanned + scanned; // as zsv_cum_scanned_length() has it
      var length := scanned - rowStart; // as zsv_row_length_raw_bytes() has it
      log := log + [RowEvent(Contents(buff[..], cells[..], used), end - length, end)];
      if pull {
        pullNow, pullUsed := true, used;
      }
      used := 0;
    }

    /** The rest of a row end: the next row starts after buffer byte `i`. */
    method FinishRow(i: nat)
      modifies `used, `cellStart, `rowStart
      ensures used == 0 && cellStart == rowStart == i + 1
    {
      used := 0;
      cellStart, rowStart := i + 1, i + 1;
    }

    /** `cell_and_row_dl` of the compat engine. */
    method CellAndRowDl(i: nat, ghost end: nat, ghost st: State)
      requires e == Compat && InStep(V(), st, cellStart, i, end)
      requires Describes(d, Slice(stream, Span(base + cellStart, base + i)), quoted, closeAt)
      requires cumScanned == base && st.rowAt == base + rowStart && rowStart <= scanned == i
      modifies `used, `quoted, `log, `pullNow, `pullUsed, buff, cells
      ensures Loaded(V(), i, end) && quoted == NONE
      ensures log == old(log) + [EventOf(e, d, stream, st.row + [Span(st.cellAt, base + i)], cells.Length)]
      ensures used == 0 && pullNow == (pull || old(pullNow))
      ensures pull ==> pullUsed <= cells.Length && Contents(buff[..], cells[..], pullUsed) == log[|log| - 1].cells
    {
      hide ValueOf, FlagsOf, Describes, RowHeld, Within, Loaded, InStep, Slice, Norm, Final, Scan, Contents, EventOf;
      RowAtChain(V(), st, cellStart, i, end);
      CellDl(i, end, st);
      ghost var v := V();
      EventHeld(v, st.row + [Span(st.cellAt, base + i)]);
      RowDl();
      LoadedUsed(v, 0, i, end);
    }

    lemma AtInStep(i: nat, end: nat)
      requires At(i, end)
      ensures InStep(V(), St(i), cellStart, i, end)
    {
      hide ValueOf, Run, RowHeld, Chained, Events, Loaded;
      RunChained(d, stream, base + i);
    }

    /** The first half of `cell_dl`: the cell that ends at `i`, unquoted in the buffer. */
    method UnquoteCell(i: nat, ghost end: nat, ghost st: State) returns (c: Cell)
      requires e == Compat && InStep(V(), st, cellStart, i, end)
      requires Describes(d, Slice(stream, Span(base + cellStart, base + i)), quoted, closeAt)
      modifies buff
      ensures CellMade(old(V()), buff[..], cellStart, i, c)
    {
      hide ValueOf, FlagsOf, Describes, RowHeld, Within, Loaded, InStep, CellMade, Slice, Norm,
           Part, Final, Scan, Content;
      ghost var v, raw := V(), Slice(stream, Span(base + cellStart, base + i));
      InStepCell(v, st, cellStart, i, end);
      var s, n := Unquote(d, buff, cellStart, i - cellStart, quoted, closeAt);
      var flags := CellFlags(s, n, raw);
      c := Cell(s, n, flags);
      CellMadeFrom(v, buff[..], cellStart, i, c, raw);
    }

    /** `cell_dl`: unquote the cell that ends at `i` and store it in the row. */
    method CellDl(i: nat, ghost end: nat, ghost st: State)
      requires e == Compat && InStep(V(), st, cellStart, i, end)
      requires Describes(d, Slice(stream, Span(base + cellStart, base + i)), quoted, closeAt)
      modifies `used, `quoted, buff, cells
      ensures Loaded(V(), i, end)
      ensures RowHeld(V(), st.row + [Span(st.cellAt, base + i)])
      ensures quoted == NONE && used <= cells.Length
    {
      hide ValueOf, FlagsOf, Describes, RowHeld, Within, Loaded, InStep, CellMade, Slice, Norm,
           Part, Final, Scan, Content, Stored;
      ghost var v := V();
      InStepCell(v, st, cellStart, i, end);
      var c := UnquoteCell(i, end, st);
      CellDlEffect(v, st, cellStart, i, end, buff[..], c);
      StoreCell(c);
      quoted := NONE;
    }
  }

  /** The event of the row held in the view. */
  lemma EventHeld(v: View, row: seq<Span>)
    requires RowHeld(v, row) && row != []
    ensures v.used <= |v.cells|
    ensures EventOf(v.e, v.d, v.s, row, |v.cells|) ==
            RowEvent(Contents(v.b, v.cells, v.used), row[0].lo, row[|row| - 1].hi)
  {
    hide ValueOf, Contents, Values, Held;
    ContentsHeld(v, row, v.used);
  }

  // ---------------------------------------------------------------------------------------
  // Facts about views the methods rely on
  // ---------------------------------------------------------------------------------------

  /** The view is in step with the reference state `st`, reached after buffer byte `p`. */
  ghost predicate InStep(v: View, st: State, cellStart: nat, p: nat, end: nat) {
    && v.base + end == |v.s| && cellStart <= p <= end <= |v.b| && v.used <= |v.cells|
    && st.cellAt == v.base + cellStart
    && Chained(st.row, st.rowAt, st.cellAt)
    && Loaded(v, Pred(cellStart), end)
    && RowHeld(v, st.row)
  }

  /** Rewriting the buffer to `b` has made `c` the cell from `cellStart` to `i`, within that cell. */
  ghost predicate CellMade(v: View, b: bytes, cellStart: nat, i: nat, c: Cell) {
    && cellStart <= c.str && c.str + c.len <= i
    && Within(v.b, b, cellStart, i - cellStart)
    && Content(b, c) == ValueOf(v.e, v.d, v.s, Span(v.base + cellStart, v.base + i))
  }

  lemma CellMadeFrom(v: View, b: bytes, cellStart: nat, i: nat, c: Cell, raw: bytes)
    requires v.e == Compat && cellStart <= c.str && c.str + c.len <= i
    requires Within(v.b, b, cellStart, i - cellStart)
    requires raw == Slice(v.s, Span(v.base + cellStart, v.base + i))
    requires c.str + c.len <= |b| && Part(b, c.str, c.len) == Norm(v.d, raw) && c.quoted == FlagsOf(v.d, raw)
    ensures CellMade(v, b, cellStart, i, c)
  {
    hide Norm, FlagsOf, Slice;
  }

  lemma RowAtChain(v: View, st: State, cellStart: nat, p: nat, end: nat)
    requires InStep(v, st, cellStart, p, end)
    ensures (st.row + [Span(st.cellAt, v.base + p)])[0].lo == st.rowAt
  {
    hide RowHeld, Loaded;
  }

  lemma LoadedUsed(v: View, used: nat, from: nat, end: nat)
    requires Loaded(v, from, end)
    ensures Loaded(v.(used := used), from, end)
  {
  }

  lemma InStepCell(v: View, st: State, cellStart: nat, i: nat, end: nat)
    requires InStep(v, st, cellStart, i, end)
    ensures cellStart <= i <= |v.b| && v.used <= |v.cells| && st.cellAt == v.base + cellStart
    ensures Part(v.b, cellStart, i - cellStart) == Slice(v.s, Span(v.base + cellStart, v.base + i))
  {
    LoadedSlice(v, Pred(cellStart), end, cellStart, i);
  }

  lemma CellDlEffect(v: View, st: State, cellStart: nat, i: nat, end: nat, b: bytes, c: Cell)
    requires InStep(v, st, cellStart, i, end) && CellMade(v, b, cellStart, i, c)
    ensures v.used <= |v.cells|
    ensures var v' := Stored(v.(b := b), c);
      Loaded(v', i, end) && RowHeld(v', st.row + [Span(st.cellAt, v.base + i)])
  {
    hide ValueOf, Slice, RowHeld, Chained, Loaded;
    StoreInPlace(v, b, st.row, st.rowAt, Span(st.cellAt, v.base + i), c);
    LoadedAfter(v, b, cellStart, i, end, c);
  }

  lemma LoadedSlice(v: View, from: nat, end: nat, lo: nat, hi: nat)
    requires Loaded(v, from, end) && from <= lo <= hi <= end
    ensures Part(v.b, lo, hi - lo) == Slice(v.s, Span(v.base + lo, v.base + hi))
  {
    var x, y := Part(v.b, lo, hi - lo), v.s[v.base + lo..v.base + hi];
    forall k | 0 <= k < hi - lo ensures x[k] == y[k] {
      assert v.b[lo + k] == v.s[v.base + lo + k];
    }
  }

  /** Rewriting a cell in place leaves all bytes after it as loaded. */
  lemma LoadedAfter(v: View, b: bytes, lo: nat, hi: nat, end: nat, c: Cell)
    requires Loaded(v, Pred(lo), end) && lo <= hi <= end && Within(v.b, b, lo, hi - lo) && v.used <= |v.cells|
    ensures Loaded(Stored(v.(b := b), c), hi, end)
  {
    forall j | hi <= j < end ensures b[j] == v.s[v.base + j] {
      assert b[j] == b[hi..][j - hi] == v.b[hi..][j - hi] == v.b[j];
    }
  }
}
