/** Feeding a scanner: push parsing in chunks, and pull parsing row by row. */
module Parser {
  import opened Csv
  import opened CsvFacts
  import opened CellUnquote
  import opened Memory
  import opened Scanner
  import opened CompatLoop
  import opened FastFacts
  import opened FastScan
  import opened Buffer
  import opened Fits

  // ---------------------------------------------------------------------------------------
  // States between calls
  // ---------------------------------------------------------------------------------------

  /** The quoting state an engine keeps at buffer byte `p`. */
  ghost predicate Quoted(z: Scanner, p: nat)
    reads z`stream, z`base, z`quoted, z`closeAt
    requires z.base + p <= |z.stream|
  {
    QuotedAt(z.e, z.d, z.stream, z.base + p, z.quoted, z.closeAt)
  }

  ghost predicate QuotedAt(e: Engine, d: Dialect, s: bytes, p: nat, quoted: Flags, close: nat)
    requires p <= |s|
  {
    match e
    case Compat =>
      var q := Run(d, s, p).q;
      quoted == FlagsFor(q) && (quoted != NONE ==> close == q.close)
    case Fast => Clean(d, s, p) && quoted == Flags(OddQuotes(d, s, p), false, false, false, false)
  }

  /** Everything received has been scanned; nothing has been moved yet. */
  ghost predicate Idle(z: Scanner)
    reads z`stream, z`base, z`cumScanned, z`last, z`used, z`cellStart, z`rowStart, z`log, z`quoted, z`closeAt,
          z`partial, z`oldBytesRead, z`scanned, z.buff, z.cells
  {
    && z.At(z.oldBytesRead, z.oldBytesRead) && Quoted(z, z.oldBytesRead)
    && z.oldBytesRead > 0 && z.scanned == z.oldBytesRead && z.partial == 0
  }

  /** A parser that has received nothing. */
  ghost predicate Fresh(z: Scanner)
    reads z`stream, z`base, z`cumScanned, z`used, z`cellStart, z`rowStart, z`log, z`quoted,
          z`partial, z`oldBytesRead, z`scanned
  {
    && z.d.Valid() && z.stream == [] && z.base == 0 && z.cumScanned == 0 && z.used == 0
    && z.cellStart == z.rowStart == 0 && z.log == [] && z.quoted == NONE
    && z.partial == z.oldBytesRead == z.scanned == 0
  }

  ghost predicate Between(z: Scanner)
    reads z`stream, z`base, z`cumScanned, z`last, z`used, z`cellStart, z`rowStart, z`log, z`quoted, z`closeAt,
          z`partial, z`oldBytesRead, z`scanned, z.buff, z.cells
  {
    Fresh(z) || Idle(z)
  }

  /** The partial row is at the front of the buffer, with room for more bytes after it. */
  ghost predicate Shifted(z: Scanner)
    reads z`stream, z`base, z`cumScanned, z`last, z`used, z`cellStart, z`rowStart, z`log, z`quoted, z`closeAt,
          z`partial, z`oldBytesRead, z.buff, z.cells
  {
    && z.At(z.partial, z.partial) && Quoted(z, z.partial) && z.oldBytesRead == 0
    && z.rowStart == 0
  }

  // ---------------------------------------------------------------------------------------
  // scanner_pre_parse
  // ---------------------------------------------------------------------------------------

  /** What the shift has to know: the partial row lies in the buffer from `rowStart` on. */
  lemma PartialRow(z: Scanner)
    requires Idle(z)
    ensures z.rowStart <= z.cellStart <= z.oldBytesRead <= z.buff.Length && z.used <= z.cells.Length
    ensures forall k :: 0 <= k < z.used ==> z.rowStart <= z.cells[k].str
    ensures z.rowStart == z.oldBytesRead ==> z.used == 0 && z.quoted == NONE
    ensures z.buff.Length > 0
    ensures z.buff[z.oldBytesRead - 1] == z.St(z.oldBytesRead).prev
  {
    hide Events, Run, Loaded, Held, Clean;
    var st := z.St(z.oldBytesRead);
    RunChained(z.d, z.stream, z.base + z.oldBytesRead);
    forall k | 0 <= k < z.used ensures z.rowStart <= z.cells[k].str {
      ChainedBefore(st.row, st.rowAt, st.cellAt, k);
      assert Held(z.V(), z.V().cells[k], st.row[k]);
      HeldRange(z.V(), z.cells[k], st.row[k]);
    }
    if z.rowStart == z.oldBytesRead {
      RowJustEnded(z);
    }
    LastByte(z);
  }

  lemma RowJustEnded(z: Scanner)
    requires Idle(z) && z.rowStart == z.oldBytesRead
    ensures z.St(z.oldBytesRead).row == [] && z.quoted == NONE
  {
    hide Events, Loaded, Held, RowHeld;
    RunWf(z.d, z.stream, z.base + z.oldBytesRead);
    var st := z.St(z.oldBytesRead);
    if st.row != [] {
      ChainedBefore(st.row, st.rowAt, st.cellAt, 0);
    }
    if z.e == Fast {
      OpenIsOdd(z.d, z.stream, z.base + z.oldBytesRead);
    }
  }

  lemma LastByte(z: Scanner)
    requires Idle(z)
    ensures z.buff.Length > 0 && z.buff[z.oldBytesRead - 1] == z.St(z.oldBytesRead).prev
  {
    hide Events, Run, RowHeld, Chained, Clean;
    RunPrev(z.d, z.stream, z.base + z.oldBytesRead);
    var b := z.buff[..];
    assert z.V().b[z.oldBytesRead - 1] == b[z.oldBytesRead - 1];
  }

  /** What the shifted memory holds, before any field says so. */
  lemma ShiftedMemory(z: Scanner)
    requires Idle(z)
    ensures var shift, len, st := z.rowStart, z.oldBytesRead - z.rowStart, z.St(z.oldBytesRead);
      && z.rowStart <= z.cellStart <= z.oldBytesRead <= z.buff.Length && z.used <= z.cells.Length
      && RowHeld(MovedView(z.V(), shift, len), st.row)
      && Loaded(MovedView(z.V(), shift, len), Pred(z.cellStart - shift), len)
      && MovedView(z.V(), shift, len) == View(z.e, z.d, z.stream, z.base + shift,
                                              Moved(z.buff[..], 0, shift, len),
                                              Rebased(z.cells[..], z.used, shift), z.used)
  {
    hide Events, Run, Loaded, RowHeld, Rebased, Moved, QuotedAt;
    ghost var v, st, shift, end := z.V(), z.St(z.oldBytesRead), z.rowStart, z.oldBytesRead;
    RunChained(z.d, z.stream, z.base + end);
    RowHeldMoved(v, shift, end - shift, st.row, st.cellAt);
    LoadedMoved(v, shift, end - shift, z.cellStart - shift);
  }

  /** The bytes of the partial row go to the front, and its cells' pointers with them. */
  method MoveMemory(z: Scanner, shift: nat, len: nat)
    requires shift + len <= z.buff.Length && z.used <= z.cells.Length
    requires forall k :: 0 <= k < z.used ==> shift <= z.cells[k].str
    modifies z.buff, z.cells
    ensures z.buff[..] == Moved(old(z.buff[..]), 0, shift, len)
    ensures z.cells[..] == Rebased(old(z.cells[..]), z.used, shift)
  {
    hide Rebased, Moved;
    MemMove(z.buff, 0, shift, len);
    RebaseCells(z.cells, z.used, shift);
  }

  /**
   Move the partial row to the front and let the row's cells follow. The original's separate
   case for a row that has just ended is this one with nothing to move.
   */
  method ShiftRow(z: Scanner)
    requires Idle(z)
    modifies z`partial, z`cellStart, z`rowStart, z`oldBytesRead, z`base, z`cumScanned, z`last, z.buff, z.cells
    ensures Shifted(z)
    ensures z.partial == old(z.oldBytesRead - z.rowStart)
  {
    hide Events, Run, Loaded, RowHeld, Rebased, Moved, QuotedAt;
    PartialRow(z);
    ShiftedMemory(z);
    z.last := z.buff[z.oldBytesRead - 1];
    var len := z.oldBytesRead - z.rowStart;
    MoveMemory(z, z.rowStart, len);
    z.partial := len;
    z.cellStart := z.cellStart - z.rowStart;
    z.base := z.base + z.rowStart;
    z.rowStart, z.oldBytesRead := 0, 0;
    z.cumScanned := z.cumScanned + z.scanned - z.partial;
  }

  /** `scanner_pre_parse`: afterwards `capacity` bytes fit behind the partial row. */
  method PreParse(z: Scanner) returns (capacity: nat)
    requires Between(z)
    modifies z`partial, z`cellStart, z`rowStart, z`oldBytesRead, z`base, z`cumScanned, z`last, z.buff, z.cells
    ensures Shifted(z) && capacity == z.buff.Length - z.partial
  {
    hide Run, Events, Loaded, RowHeld, QuotedAt;
    if z.oldBytesRead > 0 {
      ShiftRow(z);
    } else {
      z.last := 0;
      FreshIsShifted(z);
    }
    capacity := z.buff.Length - z.partial;
  }

  lemma FreshIsShifted(z: Scanner)
    requires Fresh(z) && z.last == 0
    ensures Shifted(z)
  {
  }

  // ---------------------------------------------------------------------------------------
  // Receiving
  // ---------------------------------------------------------------------------------------

  /** Ready to scan `n` new bytes. */
  ghost predicate Filled(z: Scanner, n: nat)
    reads z`stream, z`base, z`cumScanned, z`last, z`used, z`cellStart, z`rowStart, z`log, z`quoted, z`closeAt,
          z`partial, z`oldBytesRead, z.buff, z.cells
  {
    n > 0 && z.At(z.partial, z.partial + n) && Quoted(z, z.partial)
  }

  /** Copy new bytes into the buffer, after the partial row. */
  method Receive(z: Scanner, chunk: bytes)
    requires Shifted(z) && 0 < |chunk| <= z.buff.Length - z.partial
    modifies z`stream, z.buff
    ensures Filled(z, |chunk|) && z.stream == old(z.stream) + chunk
    ensures old(Fitting(z)) ==> Fitting(z)
  {
    hide Run, Events, Loaded, RowHeld, QuotedAt, Crowded;
    ghost var v := z.V();
    StillFitting(z, chunk);
    ReceivedFacts(z, chunk);
    MemCpy(z.buff, z.partial, chunk);
    z.stream := z.stream + chunk;
  }

  lemma StillFitting(z: Scanner, chunk: bytes)
    requires Shifted(z) && |chunk| <= z.buff.Length - z.partial
    ensures Fitting(z) ==> FitsTo(z.d, z.stream + chunk, z.buff.Length, |z.stream + chunk|)
  {
    hide Run, Events, Loaded, RowHeld, QuotedAt, Crowded;
    if Fitting(z) {
      FitsMore(z.d, z.stream, chunk, z.buff.Length);
    }
  }

  /** What the longer stream and the filled buffer hold, before any field says so. */
  lemma ReceivedFacts(z: Scanner, chunk: bytes)
    requires Shifted(z) && |chunk| <= z.buff.Length - z.partial
    ensures var s, p, v := z.stream + chunk, z.base + z.partial, z.V();
      var v' := v.(s := s, b := Overlaid(v.b, z.partial, chunk));
      && p == |z.stream|
      && Run(z.d, s, p) == Run(z.d, z.stream, p)
      && Events(z.e, z.d, s, Run(z.d, s, p).rows, z.cells.Length) == z.log
      && RowHeld(v', Run(z.d, s, p).row)
      && Loaded(v', Pred(z.cellStart), z.partial + |chunk|)
      && QuotedAt(z.e, z.d, s, p, z.quoted, z.closeAt)
      && v' == View(z.e, z.d, s, z.base, Overlaid(z.buff[..], z.partial, chunk), z.cells[..], z.used)
  {
    hide Run, Events, Loaded, RowHeld, QuotedAt, Overlaid;
    StreamGrows(z.e, z.d, z.stream, chunk, z.cells.Length);
    QuotedGrows(z.e, z.d, z.stream, chunk, z.quoted, z.closeAt);
    RunChained(z.d, z.stream, z.base + z.partial);
    RowHeldReceived(z.V(), chunk, z.St(z.partial), z.partial);
    LoadedReceived(z.V(), Pred(z.cellStart), z.partial, chunk);
  }

  lemma RowHeldReceived(v: View, chunk: bytes, st: State, p: nat)
    requires RowHeld(v, st.row) && Chained(st.row, st.rowAt, st.cellAt) && st.cellAt <= v.base + p
    requires p + |chunk| <= |v.b|
    ensures RowHeld(v.(s := v.s + chunk, b := Overlaid(v.b, p, chunk)), st.row)
  {
    hide RowHeld, Chained;
    RowHeldGrows(v, chunk, st.row);
    forall k | 0 <= k < |st.row| ensures st.row[k].hi <= v.base + p {
      ChainedBefore(st.row, st.rowAt, st.cellAt, k);
    }
    assert Overlaid(v.b, p, chunk)[..p] == v.b[..p];
    RowHeldFrame(v.(s := v.s + chunk), Overlaid(v.b, p, chunk), st.row, p);
  }

  lemma LoadedReceived(v: View, from: nat, p: nat, chunk: bytes)
    requires Loaded(v, from, p) && v.base + p == |v.s| && p + |chunk| <= |v.b|
    ensures Loaded(v.(s := v.s + chunk, b := Overlaid(v.b, p, chunk)), from, p + |chunk|)
  {
  }

  lemma QuotedGrows(e: Engine, d: Dialect, s: bytes, t: bytes, quoted: Flags, close: nat)
    requires d.Valid() && QuotedAt(e, d, s, |s|, quoted, close)
    ensures QuotedAt(e, d, s + t, |s|, quoted, close)
  {
    hide Run;
    RunPrefix(d, s, s + t, |s|);
    if e == Fast {
      forall j | 0 <= j < |s| ensures !Literal(d, s + t, j) {
        RunPrefix(d, s, s + t, j);
        assert !Literal(d, s, j);
      }
      OddGrows(d, s, t, |s|);
    }
  }

  lemma {:induction false} OddGrows(d: Dialect, s: bytes, t: bytes, p: nat)
    requires p <= |s|
    ensures OddQuotes(d, s + t, p) == OddQuotes(d, s, p)
  {
    if p > 0 {
      OddGrows(d, s, t, p - 1);
    }
  }

  // ---------------------------------------------------------------------------------------
  // Push parsing
  // ---------------------------------------------------------------------------------------

  /** No row received so far, but possibly the unfinished one, fills the buffer. */
  ghost predicate Fitting(z: Scanner)
    reads z`stream
  {
    FitsTo(z.d, z.stream, z.buff.Length, |z.stream|)
  }

  /** A push parser between calls: nothing is suspended. */
  ghost predicate Pushing(z: Scanner)
    reads z`stream, z`base, z`cumScanned, z`last, z`used, z`cellStart, z`rowStart, z`log, z`quoted, z`closeAt,
          z`partial, z`oldBytesRead, z`scanned, z`regs, z`pullNow, z.buff, z.cells
  {
    Between(z) && Fitting(z) && z.regs.location == 0 && (z.e == Compat ==> !z.pullNow)
  }

  /** The rows handed over so far are exactly those whose end lies in the stream. */
  lemma DeliveredAll(z: Scanner)
    requires Between(z)
    ensures z.d.Valid() && z.log == Events(z.e, z.d, z.stream, Rows(z.d, z.stream), z.cells.Length)
    ensures z.e == Fast ==> Clean(z.d, z.stream, |z.stream|)
  {
    hide Loaded, RowHeld;
  }

  lemma FilledCompat(z: Scanner, n: nat)
    requires Filled(z, n) && z.e == Compat
    ensures Primed(z, n)
  {
    hide Run, Events, Loaded, RowHeld;
  }

  lemma FilledFast(z: Scanner, n: nat)
    requires Filled(z, n) && z.e == Fast
    ensures FastPrimed(z, n)
  {
    hide Run, Events, Loaded, RowHeld, Clean, OddQuotes;
  }

  lemma ScannedIsIdle(z: Scanner)
    requires (z.e == Compat && Scanned(z)) || (z.e == Fast && FastScanned(z))
    ensures Idle(z)
  {
    hide Run, Events, Loaded, RowHeld, Clean, OddQuotes;
  }

  /** `zsv_scan`: the engine is chosen by the parser's mode. */
  method ScanChunk(z: Scanner, n: nat, v: nat) returns (stat: Status)
    requires v > 0 && Filled(z, n) && z.regs.location == 0
    requires if z.e == Compat then !z.pullNow else !z.pull
    modifies z`scanned, z`used, z`quoted, z`closeAt, z`cellStart, z`rowStart, z`log,
             z`pullNow, z`pullUsed, z`regs, z`oldBytesRead, z`partial, z`abort, z.buff, z.cells
    ensures stat in {Ok, RowReady, Status.Nonstandard}
    ensures stat == Ok ==>
      Idle(z) && (Fitting(z) ==> Pushing(z)) && z.abort == old(z.abort) && (z.pull ==> z.log == old(z.log))
    ensures stat == RowReady ==> z.pull && z.e == Compat && !z.pullNow && Suspended(z, v) && Yielded(z, old(z.log))
    ensures stat == Status.Nonstandard ==>
      z.e == Fast && z.abort && !Clean(z.d, z.stream, |z.stream|) && RowsOfPrefix(z)
  {
    hide Run, Events, Loaded, RowHeld, Clean, OddQuotes, Idle, Filled, Primed, FastPrimed, Scanned, FastScanned,
      Suspended, Yielded, RowsOfPrefix, Fitting;
    if z.e == Compat {
      FilledCompat(z, n);
      stat := ScanDelim(z, n, v);
    } else {
      FilledFast(z, n);
      stat := ScanFast(z, n);
    }
    if stat == Ok {
      ScannedIsIdle(z);
    }
  }

  /**
   `zsv_parse_bytes`: any number of bytes, in pieces as large as the buffer allows. It stops
   early only if a row fills the whole buffer, or if the fast engine finds literal quotes.
   */
  method ParseBytes(z: Scanner, input: bytes, v: nat) returns (stat: Status)
    requires v > 0 && !z.pull && (!z.abort ==> Pushing(z))
    modifies z`scanned, z`used, z`quoted, z`closeAt, z`cellStart, z`rowStart, z`log,
             z`pullNow, z`pullUsed, z`regs, z`oldBytesRead, z`partial, z`abort, z`base, z`cumScanned, z`last, z`stream,
             z.buff, z.cells
    ensures stat == Cancelled <==> old(z.abort)
    ensures stat == Ok ==> !z.abort && Pushing(z) && z.stream == old(z.stream) + input
    ensures stat == Truncated ==>
      && RowTooLong(z) && z.stream <= old(z.stream) + input && z.stream != old(z.stream) + input
    ensures stat == Status.Nonstandard ==>
      && z.e == Fast && z.abort && z.stream <= old(z.stream) + input
      && Fitting(z) && !Clean(z.d, z.stream, |z.stream|) && RowsOfPrefix(z)
    ensures stat in {Ok, Cancelled, Truncated, Status.Nonstandard}
  {
    hide Run, Events, Loaded, RowHeld, Clean, Between, Shifted, Filled, Idle, RowsOfPrefix, RowTooLong, Crowded;
    if z.abort {
      return Cancelled;
    }
    stat := Ok;
    var cursor := 0;
    PrefixOfSelf(old(z.stream), input);
    while cursor < |input| && stat == Ok
      invariant cursor <= |input| && !z.abort && stat == Ok && Pushing(z)
      invariant z.stream == old(z.stream) + input[..cursor]
      decreases |input| - cursor
    {
      DeliveredAll(z);
      var capacity := PreParse(z);
      if capacity == 0 {
        TooLong(z);
        StreamPrefix(old(z.stream), input, cursor);
        return Truncated;
      }
      var n := if |input| - cursor > capacity then capacity else |input| - cursor;
      var chunk := input[cursor..cursor + n];
      Receive(z, chunk);
      Assoc(old(z.stream), input[..cursor], chunk);
      assert input[..cursor] + chunk == input[..cursor + n];
      cursor := cursor + n;
      StreamPrefix(old(z.stream), input, cursor);
      stat := ScanChunk(z, n, v);
      if stat != Ok {
        return;
      }
    }
    assert input[..cursor] == input;
  }

  /** The row that the stream ends in is the first to fill the buffer; all rows before it have been delivered. */
  ghost predicate RowTooLong(z: Scanner)
    reads z`stream, z`log, z.cells
  {
    && FirstCrowded(z.d, z.stream, z.buff.Length, |z.stream|)
    && z.log == Events(z.e, z.d, z.stream, Rows(z.d, z.stream), z.cells.Length)
    && (z.e == Fast ==> Clean(z.d, z.stream, |z.stream|))
  }

  lemma TooLong(z: Scanner)
    requires Shifted(z) && z.partial == z.buff.Length && Fitting(z)
    requires z.log == Events(z.e, z.d, z.stream, Rows(z.d, z.stream), z.cells.Length)
    requires z.e == Fast ==> Clean(z.d, z.stream, |z.stream|)
    ensures RowTooLong(z)
  {
    hide Run, Events, Loaded, RowHeld, QuotedAt, Clean;
  }

  /** With room left in the buffer, the unfinished row does not fill it. */
  lemma RoomLeft(z: Scanner)
    requires Shifted(z) && z.partial < z.buff.Length
    ensures !Crowded(z.d, z.stream, z.buff.Length, |z.stream|)
  {
    hide Run, Events, Loaded, RowHeld, QuotedAt, Clean;
  }

  lemma PrefixOfSelf(s: bytes, input: bytes)
    ensures s == s + input[..0]
  {
  }

  lemma StreamPrefix(s: bytes, input: bytes, n: nat)
    requires n <= |input|
    ensures s + input[..n] <= s + input
  {
  }
}
