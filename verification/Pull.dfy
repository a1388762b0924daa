/** Pull parsing: one row a call, over a reader that returns as many bytes as it likes. */
module Pull {
  import opened Csv
  import opened CsvFacts
  import opened Scanner
  import opened CompatLoop
  import opened FastFacts
  import opened Buffer
  import opened Fits
  import opened Parser

  /** An input whose reads may be short; an empty read means that the input has ended. */
  class Source {
    var rest: bytes

    constructor (input: bytes)
      ensures rest == input
    {
      rest := input;
    }

    method Read(capacity: nat) returns (chunk: bytes)
      requires capacity > 0
      modifies this
      ensures |chunk| <= capacity && chunk + rest == old(rest) && (chunk == [] <==> old(rest) == [])
    {
      if rest == [] {
        return [];
      }
      var n: nat :| 0 < n <= capacity && n <= |rest|;
      chunk := rest[..n];
      rest := rest[n..];
    }
  }

  datatype PullStatus = Row | Done | TooLong

  /** A pull parser and its input, given the status its last scan returned. */
  ghost predicate Pulling(z: Scanner, src: Source, stat: Status, v: nat, input: bytes)
    reads z`stream, z`base, z`cumScanned, z`last, z`used, z`cellStart, z`rowStart, z`log, z`quoted, z`closeAt,
          z`partial, z`oldBytesRead, z`scanned, z`regs, z`pullNow, z.buff, z.cells, src
  {
    && z.e == Compat && z.pull && !z.pullNow && z.stream + src.rest == input && Fitting(z)
    && match stat
       case Ok => Pushing(z)
       case RowReady => Suspended(z, v)
       case _ => false
  }

  /** `zsv_parse_more`, once past the byte order mark. */
  method ParseMore(z: Scanner, src: Source, v: nat, ghost input: bytes) returns (stat: Status)
    requires v > 0 && Pulling(z, src, Ok, v, input)
    modifies z`scanned, z`used, z`quoted, z`closeAt, z`cellStart, z`rowStart, z`log,
             z`pullNow, z`pullUsed, z`regs, z`oldBytesRead, z`partial, z`abort, z`base, z`cumScanned, z`last, z`stream,
             z.buff, z.cells, src
    ensures stat in {Ok, RowReady, NoMoreInput, Truncated}
    ensures stat in {Ok, RowReady} ==> Pulling(z, src, stat, v, input) && |src.rest| < |old(src.rest)|
    ensures stat == RowReady ==> Yielded(z, old(z.log))
    ensures stat != RowReady ==> z.log == old(z.log)
    ensures stat == NoMoreInput ==>
      && z.stream == input && z.log == Events(Compat, z.d, input, Rows(z.d, input), z.cells.Length)
      && Fitting(z) && !Crowded(z.d, input, z.buff.Length, |input|)
    ensures stat == Truncated ==> RowTooLong(z) && z.stream <= input
  {
    hide Run, Events, Loaded, RowHeld, Between, Shifted, Filled, Suspended, Yielded, RowTooLong, Idle, Rows, Fitting,
      Clean, Crowded;
    DeliveredAll(z);
    var capacity := PreParse(z);
    if capacity == 0 {
      Parser.TooLong(z);
      return Truncated;
    }
    RoomLeft(z);
    var chunk := src.Read(capacity);
    if chunk == [] {
      z.scanned := z.partial;
      return NoMoreInput;
    }
    Assoc(z.stream, chunk, src.rest);
    Receive(z, chunk);
    stat := ScanChunk(z, |chunk|, v);
  }

  /**
   `zsv_next_row`: go on with a suspended scan, or read until a row comes up. The status of
   the last scan is kept by the caller.
   */
  method NextRow(z: Scanner, src: Source, stat0: Status, v: nat, ghost input: bytes)
    returns (r: PullStatus, stat: Status)
    requires v > 0 && Pulling(z, src, stat0, v, input)
    modifies z`scanned, z`used, z`quoted, z`closeAt, z`cellStart, z`rowStart, z`log,
             z`pullNow, z`pullUsed, z`regs, z`oldBytesRead, z`partial, z`abort, z`base, z`cumScanned, z`last, z`stream,
             z.buff, z.cells, src
    ensures r == Row ==> Pulling(z, src, stat, v, input) && stat == RowReady && Yielded(z, old(z.log))
    ensures r != Row ==> z.log == old(z.log)
    ensures r == Done ==>
      && z.stream == input && z.log == Events(Compat, z.d, input, Rows(z.d, input), z.cells.Length)
      && Fitting(z) && !Crowded(z.d, input, z.buff.Length, |input|)
    ensures r == TooLong ==> RowTooLong(z) && z.stream <= input
  {
    hide Run, Events, Loaded, RowHeld, Suspended, Yielded, RowTooLong, Scanned, Idle, Rows, Fresh, Fitting, Crowded;
    stat := stat0;
    if stat == RowReady {
      SuspendedLocation(z, v);
      stat := ScanDelim(z, 0, v);
      if stat == RowReady {
        return Row, stat;
      }
      ScannedIsIdle(z);
    }
    while stat == Ok
      invariant stat in {Ok, RowReady, NoMoreInput, Truncated}
      invariant stat in {Ok, RowReady} ==> Pulling(z, src, stat, v, input)
      invariant stat == RowReady ==> Yielded(z, old(z.log))
      invariant stat != RowReady ==> z.log == old(z.log)
      invariant stat == NoMoreInput ==>
        && z.stream == input && z.log == Events(Compat, z.d, input, Rows(z.d, input), z.cells.Length)
        && Fitting(z) && !Crowded(z.d, input, z.buff.Length, |input|)
      invariant stat == Truncated ==> RowTooLong(z) && z.stream <= input
      decreases if stat == Ok then |src.rest| + 1 else 0
    {
      stat := ParseMore(z, src, v, input);
    }
    return match stat case RowReady => Row case NoMoreInput => Done case _ => TooLong, stat;
  }

  lemma SuspendedLocation(z: Scanner, v: nat)
    requires Suspended(z, v)
    ensures z.regs.location != 0
  {
  }

  // ---------------------------------------------------------------------------------------
  // A whole input
  // ---------------------------------------------------------------------------------------

  function CellsOf(events: seq<RowEvent>): (rows: seq<seq<CellValue>>)
    ensures |rows| == |events|
  {
    seq(|events|, k requires 0 <= k < |events| => events[k].cells)
  }

  lemma {:induction false} EventsCount(e: Engine, d: Dialect, s: bytes, rows: seq<seq<Span>>, limit: nat)
    ensures |Events(e, d, s, rows, limit)| == |rows|
  {
    if rows != [] {
      EventsCount(e, d, s, rows[..|rows| - 1], limit);
    }
  }

  /** A suspended parser has delivered no more rows than the whole input has. */
  lemma DeliveredBound(z: Scanner, src: Source, v: nat, input: bytes)
    requires Pulling(z, src, RowReady, v, input)
    ensures |z.log| <= |Rows(z.d, input)|
  {
    hide Run, Events, Loaded, RowHeld, Masked;
    var p := z.base + z.regs.i + 1;
    EventsCount(z.e, z.d, z.stream, z.St(z.regs.i + 1).rows, z.cells.Length);
    RunPrefix(z.d, z.stream, input, p);
    RowsGrow(z.d, input, p, |input|);
  }

  /** One more row, as read back from the scanner's cells. */
  lemma YieldedCells(z: Scanner, log: seq<RowEvent>)
    requires Yielded(z, log)
    ensures z.used <= z.cells.Length && |z.log| == |log| + 1
    ensures CellsOf(z.log) == CellsOf(log) + [Contents(z.buff[..], z.cells[..], z.used)]
  {
    hide Contents;
    var new', old' := CellsOf(z.log), CellsOf(log);
    forall k | 0 <= k < |log| ensures new'[k] == old'[k] {
      assert z.log[k] == z.log[..|log|][k] == log[k];
    }
  }

  /** A pull parse of `input` that ends early does so at the first byte at which a row fills the buffer. */
  lemma PullStops(z: Scanner, input: bytes)
    requires z.d.Valid() && RowTooLong(z) && z.stream <= input
    ensures FirstCrowded(z.d, input, z.buff.Length, |z.stream|)
    ensures z.log == Events(z.e, z.d, input, Run(z.d, input, |z.stream|).rows, z.cells.Length)
  {
    hide Run, Events, Crowded, Clean;
    var rest := input[|z.stream|..];
    assert z.stream + rest == input;
    FitsPrefix(z.d, z.stream, rest, z.buff.Length, |z.stream|);
    CrowdedPrefix(z.d, z.stream, rest, z.buff.Length, |z.stream|);
    EventsAtGrow(z.e, z.d, z.stream, rest, |z.stream|, z.cells.Length);
  }

  /**
   Calling `zsv_next_row` until it reports no more rows yields, whatever the reads return,
   exactly the rows of the input: those a push parser hands to its row handler. It ends early
   if and only if a row fills the buffer, and then the rows before that one have come.
   */
  method PullAll(z: Scanner, src: Source, v: nat) returns (done: bool, rows: seq<seq<CellValue>>)
    requires v > 0 && z.e == Compat && z.pull && Fresh(z) && z.regs.location == 0 && !z.pullNow
    modifies z, z.buff, z.cells, src
    ensures done ==>
      && rows == CellsOf(Events(Compat, z.d, old(src.rest), Rows(z.d, old(src.rest)), z.cells.Length))
      && FitsTo(z.d, old(src.rest), z.buff.Length, |old(src.rest)|)
      && !Crowded(z.d, old(src.rest), z.buff.Length, |old(src.rest)|)
    ensures !done ==> exists p ::
      && FirstCrowded(z.d, old(src.rest), z.buff.Length, p)
      && rows == CellsOf(Events(Compat, z.d, old(src.rest), Run(z.d, old(src.rest), p).rows, z.cells.Length))
  {
    hide Run, Events, Loaded, RowHeld, Suspended, Yielded, RowTooLong, Idle, Rows, Contents,
         CellsOf, Crowded, FirstCrowded;
    ghost var input := src.rest;
    var stat := Ok;
    rows := [];
    NoEvents();
    done := false;
    var r := Row;
    while r == Row
      invariant z.d.Valid() && (r == Row ==> Pulling(z, src, stat, v, input) && |z.log| <= |Rows(z.d, input)|)
      invariant rows == CellsOf(z.log)
      invariant r == Done ==>
        && z.log == Events(Compat, z.d, input, Rows(z.d, input), z.cells.Length)
        && FitsTo(z.d, input, z.buff.Length, |input|) && !Crowded(z.d, input, z.buff.Length, |input|)
      invariant r == TooLong ==> RowTooLong(z) && z.stream <= input
      decreases r == Row, |Rows(z.d, input)| - |z.log|
    {
      ghost var log := z.log;
      r, stat := NextRow(z, src, stat, v, input);
      if r == Row {
        YieldedCells(z, log);
        DeliveredBound(z, src, v, input);
        rows := rows + [Contents(z.buff[..], z.cells[..], z.used)];
      }
    }
    done := r == Done;
    if !done {
      PullStops(z, input);
    }
  }

  lemma NoEvents()
    ensures CellsOf([]) == []
  {
  }
}
