/** The compat engine: what it does with one byte. */
module CompatScan {
  import opened Csv
  import opened CsvFacts
  import opened CellUnquote
  import opened Scanner

  /** The byte at `i` joins the current cell, so only the quoting changes. */
  lemma AtFeed(z: Scanner, i: nat, end: nat)
    requires z.At(i, end) && i < end
    requires !z.d.IsSeparator(z.stream[z.base + i]) || z.St(i).q.mode == Open
    ensures z.At(i + 1, end)
    ensures z.St(i + 1).q == Feed(z.d, z.St(i).q, z.St(i).Offset(), z.stream[z.base + i])
    ensures z.St(i + 1).cellAt == z.St(i).cellAt && z.St(i).Offset() == i - z.cellStart
    ensures z.St(i + 1).Offset() == i + 1 - z.cellStart
  {
    hide Feed, RowHeld, Loaded, Events, Chained;
    RunChained(z.d, z.stream, z.base + i);
    assert z.St(i + 1) == Step(z.d, z.St(i), z.stream[z.base + i]);
  }

  /** What is known of the current cell's quoting, and of the flags, before byte `i`. */
  lemma QuotingNow(z: Scanner, i: nat, end: nat)
    requires z.At(i, end)
    ensures var q := z.St(i).q;
      && (q.mode == Start <==> i == z.cellStart)
      && (q.mode == Start ==> q == FRESH)
      && (q.mode in {Plain, Open, Pending} ==> q.close == 0)
      && (q.mode == Pending ==> i > z.cellStart)
      && (q.mode == Closed ==> q.close != 0)
  {
    hide Feed, RowHeld, Loaded, Events, CloseAt, Chained;
    RunWf(z.d, z.stream, z.base + i);
    ScanMeaning(z.d, z.stream[z.St(i).cellAt..z.base + i], i - z.cellStart);
  }

  /** The buffer still has byte `i`, and the one before it can be recovered. */
  lemma ByteAt(z: Scanner, i: nat, end: nat)
    requires z.At(i, end) && i < end
    ensures z.buff[i] == z.stream[z.base + i]
    ensures (if i > 0 then z.buff[i - 1] else z.last) == z.St(i).prev
  {
    hide RowHeld, Events, Chained, Run;
    RunPrev(z.d, z.stream, z.base + i);
    var b := z.buff[..];
    assert z.V().b[i] == b[i];
    if i > 0 {
      assert z.V().b[i - 1] == b[i - 1];
    }
  }

  /** The buffer, from `i` on, is the stream. */
  lemma BufferIsStream(z: Scanner, i: nat, end: nat)
    requires z.At(i, end)
    ensures z.base + end <= |z.stream| && end <= |z.buff[..]|
    ensures forall j :: i <= j < end ==> z.buff[..][j] == z.stream[z.base + j]
  {
    hide RowHeld, Events, Chained, Run;
    var b := z.buff[..];
    forall j | i <= j < end ensures b[j] == z.stream[z.base + j] {
      assert z.V().b[j] == b[j];
    }
  }

  /** At a separator outside quotes the flags describe the finished cell. */
  lemma ReadyDescribes(z: Scanner, i: nat, end: nat)
    requires z.At(i, end) && i < end && z.Ready(i, end, false)
    requires z.d.IsSeparator(z.stream[z.base + i]) && z.St(i).q.mode != Open
    ensures Describes(z.d, Slice(z.stream, Span(z.base + z.cellStart, z.base + i)), z.quoted, z.closeAt)
  {
    hide RowHeld, Events, Chained, Run, Loaded, Scan;
    RunQuoting(z.d, z.stream, z.base + i);
    RunChained(z.d, z.stream, z.base + i);
  }

  lemma OpenMeansUnclosed(z: Scanner, i: nat, end: nat)
    requires z.At(i, end) && i < end && z.Ready(i, end, false)
    ensures z.quoted.unclosed <==> z.St(i).q.mode == Open
  {
    hide RowHeld, Events, Chained, Run, Loaded, Scan;
    QuotingNow(z, i, end);
    RunChained(z.d, z.stream, z.base + i);
  }

  // ---------------------------------------------------------------------------------------
  // Separators
  // ---------------------------------------------------------------------------------------

  /** A separator inside quotes. */
  method MarkNeeded(z: Scanner, i: nat, ghost end: nat)
    requires z.At(i, end) && i < end && z.Ready(i, end, false)
    requires z.d.IsSeparator(z.stream[z.base + i]) && z.St(i).q.mode == Open
    modifies z`quoted
    ensures z.At(i + 1, end) && z.Ready(i + 1, end, false)
  {
    hide RowHeld, Events, Chained, Run, Loaded, Scan;
    AtFeed(z, i, end);
    z.quoted := z.quoted.(needed := true);
  }

  /** The delimiter at `i` ends a cell. */
  method CutCell(z: Scanner, i: nat, ghost end: nat)
    requires z.e == Compat && z.At(i, end) && i < end && z.Ready(i, end, false)
    requires z.stream[z.base + i] == z.d.delim && z.St(i).q.mode != Open
    modifies z`scanned, z`used, z`quoted, z`cellStart, z.buff, z.cells
    ensures z.At(i + 1, end) && z.Ready(i + 1, end, false)
  {
    hide RowHeld, Events, Chained, Run, Loaded, Scan, InStep, Describes;
    ghost var st := z.St(i);
    ReadyDescribes(z, i, end);
    z.AtInStep(i, end);
    CutStep(z, i, end);
    z.scanned := i;
    z.CellDl(i, end, st);
    z.cellStart := i + 1;
  }

  lemma CutStep(z: Scanner, i: nat, end: nat)
    requires z.At(i, end) && i < end
    requires z.stream[z.base + i] == z.d.delim && z.St(i).q.mode != Open
    ensures z.St(i + 1) == z.St(i).(pos := z.base + i + 1, prev := z.d.delim, q := FRESH, cellAt := z.base + i + 1,
                                    row := z.St(i).row + [Span(z.St(i).cellAt, z.base + i)])
  {
    hide RowHeld, Events, Chained, Loaded;
    RunChained(z.d, z.stream, z.base + i);
  }

  /** A CR or LF outside quotes, other than the LF of a CR LF, ends a row. */
  ghost predicate EndsRow(z: Scanner, i: nat)
    reads z`stream, z`base
    requires z.base + i < |z.stream|
  {
    var b := z.stream[z.base + i];
    (b == CR || (b == LF && z.St(i).prev != CR)) && z.St(i).q.mode != Open
  }

  /**
   The row that byte `i` ends has been handed over, but the row and cell positions are still
   those from before: the state in which a pull parser suspends.
   */
  ghost predicate Ended(z: Scanner, i: nat, end: nat)
    reads z`stream, z`base, z`cumScanned, z`last, z`used, z`log, z`quoted, z.buff, z.cells
  {
    && z.Placed(end) && i < end && z.quoted == NONE && z.used <= z.cells.Length
    && z.St(i + 1).cellAt == z.St(i + 1).rowAt == z.base + i + 1
    && z.St(i + 1).row == [] && z.St(i + 1).q == FRESH
    && Loaded(z.V(), i, end)
    && z.log == Events(z.e, z.d, z.stream, z.St(i + 1).rows, z.cells.Length)
  }

  /** `Ended`, with exactly one row more in the log; a pull parser can still read that row. */
  ghost predicate HandedOver(z: Scanner, i: nat, end: nat, log: seq<RowEvent>)
    reads z`stream, z`base, z`cumScanned, z`last, z`used, z`log, z`quoted, z`pullUsed, z.buff, z.cells
  {
    && Ended(z, i, end)
    && |z.log| == |log| + 1 && z.log[..|log|] == log
    && (z.pull ==>
      && z.pullUsed <= z.cells.Length
      && Contents(z.buff[..], z.cells[..], z.pullUsed) == z.log[|z.log| - 1].cells)
  }

  lemma RowStep(z: Scanner, i: nat, end: nat)
    requires z.At(i, end) && i < end && EndsRow(z, i)
    ensures var st, row := z.St(i), z.St(i).row + [Span(z.St(i).cellAt, z.base + i)];
      && z.St(i + 1) == State(z.base + i + 1, z.stream[z.base + i], FRESH, z.base + i + 1, z.base + i + 1, [],
                              st.rows + [row])
      && Events(z.e, z.d, z.stream, z.St(i + 1).rows, z.cells.Length)
         == z.log + [EventOf(z.e, z.d, z.stream, row, z.cells.Length)]
  {
    hide RowHeld, Events, Chained, Loaded, EventOf;
    RunChained(z.d, z.stream, z.base + i);
    EventsSnoc(z.e, z.d, z.stream, z.St(i).rows, z.St(i).row + [Span(z.St(i).cellAt, z.base + i)], z.cells.Length);
  }

  /** The row end at `i`. */
  method EndRow(z: Scanner, i: nat, ghost end: nat)
    requires z.e == Compat && z.At(i, end) && i < end && z.Ready(i, end, false) && EndsRow(z, i)
    modifies z`scanned, z`used, z`quoted, z`log, z`pullNow, z`pullUsed, z.buff, z.cells
    ensures HandedOver(z, i, end, old(z.log)) && z.pullNow == (z.pull || old(z.pullNow))
  {
    hide RowHeld, Events, Chained, Run, Loaded, Scan, InStep, Describes, EventOf, Contents;
    ghost var st := z.St(i);
    ReadyDescribes(z, i, end);
    z.AtInStep(i, end);
    RowStep(z, i, end);
    z.scanned := i;
    z.CellAndRowDl(i, end, st);
  }

  /** After a row end: both scanning on and resuming a suspended scan continue here. */
  method AfterRow(z: Scanner, i: nat, ghost end: nat)
    requires Ended(z, i, end)
    modifies z`used, z`cellStart, z`rowStart
    ensures z.At(i + 1, end) && z.Ready(i + 1, end, false)
  {
    hide Held, Events, Chained, Run, Contents;
    z.FinishRow(i);
  }

  /** The LF of a CR LF: the CR has already ended the row. */
  method SwallowLf(z: Scanner, i: nat, ghost end: nat)
    requires z.At(i, end) && i < end && z.Ready(i, end, false)
    requires z.stream[z.base + i] == LF && z.St(i).prev == CR && z.St(i).q.mode != Open
    modifies z`cellStart, z`rowStart
    ensures z.At(i + 1, end) && z.Ready(i + 1, end, false)
  {
    hide RowHeld, Events, Chained, Loaded;
    SwallowStep(z, i, end);
    LoadedFrom(z.V(), Pred(z.cellStart), i, end);
    z.cellStart, z.rowStart := i + 1, i + 1;
  }

  lemma LoadedFrom(v: View, from: nat, from': nat, end: nat)
    requires Loaded(v, from, end) && from <= from'
    ensures Loaded(v, from', end)
  {
  }

  lemma SwallowStep(z: Scanner, i: nat, end: nat)
    requires z.At(i, end) && i < end
    requires z.stream[z.base + i] == LF && z.St(i).prev == CR && z.St(i).q.mode != Open
    ensures z.St(i).q == FRESH && z.cellStart == i
    ensures z.St(i + 1) ==
        z.St(i).(pos := z.base + i + 1, prev := LF, cellAt := z.base + i + 1, rowAt := z.base + i + 1)
  {
    hide RowHeld, Events, Loaded;
    RunWf(z.d, z.stream, z.base + i);
  }

  // ---------------------------------------------------------------------------------------
  // Quotes and ordinary bytes
  // ---------------------------------------------------------------------------------------

  /** A quote inside an open quote: the next byte, if it has arrived, says what it is. */
  method QuoteInside(z: Scanner, i: nat, end: nat) returns (skip: bool)
    requires z.At(i, end) && i < end && z.Ready(i, end, false)
    requires z.d.IsQuote(z.stream[z.base + i]) && z.St(i).q.mode == Open
    modifies z`quoted, z`closeAt
    ensures z.At(i + 1, end) && z.Ready(i + 1, end, skip)
  {
    hide RowHeld, Events, Chained, Run, Loaded, Scan;
    QuotingNow(z, i, end);
    AtFeed(z, i, end);
    skip := false;
    if i + 1 < end {
      ByteAt(z, i + 1, end);
      if !z.d.IsQuote(z.buff[i + 1]) {
        z.quoted := z.quoted.(closed := true, unclosed := false);
        if z.closeAt == 0 {
          z.closeAt := i - z.cellStart;
        }
      } else {
        z.quoted := z.quoted.(needed := true, embedded := true);
        skip := true;
      }
    } else {
      z.quoted := z.quoted.(pending := true);
    }
  }

  /** A quote at `i`; `skip` says that it is the first of two. */
  method Quote(z: Scanner, i: nat, end: nat) returns (skip: bool)
    requires z.At(i, end) && i < end && z.Ready(i, end, false) && z.d.IsQuote(z.stream[z.base + i])
    modifies z`quoted, z`closeAt
    ensures z.At(i + 1, end) && z.Ready(i + 1, end, skip)
  {
    hide RowHeld, Events, Chained, Run, Loaded, Scan;
    QuotingNow(z, i, end);
    OpenMeansUnclosed(z, i, end);
    if i != z.cellStart && z.quoted.unclosed {
      skip := QuoteInside(z, i, end);
    } else {
      AtFeed(z, i, end);
      skip := false;
      if i == z.cellStart {
        z.quoted := Flags(true, false, false, false, false);
        z.closeAt := 0;
      } else {
        z.quoted := z.quoted.(embedded := true);
        z.closeAt := if z.quoted.closed then z.closeAt else 0;
      }
    }
  }

  /** A byte that is neither a separator nor a quote. */
  lemma Ordinary(z: Scanner, i: nat, end: nat)
    requires z.At(i, end) && i < end && z.Ready(i, end, false) && !z.d.IsSpecial(z.stream[z.base + i])
    ensures z.At(i + 1, end) && z.Ready(i + 1, end, false)
  {
    hide RowHeld, Events, Chained, Run, Loaded, Scan;
    QuotingNow(z, i, end);
    AtFeed(z, i, end);
  }

  /** The second quote of a pair, which the scan has already taken account of. */
  lemma SecondQuote(z: Scanner, i: nat, end: nat)
    requires z.At(i, end) && i < end && z.Ready(i, end, true)
    ensures z.At(i + 1, end) && z.Ready(i + 1, end, false)
  {
    hide RowHeld, Events, Chained, Run, Loaded, Scan;
    QuotingNow(z, i, end);
    AtFeed(z, i, end);
  }

  /** The body of the scanning loop: look at buffer byte `i` and act on it. */
  method Dispatch(z: Scanner, i: nat, end: nat) returns (skip: bool, ended: bool)
    requires z.e == Compat && z.At(i, end) && i < end && z.Ready(i, end, false)
    modifies z`scanned, z`used, z`quoted, z`closeAt, z`cellStart, z`rowStart, z`log, z`pullNow, z`pullUsed,
             z.buff, z.cells
    ensures ended == old(EndsRow(z, i))
    ensures !ended ==>
      z.At(i + 1, end) && z.Ready(i + 1, end, skip) && z.log == old(z.log) && z.pullNow == old(z.pullNow)
    ensures ended ==> HandedOver(z, i, end, old(z.log)) && z.pullNow == (z.pull || old(z.pullNow))
  {
    hide RowHeld, Events, Chained, Run, Loaded, Scan, Contents;
    ByteAt(z, i, end);
    OpenMeansUnclosed(z, i, end);
    skip, ended := false, false;
    var c := z.buff[i];
    if z.d.IsSeparator(c) {
      if z.quoted.unclosed {
        MarkNeeded(z, i, end);
      } else if c == z.d.delim {
        CutCell(z, i, end);
      } else {
        var prev := if i > 0 then z.buff[i - 1] else z.last;
        if c == LF && prev == CR {
          SwallowLf(z, i, end);
        } else {
          EndRow(z, i, end);
          ended := true;
        }
      }
    } else if z.d.IsQuote(c) {
      skip := Quote(z, i, end);
    } else {
      Ordinary(z, i, end);
    }
  }
}
