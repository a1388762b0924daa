/**
 What the rows of a stream are, without a machine: cells and separators tile the stream, and
 no separator outside quotes is left inside a cell.
 */
module Reading {
  import opened Csv
  import opened CsvFacts

  /** The bytes lo..hi could be one cell: outside quotes they hold no separator. */
  ghost predicate IsCell(d: Dialect, s: bytes, span: Span) {
    && span.lo <= span.hi <= |s|
    && Scan(d, s[span.lo..span.hi], span.hi - span.lo).mode != Open
    && forall k :: 0 <= k < span.hi - span.lo && d.IsSeparator(s[span.lo + k]) ==>
         Scan(d, s[span.lo..span.hi], k).mode == Open
  }

  /** Cells of one row: each but the last is followed by a delimiter, and then the next one. */
  ghost predicate IsRow(d: Dialect, s: bytes, row: seq<Span>) {
    && row != []
    && (forall k :: 0 <= k < |row| ==> IsCell(d, s, row[k]))
    && (forall k :: 0 <= k < |row| - 1 ==> row[k].hi < |s| && s[row[k].hi] == d.delim && row[k + 1].lo == row[k].hi + 1)
  }

  /** A row end at `at`, after which the next row starts at `next`: CR, LF, or both in this order. */
  ghost predicate IsRowEnd(s: bytes, at: nat, next: nat) {
    && at < next <= |s|
    && (s[at] == CR || s[at] == LF)
    && (next == at + 1 || (next == at + 2 && s[at] == CR && s[at + 1] == LF))
  }

  /** A CR LF is never taken for two row ends. */
  ghost predicate Maximal(s: bytes, at: nat, next: nat, p: nat)
    requires at < p <= |s|
  {
    s[at] == CR && at + 1 < p && s[at + 1] == LF ==> next == at + 2
  }

  /** The rows, in order, tile the stream up to `next`, where the next row starts. */
  ghost predicate Tiles(d: Dialect, s: bytes, rows: seq<seq<Span>>, next: nat, p: nat)
    requires p <= |s|
  {
    if rows == [] then next == 0
    else
      var row := rows[|rows| - 1];
      && IsRow(d, s, row)
      && var at := row[|row| - 1].hi;
      && at < p && IsRowEnd(s, at, next) && Maximal(s, at, next, p)
      && Tiles(d, s, rows[..|rows| - 1], row[0].lo, p)
  }

  // ---------------------------------------------------------------------------------------

  /** The current cell has no separator outside quotes so far. */
  ghost predicate Growing(d: Dialect, s: bytes, lo: nat, p: nat) {
    lo <= p <= |s| && forall k :: 0 <= k < p - lo && d.IsSeparator(s[lo + k]) ==> Scan(d, s[lo..p], k).mode == Open
  }

  lemma {:induction false} ScanSame(d: Dialect, s: bytes, lo: nat, p: nat, p': nat, k: nat)
    requires lo <= p <= p' <= |s| && k <= p - lo
    ensures Scan(d, s[lo..p], k) == Scan(d, s[lo..p'], k)
  {
    assert s[lo..p'][..k] == s[lo..p][..k];
    ScanPrefix(d, s[lo..p], s[lo..p'], k);
  }

  lemma GrowOne(d: Dialect, s: bytes, lo: nat, p: nat)
    requires Growing(d, s, lo, p) && p < |s|
    requires d.IsSeparator(s[p]) ==> Scan(d, s[lo..p], p - lo).mode == Open
    ensures Growing(d, s, lo, p + 1)
  {
    var raw := s[lo..p + 1];
    forall k | 0 <= k < p + 1 - lo && d.IsSeparator(s[lo + k]) ensures Scan(d, raw, k).mode == Open {
      ScanSame(d, s, lo, p, p + 1, k);
    }
  }

  /** The row in progress: finished cells, each followed by a delimiter. */
  ghost predicate Partial(d: Dialect, s: bytes, row: seq<Span>) {
    && (forall k :: 0 <= k < |row| ==> IsCell(d, s, row[k]) && row[k].hi < |s| && s[row[k].hi] == d.delim)
    && (forall k :: 0 <= k < |row| - 1 ==> row[k + 1].lo == row[k].hi + 1)
  }

  /** Where the last row ends. */
  function LastEnd(rows: seq<seq<Span>>): nat
    requires rows != []
  {
    var row := rows[|rows| - 1];
    if row == [] then 0 else row[|row| - 1].hi
  }

  ghost predicate Read(d: Dialect, s: bytes, p: nat, st: State)
    requires p <= |s|
  {
    && st.pos == p && Growing(d, s, st.cellAt, p) && st.q == Scan(d, s[st.cellAt..p], p - st.cellAt)
    && Partial(d, s, st.row) && Chained(st.row, st.rowAt, st.cellAt)
    && Tiles(d, s, st.rows, st.rowAt, p)
    && st.prev == (if p == 0 then 0 else s[p - 1])
    && (st.prev == CR && st.q.mode != Open ==> st.row == [] && st.rowAt == st.cellAt == p && st.q == FRESH)
    && (st.rows != [] ==> LastEnd(st.rows) < p && (st.rowAt == p && s[p - 1] == CR ==> LastEnd(st.rows) == p - 1))
  }

  lemma CellNow(d: Dialect, s: bytes, lo: nat, p: nat)
    requires Growing(d, s, lo, p) && Scan(d, s[lo..p], p - lo).mode != Open
    ensures IsCell(d, s, Span(lo, p))
  {
  }

  lemma {:induction false} TilesLater(d: Dialect, s: bytes, rows: seq<seq<Span>>, next: nat, p: nat)
    requires p < |s| && Tiles(d, s, rows, next, p)
    requires rows != [] && LastEnd(rows) + 1 == p && s[p - 1] == CR ==> s[p] != LF
    ensures Tiles(d, s, rows, next, p + 1)
    decreases |rows|
  {
    hide IsRow;
    if rows != [] {
      var row := rows[|rows| - 1];
      IsRowNonEmpty(d, s, row);
      var before := rows[..|rows| - 1];
      if before != [] {
        EndsBefore(d, s, before, row[0].lo, p);
        RowOrder(d, s, row);
      }
      TilesLater(d, s, before, row[0].lo, p);
    }
  }

  lemma IsRowNonEmpty(d: Dialect, s: bytes, row: seq<Span>)
    requires IsRow(d, s, row)
    ensures row != []
  {
  }

  lemma EndsBefore(d: Dialect, s: bytes, rows: seq<seq<Span>>, next: nat, p: nat)
    requires p <= |s| && Tiles(d, s, rows, next, p) && rows != []
    ensures var row := rows[|rows| - 1]; row != [] && row[|row| - 1].hi < next
  {
  }

  lemma {:induction false} RowOrder(d: Dialect, s: bytes, row: seq<Span>)
    requires IsRow(d, s, row)
    ensures row[0].lo <= row[|row| - 1].hi
    decreases |row|
  {
    assert IsCell(d, s, row[|row| - 1]);
    if |row| > 1 {
      var front := row[..|row| - 1];
      assert IsRow(d, s, front) by {
        forall k | 0 <= k < |front| ensures IsCell(d, s, front[k]) {
          assert IsCell(d, s, row[k]);
        }
      }
      RowOrder(d, s, front);
    }
  }

  // ---------------------------------------------------------------------------------------
  // Every step keeps the reading
  // ---------------------------------------------------------------------------------------

  lemma FeedRead(d: Dialect, s: bytes, p: nat, st: State)
    requires d.Valid() && p < |s| && Read(d, s, p, st) && (!d.IsSeparator(s[p]) || st.q.mode == Open)
    ensures Read(d, s, p + 1, Step(d, st, s[p]))
  {
    hide Tiles, Chained, Partial, Growing;
    AfterRowEnd(d, s, p, st);
    TilesLater(d, s, st.rows, st.rowAt, p);
    GrowOne(d, s, st.cellAt, p);
    GrowingBound(d, s, st.cellAt, p);
    ScanSame(d, s, st.cellAt, p, p + 1, p - st.cellAt);
    RowAtCell(st);
    ScanOne(d, s, st.cellAt, p);
  }

  lemma ScanOne(d: Dialect, s: bytes, lo: nat, p: nat)
    requires lo <= p < |s|
    ensures Scan(d, s[lo..p + 1], p + 1 - lo) == Feed(d, Scan(d, s[lo..p + 1], p - lo), p - lo, s[p])
  {
  }

  lemma GrowingBound(d: Dialect, s: bytes, lo: nat, p: nat)
    requires Growing(d, s, lo, p)
    ensures lo <= p <= |s|
  {
  }

  /** Right after a CR row end the next byte is not a quoted line feed. */
  lemma AfterRowEnd(d: Dialect, s: bytes, p: nat, st: State)
    requires d.Valid() && p < |s| && Read(d, s, p, st) && (s[p] == LF ==> st.q.mode == Open || st.prev != CR)
    ensures st.rows != [] && LastEnd(st.rows) + 1 == p && s[p - 1] == CR ==> s[p] != LF
  {
    hide Partial, IsRow;
    if st.rows != [] && LastEnd(st.rows) + 1 == p && s[p - 1] == CR {
      EndsBefore(d, s, st.rows, st.rowAt, p);
      RowAtCell(st);
      assert st.cellAt == p;
    }
  }

  lemma RowAtCell(st: State)
    requires Chained(st.row, st.rowAt, st.cellAt)
    ensures st.rowAt <= st.cellAt
  {
    if st.row != [] {
      ChainedLo(st.row, st.rowAt, st.cellAt, |st.row| - 1);
    }
  }

  lemma CutRead(d: Dialect, s: bytes, p: nat, st: State)
    requires d.Valid() && p < |s| && Read(d, s, p, st) && s[p] == d.delim && st.q.mode != Open
    ensures Read(d, s, p + 1, Step(d, st, s[p]))
  {
    hide Tiles, IsCell, Scan;
    TilesLater(d, s, st.rows, st.rowAt, p);
    CellNow(d, s, st.cellAt, p);
    ChainedSnoc(st.row, st.rowAt, st.cellAt, p);
    FreshScan(d, s, p + 1);
  }

  lemma FreshScan(d: Dialect, s: bytes, p: nat)
    requires p <= |s|
    ensures Scan(d, s[p..p], 0) == FRESH && Growing(d, s, p, p)
  {
  }

  lemma RowDone(d: Dialect, s: bytes, p: nat, st: State)
    requires p < |s| && Partial(d, s, st.row) && Chained(st.row, st.rowAt, st.cellAt)
    requires IsCell(d, s, Span(st.cellAt, p))
    ensures var row := st.row + [Span(st.cellAt, p)];
      IsRow(d, s, row) && row[0].lo == st.rowAt && row[|row| - 1].hi == p
  {
    hide IsCell;
  }

  /** One more row, right behind the others. */
  lemma TilesSnoc(d: Dialect, s: bytes, rows: seq<seq<Span>>, row: seq<Span>, next: nat, p: nat)
    requires p <= |s| && IsRow(d, s, row) && row != [] && Tiles(d, s, rows, row[0].lo, p)
    requires row[|row| - 1].hi < p && IsRowEnd(s, row[|row| - 1].hi, next) && Maximal(s, row[|row| - 1].hi, next, p)
    ensures Tiles(d, s, rows + [row], next, p)
  {
    hide IsRow, IsRowEnd, Maximal;
    assert (rows + [row])[..|rows|] == rows;
  }

  /** What the machine does at a row end. */
  lemma EndStepIs(d: Dialect, st: State, b: byte)
    requires d.Valid() && st.q.mode != Open && (b == CR || (b == LF && st.prev != CR))
    ensures Step(d, st, b) == State(st.pos + 1, b, FRESH, st.pos + 1, st.pos + 1, [],
                                    st.rows + [st.row + [Span(st.cellAt, st.pos)]])
  {
  }

  lemma EndRead(d: Dialect, s: bytes, p: nat, st: State)
    requires d.Valid() && p < |s| && Read(d, s, p, st) && st.q.mode != Open
    requires s[p] == CR || (s[p] == LF && st.prev != CR)
    ensures Read(d, s, p + 1, Step(d, st, s[p]))
  {
    hide IsCell, Scan, IsRow, Partial, Tiles, Step, Growing;
    AfterRowEnd(d, s, p, st);
    TilesLater(d, s, st.rows, st.rowAt, p);
    CellNow(d, s, st.cellAt, p);
    RowDone(d, s, p, st);
    FreshScan(d, s, p + 1);
    EndStepIs(d, st, s[p]);
    TilesSnoc(d, s, st.rows, st.row + [Span(st.cellAt, p)], p + 1, p + 1);
    NothingPartial(d, s);
  }

  lemma NothingPartial(d: Dialect, s: bytes)
    ensures Partial(d, s, [])
  {
  }

  lemma SwallowRead(d: Dialect, s: bytes, p: nat, st: State)
    requires d.Valid() && p < |s| && Read(d, s, p, st) && st.q.mode != Open && s[p] == LF && st.prev == CR
    ensures Read(d, s, p + 1, Step(d, st, s[p]))
  {
    hide IsCell, Scan, IsRow, Partial;
    FreshScan(d, s, p + 1);
    NothingPartial(d, s);
    assert st.rows != [];
    var before, row := st.rows[..|st.rows| - 1], st.rows[|st.rows| - 1];
    IsRowNonEmpty(d, s, row);
    if before != [] {
      EndsBefore(d, s, before, row[0].lo, p);
      RowOrder(d, s, row);
    }
    TilesLater(d, s, before, row[0].lo, p);
  }

  lemma {:induction false} RunReads(d: Dialect, s: bytes, p: nat)
    requires d.Valid() && p <= |s|
    ensures Read(d, s, p, Run(d, s, p))
  {
    hide Read, Step, Tiles, Partial;
    if p == 0 {
      InitReads(d, s);
    } else {
      RunReads(d, s, p - 1);
      StepReads(d, s, p - 1, Run(d, s, p - 1));
    }
  }

  lemma InitReads(d: Dialect, s: bytes)
    ensures Read(d, s, 0, INIT)
  {
  }

  lemma StepReads(d: Dialect, s: bytes, p: nat, st: State)
    requires d.Valid() && p < |s| && Read(d, s, p, st)
    ensures Read(d, s, p + 1, Step(d, st, s[p]))
  {
    hide Tiles, Partial, Step, Growing, Scan, Chained;
    if !d.IsSeparator(s[p]) || st.q.mode == Open {
      FeedRead(d, s, p, st);
    } else if s[p] == d.delim {
      CutRead(d, s, p, st);
    } else if s[p] == LF && st.prev == CR {
      SwallowRead(d, s, p, st);
    } else {
      EndRead(d, s, p, st);
    }
  }

  /**
   The rows of any stream tile it up to the start of the unfinished row: no byte is lost or
   read twice, each cell is as long as it can be, and CR LF is one row end.
   */
  lemma RowsTileTheStream(d: Dialect, s: bytes)
    requires d.Valid()
    ensures Tiles(d, s, Rows(d, s), Run(d, s, |s|).rowAt, |s|)
  {
    hide Tiles, Partial, Run;
    RunReads(d, s, |s|);
  }

  // ---------------------------------------------------------------------------------------
  // There is no other tiling
  // ---------------------------------------------------------------------------------------

  /** The machine is about to read a cell at `p`; the row in progress started at `rowAt`. */
  ghost predicate CellStarts(d: Dialect, s: bytes, p: nat, rows: seq<seq<Span>>, row: seq<Span>, rowAt: nat) {
    && p <= |s|
    && var st := Run(d, s, p);
    && st == State(p, st.prev, FRESH, p, rowAt, row, rows)
    && (p < |s| && st.prev == CR ==> s[p] != LF)
  }

  /** It reads the whole cell as one. */
  lemma {:induction false} CellRuns(d: Dialect, s: bytes, lo: nat, hi: nat, rows: seq<seq<Span>>,
                                    row: seq<Span>, rowAt: nat, k: nat)
    requires CellStarts(d, s, lo, rows, row, rowAt) && IsCell(d, s, Span(lo, hi)) && k <= hi - lo
    ensures var st := Run(d, s, lo + k); st == State(lo + k, st.prev, Scan(d, s[lo..hi], k), lo, rowAt, row, rows)
  {
    hide Feed;
    if k > 0 {
      CellRuns(d, s, lo, hi, rows, row, rowAt, k - 1);
      assert s[lo..hi][k - 1] == s[lo + (k - 1)];
    }
  }

  /** A cell outside quotes does not end in CR. */
  lemma NotCr(d: Dialect, raw: bytes)
    requires d.Valid() && raw != [] && Scan(d, raw, |raw|).mode != Open
    requires d.IsSeparator(raw[|raw| - 1]) ==> Scan(d, raw, |raw| - 1).mode == Open
    ensures raw[|raw| - 1] != CR
  {
  }

  /** A line feed that ends a cell does not follow a carriage return. */
  lemma LfAlone(d: Dialect, s: bytes, lo: nat, hi: nat, rows: seq<seq<Span>>, row: seq<Span>, rowAt: nat)
    requires d.Valid() && CellStarts(d, s, lo, rows, row, rowAt) && IsCell(d, s, Span(lo, hi)) && hi < |s|
    requires s[hi] == LF
    ensures Run(d, s, hi).prev != CR
  {
    hide Run;
    RunPrev(d, s, hi);
    if lo < hi {
      var raw, k := s[lo..hi], hi - 1 - lo;
      assert raw[k] == s[lo + k];
      NotCr(d, raw);
    }
  }

  lemma CellCut(d: Dialect, s: bytes, lo: nat, hi: nat, rows: seq<seq<Span>>, row: seq<Span>, rowAt: nat)
    requires d.Valid() && CellStarts(d, s, lo, rows, row, rowAt) && IsCell(d, s, Span(lo, hi)) && hi < |s|
    requires s[hi] == d.delim
    ensures CellStarts(d, s, hi + 1, rows, row + [Span(lo, hi)], rowAt)
  {
    hide Scan, Feed;
    CellRuns(d, s, lo, hi, rows, row, rowAt, hi - lo);
  }

  lemma CellEnds(d: Dialect, s: bytes, lo: nat, hi: nat, rows: seq<seq<Span>>, row: seq<Span>, rowAt: nat, next: nat)
    requires d.Valid() && CellStarts(d, s, lo, rows, row, rowAt) && IsCell(d, s, Span(lo, hi)) && hi < |s|
    requires IsRowEnd(s, hi, next) && Maximal(s, hi, next, |s|)
    ensures StartsAt(d, s, next, rows + [row + [Span(lo, hi)]])
  {
    hide Scan, Feed, CellStarts;
    CellRuns(d, s, lo, hi, rows, row, rowAt, hi - lo);
    if s[hi] == LF {
      LfAlone(d, s, lo, hi, rows, row, rowAt);
    }
    var all := rows + [row + [Span(lo, hi)]];
    assert Run(d, s, hi + 1) == State(hi + 1, s[hi], FRESH, hi + 1, hi + 1, [], all);
  }

  lemma {:induction false} RowRuns(d: Dialect, s: bytes, rows: seq<seq<Span>>, row: seq<Span>, m: nat)
    requires d.Valid() && IsRow(d, s, row) && StartsAt(d, s, row[0].lo, rows) && m < |row|
    ensures CellStarts(d, s, row[m].lo, rows, row[..m], row[0].lo)
  {
    hide Run, IsCell;
    if m > 0 {
      RowRuns(d, s, rows, row, m - 1);
      CellCut(d, s, row[m - 1].lo, row[m - 1].hi, rows, row[..m - 1], row[0].lo);
      assert row[..m] == row[..m - 1] + [row[m - 1]];
    }
  }

  lemma TilesLast(d: Dialect, s: bytes, rows: seq<seq<Span>>, next: nat)
    requires Tiles(d, s, rows, next, |s|) && rows != []
    ensures var row := rows[|rows| - 1];
      && IsRow(d, s, row) && row != [] && IsCell(d, s, row[|row| - 1])
      && var at := row[|row| - 1].hi;
      && at < |s| && IsRowEnd(s, at, next) && Maximal(s, at, next, |s|)
      && Tiles(d, s, rows[..|rows| - 1], row[0].lo, |s|)
  {
    hide IsCell, IsRowEnd, Maximal;
  }

  /** Every row of a tiling ends with a row end. */
  lemma {:induction false} RowAtEnd(d: Dialect, s: bytes, rows: seq<seq<Span>>, next: nat, k: nat)
    requires Tiles(d, s, rows, next, |s|) && k < |rows|
    ensures rows[k] != [] && var at := rows[k][|rows[k]| - 1].hi; at < |s| && (s[at] == 13 || s[at] == 10)
    decreases |rows|
  {
    hide IsCell, Maximal;
    TilesLast(d, s, rows, next);
    if k < |rows| - 1 {
      var before := rows[..|rows| - 1];
      RowAtEnd(d, s, before, rows[|rows| - 1][0].lo, k);
      assert before[k] == rows[k];
    }
  }

  /** Any tiling of the stream's beginning consists of the machine's rows. */
  lemma {:induction false} TilingRuns(d: Dialect, s: bytes, rows: seq<seq<Span>>, next: nat)
    requires d.Valid() && Tiles(d, s, rows, next, |s|)
    ensures StartsAt(d, s, next, rows)
    decreases |rows|
  {
    hide IsCell, IsRow, Tiles, Run, CellStarts, StartsAt, IsRowEnd, Maximal;
    if rows == [] {
      NothingTiled(d, s, next);
      StreamStarts(d, s);
    } else {
      TilesLast(d, s, rows, next);
      var row, before := rows[|rows| - 1], rows[..|rows| - 1];
      TilingRuns(d, s, before, row[0].lo);
      var m := |row| - 1;
      RowRuns(d, s, before, row, m);
      assert row[m] == Span(row[m].lo, row[m].hi);
      CellEnds(d, s, row[m].lo, row[m].hi, before, row[..m], row[0].lo, next);
      assert row == row[..m] + [row[m]] && rows == before + [row];
    }
  }

  lemma NothingTiled(d: Dialect, s: bytes, next: nat)
    requires Tiles(d, s, [], next, |s|)
    ensures next == 0
  {
  }

  lemma StreamStarts(d: Dialect, s: bytes)
    ensures StartsAt(d, s, 0, [])
  {
  }

  /** So the rows of a stream are the longest tiling of it, and all tilings are their first rows. */
  lemma TilingsAgree(d: Dialect, s: bytes, rows: seq<seq<Span>>, next: nat)
    requires d.Valid() && Tiles(d, s, rows, next, |s|)
    ensures rows <= Rows(d, s)
  {
    hide Run, Tiles;
    TilingRuns(d, s, rows, next);
    RowsGrow(d, s, next, |s|);
  }

  /**
   LF CR is not one row end. Inside quotes it ends no row; after a CR, whose row end the LF
   belongs to, it ends one, an empty row; and anywhere else two, the second one empty.
   */
  lemma LfCrRowEnds(d: Dialect, s: bytes, p: nat)
    requires d.Valid() && p + 1 < |s| && s[p] == 10 && s[p + 1] == 13
    ensures var st, rows := Run(d, s, p), Run(d, s, p + 2).rows;
      if st.q.mode == Open then rows == st.rows
      else if st.prev == CR then rows == st.rows + [[Span(p + 1, p + 1)]]
      else rows == st.rows + [st.row + [Span(st.cellAt, p)], [Span(p + 1, p + 1)]]
  {
    hide Scan, Chained;
    var st := Run(d, s, p);
    RunWf(d, s, p);
    assert Run(d, s, p + 1) == Step(d, st, LF);
    assert Run(d, s, p + 2) == Step(d, Run(d, s, p + 1), CR);
    if st.q.mode != Open {
      SecondRowEnd(d, Run(d, s, p + 1));
    }
  }

  /** CR LF, and CR or LF alone, end one row outside quotes and none inside; a delimiter ends a cell. */
  lemma OneRowEnd(d: Dialect, s: bytes, p: nat)
    requires d.Valid() && p < |s| && (s[p] == 13 || s[p] == 10 || s[p] == d.delim)
    requires s[p] == 10 ==> p == 0 || s[p - 1] != 13
    ensures var st, st' := Run(d, s, p), Run(d, s, p + 1);
      if st.q.mode == Open then st'.rows == st.rows && st'.row == st.row && st'.cellAt == st.cellAt
      else if s[p] == d.delim then
        st'.rows == st.rows && st'.row == st.row + [Span(st.cellAt, p)] && st'.rowAt == st.rowAt && st'.cellAt == p + 1
      else st'.rows == st.rows + [st.row + [Span(st.cellAt, p)]] && st'.row == [] && st'.rowAt == st'.cellAt == p + 1
    ensures Run(d, s, p).q.mode != Open && s[p] == 13 && p + 1 < |s| && s[p + 1] == 10 ==>
      Run(d, s, p + 2).rows == Run(d, s, p + 1).rows && Run(d, s, p + 2).rowAt == p + 2
  {
    hide Scan, Chained, Feed;
    RunWf(d, s, p);
    RunPrev(d, s, p);
    var st := Run(d, s, p);
    assert Run(d, s, p + 1) == Step(d, st, s[p]);
    if p + 1 < |s| {
      assert Run(d, s, p + 2) == Step(d, Run(d, s, p + 1), s[p + 1]);
    }
  }

  lemma SecondRowEnd(d: Dialect, st: State)
    requires d.Valid() && st.q == FRESH && st.row == [] && st.cellAt == st.pos
    ensures Step(d, st, CR).rows == st.rows + [[Span(st.pos, st.pos)]]
  {
    assert st.row + [Span(st.pos, st.pos)] == [Span(st.pos, st.pos)];
  }

  /** So it ends just one row if and only if it is outside quotes and follows a CR. */
  lemma LfCrIsOneRowEndIff(d: Dialect, s: bytes, p: nat)
    requires d.Valid() && p + 1 < |s| && s[p] == 10 && s[p + 1] == 13
    ensures |Run(d, s, p + 2).rows| == |Run(d, s, p).rows| + 1 <==>
            Run(d, s, p).q.mode != Open && p > 0 && s[p - 1] == 13
  {
    hide Run;
    RunPrev(d, s, p);
    LfCrRowEnds(d, s, p);
  }
}
