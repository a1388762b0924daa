/** Whether the rows of a stream fit a buffer. */
module Fits {
  import opened Csv
  import opened CsvFacts

  /** After `p` bytes the unfinished row fills a buffer of `size` bytes. */
  ghost predicate Crowded(d: Dialect, s: bytes, size: nat, p: nat)
    requires p <= |s|
  {
    p == Run(d, s, p).rowAt + size
  }

  /** No row fills the buffer before byte `p`. */
  ghost predicate FitsTo(d: Dialect, s: bytes, size: nat, p: nat) {
    p <= |s| && forall q :: 0 <= q < p ==> !Crowded(d, s, size, q)
  }

  /** A row fills the buffer at byte `p`, and none did before. */
  ghost predicate FirstCrowded(d: Dialect, s: bytes, size: nat, p: nat) {
    FitsTo(d, s, size, p) && Crowded(d, s, size, p)
  }

  lemma {:induction false} RowAtGrows(d: Dialect, s: bytes, k: nat, p: nat)
    requires d.Valid() && k <= p <= |s|
    ensures Run(d, s, k).rowAt <= Run(d, s, p).rowAt
  {
    hide Feed, Chained;
    if k < p {
      RowAtGrows(d, s, k, p - 1);
      RunChained(d, s, p - 1);
    }
  }

  lemma CrowdedPrefix(d: Dialect, s: bytes, t: bytes, size: nat, p: nat)
    requires p <= |s|
    ensures Crowded(d, s + t, size, p) == Crowded(d, s, size, p)
  {
    hide Run;
    RunPrefix(d, s, s + t, p);
  }

  lemma FitsPrefix(d: Dialect, s: bytes, t: bytes, size: nat, p: nat)
    requires p <= |s|
    ensures FitsTo(d, s + t, size, p) == FitsTo(d, s, size, p)
  {
    hide Crowded;
    forall q | 0 <= q < p ensures Crowded(d, s + t, size, q) == Crowded(d, s, size, q) {
      CrowdedPrefix(d, s, t, size, q);
    }
  }

  /** New bytes that fit behind the unfinished row do not let a row fill the buffer before they end. */
  lemma FitsMore(d: Dialect, s: bytes, chunk: bytes, size: nat)
    requires d.Valid() && FitsTo(d, s, size, |s|) && |s| + |chunk| <= Run(d, s, |s|).rowAt + size
    ensures FitsTo(d, s + chunk, size, |s + chunk|)
  {
    hide Run;
    var t := s + chunk;
    forall q | 0 <= q < |t| ensures !Crowded(d, t, size, q) {
      if q < |s| {
        CrowdedPrefix(d, s, chunk, size, q);
      } else {
        RowAtGrows(d, t, |s|, q);
        RunPrefix(d, s, t, |s|);
      }
    }
  }

  // ---------------------------------------------------------------------------------------
  // In terms of the rows
  // ---------------------------------------------------------------------------------------

  /** The bytes of a row, its end not counted. */
  function RowLength(row: seq<Span>): int {
    if row == [] then 0 else row[|row| - 1].hi - row[0].lo
  }

  /** Row `row` ends at a byte, and up to there it is the unfinished row. */
  ghost predicate Measured(d: Dialect, s: bytes, row: seq<Span>) {
    && row != [] && row[0].lo <= row[|row| - 1].hi < |s|
    && Run(d, s, row[|row| - 1].hi).rowAt == row[0].lo
  }

  /** One step from the last row end on. */
  lemma StepRows(d: Dialect, st: State, b: byte)
    requires d.Valid() && Chained(st.row, st.rowAt, st.cellAt) && st.cellAt <= st.pos
    requires st.prev == CR && st.q.mode != Open ==> st.rowAt == st.pos
    ensures var st' := Step(d, st, b);
      || (st'.rows == st.rows && (st'.rowAt == st.rowAt || (st.rowAt == st.pos && st'.rowAt == st.pos + 1)))
      || (st'.rowAt == st.pos + 1
          && var row := st.row + [Span(st.cellAt, st.pos)]; st'.rows == st.rows + [row] && row[0].lo == st.rowAt)
  {
    hide Feed;
  }

  lemma RunSteps(d: Dialect, s: bytes, p: nat)
    requires d.Valid() && p < |s|
    ensures var st := Run(d, s, p);
      && Run(d, s, p + 1) == Step(d, st, s[p]) && st.pos == p && st.rowAt <= st.cellAt <= p
      && Chained(st.row, st.rowAt, st.cellAt) && (st.prev == CR && st.q.mode != Open ==> st.rowAt == p)
  {
    hide Scan, Chained, Step;
    RunWf(d, s, p);
  }

  lemma {:induction false} RowsMeasured(d: Dialect, s: bytes, p: nat, r: nat)
    requires d.Valid() && p <= |s| && r < |Run(d, s, p).rows|
    ensures Measured(d, s, Run(d, s, p).rows[r])
  {
    hide Run, Step, Chained;
    if p == 0 {
      NoRows(d, s);
    } else {
      RunSteps(d, s, p - 1);
      StepRows(d, Run(d, s, p - 1), s[p - 1]);
      if r < |Run(d, s, p - 1).rows| {
        RowsMeasured(d, s, p - 1, r);
      }
    }
  }

  lemma NoRows(d: Dialect, s: bytes)
    ensures Run(d, s, 0) == INIT
  {
  }

  /** Up to where all rows fit, none is longer than the buffer. */
  lemma {:induction false} NeverBeyond(d: Dialect, s: bytes, size: nat, p: nat, q: nat)
    requires d.Valid() && size > 0 && FitsTo(d, s, size, p) && q < p
    ensures q < Run(d, s, q).rowAt + size
  {
    hide Run;
    NoRows(d, s);
    assert !Crowded(d, s, size, q);
    if q > 0 {
      NeverBeyond(d, s, size, p, q - 1);
      RowAtGrows(d, s, q - 1, q);
    }
  }

  /** The row that is unfinished at `q` is still so at `p`, or has ended since. */
  ghost predicate EndedSince(d: Dialect, s: bytes, q: nat, p: nat)
    requires q <= p <= |s|
  {
    var start, rows := Run(d, s, q).rowAt, Run(d, s, p).rows;
    Run(d, s, p).rowAt == start || exists r :: 0 <= r < |rows| && Ends(rows[r], start, q)
  }

  ghost predicate Ends(row: seq<Span>, start: nat, q: nat) {
    row != [] && row[0].lo == start && q <= row[|row| - 1].hi
  }

  lemma {:induction false} RowEndsLater(d: Dialect, s: bytes, q: nat, p: nat)
    requires d.Valid() && q <= p <= |s| && Run(d, s, q).rowAt < q
    ensures EndedSince(d, s, q, p)
  {
    hide Run, Step, Chained;
    if q < p {
      RowEndsLater(d, s, q, p - 1);
      RunSteps(d, s, p - 1);
      StepRows(d, Run(d, s, p - 1), s[p - 1]);
      var start, rows, rows' := Run(d, s, q).rowAt, Run(d, s, p - 1).rows, Run(d, s, p).rows;
      if Run(d, s, p - 1).rowAt == start {
        if Run(d, s, p).rowAt != start {
          assert Ends(rows'[|rows|], start, q);
        }
      } else {
        var r :| 0 <= r < |rows| && Ends(rows[r], start, q);
        assert rows'[r] == rows[r];
      }
    }
  }

  /** In a stream that ends with a row end, no row fills the buffer just when all are shorter than it. */
  lemma FitsIffRowsFit(d: Dialect, s: bytes, size: nat)
    requires d.Valid() && size > 0 && Run(d, s, |s|).rowAt == |s|
    ensures FitsTo(d, s, size, |s|) <==> forall r :: 0 <= r < |Rows(d, s)| ==> RowLength(Rows(d, s)[r]) < size
  {
    hide Run;
    var rows := Rows(d, s);
    if FitsTo(d, s, size, |s|) {
      forall r | 0 <= r < |rows| ensures RowLength(rows[r]) < size {
        RowsMeasured(d, s, |s|, r);
        NeverBeyond(d, s, size, |s|, rows[r][|rows[r]| - 1].hi);
      }
    }
    if forall r :: 0 <= r < |rows| ==> RowLength(rows[r]) < size {
      forall q | 0 <= q < |s| ensures !Crowded(d, s, size, q) {
        if Run(d, s, q).rowAt < q {
          RowEndsLater(d, s, q, |s|);
        }
      }
    }
  }
}
