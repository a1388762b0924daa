/** The counters and rows `compare --redline` collects, group by group. */
module Redline {
  import opened Csv
  import opened Compare
  import Keys
  import Merge

  /** The comparison's settings; `out2in[i][j]` is 1 + the column of input `i` for output column `j`, or 0. */
  datatype Config = Config(inputs: nat, columns: nat, out2in: seq<seq<nat>>, isKey: seq<bool>,
                           differ: (bytes, bytes) -> bool, tolerance: bool, within: (bytes, bytes) -> bool,
                           includeTolerated: bool, includeUnchanged: bool) {
    ghost predicate Wf() {
      && |out2in| == inputs && |isKey| == columns
      && forall i :: 0 <= i < inputs ==> |out2in[i]| == columns
    }

    /** Every input has output column `j`. */
    ghost predicate InAll(j: nat)
      requires Wf() && j < columns
    {
      forall i :: 0 <= i < inputs ==> out2in[i][j] != 0
    }
  }

  /** A group as handed over: inputs order[..last + 1] have a row in it; `rows` are the inputs' current rows. */
  datatype Found = Found(order: seq<nat>, last: nat, rows: seq<seq<bytes>>) {
    ghost predicate Wf(inputs: nat) {
      Permuted(order, inputs) && last < inputs && |rows| == inputs
    }

    ghost predicate Has(i: nat)
      requires last < |order|
    {
      exists a :: 0 <= a <= last && order[a] == i
    }

    predicate Full(inputs: nat) {
      last + 1 == inputs
    }
  }

  /** The value of input `i` in output column `j`. */
  function Value(cfg: Config, g: Found, i: nat, j: nat): bytes
    requires i < |g.rows| == |cfg.out2in| && j < |cfg.out2in[i]|
  {
    var column := cfg.out2in[i][j];
    if column == 0 || column > |g.rows[i]| then [] else g.rows[i][column - 1]
  }

  /** What becomes of output column `j` of a group. */
  datatype Verdict = NotCompared | Matched | Tolerated | Differing

  ghost predicate Agree(cfg: Config, g: Found, j: nat)
    requires cfg.Wf() && g.Wf(cfg.inputs) && j < cfg.columns
  {
    forall a :: 1 <= a <= g.last ==> !cfg.differ(Value(cfg, g, g.order[0], j), Value(cfg, g, g.order[a], j))
  }

  ghost predicate AllWithin(cfg: Config, g: Found, j: nat)
    requires cfg.Wf() && g.Wf(cfg.inputs) && j < cfg.columns
  {
    forall a :: 1 <= a <= g.last ==> cfg.within(Value(cfg, g, g.order[0], j), Value(cfg, g, g.order[a], j))
  }

  /** Only columns of all inputs, in groups of all inputs, are compared; the first input is the reference. */
  ghost function Judge(cfg: Config, g: Found, j: nat): Verdict
    requires cfg.Wf() && g.Wf(cfg.inputs) && j < cfg.columns
  {
    if !g.Full(cfg.inputs) || !cfg.InAll(j) then NotCompared
    else if cfg.isKey[j] || Agree(cfg, g, j) then Matched
    else if cfg.tolerance && AllWithin(cfg, g, j) then Tolerated
    else Differing
  }

  // ---------------------------------------------------------------------------------------
  // Counters
  // ---------------------------------------------------------------------------------------

  datatype Stats = Stats(compared: nat, matched: nat, within: nat, differing: nat) {
    function Plus(s: Stats): Stats {
      Stats(compared + s.compared, matched + s.matched, within + s.within, differing + s.differing)
    }
  }

  const NOTHING := Stats(0, 0, 0, 0)

  function Tally(v: Verdict): Stats {
    match v
    case NotCompared => NOTHING
    case Matched => Stats(1, 1, 0, 0)
    case Tolerated => Stats(1, 0, 1, 0)
    case Differing => Stats(1, 0, 0, 1)
  }

  function Sum(stats: seq<Stats>): Stats {
    if stats == [] then NOTHING else Sum(stats[..|stats| - 1]).Plus(stats[|stats| - 1])
  }

  lemma {:induction false} SumUpdate(stats: seq<Stats>, j: nat, s: Stats)
    requires j < |stats|
    ensures Sum(stats[j := stats[j].Plus(s)]) == Sum(stats).Plus(s)
  {
    var stats' := stats[j := stats[j].Plus(s)];
    var n := |stats| - 1;
    if j == n {
      assert stats'[..n] == stats[..n];
    } else {
      assert stats'[..n] == stats[..n][j := stats[..n][j].Plus(s)];
      SumUpdate(stats[..n], j, s);
    }
  }

  ghost predicate AllFound(cfg: Config, seen: seq<Found>) {
    cfg.Wf() && forall k :: 0 <= k < |seen| ==> seen[k].Wf(cfg.inputs)
  }

  /** What the groups seen add up to in column `j`. */
  ghost function StatsOf(cfg: Config, seen: seq<Found>, j: nat): Stats
    requires AllFound(cfg, seen) && j < cfg.columns
  {
    if seen == [] then NOTHING
    else StatsOf(cfg, seen[..|seen| - 1], j).Plus(Tally(Judge(cfg, seen[|seen| - 1], j)))
  }

  /** The groups with a row of input `i`, those without, and those with a row of every input. */
  ghost function CountWith(cfg: Config, seen: seq<Found>, i: nat): nat
    requires AllFound(cfg, seen)
  {
    if seen == [] then 0 else CountWith(cfg, seen[..|seen| - 1], i) + if seen[|seen| - 1].Has(i) then 1 else 0
  }

  ghost function CountWithout(cfg: Config, seen: seq<Found>, i: nat): nat
    requires AllFound(cfg, seen)
  {
    if seen == [] then 0 else CountWithout(cfg, seen[..|seen| - 1], i) + if seen[|seen| - 1].Has(i) then 0 else 1
  }

  ghost function CountFull(cfg: Config, seen: seq<Found>): nat
    requires AllFound(cfg, seen)
  {
    if seen == [] then 0 else CountFull(cfg, seen[..|seen| - 1]) + if seen[|seen| - 1].Full(cfg.inputs) then 1 else 0
  }

  // ---------------------------------------------------------------------------------------
  // The rows that are kept
  // ---------------------------------------------------------------------------------------

  /** An output cell: one text, or the texts of all inputs in the order of the inputs. */
  datatype OutputCell = Scalar(text: bytes, tolerated: bool) | Diff(texts: seq<bytes>, tolerated: bool)

  datatype OutputRow = OutputRow(isObject: bool, cells: seq<OutputCell>)

  ghost predicate IsDiff(cfg: Config, v: Verdict) {
    v == Differing || (v == Tolerated && cfg.includeTolerated)
  }

  ghost predicate HasDiff(cfg: Config, g: Found)
    requires cfg.Wf() && g.Wf(cfg.inputs)
  {
    !g.Full(cfg.inputs) || exists j :: 0 <= j < cfg.columns && IsDiff(cfg, Judge(cfg, g, j))
  }

  /** The input at position `a` of the order has column `j`. */
  predicate HasColumn(cfg: Config, g: Found, j: nat, a: nat)
    requires cfg.Wf() && g.Wf(cfg.inputs) && j < cfg.columns && a < |g.order|
  {
    cfg.out2in[g.order[a]][j] != 0
  }

  /** Position `a` of the order is the first one of the group that has column `j`. */
  ghost predicate FirstWith(cfg: Config, g: Found, j: nat, a: nat)
    requires cfg.Wf() && g.Wf(cfg.inputs) && j < cfg.columns
  {
    && a <= g.last && HasColumn(cfg, g, j, a)
    && forall b :: 0 <= b < a ==> !HasColumn(cfg, g, j, b)
  }

  /** The text of the first input of the group that has column `j`, or no text if none has. */
  ghost predicate IsFirstText(cfg: Config, g: Found, j: nat, text: bytes)
    requires cfg.Wf() && g.Wf(cfg.inputs) && j < cfg.columns
  {
    || (exists a: nat :: FirstWith(cfg, g, j, a) && text == Value(cfg, g, g.order[a], j))
    || (text == [] && forall a :: 0 <= a <= g.last ==> !HasColumn(cfg, g, j, a))
  }

  ghost predicate IsCell(cfg: Config, g: Found, j: nat, cell: OutputCell)
    requires cfg.Wf() && g.Wf(cfg.inputs) && j < cfg.columns
  {
    var v := Judge(cfg, g, j);
    && cell.tolerated == (v == Tolerated)
    && if IsDiff(cfg, v) then
         cell.Diff? && |cell.texts| == cfg.inputs
            && forall i :: 0 <= i < cfg.inputs ==> cell.texts[i] == Value(cfg, g, i, j)
       else
         && cell.Scalar?
         && if v == NotCompared then IsFirstText(cfg, g, j, cell.text) else cell.text == Value(cfg, g, g.order[0], j)
  }

  ghost predicate IsRow(cfg: Config, g: Found, row: OutputRow)
    requires cfg.Wf() && g.Wf(cfg.inputs)
  {
    && row.isObject == !g.Full(cfg.inputs) && |row.cells| == cfg.columns
    && forall j :: 0 <= j < cfg.columns ==> IsCell(cfg, g, j, row.cells[j])
  }

  ghost predicate Kept(cfg: Config, g: Found)
    requires cfg.Wf() && g.Wf(cfg.inputs)
  {
    HasDiff(cfg, g) || cfg.includeUnchanged
  }

  /** The rows are those of the groups that are kept, in order. */
  ghost predicate AreRows(cfg: Config, seen: seq<Found>, rows: seq<OutputRow>)
    requires AllFound(cfg, seen)
  {
    if seen == [] then rows == []
    else
      var g, before := seen[|seen| - 1], seen[..|seen| - 1];
      if Kept(cfg, g) then rows != [] && IsRow(cfg, g, rows[|rows| - 1]) && AreRows(cfg, before, rows[..|rows| - 1])
      else AreRows(cfg, before, rows)
  }

  ghost function CountDiff(cfg: Config, seen: seq<Found>): nat
    requires AllFound(cfg, seen)
  {
    if seen == [] then 0 else CountDiff(cfg, seen[..|seen| - 1]) + if HasDiff(cfg, seen[|seen| - 1]) then 1 else 0
  }

  // ---------------------------------------------------------------------------------------
  // Judging a column
  // ---------------------------------------------------------------------------------------

  /** zsv_compare_col_in_all() */
  method ColumnInAll(cfg: Config, j: nat) returns (inAll: bool)
    requires cfg.Wf() && j < cfg.columns
    ensures inAll <==> cfg.InAll(j)
  {
    for i := 0 to cfg.inputs
      invariant forall k :: 0 <= k < i ==> cfg.out2in[k][j] != 0
    {
      if cfg.out2in[i][j] == 0 {
        return false;
      }
    }
    return true;
  }

  /** zsv_compare_redline_scalar_from_first() */
  method ScalarFromFirst(cfg: Config, g: Found, j: nat) returns (text: bytes)
    requires cfg.Wf() && g.Wf(cfg.inputs) && j < cfg.columns
    ensures IsFirstText(cfg, g, j, text)
  {
    var a := 0;
    while a <= g.last
      invariant a <= g.last + 1 && forall b :: 0 <= b < a ==> !HasColumn(cfg, g, j, b)
    {
      var i := g.order[a];
      if cfg.out2in[i][j] != 0 {
        assert FirstWith(cfg, g, j, a);
        return Value(cfg, g, i, j);
      }
      a := a + 1;
    }
    return [];
  }

  /** The comparison of a column all inputs of a full group have. */
  method CompareColumn(cfg: Config, g: Found, j: nat) returns (v: Verdict)
    requires cfg.Wf() && g.Wf(cfg.inputs) && j < cfg.columns && g.Full(cfg.inputs) && cfg.InAll(j)
    ensures v == Judge(cfg, g, j)
  {
    hide Value, Permuted;
    if cfg.isKey[j] {
      return Matched;
    }
    OrderBound(cfg, g);
    var v0 := Value(cfg, g, g.order[0], j);
    var different, a := false, 1;
    while a <= g.last && !different
      invariant 1 <= a <= g.last + 1
      invariant !different ==> forall b :: 1 <= b < a ==> !cfg.differ(v0, Value(cfg, g, g.order[b], j))
      invariant different ==> !Agree(cfg, g, j)
    {
      if cfg.differ(v0, Value(cfg, g, g.order[a], j)) {
        different := true;
      }
      a := a + 1;
    }
    if !different {
      return Matched;
    }
    var tolerated := false;
    if cfg.tolerance {
      tolerated, a := true, 1;
      while a <= g.last && tolerated
        invariant 1 <= a <= g.last + 1
        invariant tolerated ==> forall b :: 1 <= b < a ==> cfg.within(v0, Value(cfg, g, g.order[b], j))
        invariant !tolerated ==> !AllWithin(cfg, g, j)
      {
        if !cfg.within(v0, Value(cfg, g, g.order[a], j)) {
          tolerated := false;
        }
        a := a + 1;
      }
    }
    return if tolerated then Tolerated else Differing;
  }

  lemma OrderBound(cfg: Config, g: Found)
    requires g.Wf(cfg.inputs)
    ensures |g.order| == cfg.inputs && forall a :: 0 <= a < |g.order| ==> g.order[a] < cfg.inputs
  {
  }

  /** The cell that is output for a judged column. */
  method MakeCell(cfg: Config, g: Found, j: nat, v: Verdict) returns (cell: OutputCell, diff: bool)
    requires cfg.Wf() && g.Wf(cfg.inputs) && j < cfg.columns && v == Judge(cfg, g, j)
    ensures IsCell(cfg, g, j, cell) && (diff <==> IsDiff(cfg, v))
  {
    hide Value, Judge, IsFirstText, Permuted;
    OrderBound(cfg, g);
    diff := false;
    if v == NotCompared {
      var text := ScalarFromFirst(cfg, g, j);
      return Scalar(text, false), false;
    }
    var tolerated := v == Tolerated;
    if v == Matched || (tolerated && !cfg.includeTolerated) {
      return Scalar(Value(cfg, g, g.order[0], j), tolerated), false;
    }
    var texts := seq(cfg.inputs, i requires 0 <= i < cfg.inputs => Value(cfg, g, i, j));
    return Diff(texts, tolerated), true;
  }

  // ---------------------------------------------------------------------------------------
  // The collector
  // ---------------------------------------------------------------------------------------

  /** Counter `i` of `after` is that of `before`, plus 1 if `i` is one of order[from..to]. */
  ghost predicate Counted(before: seq<nat>, after: seq<nat>, order: seq<nat>, from: nat, to: nat) {
    && |after| == |before| == |order| && from <= to <= |order| && (forall a :: 0 <= a < |order| ==> order[a] < |before|)
    && forall a :: 0 <= a < |order| ==> after[order[a]] == before[order[a]] + if from <= a < to then 1 else 0
  }

  method Count(counts: array<nat>, order: seq<nat>, from: nat, to: nat)
    requires Permuted(order, counts.Length) && from <= to <= |order|
    modifies counts
    ensures Counted(old(counts[..]), counts[..], order, from, to)
  {
    ghost var before := counts[..];
    for n := from to to
      invariant forall a :: 0 <= a < |order| ==> counts[order[a]] == before[order[a]] + if from <= a < n then 1 else 0
    {
      counts[order[n]] := counts[order[n]] + 1;
    }
  }

  ghost predicate StatsAre(cfg: Config, seen: seq<Found>, stats: seq<Stats>)
    requires AllFound(cfg, seen)
  {
    |stats| == cfg.columns && forall j :: 0 <= j < cfg.columns ==> stats[j] == StatsOf(cfg, seen, j)
  }

  /** The first `n` columns of group `g` have been added. */
  ghost predicate Adding(cfg: Config, g: Found, before: seq<Stats>, after: seq<Stats>, n: nat)
    requires cfg.Wf() && g.Wf(cfg.inputs)
  {
    && |after| == |before| == cfg.columns
    && forall j :: 0 <= j < cfg.columns ==>
      after[j] == if j < n then before[j].Plus(Tally(Judge(cfg, g, j))) else before[j]
  }

  class Collector {
    const cfg: Config
    const inputRowCounts: array<nat>
    const rowsOnlyInInput: array<nat>
    const colStats: array<Stats>
    var rowsInAll: nat
    var rowsWithDiff: nat
    var cells: Stats
    var rows: seq<OutputRow>
    ghost var seen: seq<Found>   // the groups so far

    /** All counters count what their names say, over the groups seen. */
    ghost predicate Valid()
      reads this, inputRowCounts, rowsOnlyInInput, colStats
    {
      && AllFound(cfg, seen) && inputRowCounts != rowsOnlyInInput
      && inputRowCounts.Length == rowsOnlyInInput.Length == cfg.inputs
      && (forall i :: 0 <= i < cfg.inputs ==> inputRowCounts[..][i] == CountWith(cfg, seen, i))
      && (forall i :: 0 <= i < cfg.inputs ==> rowsOnlyInInput[..][i] == CountWithout(cfg, seen, i))
      && rowsInAll == CountFull(cfg, seen) && rowsWithDiff == CountDiff(cfg, seen)
      && StatsAre(cfg, seen, colStats[..]) && cells == Sum(colStats[..])
      && AreRows(cfg, seen, rows)
    }

    constructor (cfg: Config)
      requires cfg.Wf()
      ensures Valid() && this.cfg == cfg && seen == []
      ensures fresh(inputRowCounts) && fresh(rowsOnlyInInput) && fresh(colStats)
    {
      hide AllFound, StatsAre, AreRows, CountWith, CountWithout, CountFull, CountDiff, Sum;
      this.cfg := cfg;
      inputRowCounts := new nat[cfg.inputs](_ => 0);
      rowsOnlyInInput := new nat[cfg.inputs](_ => 0);
      colStats := new Stats[cfg.columns](_ => NOTHING);
      rowsInAll, rowsWithDiff, cells, rows, seen := 0, 0, NOTHING, [], [];
      new;
      SumNothing(colStats[..], cfg.columns);
      assert colStats[..][..cfg.columns] == colStats[..];
      NothingSeen(cfg, colStats[..]);
    }

    /** Judge every output column, count the verdicts and make the cells of the row. */
    method CollectColumns(g: Found) returns (row: OutputRow, diff: bool)
      requires cfg.Wf() && g.Wf(cfg.inputs) && colStats.Length == cfg.columns && cells == Sum(colStats[..])
      modifies this`cells, colStats
      ensures Adding(cfg, g, old(colStats[..]), colStats[..], cfg.columns) && cells == Sum(colStats[..])
      ensures IsRow(cfg, g, row) && (diff <==> HasDiff(cfg, g))
    {
      hide Value, Judge, IsFirstText, IsCell, IsDiff, Sum, Tally, Permuted;
      ghost var before := colStats[..];
      var texts := [];
      var full := g.Full(cfg.inputs);
      diff := !full;
      for j := 0 to cfg.columns
        invariant Adding(cfg, g, before, colStats[..], j) && cells == Sum(colStats[..])
        invariant |texts| == j && forall k :: 0 <= k < j ==> IsCell(cfg, g, k, texts[k])
        invariant diff <==> !full || exists k :: 0 <= k < j && IsDiff(cfg, Judge(cfg, g, k))
      {
        var inAll := ColumnInAll(cfg, j);
        var v := NotCompared;
        if full && inAll {
          v := CompareColumn(cfg, g, j);
        } else {
          JudgedNot(cfg, g, j);
        }
        ghost var stats := colStats[..];
        SumUpdate(stats, j, Tally(v));
        colStats[j] := colStats[j].Plus(Tally(v));
        cells := cells.Plus(Tally(v));
        assert colStats[..] == stats[j := stats[j].Plus(Tally(v))];
        var cell, differs := MakeCell(cfg, g, j, v);
        texts := texts + [cell];
        diff := diff || differs;
      }
      row := OutputRow(!full, texts);
    }

    /** zsv_compare_collect_row() */
    method CollectRow(g: Found)
      requires Valid() && g.Wf(cfg.inputs)
      modifies this, inputRowCounts, rowsOnlyInInput, colStats
      ensures Valid() && seen == old(seen) + [g]
    {
      hide AllFound, AreRows, CountWith, CountWithout, CountFull, CountDiff, Sum, Permuted, Counted,
           Adding, HasDiff, IsRow, StatsOf;
      ghost var before, with_, without, stats, kept :=
        seen, inputRowCounts[..], rowsOnlyInInput[..], colStats[..], rows;
      var n := cfg.inputs;
      AllFoundSnoc(cfg, before, g);
      OrderBound(cfg, g);
      Count(inputRowCounts, g.order, 0, g.last + 1);
      WithSnoc(cfg, before, g, with_, inputRowCounts[..]);
      if g.Full(n) {
        rowsInAll := rowsInAll + 1;
      } else {
        Count(rowsOnlyInInput, g.order, g.last + 1, n);
      }
      WithoutSnoc(cfg, before, g, without, rowsOnlyInInput[..]);
      FullSnoc(cfg, before, g);
      var row, diff := CollectColumns(g);
      StatsSnoc(cfg, before, g, stats, colStats[..]);
      RowsSnoc(cfg, before, g, kept, row);
      if diff || cfg.includeUnchanged {
        if diff {
          rowsWithDiff := rowsWithDiff + 1;
        }
        rows := rows + [row];
      }
      seen := seen + [g];
    }
  }

  // ---------------------------------------------------------------------------------------
  // One more group
  // ---------------------------------------------------------------------------------------

  lemma AllFoundSnoc(cfg: Config, seen: seq<Found>, g: Found)
    requires AllFound(cfg, seen) && g.Wf(cfg.inputs)
    ensures AllFound(cfg, seen + [g]) && (seen + [g])[..|seen|] == seen
  {
  }

  /** Has(i), by the position of `i` in the order. */
  lemma HasAt(cfg: Config, g: Found, i: nat) returns (a: nat)
    requires g.Wf(cfg.inputs) && i < cfg.inputs
    ensures a < |g.order| == cfg.inputs && g.order[a] == i && (g.Has(i) <==> a <= g.last)
  {
    assert i in g.order;
    a :| 0 <= a < |g.order| && g.order[a] == i;
  }

  lemma WithSnoc(cfg: Config, seen: seq<Found>, g: Found, before: seq<nat>, after: seq<nat>)
    requires AllFound(cfg, seen) && AllFound(cfg, seen + [g]) && g.Wf(cfg.inputs) && (seen + [g])[..|seen|] == seen
    requires Counted(before, after, g.order, 0, g.last + 1)
    requires |before| == cfg.inputs && forall i :: 0 <= i < cfg.inputs ==> before[i] == CountWith(cfg, seen, i)
    ensures |after| == cfg.inputs && forall i :: 0 <= i < cfg.inputs ==> after[i] == CountWith(cfg, seen + [g], i)
  {
    hide CountWith, Permuted, AllFound;
    forall i | 0 <= i < cfg.inputs ensures after[i] == CountWith(cfg, seen + [g], i) {
      var a := HasAt(cfg, g, i);
      CountsSnoc(cfg, seen, g, i);
    }
  }

  lemma CountsSnoc(cfg: Config, seen: seq<Found>, g: Found, i: nat)
    requires AllFound(cfg, seen) && AllFound(cfg, seen + [g]) && g.Wf(cfg.inputs) && (seen + [g])[..|seen|] == seen
    ensures CountWith(cfg, seen + [g], i) == CountWith(cfg, seen, i) + if g.Has(i) then 1 else 0
    ensures CountWithout(cfg, seen + [g], i) == CountWithout(cfg, seen, i) + if g.Has(i) then 0 else 1
  {
  }

  lemma WithoutSnoc(cfg: Config, seen: seq<Found>, g: Found, before: seq<nat>, after: seq<nat>)
    requires AllFound(cfg, seen) && AllFound(cfg, seen + [g]) && g.Wf(cfg.inputs) && (seen + [g])[..|seen|] == seen
    requires if g.Full(cfg.inputs) then after == before else Counted(before, after, g.order, g.last + 1, cfg.inputs)
    requires |before| == cfg.inputs && forall i :: 0 <= i < cfg.inputs ==> before[i] == CountWithout(cfg, seen, i)
    ensures |after| == cfg.inputs && forall i :: 0 <= i < cfg.inputs ==> after[i] == CountWithout(cfg, seen + [g], i)
  {
    hide CountWithout, Permuted, AllFound;
    forall i | 0 <= i < cfg.inputs ensures after[i] == CountWithout(cfg, seen + [g], i) {
      var a := HasAt(cfg, g, i);
      CountsSnoc(cfg, seen, g, i);
    }
  }

  lemma FullSnoc(cfg: Config, seen: seq<Found>, g: Found)
    requires AllFound(cfg, seen) && AllFound(cfg, seen + [g]) && (seen + [g])[..|seen|] == seen
    ensures CountFull(cfg, seen + [g]) == CountFull(cfg, seen) + if g.Full(cfg.inputs) then 1 else 0
  {
  }

  lemma StatsSnoc(cfg: Config, seen: seq<Found>, g: Found, before: seq<Stats>, after: seq<Stats>)
    requires AllFound(cfg, seen) && AllFound(cfg, seen + [g]) && g.Wf(cfg.inputs) && (seen + [g])[..|seen|] == seen
    requires StatsAre(cfg, seen, before) && Adding(cfg, g, before, after, cfg.columns)
    ensures StatsAre(cfg, seen + [g], after)
  {
    hide Judge, Tally;
  }

  lemma RowsSnoc(cfg: Config, seen: seq<Found>, g: Found, rows: seq<OutputRow>, row: OutputRow)
    requires AllFound(cfg, seen) && AllFound(cfg, seen + [g]) && g.Wf(cfg.inputs) && (seen + [g])[..|seen|] == seen
    requires AreRows(cfg, seen, rows) && IsRow(cfg, g, row)
    ensures AreRows(cfg, seen + [g], if Kept(cfg, g) then rows + [row] else rows)
    ensures CountDiff(cfg, seen + [g]) == CountDiff(cfg, seen) + if HasDiff(cfg, g) then 1 else 0
    ensures Kept(cfg, g) <==> HasDiff(cfg, g) || cfg.includeUnchanged
  {
    hide IsRow, HasDiff;
    assert (rows + [row])[..|rows|] == rows;
  }

  // ---------------------------------------------------------------------------------------
  // Conservation
  // ---------------------------------------------------------------------------------------

  /** Every group either has a row of input `i` or counts as missing there. */
  lemma {:induction false} SeenOrMissing(cfg: Config, seen: seq<Found>, i: nat)
    requires AllFound(cfg, seen)
    ensures CountWith(cfg, seen, i) + CountWithout(cfg, seen, i) == |seen|
  {
    if seen != [] {
      SeenOrMissing(cfg, seen[..|seen| - 1], i);
    }
  }

  lemma Judged(cfg: Config, g: Found, j: nat)
    requires cfg.Wf() && g.Wf(cfg.inputs) && j < cfg.columns
    ensures var s := Tally(Judge(cfg, g, j));
      s.compared == s.matched + s.within + s.differing == if g.Full(cfg.inputs) && cfg.InAll(j) then 1 else 0
  {
  }

  /**
   What is compared either matches, is tolerated or differs; a column all inputs have is compared
   in every full group.
   */
  lemma {:induction false} ColumnBalances(cfg: Config, seen: seq<Found>, j: nat)
    requires AllFound(cfg, seen) && j < cfg.columns
    ensures var s := StatsOf(cfg, seen, j);
      && s.compared == s.matched + s.within + s.differing
      && s.compared == if cfg.InAll(j) then CountFull(cfg, seen) else 0
  {
    hide Judge, Tally;
    if seen != [] {
      ColumnBalances(cfg, seen[..|seen| - 1], j);
      Judged(cfg, seen[|seen| - 1], j);
    }
  }

  lemma {:induction false} SumBalances(stats: seq<Stats>)
    requires forall j :: 0 <= j < |stats| ==>
      stats[j].compared == stats[j].matched + stats[j].within + stats[j].differing
    ensures var s := Sum(stats); s.compared == s.matched + s.within + s.differing
  {
    if stats != [] {
      SumBalances(stats[..|stats| - 1]);
    }
  }

  /** The counters of a collector balance after any number of groups. */
  lemma Conservation(e: Collector)
    requires e.Valid()
    ensures forall i :: 0 <= i < e.cfg.inputs ==> e.inputRowCounts[i] + e.rowsOnlyInInput[i] == |e.seen|
    ensures e.colStats.Length == e.cfg.columns && e.cfg.Wf()
    ensures forall j :: 0 <= j < e.cfg.columns ==>
      && e.colStats[j].compared == e.colStats[j].matched + e.colStats[j].within + e.colStats[j].differing
      && e.colStats[j].compared == if e.cfg.InAll(j) then e.rowsInAll else 0
    ensures e.cells == Sum(e.colStats[..]) && e.cells.compared == e.cells.matched + e.cells.within + e.cells.differing
  {
    hide CountWith, CountWithout, CountFull, StatsOf, Sum, AreRows;
    forall i | 0 <= i < e.cfg.inputs ensures e.inputRowCounts[i] + e.rowsOnlyInInput[i] == |e.seen| {
      SeenOrMissing(e.cfg, e.seen, i);
      assert e.inputRowCounts[..][i] == e.inputRowCounts[i] && e.rowsOnlyInInput[..][i] == e.rowsOnlyInInput[i];
    }
    forall j | 0 <= j < e.cfg.columns ensures
      && e.colStats[j].compared == e.colStats[j].matched + e.colStats[j].within + e.colStats[j].differing
      && e.colStats[j].compared == if e.cfg.InAll(j) then e.rowsInAll else 0
    {
      ColumnBalances(e.cfg, e.seen, j);
      assert e.colStats[..][j] == StatsOf(e.cfg, e.seen, j);
    }
    SumBalances(e.colStats[..]);
  }

  lemma PlusNothing(s: Stats, zero: Stats)
    requires zero == NOTHING
    ensures s.Plus(zero) == s
  {
  }

  lemma SumEmpty()
    ensures Sum([]) == NOTHING
  {
  }

  lemma SumSnoc(stats: seq<Stats>, s: Stats)
    ensures Sum(stats + [s]) == Sum(stats).Plus(s)
  {
    assert (stats + [s])[..|stats|] == stats;
  }

  lemma {:induction false} SumNothing(stats: seq<Stats>, n: nat)
    requires n <= |stats| && forall j :: 0 <= j < |stats| ==> stats[j] == NOTHING
    ensures Sum(stats[..n]) == NOTHING
  {
    hide *;
    SumEmpty();
    if n > 0 {
      PlusNothing(Sum(stats[..n - 1]), stats[n - 1]);
      SumNothing(stats, n - 1);
      SumSnoc(stats[..n - 1], stats[n - 1]);
      assert stats[..n - 1] + [stats[n - 1]] == stats[..n];
    }
  }

  lemma NothingSeen(cfg: Config, stats: seq<Stats>)
    requires cfg.Wf() && |stats| == cfg.columns && forall j :: 0 <= j < |stats| ==> stats[j] == NOTHING
    ensures AllFound(cfg, []) && StatsAre(cfg, [], stats) && AreRows(cfg, [], [])
    ensures (forall i :: CountWith(cfg, [], i) == 0 == CountWithout(cfg, [], i))
    ensures CountFull(cfg, []) == 0 == CountDiff(cfg, [])
  {
  }

  lemma JudgedNot(cfg: Config, g: Found, j: nat)
    requires cfg.Wf() && g.Wf(cfg.inputs) && j < cfg.columns && !(g.Full(cfg.inputs) && cfg.InAll(j))
    ensures Judge(cfg, g, j) == NotCompared
  {
  }

  // ---------------------------------------------------------------------------------------
  // Verdicts and cells, by the rows' own cells
  // ---------------------------------------------------------------------------------------

  /**
   Output column `j` of input `i` is cell out2in[i][j] - 1 of its row, or nothing. Columns of all
   inputs match in a full group if they are keys or all agree with the first input in order, and
   otherwise are within tolerance if it is asked for and all are within it.
   */
  lemma VerdictReads(cfg: Config, g: Found, j: nat)
    requires cfg.Wf() && g.Wf(cfg.inputs) && j < cfg.columns
    ensures
      var text := (i: nat) =>
        if i < cfg.inputs && 0 < cfg.out2in[i][j] <= |g.rows[i]| then g.rows[i][cfg.out2in[i][j] - 1] else [];
      var agree := forall a :: 1 <= a <= g.last ==> !cfg.differ(text(g.order[0]), text(g.order[a]));
      var within := forall a :: 1 <= a <= g.last ==> cfg.within(text(g.order[0]), text(g.order[a]));
      && (Judge(cfg, g, j) == NotCompared <==>
            g.last + 1 < cfg.inputs || exists i :: 0 <= i < cfg.inputs && cfg.out2in[i][j] == 0)
      && (Judge(cfg, g, j) != NotCompared ==>
            && (Judge(cfg, g, j) == Matched <==> cfg.isKey[j] || agree)
            && (Judge(cfg, g, j) == Tolerated <==> !cfg.isKey[j] && !agree && cfg.tolerance && within))
  {
    OrderBound(cfg, g);
    var text := (i: nat) =>
      if i < cfg.inputs && 0 < cfg.out2in[i][j] <= |g.rows[i]| then g.rows[i][cfg.out2in[i][j] - 1] else [];
    assert forall a :: 0 <= a <= g.last ==> text(g.order[a]) == Value(cfg, g, g.order[a], j);
  }

  /**
   A shown difference has the texts of all inputs, by their number; what matched, or is within
   tolerance and not shown, that of the first input in order; and what was not compared, that of
   the first input of the group that has the column.
   */
  lemma CellReads(cfg: Config, g: Found, j: nat, cell: OutputCell)
    requires cfg.Wf() && g.Wf(cfg.inputs) && j < cfg.columns && IsCell(cfg, g, j, cell)
    ensures
      var text := (i: nat) =>
        if i < cfg.inputs && 0 < cfg.out2in[i][j] <= |g.rows[i]| then g.rows[i][cfg.out2in[i][j] - 1] else [];
      match Judge(cfg, g, j)
      case Differing => cell == Diff(seq(cfg.inputs, text), false)
      case Tolerated =>
        cell == if cfg.includeTolerated then Diff(seq(cfg.inputs, text), true) else Scalar(text(g.order[0]), true)
      case Matched => cell == Scalar(text(g.order[0]), false)
      case NotCompared =>
        && cell.Scalar? && !cell.tolerated
        && (forall a | 0 <= a <= g.last && cfg.out2in[g.order[a]][j] != 0 ::
              (forall b :: 0 <= b < a ==> cfg.out2in[g.order[b]][j] == 0) ==> cell.text == text(g.order[a]))
        && ((forall a :: 0 <= a <= g.last ==> cfg.out2in[g.order[a]][j] == 0) ==> cell.text == [])
  {
    hide Judge, Permuted;
    OrderBound(cfg, g);
    var text := (i: nat) =>
      if i < cfg.inputs && 0 < cfg.out2in[i][j] <= |g.rows[i]| then g.rows[i][cfg.out2in[i][j] - 1] else [];
    forall i: nat | i < cfg.inputs ensures text(i) == Value(cfg, g, i, j) {
    }
    if cell.Diff? {
      assert cell.texts == seq(cfg.inputs, text);
    } else if Judge(cfg, g, j) == NotCompared {
      forall a: nat | a <= g.last && cfg.out2in[g.order[a]][j] != 0
          && forall b :: 0 <= b < a ==> cfg.out2in[g.order[b]][j] == 0
        ensures cell.text == text(g.order[a])
      {
        assert FirstWith(cfg, g, j, a);
        assert HasColumn(cfg, g, j, a);
        var a': nat :| FirstWith(cfg, g, j, a') && cell.text == Value(cfg, g, g.order[a'], j);
        assert HasColumn(cfg, g, j, a');
      }
    }
  }

  // ---------------------------------------------------------------------------------------
  // What the counters count
  // ---------------------------------------------------------------------------------------

  /** The groups, by number, of which `p` holds. */
  ghost function Groups(seen: seq<Found>, p: Found -> bool): set<nat> {
    set k: nat | k < |seen| && p(seen[k])
  }

  lemma GroupsSnoc(seen: seq<Found>, p: Found -> bool)
    requires seen != []
    ensures |Groups(seen, p)| == |Groups(seen[..|seen| - 1], p)| + if p(seen[|seen| - 1]) then 1 else 0
  {
    var n := |seen| - 1;
    var before := Groups(seen[..n], p);
    assert forall k: nat :: k in before <==> k < n && p(seen[k]);
    assert Groups(seen, p) == if p(seen[n]) then before + {n} else before;
  }

  ghost function Having(cfg: Config, i: nat): Found -> bool {
    (g: Found) => g.last < |g.order| && exists a :: 0 <= a <= g.last && g.order[a] == i
  }

  ghost function Lacking(cfg: Config, i: nat): Found -> bool {
    (g: Found) => !Having(cfg, i)(g)
  }

  ghost function InEvery(cfg: Config): Found -> bool {
    (g: Found) => g.last + 1 == cfg.inputs
  }

  ghost function JudgedAs(cfg: Config, j: nat, v: Verdict): Found -> bool {
    (g: Found) => cfg.Wf() && g.Wf(cfg.inputs) && j < cfg.columns && Judge(cfg, g, j) == v
  }

  /** A row of some inputs only, or a column that differs, or that is within tolerance and shown. */
  ghost function WithDiff(cfg: Config): Found -> bool {
    (g: Found) =>
      && cfg.Wf() && g.Wf(cfg.inputs)
      && (|| g.last + 1 != cfg.inputs
          || exists j | 0 <= j < cfg.columns ::
               Judge(cfg, g, j) == Differing || (Judge(cfg, g, j) == Tolerated && cfg.includeTolerated))
  }

  lemma {:induction false} RowsCount(cfg: Config, seen: seq<Found>, i: nat)
    requires AllFound(cfg, seen)
    ensures CountWith(cfg, seen, i) == |Groups(seen, Having(cfg, i))|
    ensures CountWithout(cfg, seen, i) == |Groups(seen, Lacking(cfg, i))|
    ensures CountFull(cfg, seen) == |Groups(seen, InEvery(cfg))|
  {
    hide Groups;
    if seen != [] {
      RowsCount(cfg, seen[..|seen| - 1], i);
      GroupsSnoc(seen, Having(cfg, i));
      GroupsSnoc(seen, Lacking(cfg, i));
      GroupsSnoc(seen, InEvery(cfg));
    } else {
      NoGroups(Having(cfg, i));
      NoGroups(Lacking(cfg, i));
      NoGroups(InEvery(cfg));
    }
  }

  lemma NoGroups(p: Found -> bool)
    ensures Groups([], p) == {}
  {
  }

  lemma {:induction false} VerdictsCount(cfg: Config, seen: seq<Found>, j: nat)
    requires AllFound(cfg, seen) && j < cfg.columns
    ensures var s := StatsOf(cfg, seen, j);
      && s.matched == |Groups(seen, JudgedAs(cfg, j, Matched))|
      && s.within == |Groups(seen, JudgedAs(cfg, j, Tolerated))|
      && s.differing == |Groups(seen, JudgedAs(cfg, j, Differing))|
  {
    hide Groups, Judge;
    if seen != [] {
      VerdictsCount(cfg, seen[..|seen| - 1], j);
      GroupsSnoc(seen, JudgedAs(cfg, j, Matched));
      GroupsSnoc(seen, JudgedAs(cfg, j, Tolerated));
      GroupsSnoc(seen, JudgedAs(cfg, j, Differing));
    } else {
      NoGroups(JudgedAs(cfg, j, Matched));
      NoGroups(JudgedAs(cfg, j, Tolerated));
      NoGroups(JudgedAs(cfg, j, Differing));
    }
  }

  lemma {:induction false} DiffsCount(cfg: Config, seen: seq<Found>)
    requires AllFound(cfg, seen)
    ensures CountDiff(cfg, seen) == |Groups(seen, WithDiff(cfg))|
  {
    hide Groups, Judge;
    if seen != [] {
      DiffsCount(cfg, seen[..|seen| - 1]);
      GroupsSnoc(seen, WithDiff(cfg));
      DiffIs(cfg, seen[|seen| - 1]);
    } else {
      NoGroups(WithDiff(cfg));
    }
  }

  lemma DiffIs(cfg: Config, g: Found)
    requires cfg.Wf() && g.Wf(cfg.inputs)
    ensures WithDiff(cfg)(g) <==> HasDiff(cfg, g)
  {
    hide Judge;
  }

  /** Every counter of a collector is the number of the groups that it names. */
  lemma CountersCount(e: Collector)
    requires e.Valid()
    ensures forall i :: 0 <= i < e.cfg.inputs ==>
      && e.inputRowCounts[i] == |Groups(e.seen, Having(e.cfg, i))|
      && e.rowsOnlyInInput[i] == |Groups(e.seen, Lacking(e.cfg, i))|
    ensures e.rowsInAll == |Groups(e.seen, InEvery(e.cfg))| && e.rowsWithDiff == |Groups(e.seen, WithDiff(e.cfg))|
    ensures e.colStats.Length == e.cfg.columns && forall j :: 0 <= j < e.cfg.columns ==>
      && e.colStats[j].matched == |Groups(e.seen, JudgedAs(e.cfg, j, Matched))|
      && e.colStats[j].within == |Groups(e.seen, JudgedAs(e.cfg, j, Tolerated))|
      && e.colStats[j].differing == |Groups(e.seen, JudgedAs(e.cfg, j, Differing))|
  {
    hide CountWith, CountWithout, CountFull, CountDiff, StatsOf, Sum, AreRows, Groups;
    forall i | 0 <= i < e.cfg.inputs
      ensures e.inputRowCounts[i] == |Groups(e.seen, Having(e.cfg, i))|
      ensures e.rowsOnlyInInput[i] == |Groups(e.seen, Lacking(e.cfg, i))|
    {
      RowsCount(e.cfg, e.seen, i);
      assert e.inputRowCounts[..][i] == e.inputRowCounts[i] && e.rowsOnlyInInput[..][i] == e.rowsOnlyInInput[i];
    }
    RowsCount(e.cfg, e.seen, 0);
    DiffsCount(e.cfg, e.seen);
    forall j | 0 <= j < e.cfg.columns
      ensures e.colStats[j].matched == |Groups(e.seen, JudgedAs(e.cfg, j, Matched))|
      ensures e.colStats[j].within == |Groups(e.seen, JudgedAs(e.cfg, j, Tolerated))|
      ensures e.colStats[j].differing == |Groups(e.seen, JudgedAs(e.cfg, j, Differing))|
    {
      VerdictsCount(e.cfg, e.seen, j);
      assert e.colStats[..][j] == StatsOf(e.cfg, e.seen, j);
    }
  }

  /** The groups whose rows are kept: those with a difference, or all. */
  ghost function KeptOnes(cfg: Config): Found -> bool {
    (g: Found) => WithDiff(cfg)(g) || cfg.includeUnchanged
  }

  /** The row of a kept group comes after those of the kept groups before it, and no rows are kept besides. */
  lemma {:induction false} RowOfGroup(cfg: Config, seen: seq<Found>, rows: seq<OutputRow>, k: nat)
    requires AllFound(cfg, seen) && AreRows(cfg, seen, rows) && k < |seen|
    ensures |rows| == |Groups(seen, KeptOnes(cfg))|
    ensures KeptOnes(cfg)(seen[k]) ==>
      && |Groups(seen[..k], KeptOnes(cfg))| < |rows|
      && IsRow(cfg, seen[k], rows[|Groups(seen[..k], KeptOnes(cfg))|])
  {
    hide Groups, HasDiff, IsRow, WithDiff;
    var n := |seen| - 1;
    var g, before := seen[n], seen[..n];
    DiffIs(cfg, g);
    GroupsSnoc(seen, KeptOnes(cfg));
    var front := if Kept(cfg, g) then rows[..|rows| - 1] else rows;
    if before == [] {
      NoGroups(KeptOnes(cfg));
    } else {
      RowOfGroup(cfg, before, front, if k < n then k else 0);
    }
    if k < n {
      assert before[k] == seen[k] && before[..k] == seen[..k];
    }
  }

  /** A kept row is an object just if some input has no row in the group; its cells are those of the columns. */
  lemma RowShows(cfg: Config, g: Found, row: OutputRow)
    requires cfg.Wf() && g.Wf(cfg.inputs) && IsRow(cfg, g, row)
    ensures row.isObject <==> exists i :: 0 <= i < cfg.inputs && !g.Has(i)
    ensures |row.cells| == cfg.columns && forall j :: 0 <= j < cfg.columns ==> IsCell(cfg, g, j, row.cells[j])
  {
    hide IsCell, Permuted;
    OrderBound(cfg, g);
    if row.isObject {
      LastLacking(cfg, g);
    } else {
      forall i: nat | i < cfg.inputs ensures g.Has(i) {
        var a := HasAt(cfg, g, i);
      }
    }
  }

  lemma LastLacking(cfg: Config, g: Found)
    requires g.Wf(cfg.inputs) && !g.Full(cfg.inputs)
    ensures exists i :: 0 <= i < cfg.inputs && !g.Has(i)
  {
    OrderBound(cfg, g);
    var i := g.order[g.last + 1];
    assert !g.Has(i);
  }

  /** The pairs of a group and one of the first `n` columns with verdict `v`. */
  ghost function JudgedCells(cfg: Config, seen: seq<Found>, n: nat, v: Verdict): set<(nat, nat)> {
    set k: nat, j: nat | k < |seen| && j < n && JudgedAs(cfg, j, v)(seen[k]) :: (k, j)
  }

  lemma JudgedCell(cfg: Config, seen: seq<Found>, n: nat, v: Verdict, k: nat, j: nat)
    ensures (k, j) in JudgedCells(cfg, seen, n, v) <==> j < n && k in Groups(seen, JudgedAs(cfg, j, v))
  {
    hide JudgedAs;
  }

  lemma JudgedCellsStep(cfg: Config, seen: seq<Found>, n: nat, v: Verdict)
    ensures |JudgedCells(cfg, seen, n + 1, v)| == |JudgedCells(cfg, seen, n, v)| + |Groups(seen, JudgedAs(cfg, n, v))|
  {
    hide JudgedAs, JudgedCells, Groups;
    var before, all := JudgedCells(cfg, seen, n, v), JudgedCells(cfg, seen, n + 1, v);
    var column := InColumn(Groups(seen, JudgedAs(cfg, n, v)), n);
    forall p: (nat, nat)
      ensures p in all <==> p in before || p in column
      ensures !(p in before && p in column)
    {
      JudgedCell(cfg, seen, n, v, p.0, p.1);
      JudgedCell(cfg, seen, n + 1, v, p.0, p.1);
      assert p == (p.0, p.1);
    }
    assert all == before + column && before !! column;
    InColumnSize(Groups(seen, JudgedAs(cfg, n, v)), n);
  }

  ghost function InColumn(groups: set<nat>, n: nat): set<(nat, nat)> {
    set k | k in groups :: (k, n)
  }

  lemma {:induction false} InColumnSize(groups: set<nat>, n: nat)
    ensures |InColumn(groups, n)| == |groups|
  {
    if groups != {} {
      var k :| k in groups;
      InColumnSize(groups - {k}, n);
      assert InColumn(groups, n) == InColumn(groups - {k}, n) + {(k, n)};
    }
  }

  lemma {:induction false} SumCounts(cfg: Config, seen: seq<Found>, stats: seq<Stats>, n: nat)
    requires AllFound(cfg, seen) && StatsAre(cfg, seen, stats) && n <= |stats|
    ensures var s := Sum(stats[..n]);
      && s.matched == |JudgedCells(cfg, seen, n, Matched)|
      && s.within == |JudgedCells(cfg, seen, n, Tolerated)|
      && s.differing == |JudgedCells(cfg, seen, n, Differing)|
  {
    hide Sum, JudgedCells, StatsOf, Groups;
    if n > 0 {
      SumCounts(cfg, seen, stats, n - 1);
      VerdictsCount(cfg, seen, n - 1);
      JudgedCellsStep(cfg, seen, n - 1, Matched);
      JudgedCellsStep(cfg, seen, n - 1, Tolerated);
      JudgedCellsStep(cfg, seen, n - 1, Differing);
      SumSnoc(stats[..n - 1], stats[n - 1]);
      assert stats[..n - 1] + [stats[n - 1]] == stats[..n];
    } else {
      SumEmpty();
      assert stats[..0] == [];
      NoJudgedCells(cfg, seen, Matched);
      NoJudgedCells(cfg, seen, Tolerated);
      NoJudgedCells(cfg, seen, Differing);
    }
  }

  lemma NoJudgedCells(cfg: Config, seen: seq<Found>, v: Verdict)
    ensures JudgedCells(cfg, seen, 0, v) == {}
  {
  }

  /** The totals are the numbers of pairs of a group and a column with the verdict they name. */
  lemma TotalsCount(e: Collector)
    requires e.Valid()
    ensures e.cells.matched == |JudgedCells(e.cfg, e.seen, e.cfg.columns, Matched)|
    ensures e.cells.within == |JudgedCells(e.cfg, e.seen, e.cfg.columns, Tolerated)|
    ensures e.cells.differing == |JudgedCells(e.cfg, e.seen, e.cfg.columns, Differing)|
  {
    hide CountWith, CountWithout, CountFull, CountDiff, StatsOf, Sum, AreRows, JudgedCells;
    SumCounts(e.cfg, e.seen, e.colStats[..], e.cfg.columns);
    assert e.colStats[..][..e.cfg.columns] == e.colStats[..];
  }

  // ---------------------------------------------------------------------------------------
  // The counters of a whole comparison
  // ---------------------------------------------------------------------------------------

  /** The collector was handed these groups, in order. */
  ghost predicate HandedOver(seen: seq<Found>, groups: seq<Merge.Group>, inputs: nat) {
    && |seen| == |groups|
    && forall t :: 0 <= t < |seen| ==> SameInputs(seen[t], groups[t], inputs)
  }

  ghost predicate SameInputs(g: Found, group: Merge.Group, inputs: nat) {
    && g.Wf(inputs) && g.Full(inputs) == (|group.members| == inputs)
    && forall i :: 0 <= i < inputs ==> (g.Has(i) <==> Merge.HasInput(group.members, i))
  }

  lemma {:induction false} CountsGroups(cfg: Config, seen: seq<Found>, groups: seq<Merge.Group>, i: nat)
    requires AllFound(cfg, seen) && HandedOver(seen, groups, cfg.inputs) && i < cfg.inputs
    ensures CountWith(cfg, seen, i) == Merge.GroupsWith(groups, i)
  {
    if seen != [] {
      var n := |seen| - 1;
      CountsGroups(cfg, seen[..n], groups[..n], i);
      assert SameInputs(seen[n], groups[n], cfg.inputs);
    }
  }

  /** When all groups of a comparison have been collected, each input's counter is the number of its rows. */
  lemma RowCountsAreInputSizes(e: Collector, c: Keys.CellOrder, inputs: seq<seq<Keys.Key>>, groups: seq<Merge.Group>)
    requires e.Valid() && |inputs| == e.cfg.inputs && Merge.IsJoin(c, inputs, groups)
    requires HandedOver(e.seen, groups, e.cfg.inputs)
    ensures forall i :: 0 <= i < e.cfg.inputs ==>
      e.inputRowCounts[i] == |inputs[i]| && e.rowsOnlyInInput[i] == |groups| - |inputs[i]|
  {
    hide CountWith, CountWithout, CountFull, StatsOf, Sum, AreRows, HandedOver, StatsAre;
    forall i | 0 <= i < e.cfg.inputs
      ensures e.inputRowCounts[i] == |inputs[i]| && e.rowsOnlyInInput[i] == |groups| - |inputs[i]|
    {
      CountsGroups(e.cfg, e.seen, groups, i);
      SeenOrMissing(e.cfg, e.seen, i);
      SameNumber(e.seen, groups, e.cfg.inputs);
      assert e.inputRowCounts[..][i] == e.inputRowCounts[i] && e.rowsOnlyInInput[..][i] == e.rowsOnlyInInput[i];
    }
  }

  lemma SameNumber(seen: seq<Found>, groups: seq<Merge.Group>, inputs: nat)
    requires HandedOver(seen, groups, inputs)
    ensures |seen| == |groups|
  {
  }

  // ---------------------------------------------------------------------------------------
  // The merge and the collector together
  // ---------------------------------------------------------------------------------------

  /** The current rows of the inputs; `cells` are the cells of all their rows. */
  function CurrentRows(inputs: seq<Input>, cells: seq<seq<seq<bytes>>>): (r: seq<seq<bytes>>)
    ensures |r| == |inputs|
  {
    seq(|inputs|, i requires 0 <= i < |inputs| =>
      if i < |cells| && 0 < inputs[i].pos <= |cells[i]| then cells[i][inputs[i].pos - 1] else [])
  }

  /** The rows of the group are the ones the collector has before it. */
  ghost predicate Carries(g: Found, group: Merge.Group, cells: seq<seq<seq<bytes>>>) {
    forall m :: m in group.members ==>
      m.input < |cells| == |g.rows| && m.row < |cells[m.input]| && g.rows[m.input] == cells[m.input][m.row]
  }

  /** All cells are there: as many rows of them as keys, for every input. */
  ghost predicate SameShape(inputs: seq<Input>, cells: seq<seq<seq<bytes>>>) {
    |cells| == |inputs| && forall i :: 0 <= i < |inputs| ==> |cells[i]| == |inputs[i].rows|
  }

  /** What the merge hands over is its group. */
  lemma HandsOverGroup(inputs: seq<Input>, order: seq<nat>, last: nat, group: Merge.Group, cells: seq<seq<seq<bytes>>>)
    requires Heads(inputs, order, last, group) && SameShape(inputs, cells)
    ensures var g := Found(order, last, CurrentRows(inputs, cells));
      SameInputs(g, group, |inputs|) && Carries(g, group, cells)
  {
    var g := Found(order, last, CurrentRows(inputs, cells));
    forall i | 0 <= i < |inputs| ensures g.Has(i) <==> Merge.HasInput(group.members, i) {
      if g.Has(i) {
        var a :| 0 <= a <= last && order[a] == i;
        assert group.members[a].input == i;
      }
    }
    forall m | m in group.members
      ensures m.input < |cells| == |g.rows| && m.row < |cells[m.input]| && g.rows[m.input] == cells[m.input][m.row]
    {
      var a :| 0 <= a < |group.members| && group.members[a] == m;
    }
  }

  lemma HandedOverSnoc(seen: seq<Found>, groups: seq<Merge.Group>, g: Found, group: Merge.Group, inputs: nat)
    requires HandedOver(seen, groups, inputs) && SameInputs(g, group, inputs)
    ensures HandedOver(seen + [g], groups + [group], inputs)
  {
    hide SameInputs;
  }

  ghost predicate AllCarried(seen: seq<Found>, groups: seq<Merge.Group>, cells: seq<seq<seq<bytes>>>) {
    |seen| == |groups| && forall t :: 0 <= t < |seen| ==> Carries(seen[t], groups[t], cells)
  }

  lemma AllCarriedSnoc(seen: seq<Found>, groups: seq<Merge.Group>, g: Found,
                       group: Merge.Group, cells: seq<seq<seq<bytes>>>)
    requires AllCarried(seen, groups, cells) && Carries(g, group, cells)
    ensures AllCarried(seen + [g], groups + [group], cells)
  {
    hide Carries;
  }

  lemma NothingHandedOver(inputs: nat, cells: seq<seq<seq<bytes>>>)
    ensures HandedOver([], [], inputs) && AllCarried([], [], cells)
  {
  }

  lemma ShapeKept(inputs: seq<Input>, inputs': seq<Input>, cells: seq<seq<seq<bytes>>>)
    requires RowsOf(inputs) == RowsOf(inputs') && SameShape(inputs, cells)
    ensures SameShape(inputs', cells)
  {
    forall i | 0 <= i < |inputs'| ensures |cells[i]| == |inputs'[i].rows| {
      assert RowsOf(inputs)[i] == RowsOf(inputs')[i];
    }
  }

  lemma ShapeOf(inputs: seq<Input>, keys: seq<seq<Keys.Key>>, cells: seq<seq<seq<bytes>>>)
    requires RowsOf(inputs) == keys && |cells| == |keys| && forall i :: 0 <= i < |keys| ==> |cells[i]| == |keys[i]|
    ensures SameShape(inputs, cells)
  {
    forall i | 0 <= i < |inputs| ensures |cells[i]| == |inputs[i].rows| {
      assert RowsOf(inputs)[i] == keys[i];
    }
  }

  /** One group more, collected if it is printed; marking its rows as used does not change them. */
  method CollectNext(data: Comparison, e: Collector, cells: seq<seq<seq<bytes>>>) returns (status: Compare.Status)
    requires data.Valid() && e.Valid() && data.inputs.Length == e.cfg.inputs && SameShape(data.inputs[..], cells)
    requires HandedOver(e.seen, data.printed, e.cfg.inputs) && AllCarried(e.seen, data.printed, cells)
    modifies data, data.inputs, e, e.inputRowCounts, e.rowsOnlyInInput, e.colStats
    ensures data.Valid() && e.Valid() && SameShape(data.inputs[..], cells)
    ensures RowsOf(data.inputs[..]) == old(RowsOf(data.inputs[..]))
    ensures HandedOver(e.seen, data.printed, e.cfg.inputs) && AllCarried(e.seen, data.printed, cells)
    ensures status == NoMoreInput ==> Merge.IsJoin(data.c, RowsOf(data.inputs[..]), data.groups)
    ensures status == Ok ==>
      Left(RowsOf(data.inputs[..]), UsedOf(data.inputs[..]), data.inputs.Length)
      < old(Left(RowsOf(data.inputs[..]), UsedOf(data.inputs[..]), data.inputs.Length))
  {
    hide *;
    ghost var was, groups, printed := data.inputs[..], data.groups, data.printed;
    PrintedIs(data);
    var last;
    status, last := data.Next();
    PrintedIs(data);
    ShapeKept(was, data.inputs[..], cells);
    if status == Ok {
      ghost var group := data.groups[|data.groups| - 1];
      HeadsSize(data.inputs[..], data.inputsToSort, last, group);
      PrintedSnoc(groups, group, data.requireAllInputs, data.inputs.Length);
      if !data.requireAllInputs || last + 1 == data.inputs.Length {
        var g := Found(data.inputsToSort, last, CurrentRows(data.inputs[..], cells));
        HandsOverGroup(data.inputs[..], data.inputsToSort, last, group, cells);
        GroupFits(g, group, e.cfg.inputs);
        HandedOverSnoc(e.seen, printed, g, group, e.cfg.inputs);
        AllCarriedSnoc(e.seen, printed, g, group, cells);
        e.CollectRow(g);
      } else {
        NothingMore(printed);
      }
    }
  }

  lemma PrintedIs(data: Comparison)
    requires data.Valid()
    ensures data.printed == Printed(data.groups, data.requireAllInputs, data.inputs.Length)
  {
  }

  lemma HeadsSize(inputs: seq<Input>, order: seq<nat>, last: nat, group: Merge.Group)
    requires Heads(inputs, order, last, group)
    ensures |group.members| == last + 1
  {
  }

  lemma GroupFits(g: Found, group: Merge.Group, inputs: nat)
    requires SameInputs(g, group, inputs)
    ensures g.Wf(inputs)
  {
  }

  lemma NothingMore(printed: seq<Merge.Group>)
    ensures printed + [] == printed
  {
  }

  /**
   `compare --redline`: merge the sorted inputs and collect every group that is printed, with
   its own rows. So the counters are those of the join of the inputs.
   */
  method CompareRedline(cfg: Config, c: Keys.CellOrder, requireAllInputs: bool,
                        keys: seq<seq<Keys.Key>>, cells: seq<seq<seq<bytes>>>)
    returns (e: Collector, ghost groups: seq<Merge.Group>)
    requires cfg.Wf() && |keys| == |cells| == cfg.inputs && forall i :: 0 <= i < |keys| ==> |cells[i]| == |keys[i]|
    requires Keys.IsOrder(c) && forall i :: 0 <= i < |keys| ==> Merge.Sorted(c, keys[i])
    ensures e.Valid() && e.cfg == cfg && Merge.IsJoin(c, keys, groups)
    ensures var printed := Printed(groups, requireAllInputs, cfg.inputs);
      HandedOver(e.seen, printed, cfg.inputs) && AllCarried(e.seen, printed, cells)
    ensures !requireAllInputs ==> forall i :: 0 <= i < cfg.inputs ==>
      e.inputRowCounts.Length == e.rowsOnlyInInput.Length == cfg.inputs
      && e.inputRowCounts[i] == |keys[i]| && e.rowsOnlyInInput[i] == |groups| - |keys[i]|
  {
    hide *;
    var data := new Comparison(c, requireAllInputs, keys);
    e := new Collector(cfg);
    var n := cfg.inputs;
    ShapeOf(data.inputs[..], keys, cells);
    NothingHandedOver(n, cells);
    NothingPrinted(data);
    var status := Compare.Status.Ok;
    while status == Ok
      invariant data.Valid() && e.Valid() && fresh(data) && fresh(e) && fresh(data.inputs)
      invariant fresh(e.inputRowCounts) && fresh(e.rowsOnlyInInput) && fresh(e.colStats)
      invariant e.cfg == cfg && data.c == c && data.requireAllInputs == requireAllInputs && data.inputs.Length == n
      invariant RowsOf(data.inputs[..]) == keys && SameShape(data.inputs[..], cells)
      invariant HandedOver(e.seen, data.printed, n) && AllCarried(e.seen, data.printed, cells)
      invariant status == NoMoreInput ==> Merge.IsJoin(c, keys, data.groups)
      decreases if status == Ok then 1 else 0,
                Left(RowsOf(data.inputs[..]), UsedOf(data.inputs[..]), data.inputs.Length)
    {
      status := CollectNext(data, e, cells);
    }
    groups := data.groups;
    PrintedIs(data);
    CountersFit(e);
    if !requireAllInputs {
      PrintedAll(groups, n);
      RowCountsAreInputSizes(e, c, keys, groups);
    }
  }

  lemma NothingPrinted(data: Comparison)
    requires data.Valid() && data.groups == []
    ensures data.printed == []
  {
  }

  lemma CountersFit(e: Collector)
    requires e.Valid()
    ensures e.inputRowCounts.Length == e.rowsOnlyInInput.Length == e.cfg.inputs
  {
  }
}
