/**
 When the parallel count is the serial one, from the file and the guesses alone: the rows of
 the file are dealt out to the guessed chunks.
 */
module Dealing {
  import opened Csv
  import opened CsvFacts
  import opened Chunks
  import opened Count
  import opened Fits
  import Reading

  // ---------------------------------------------------------------------------------------
  // A condition on the file and the guesses alone
  // ---------------------------------------------------------------------------------------

  /** A row after the header starts at `a`, or the file ends there. */
  ghost predicate Boundary(d: Dialect, s: bytes, header: nat, a: nat) {
    a <= |s| && StartsAt(d, s, a, Run(d, s, a).rows) && header < |Run(d, s, a).rows|
  }

  /** The start of a row of the rest of the file is one of the file. */
  lemma StartsInside(d: Dialect, s: bytes, a: nat, lo: nat)
    requires d.Valid() && a <= |s| && StartsAt(d, s, a, Run(d, s, a).rows)
    requires lo <= |Tail(s, a)| && StartsAt(d, Tail(s, a), lo, Run(d, Tail(s, a), lo).rows)
    ensures a + lo <= |s| && StartsAt(d, s, a + lo, Run(d, s, a + lo).rows)
    ensures |Run(d, s, a + lo).rows| >= |Run(d, s, a).rows|
  {
    hide Run, AllLater;
    RunResumes(d, s, a, Run(d, s, a).rows, lo);
    Nothing(a);
    RunPrev(d, s, a + lo);
    RunPrev(d, Tail(s, a), lo);
  }

  lemma EndIsBoundary(d: Dialect, s: bytes, header: nat)
    requires d.Valid() && Ended(d, s) && header < |Rows(d, s)|
    ensures Boundary(d, s, header, |s|)
  {
    hide Run;
    RunWf(d, s, |s|);
    var st := Run(d, s, |s|);
    if st.row != [] {
      ChainedLo(st.row, st.rowAt, st.cellAt, |st.row| - 1);
    }
  }

  /** Row `c` of the rest of the file. */
  lemma RowStarts(d: Dialect, s: bytes, a: nat, c: nat)
    requires d.Valid() && a <= |s| && c < |Rows(d, Tail(s, a))|
    ensures var t := Tail(s, a); var lo := StartOf(Rows(d, t)[c]);
      lo <= |t| && Run(d, t, lo).rows == Rows(d, t)[..c] && StartsAt(d, t, lo, Run(d, t, lo).rows)
  {
    hide Run;
    RunStarts(d, Tail(s, a), |Tail(s, a)|);
  }

  lemma FirstIsBoundary(d: Dialect, s: bytes, header: nat, limit: nat, count: nat, first: nat)
    requires d.Valid() && Ended(d, s) && header < |Rows(d, s)|
    requires CountedTo(Rows(d, s), header + 1, limit, UnfinishedAt(d, s), count, first)
    ensures Boundary(d, s, header, first)
  {
    hide Run, StartsAt;
    EndIsBoundary(d, s, header);
    if header + 1 + count < |Rows(d, s)| {
      assert Tail(s, 0) == s;
      RowStarts(d, s, 0, header + 1 + count);
    }
  }

  lemma WorkerKeepsBoundary(d: Dialect, s: bytes, header: nat, start: nat, end: nat, rows: nat, next: nat)
    requires d.Valid() && Ended(d, s) && header < |Rows(d, s)| && Boundary(d, s, header, start)
    requires Worked(d, s, start, end, rows, next)
    ensures Boundary(d, s, header, next)
  {
    hide Run, StartsAt;
    EndIsBoundary(d, s, header);
    if start < end {
      TailLength(s, start);
      if rows < RowsFrom(d, s, start) {
        RowStarts(d, s, start, rows);
        StartsInside(d, s, start, next - start);
      }
    }
  }

  /** A row end that stands alone at the start of a row is a row. */
  lemma LoneRow(d: Dialect, s: bytes, header: nat, a: nat)
    requires d.Valid() && Boundary(d, s, header, a) && a < |s| && IsNewline(s[a])
    ensures var m := |Run(d, s, a).rows|;
      header < m < |Rows(d, s)| && Rows(d, s)[m] == [Span(a, a)] && |Run(d, s, a + 1).rows| == m + 1
    ensures a + 1 < |s| && s[a + 1] != LF ==> Boundary(d, s, header, a + 1)
  {
    hide Run, Step;
    var st := Run(d, s, a);
    RunUnfolds(d, s, a + 1);
    Reading.EndStepIs(d, st, s[a]);
    assert st.row + [Span(a, a)] == [Span(a, a)];
    RowsGrow(d, s, a + 1, |s|);
  }

  /** Every chunk is counted from the start of a row. */
  lemma {:induction false} ChunksAtRows(d: Dialect, s: bytes, header: nat, limit: nat, first: nat,
                                        guesses: seq<Guess>, parts: seq<Part>, n: nat)
    requires d.Valid() && Ended(d, s) && header < |Rows(d, s)| && Boundary(d, s, header, first)
    requires first > limit || first == |s|
    requires Stitched(d, s, first, guesses, parts) && Tiled(s, limit, guesses) && n < |parts|
    ensures Boundary(d, s, header, parts[n].start)
  {
    hide Rows, Ended, Worked, Boundary;
    assert JoinedAt(d, s, first, guesses, parts, n);
    assert GuessAt(s, limit, guesses, n);
    if n > 0 {
      assert JoinedAt(d, s, first, guesses, parts, n - 1);
      ChunksAtRows(d, s, header, limit, first, guesses, parts, n - 1);
      NextAtRow(d, s, header, parts[n - 1], guesses[n].start, parts[n].start);
    }
  }

  /** From one chunk, as the join left it, to the start of the next. */
  lemma NextAtRow(d: Dialect, s: bytes, header: nat, part: Part, guess: nat, start: nat)
    requires d.Valid() && Ended(d, s) && header < |Rows(d, s)|
    requires Worked(d, s, part.start, part.end, part.rows, part.next) && Boundary(d, s, header, part.start)
    requires guess <= part.end + 1 && AfterBreak(s, guess) && start == Max(guess, part.next)
    ensures Boundary(d, s, header, start)
  {
    hide Rows, Ended, Worked, Boundary;
    WorkerKeepsBoundary(d, s, header, part.start, part.end, part.rows, part.next);
    BoundaryEnded(d, s, header, part.start);
    if part.start == part.end {
      StoodStill(d, s, part.start, part.end, part.rows, part.next);
      if guess == part.end + 1 {
        LoneRow(d, s, header, part.end);
      }
    } else {
      WentPast(d, s, part.start, part.end, part.rows, part.next);
    }
  }

  lemma BoundaryEnded(d: Dialect, s: bytes, header: nat, a: nat)
    requires d.Valid() && Ended(d, s) && Boundary(d, s, header, a)
    ensures a <= |s| && Ended(d, Tail(s, a))
  {
    hide Run, StartsAt;
    TailCounts(d, s, a, Run(d, s, a).rows);
  }

  /** No row after the header is just a row end that is the last byte of a guessed chunk. */
  ghost predicate NoLoneRow(d: Dialect, s: bytes, header: nat, guesses: seq<Guess>) {
    forall m, i | header < m < |Rows(d, s)| && 0 <= i < |guesses| :: !IsLone(Rows(d, s)[m], guesses[i].end)
  }

  predicate IsLone(row: seq<Span>, at: nat) {
    row == [Span(at, at)]
  }

  /** So no last byte is lost. */
  lemma {:induction false} NothingLost(d: Dialect, s: bytes, header: nat, limit: nat, first: nat,
                                       guesses: seq<Guess>, parts: seq<Part>, n: nat)
    requires d.Valid() && Ended(d, s) && header < |Rows(d, s)| && Boundary(d, s, header, first)
    requires first > limit || first == |s|
    requires Stitched(d, s, first, guesses, parts) && Tiled(s, limit, guesses) && n <= |parts|
    requires NoLoneRow(d, s, header, guesses)
    ensures LostBytes(guesses, parts, n) == 0
  {
    hide Rows, Ended, Worked, Boundary, IsLone;
    if n > 0 {
      NothingLost(d, s, header, limit, first, guesses, parts, n - 1);
      var i := n - 1;
      ChunksAtRows(d, s, header, limit, first, guesses, parts, i);
      assert JoinedAt(d, s, first, guesses, parts, i);
      if OneByteLost(guesses, parts, i) {
        if n < |guesses| {
          assert GuessAt(s, limit, guesses, n);
        } else {
          BoundaryEnded(d, s, header, parts[i].start);
          EndsInRowEnd(d, s);
        }
        LoneRow(d, s, header, parts[i].start);
        IsLoneRow(parts[i].start);
      }
    }
  }

  lemma IsLoneRow(at: nat)
    ensures IsLone([Span(at, at)], at)
  {
  }

  /** The parallel count is the serial one unless a row after the header is a lone row end that ends a guessed chunk. */
  lemma SerialUnlessLoneRow(d: Dialect, s: bytes, header: nat, limit: nat, count: nat, first: nat,
                            guesses: seq<Guess>, parts: seq<Part>)
    requires d.Valid() && Ended(d, s) && header < |Rows(d, s)|
    requires CountedTo(Rows(d, s), header + 1, limit, UnfinishedAt(d, s), count, first)
    requires Stitched(d, s, first, guesses, parts) && Tiled(s, limit, guesses) && NoLoneRow(d, s, header, guesses)
    ensures count + Total(parts, |parts|) == |Rows(d, s)| - header - 1
  {
    hide Rows, Ended, CountedTo, Stitched, Tiled, NoLoneRow, Boundary;
    FirstIsBoundary(d, s, header, limit, count, first);
    FirstConserves(d, s, header, limit, count, first);
    TiledCount(d, s, header, limit, count, first, guesses, parts);
    NothingLost(d, s, header, limit, first, guesses, parts, |parts|);
  }

  // ---------------------------------------------------------------------------------------
  // Exactly when, from the file and the guesses alone
  // ---------------------------------------------------------------------------------------

  /** The first row not yet counted, and the byte it starts at. */
  datatype Place = Place(row: nat, at: nat)

  /** After the first row from `from` on that ends at or past `end`. */
  function Stop(rows: seq<seq<Span>>, size: nat, from: nat, end: int): (p: Place)
    requires from <= |rows|
    ensures from <= p.row <= |rows|
    decreases |rows| - from
  {
    if from == |rows| then Place(from, size)
    else if EndOf(rows[from]) < end then Stop(rows, size, from + 1, end)
    else Place(from + 1, if from + 1 < |rows| then StartOf(rows[from + 1]) else size)
  }

  /**
   Where chunk `n` begins when the rows of the file are dealt out in order: each chunk takes them
   up to the first that ends at or past its last byte, a chunk that has nothing before its last
   byte takes none, and if the next chunk is guessed to start after that byte, nobody takes it.
   */
  function Dealt(rows: seq<seq<Span>>, size: nat, header: nat, limit: nat, guesses: seq<Guess>, n: nat): (p: Place)
    requires header < |rows| && n < |guesses|
    ensures p.row <= |rows|
  {
    if n == 0 then Stop(rows, size, header + 1, limit)
    else
      Onward(rows, size, Dealt(rows, size, header, limit, guesses, n - 1), guesses[n - 1].end, guesses[n].start)
  }

  /** From where one chunk begins to where the next one does. */
  function Onward(rows: seq<seq<Span>>, size: nat, p: Place, end: nat, guess: nat): (q: Place)
    requires p.row <= |rows|
    ensures q.row <= |rows|
  {
    if p.at < end then Stop(rows, size, p.row, end)
    else if p.at == end && guess == end + 1 && p.row < |rows| then Place(p.row + 1, p.at + 1)
    else p
  }

  /** Nobody takes the last byte of chunk `n`. */
  predicate LeftOver(rows: seq<seq<Span>>, size: nat, header: nat, limit: nat, guesses: seq<Guess>, n: nat)
    requires header < |rows| && n < |guesses|
  {
    && Dealt(rows, size, header, limit, guesses, n).at == guesses[n].end
    && (n + 1 < |guesses| ==> guesses[n + 1].start == guesses[n].end + 1)
  }

  lemma {:induction false} StopIs(rows: seq<seq<Span>>, size: nat, from: nat, limit: int, count: nat, next: nat)
    requires from <= |rows| && CountedTo(rows, from, limit, size, count, next)
    ensures Stop(rows, size, from, limit) == Place(from + count, next)
    decreases count
  {
    if count > 1 {
      StopIs(rows, size, from + 1, limit, count - 1, next);
    }
  }

  lemma {:induction false} LaterEnds(row: seq<Span>, off: nat)
    ensures |Later(row, off)| == |row|
    ensures row != [] ==> StartOf(Later(row, off)) == StartOf(row) + off && EndOf(Later(row, off)) == EndOf(row) + off
  {
    if |row| > 1 {
      LaterEnds(row[..|row| - 1], off);
    }
  }

  lemma {:induction false} AllLaterAt(rows: seq<seq<Span>>, off: nat, k: nat)
    requires k < |rows|
    ensures AllLater(rows, off)[k] == Later(rows[k], off)
  {
    if k < |rows| - 1 {
      AllLaterAt(rows[..|rows| - 1], off, k);
    }
  }

  /** The rows of the rest of the file are rows of the file. */
  lemma RestOfRows(d: Dialect, s: bytes, a: nat, k: nat)
    requires d.Valid() && a <= |s| && StartsAt(d, s, a, Run(d, s, a).rows) && k < |Rows(d, Tail(s, a))|
    ensures var m, rest := |Run(d, s, a).rows|, Rows(d, Tail(s, a));
      && |Rows(d, s)| == m + |rest|
      && StartOf(Rows(d, s)[m + k]) == a + StartOf(rest[k]) && EndOf(Rows(d, s)[m + k]) == a + EndOf(rest[k])
  {
    hide Run, AllLater, StartsAt, Later;
    var before, rest := Run(d, s, a).rows, Rows(d, Tail(s, a));
    RunResumes(d, s, a, before, |s| - a);
    RunStarts(d, Tail(s, a), |Tail(s, a)|);
    AllLaterAt(rest, a, k);
    LaterEnds(rest[k], a);
  }

  /** What a worker counts, as rows of the whole file. */
  lemma WorkerTakes(d: Dialect, s: bytes, header: nat, start: nat, end: nat, rows: nat, next: nat)
    requires d.Valid() && Boundary(d, s, header, start) && start < end && Worked(d, s, start, end, rows, next)
    ensures |Run(d, s, start).rows| <= |Rows(d, s)|
    ensures CountedTo(Rows(d, s), |Run(d, s, start).rows|, end, |s|, rows, next)
  {
    hide Run, StartsAt;
    var m, rest := |Run(d, s, start).rows|, Rows(d, Tail(s, start));
    TailCounts(d, s, start, Run(d, s, start).rows);
    TailLength(s, start);
    forall k | 0 <= k < |rest|
      ensures StartOf(Rows(d, s)[m + k]) == start + StartOf(rest[k])
      ensures EndOf(Rows(d, s)[m + k]) == start + EndOf(rest[k])
    {
      RestOfRows(d, s, start, k);
    }
    forall k | m <= k < m + rows - 1 ensures EndOf(Rows(d, s)[k]) < end {
      assert EndOf(rest[k - m]) < end - start;
    }
  }

  /** So many rows end before the place. */
  ghost predicate PlaceOf(d: Dialect, s: bytes, header: nat, p: Place) {
    Boundary(d, s, header, p.at) && p.row == |Run(d, s, p.at).rows|
  }

  lemma CountedPlace(d: Dialect, s: bytes, header: nat, from: nat, limit: int, count: nat, next: nat)
    requires d.Valid() && Ended(d, s) && header < from <= |Rows(d, s)|
    requires CountedTo(Rows(d, s), from, limit, |s|, count, next)
    ensures PlaceOf(d, s, header, Place(from + count, next))
  {
    hide Run, StartsAt;
    EndIsBoundary(d, s, header);
    if from + count < |Rows(d, s)| {
      assert Tail(s, 0) == s;
      RowStarts(d, s, 0, from + count);
    }
  }

  /** Whatever the workers did, after the join every chunk starts where the deal says. */
  lemma {:induction false} ChunksAreDealt(d: Dialect, s: bytes, header: nat, limit: nat, count: nat, first: nat,
                                          guesses: seq<Guess>, parts: seq<Part>, n: nat)
    requires d.Valid() && Ended(d, s) && header < |Rows(d, s)|
    requires CountedTo(Rows(d, s), header + 1, limit, UnfinishedAt(d, s), count, first)
    requires Stitched(d, s, first, guesses, parts) && Tiled(s, limit, guesses) && n < |parts|
    ensures var p := Dealt(Rows(d, s), |s|, header, limit, guesses, n);
      PlaceOf(d, s, header, p) && p.at == parts[n].start
  {
    hide Rows, Ended, Worked, PlaceOf, CountedTo, Stop;
    assert JoinedAt(d, s, first, guesses, parts, n);
    assert GuessAt(s, limit, guesses, n);
    FirstConserves(d, s, header, limit, count, first);
    if n == 0 {
      NoneUnfinished(d, s);
      StopIs(Rows(d, s), |s|, header + 1, limit, count, first);
      CountedPlace(d, s, header, header + 1, limit, count, first);
    } else {
      assert JoinedAt(d, s, first, guesses, parts, n - 1);
      ChunksAreDealt(d, s, header, limit, count, first, guesses, parts, n - 1);
      NextDealt(d, s, header, parts[n - 1], guesses[n].start, parts[n].start,
                Dealt(Rows(d, s), |s|, header, limit, guesses, n - 1));
    }
  }

  lemma NextDealt(d: Dialect, s: bytes, header: nat, part: Part, guess: nat, start: nat, p: Place)
    requires d.Valid() && Ended(d, s) && header < |Rows(d, s)|
    requires Worked(d, s, part.start, part.end, part.rows, part.next) && PlaceOf(d, s, header, p) && p.at == part.start
    requires guess <= part.end + 1 && AfterBreak(s, guess) && start == Max(guess, part.next)
    ensures p.row <= |Rows(d, s)|
    ensures var q := Onward(Rows(d, s), |s|, p, part.end, guess); PlaceOf(d, s, header, q) && q.at == start
  {
    hide Run, Ended, Worked, CountedTo, Stop, StartsAt;
    BoundaryEnded(d, s, header, part.start);
    RowsGrow(d, s, part.start, |s|);
    if part.start < part.end {
      WorkerTakes(d, s, header, part.start, part.end, part.rows, part.next);
      WentPast(d, s, part.start, part.end, part.rows, part.next);
      StopIs(Rows(d, s), |s|, p.row, part.end, part.rows, part.next);
      CountedPlace(d, s, header, p.row, part.end, part.rows, part.next);
    } else {
      StoodStill(d, s, part.start, part.end, part.rows, part.next);
      if part.start == part.end && guess == part.end + 1 {
        LoneRow(d, s, header, part.end);
      }
    }
  }

  /** The join loses the last byte of a chunk just when the deal leaves it over. */
  lemma LostIffLeftOver(d: Dialect, s: bytes, header: nat, limit: nat, count: nat, first: nat,
                        guesses: seq<Guess>, parts: seq<Part>, n: nat)
    requires d.Valid() && Ended(d, s) && header < |Rows(d, s)|
    requires CountedTo(Rows(d, s), header + 1, limit, UnfinishedAt(d, s), count, first)
    requires Stitched(d, s, first, guesses, parts) && Tiled(s, limit, guesses) && n < |parts|
    ensures LeftOver(Rows(d, s), |s|, header, limit, guesses, n) == OneByteLost(guesses, parts, n)
  {
    hide Rows, Ended, CountedTo, JoinedAt, Tiled, Dealt, UnfinishedAt;
    ChunksAreDealt(d, s, header, limit, count, first, guesses, parts, n);
    PartEnd(d, s, first, guesses, parts, n);
  }

  /** With tiled guesses the parallel count is the serial one if and only if the deal leaves no byte over. */
  lemma SerialIffNoneLeftOver(d: Dialect, s: bytes, header: nat, limit: nat, count: nat, first: nat,
                              guesses: seq<Guess>, parts: seq<Part>)
    requires d.Valid() && Ended(d, s) && header < |Rows(d, s)|
    requires CountedTo(Rows(d, s), header + 1, limit, UnfinishedAt(d, s), count, first)
    requires Stitched(d, s, first, guesses, parts) && Tiled(s, limit, guesses)
    ensures count + Total(parts, |parts|) == |Rows(d, s)| - header - 1 <==>
            forall n :: 0 <= n < |guesses| ==> !LeftOver(Rows(d, s), |s|, header, limit, guesses, n)
  {
    hide Rows, Ended, CountedTo, JoinedAt, Tiled, Dealt, Total, LeftOver, OneByteLost, UnfinishedAt;
    TiledCount(d, s, header, limit, count, first, guesses, parts);
    forall n | 0 <= n < |guesses|
      ensures LeftOver(Rows(d, s), |s|, header, limit, guesses, n) == OneByteLost(guesses, parts, n)
    {
      LostIffLeftOver(d, s, header, limit, count, first, guesses, parts, n);
    }
    NoneLostIff(guesses, parts, |parts|);
  }

  lemma PartEnd(d: Dialect, s: bytes, first: nat, guesses: seq<Guess>, parts: seq<Part>, n: nat)
    requires Stitched(d, s, first, guesses, parts) && n < |parts|
    ensures |parts| == |guesses| && parts[n].end == guesses[n].end
  {
    hide Worked;
    assert JoinedAt(d, s, first, guesses, parts, n);
  }

  lemma {:induction false} NoneLostIff(guesses: seq<Guess>, parts: seq<Part>, n: nat)
    requires n <= |parts| == |guesses|
    ensures LostBytes(guesses, parts, n) == 0 <==> forall i :: 0 <= i < n ==> !OneByteLost(guesses, parts, i)
  {
    hide OneByteLost;
    if n > 0 {
      NoneLostIff(guesses, parts, n - 1);
    }
  }

  // ---------------------------------------------------------------------------------------
  // Row ends and row starts
  // ---------------------------------------------------------------------------------------

  /** Only a row end lies between a row and the start of the next one. */
  lemma RowEndBefore(d: Dialect, s: bytes, a: nat, before: seq<seq<Span>>)
    requires d.Valid() && StartsAt(d, s, a, before) && before != []
    ensures var at := EndOf(before[|before| - 1]);
      Reading.IsRowEnd(s, at, a) && (a < |s| && s[a] == LF ==> s[a - 1] == LF)
  {
    hide Run;
    RunPrev(d, s, a);
    Reading.RunReads(d, s, a);
  }

  /** Where a row starts follows from how many there are before it. */
  lemma SamePlace(d: Dialect, s: bytes, header: nat, a: nat, b: nat)
    requires d.Valid() && Boundary(d, s, header, a) && Boundary(d, s, header, b)
    requires |Run(d, s, a).rows| == |Run(d, s, b).rows|
    ensures a == b
  {
    hide Run, StartsAt;
    if a < b {
      RowsGrow(d, s, a, b);
    } else {
      RowsGrow(d, s, b, a);
    }
    assert Run(d, s, a).rows == Run(d, s, b).rows;
    RowEndBefore(d, s, a, Run(d, s, a).rows);
    RowEndBefore(d, s, b, Run(d, s, b).rows);
    StartBound(d, s, a, Run(d, s, a).rows);
    StartBound(d, s, b, Run(d, s, b).rows);
  }

  /** A place before the end of the file is the start of a row. */
  lemma PlaceStarts(d: Dialect, s: bytes, header: nat, p: Place)
    requires d.Valid() && Ended(d, s) && PlaceOf(d, s, header, p)
    ensures header < p.row <= |Rows(d, s)| && p.at <= |s|
    ensures p.row < |Rows(d, s)| <==> p.at < |s|
    ensures p.row < |Rows(d, s)| ==> StartOf(Rows(d, s)[p.row]) == p.at
    ensures var last := Rows(d, s)[p.row - 1]; Reading.IsRowEnd(s, EndOf(last), p.at)
  {
    hide Run, StartsAt, Ended;
    RowEndBefore(d, s, p.at, Run(d, s, p.at).rows);
    StartBound(d, s, p.at, Run(d, s, p.at).rows);
    RowsGrow(d, s, p.at, |s|);
    TailCounts(d, s, p.at, Run(d, s, p.at).rows);
    if p.at < |s| {
      SomethingLeft(d, s, p.at);
      StartsInOrder(d, s, header, p);
    } else {
      NothingLeft(d, s, p.at);
    }
  }

  lemma StartsInOrder(d: Dialect, s: bytes, header: nat, p: Place)
    requires d.Valid() && PlaceOf(d, s, header, p) && p.row < |Rows(d, s)|
    ensures StartOf(Rows(d, s)[p.row]) == p.at
  {
    hide Run, StartsAt;
    assert Tail(s, 0) == s;
    RowStarts(d, s, 0, p.row);
    SamePlace(d, s, header, p.at, StartOf(Rows(d, s)[p.row]));
  }

  // ---------------------------------------------------------------------------------------
  // For guesses of any kind
  // ---------------------------------------------------------------------------------------

  /** The chunks lie in the file, leave no byte out, and the last one ends with it; their starts may be anywhere. */
  ghost predicate Covering(s: bytes, limit: nat, guesses: seq<Guess>) {
    && guesses != [] && guesses[|guesses| - 1].end + 1 == |s|
    && forall i :: 0 <= i < |guesses| ==>
      guesses[i].start < |s| && guesses[i].end < |s| && guesses[i].start <= EndBefore(limit, guesses, i) + 1
  }

  /** No row after the header starts at the last byte of a chunk. */
  ghost predicate NoRowAtEnd(d: Dialect, s: bytes, header: nat, guesses: seq<Guess>) {
    forall m, i | header < m < |Rows(d, s)| && 0 <= i < |guesses| :: StartOf(Rows(d, s)[m]) != guesses[i].end
  }

  lemma {:induction false} NoGapYet(d: Dialect, s: bytes, header: nat, limit: nat, first: nat,
                                    guesses: seq<Guess>, parts: seq<Part>, n: nat)
    requires d.Valid() && Ended(d, s) && header < |Rows(d, s)| && Boundary(d, s, header, first)
    requires first > limit || first == |s|
    requires Stitched(d, s, first, guesses, parts) && Covering(s, limit, guesses) && NoRowAtEnd(d, s, header, guesses)
    requires n < |parts|
    ensures Boundary(d, s, header, parts[n].start) && guesses[n].start <= PrevEnd(first, parts, n)
  {
    hide Rows, Ended, Worked, Boundary, NoRowAtEnd;
    assert JoinedAt(d, s, first, guesses, parts, n);
    if n > 0 {
      var part := parts[n - 1];
      assert JoinedAt(d, s, first, guesses, parts, n - 1);
      NoGapYet(d, s, header, limit, first, guesses, parts, n - 1);
      NotAtEnd(d, s, header, guesses, part.start, n - 1);
      BoundaryEnded(d, s, header, part.start);
      WorkerKeepsBoundary(d, s, header, part.start, part.end, part.rows, part.next);
      WentPast(d, s, part.start, part.end, part.rows, part.next);
      if part.start > part.end {
        StoodStill(d, s, part.start, part.end, part.rows, part.next);
      }
    }
  }

  lemma NotAtEnd(d: Dialect, s: bytes, header: nat, guesses: seq<Guess>, a: nat, i: nat)
    requires d.Valid() && Ended(d, s) && Boundary(d, s, header, a) && NoRowAtEnd(d, s, header, guesses) && i < |guesses|
    requires guesses[i].end < |s|
    ensures a != guesses[i].end
  {
    hide Rows, Ended, Boundary;
    BoundaryPlace(d, s, header, a);
    PlaceStarts(d, s, header, Place(|Run(d, s, a).rows|, a));
  }

  lemma BoundaryPlace(d: Dialect, s: bytes, header: nat, a: nat)
    requires Boundary(d, s, header, a)
    ensures a <= |s| && PlaceOf(d, s, header, Place(|Run(d, s, a).rows|, a))
  {
  }

  /** Wherever the guesses lie, the parallel count is the serial one unless a row starts at the last byte of a chunk. */
  lemma SerialUnlessRowAtEnd(d: Dialect, s: bytes, header: nat, limit: nat, count: nat, first: nat,
                             guesses: seq<Guess>, parts: seq<Part>)
    requires d.Valid() && Ended(d, s) && header < |Rows(d, s)|
    requires CountedTo(Rows(d, s), header + 1, limit, UnfinishedAt(d, s), count, first)
    requires Stitched(d, s, first, guesses, parts) && Covering(s, limit, guesses) && NoRowAtEnd(d, s, header, guesses)
    ensures count + Total(parts, |parts|) == |Rows(d, s)| - header - 1
  {
    hide Rows, Ended, CountedTo, JoinedAt, NoRowAtEnd, Boundary, PrevEnd, UnfinishedAt;
    FirstIsBoundary(d, s, header, limit, count, first);
    FirstConserves(d, s, header, limit, count, first);
    forall i | 0 <= i < |parts| ensures guesses[i].start <= PrevEnd(first, parts, i) {
      NoGapYet(d, s, header, limit, first, guesses, parts, i);
    }
    var n := |parts| - 1;
    NoGapYet(d, s, header, limit, first, guesses, parts, n);
    NotAtEnd(d, s, header, guesses, parts[n].start, n);
    ParallelIsSerial(d, s, header, limit, count, first, guesses, parts);
  }

  // ---------------------------------------------------------------------------------------
  // The deal, for guesses as they are made
  // ---------------------------------------------------------------------------------------

  lemma {:induction false} StopCounts(rows: seq<seq<Span>>, size: nat, from: nat, end: int)
    requires from <= |rows|
    ensures var p := Stop(rows, size, from, end); CountedTo(rows, from, end, size, p.row - from, p.at)
    decreases |rows| - from
  {
    if from < |rows| && EndOf(rows[from]) < end {
      StopCounts(rows, size, from + 1, end);
    }
  }

  /** Rows that end before `end` can be skipped. */
  lemma {:induction false} StopSkips(rows: seq<seq<Span>>, size: nat, from: nat, to: nat, end: int)
    requires from <= to <= |rows| && forall k :: from <= k < to ==> EndOf(rows[k]) < end
    ensures Stop(rows, size, from, end) == Stop(rows, size, to, end)
    decreases |rows| - from
  {
    if from < to {
      StopSkips(rows, size, from + 1, to, end);
    }
  }

  /** The byte before `q` ends a CR LF. */
  predicate AfterCrLf(s: bytes, q: nat) {
    2 <= q <= |s| && s[q - 2] == CR && s[q - 1] == LF
  }

  /**
   From one guess to the next: if `p` follows the first row that ends at or past the byte before
   the one, where the deal goes from there follows the first that does so for the other.
   */
  lemma OnwardStops(d: Dialect, s: bytes, header: nat, p: Place, guess: nat, next: nat, end: nat)
    requires d.Valid() && Ended(d, s) && header < |Rows(d, s)| && PlaceOf(d, s, header, p) && p.row <= |Rows(d, s)|
    requires p == Stop(Rows(d, s), |s|, header + 1, guess - 1) && p.row > header + 1
    requires guess <= next && end == Max(guess, next - 1) && AfterBreak(s, next) && !AfterCrLf(s, next)
    ensures Onward(Rows(d, s), |s|, p, end, next) == Stop(Rows(d, s), |s|, header + 1, next - 1)
  {
    hide Run, Ended, Stop, PlaceOf;
    var rows: seq<seq<Span>> := Rows(d, s);
    PlaceStarts(d, s, header, p);
    StopCounts(rows, |s|, header + 1, guess - 1);
    var q := p.row - 1;
    if p.at < end {
      StopSkips(rows, |s|, header + 1, p.row, next - 1);
    } else if p.at == end && next == end + 1 {
      StopSkips(rows, |s|, header + 1, p.row, next - 1);
      AtLoneRow(d, s, header, p);
    } else {
      StopSkips(rows, |s|, header + 1, q, next - 1);
      StopHere(rows, |s|, q, next - 1);
    }
  }

  lemma StopHere(rows: seq<seq<Span>>, size: nat, k: nat, end: int)
    requires k < |rows| && (EndOf(rows[k]) >= end || k + 1 == |rows|)
    ensures Stop(rows, size, k, end) == Place(k + 1, if k + 1 < |rows| then StartOf(rows[k + 1]) else size)
  {
  }

  /** A lone row end before another byte is passed by one byte. */
  lemma AtLoneRow(d: Dialect, s: bytes, header: nat, p: Place)
    requires d.Valid() && Ended(d, s) && PlaceOf(d, s, header, p) && AfterBreak(s, p.at + 1)
    ensures p.row < |Rows(d, s)| && Stop(Rows(d, s), |s|, p.row, p.at) == Place(p.row + 1, p.at + 1)
  {
    hide Run, Ended, Boundary, Stop;
    LoneRow(d, s, header, p.at);
    var rows: seq<seq<Span>> := Rows(d, s);
    StopHere(rows, |s|, p.row, p.at);
    PlaceStarts(d, s, header, Place(p.row + 1, p.at + 1));
  }

  /** Guess `i` starts no earlier than the one before, which ends right before it or with its own first byte. */
  ghost predicate Follows(guesses: seq<Guess>, i: nat)
    requires i < |guesses|
  {
    i > 0 ==>
      && guesses[i - 1].start <= guesses[i].start
      && guesses[i - 1].end == Max(guesses[i - 1].start, guesses[i].start - 1)
  }

  /**
   The guesses follow one another and the main parser's chunk, which starts with the header's end;
   none starts after a CR LF.
   */
  ghost predicate InLine(d: Dialect, s: bytes, header: nat, limit: nat, guesses: seq<Guess>)
    requires header < |Rows(d, s)|
  {
    && guesses != [] && limit == Max(EndOf(Rows(d, s)[header]), guesses[0].start - 1)
    && forall i :: 0 <= i < |guesses| ==> Follows(guesses, i) && !AfterCrLf(s, guesses[i].start)
  }

  /** No row after the header ends before the header does, so a smaller limit stops the main parser at the same row. */
  lemma FirstStops(d: Dialect, s: bytes, header: nat, limit: nat, guess: nat)
    requires d.Valid() && header < |Rows(d, s)| && limit == Max(EndOf(Rows(d, s)[header]), guess - 1)
    ensures Stop(Rows(d, s), |s|, header + 1, limit) == Stop(Rows(d, s), |s|, header + 1, guess - 1)
  {
    hide Run, Stop;
    var rows: seq<seq<Span>> := Rows(d, s);
    if header + 1 < |rows| && limit > guess - 1 {
      assert Tail(s, 0) == s;
      CountSplits(d, s, 0, header + 1);
      RowsMeasured(d, s, |s|, header + 1);
      StopHere(rows, |s|, header + 1, limit);
      StopHere(rows, |s|, header + 1, guess - 1);
    } else if header + 1 == |rows| {
      StopAtEnd(rows, |s|, limit);
      StopAtEnd(rows, |s|, guess - 1);
    }
  }

  lemma StopAtEnd(rows: seq<seq<Span>>, size: nat, end: int)
    ensures Stop(rows, size, |rows|, end) == Place(|rows|, size)
  {
  }

  /** Chunk `n` begins after the first row that ends at or past the byte before its guess. */
  lemma {:induction false} DealtDirectly(d: Dialect, s: bytes, header: nat, limit: nat, guesses: seq<Guess>, n: nat)
    requires d.Valid() && Ended(d, s) && header < |Rows(d, s)| && n < |guesses|
    requires Tiled(s, limit, guesses) && InLine(d, s, header, limit, guesses)
    ensures var p := Dealt(Rows(d, s), |s|, header, limit, guesses, n);
      p == Stop(Rows(d, s), |s|, header + 1, guesses[n].start - 1) && PlaceOf(d, s, header, p)
  {
    hide Rows, Ended, Stop, PlaceOf, AfterBreak, Onward, AfterCrLf;
    assert GuessAt(s, limit, guesses, n);
    StopPlace(d, s, header, guesses[n].start);
    if n == 0 {
      FirstStops(d, s, header, limit, guesses[0].start);
    } else {
      DealtDirectly(d, s, header, limit, guesses, n - 1);
      assert Follows(guesses, n) && GuessAt(s, limit, guesses, n - 1);
      var p := Dealt(Rows(d, s), |s|, header, limit, guesses, n - 1);
      DealtNext(d, s, header, p, guesses[n - 1].start, guesses[n].start, guesses[n - 1].end);
    }
  }

  lemma StopPlace(d: Dialect, s: bytes, header: nat, guess: nat)
    requires d.Valid() && Ended(d, s) && header < |Rows(d, s)|
    ensures PlaceOf(d, s, header, Stop(Rows(d, s), |s|, header + 1, guess - 1))
  {
    hide Rows, Ended, PlaceOf, Stop, CountedTo;
    var p := Stop(Rows(d, s), |s|, header + 1, guess - 1);
    StopCounts(Rows(d, s), |s|, header + 1, guess - 1);
    CountedPlace(d, s, header, header + 1, guess - 1, p.row - header - 1, p.at);
  }

  lemma DealtNext(d: Dialect, s: bytes, header: nat, p: Place, guess: nat, next: nat, end: nat)
    requires d.Valid() && Ended(d, s) && header < |Rows(d, s)| && PlaceOf(d, s, header, p) && p.row <= |Rows(d, s)|
    requires p == Stop(Rows(d, s), |s|, header + 1, guess - 1) && AfterBreak(s, guess)
    requires guess <= next && end == Max(guess, next - 1) && AfterBreak(s, next) && !AfterCrLf(s, next)
    ensures Onward(Rows(d, s), |s|, p, end, next) == Stop(Rows(d, s), |s|, header + 1, next - 1)
  {
    hide Run, Ended, PlaceOf, Stop;
    if header + 1 < |Rows(d, s)| {
      StopCounts(Rows(d, s), |s|, header + 1, guess - 1);
      OnwardStops(d, s, header, p, guess, next, end);
    } else {
      StopAtEnd(Rows(d, s), |s|, guess - 1);
      StopAtEnd(Rows(d, s), |s|, next - 1);
    }
  }

  /**
   Row `m` is just a row end, which is the last byte of the chunk, and the row before it is the
   first after the header to end at or past the byte before the chunk.
   */
  ghost predicate LoneAfter(rows: seq<seq<Span>>, header: nat, guess: Guess, m: nat) {
    && header + 1 < m < |rows| && IsLone(rows[m], guess.end)
    && EndOf(rows[m - 1]) >= guess.start - 1 && forall k :: header < k < m - 1 ==> EndOf(rows[k]) < guess.start - 1
  }

  /**
   Nobody takes the last byte of chunk `n` just when it is a row of its own, and the row before
   that one is the first to end at or past the byte before the chunk.
   */
  lemma LeftOverIff(d: Dialect, s: bytes, header: nat, limit: nat, guesses: seq<Guess>, n: nat)
    requires d.Valid() && Ended(d, s) && header < |Rows(d, s)| && n < |guesses|
    requires Tiled(s, limit, guesses) && InLine(d, s, header, limit, guesses)
    ensures LeftOver(Rows(d, s), |s|, header, limit, guesses, n) <==>
            exists m: nat :: LoneAfter(Rows(d, s), header, guesses[n], m)
  {
    hide Rows, Ended, Stop, Dealt, PlaceOf, Boundary, LoneAfter, Tiled;
    DealtDirectly(d, s, header, limit, guesses, n);
    var p := Dealt(Rows(d, s), |s|, header, limit, guesses, n);
    if LeftOver(Rows(d, s), |s|, header, limit, guesses, n) {
      LastByteIsBreak(d, s, header, limit, guesses, n, p);
      StopsBeforeLone(d, s, header, guesses[n], p);
    }
    if m: nat :| LoneAfter(Rows(d, s), header, guesses[n], m) {
      LoneStops(d, s, header, guesses[n], m);
      LoneIsBreak(d, s, header, guesses[n], m);
      FollowedBy(s, limit, guesses, n);
    }
  }

  lemma StopsBeforeLone(d: Dialect, s: bytes, header: nat, guess: Guess, p: Place)
    requires d.Valid() && Ended(d, s) && header < |Rows(d, s)| && PlaceOf(d, s, header, p)
    requires p == Stop(Rows(d, s), |s|, header + 1, guess.start - 1) && p.at == guess.end < |s| && IsNewline(s[p.at])
    ensures LoneAfter(Rows(d, s), header, guess, p.row)
  {
    hide Run, Ended, Stop, Boundary;
    StopCounts(Rows(d, s), |s|, header + 1, guess.start - 1);
    LoneRow(d, s, header, p.at);
  }

  lemma LoneStops(d: Dialect, s: bytes, header: nat, guess: Guess, m: nat)
    requires header < |Rows(d, s)| && LoneAfter(Rows(d, s), header, guess, m)
    ensures Stop(Rows(d, s), |s|, header + 1, guess.start - 1) == Place(m, guess.end)
  {
    hide Run, Stop;
    StopSkips(Rows(d, s), |s|, header + 1, m - 1, guess.start - 1);
    StopHere(Rows(d, s), |s|, m - 1, guess.start - 1);
  }

  lemma LastByteIsBreak(d: Dialect, s: bytes, header: nat, limit: nat, guesses: seq<Guess>, n: nat, p: Place)
    requires d.Valid() && Ended(d, s) && n < |guesses| && Tiled(s, limit, guesses)
    requires PlaceOf(d, s, header, p) && p.at == guesses[n].end
    requires n + 1 < |guesses| ==> guesses[n + 1].start == guesses[n].end + 1
    ensures p.at < |s| && IsNewline(s[p.at])
  {
    hide Run, Ended, StartsAt;
    if n + 1 < |guesses| {
      assert GuessAt(s, limit, guesses, n + 1);
    } else {
      BoundaryEnded(d, s, header, p.at);
      EndsInRowEnd(d, s);
    }
  }

  lemma LoneIsBreak(d: Dialect, s: bytes, header: nat, guess: Guess, m: nat)
    requires d.Valid() && LoneAfter(Rows(d, s), header, guess, m)
    ensures guess.end < |s| && IsNewline(s[guess.end])
  {
    hide Run;
    Reading.RowsTileTheStream(d, s);
    Reading.RowAtEnd(d, s, Rows(d, s), Run(d, s, |s|).rowAt, m);
  }

  /** A chunk that ends with a line break is followed by the next one. */
  lemma FollowedBy(s: bytes, limit: nat, guesses: seq<Guess>, n: nat)
    requires n < |guesses| && Tiled(s, limit, guesses) && forall i :: 0 <= i < |guesses| ==> Follows(guesses, i)
    requires guesses[n].end < |s| && IsNewline(s[guesses[n].end])
    ensures n + 1 < |guesses| ==> guesses[n + 1].start == guesses[n].end + 1
  {
    if n + 1 < |guesses| {
      assert GuessAt(s, limit, guesses, n + 1) && Follows(guesses, n + 1);
    }
  }
}
