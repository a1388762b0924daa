/**
 Counting rows in parallel: workers start at guessed offsets, and the join replaces the work
 of every worker whose guess was not the start of a row.

 A parser that starts at byte `a` is taken to find the rows `Rows(d, Tail(s, a))`. That
 supposes that every row of the file is shorter than the parser's buffer; `Jobs` has the proof.
 */
module Count {
  import opened Csv
  import opened CsvFacts
  import opened Chunks
  import Reading

  // ---------------------------------------------------------------------------------------
  // Starting over in the middle of a stream
  // ---------------------------------------------------------------------------------------

  function Later(row: seq<Span>, off: nat): seq<Span> {
    if row == [] then []
    else
      var last := row[|row| - 1];
      Later(row[..|row| - 1], off) + [Span(last.lo + off, last.hi + off)]
  }

  function AllLater(rows: seq<seq<Span>>, off: nat): (r: seq<seq<Span>>)
    ensures |r| == |rows|
  {
    if rows == [] then [] else AllLater(rows[..|rows| - 1], off) + [Later(rows[|rows| - 1], off)]
  }

  lemma LaterSnoc(row: seq<Span>, span: Span, off: nat)
    ensures Later(row + [span], off) == Later(row, off) + [Span(span.lo + off, span.hi + off)]
  {
    assert (row + [span])[..|row|] == row;
  }

  lemma AllLaterSnoc(rows: seq<seq<Span>>, row: seq<Span>, off: nat)
    ensures AllLater(rows + [row], off) == AllLater(rows, off) + [Later(row, off)]
  {
    assert (rows + [row])[..|rows|] == rows;
  }

  /** The state `st` of a run over a suffix, `full` that over the whole stream. */
  ghost predicate Resumed(full: State, st: State, a: nat, before: seq<seq<Span>>) {
    && full.pos == st.pos + a && full.q == st.q && full.cellAt == st.cellAt + a && full.rowAt == st.rowAt + a
    && full.row == Later(st.row, a) && full.rows == before + AllLater(st.rows, a)
  }

  lemma ResumedStep(d: Dialect, full: State, st: State, a: nat, before: seq<seq<Span>>, b: byte)
    requires Resumed(full, st, a, before) && (b == LF ==> (full.prev == CR <==> st.prev == CR))
    requires st.cellAt <= st.pos
    ensures Resumed(Step(d, full, b), Step(d, st, b), a, before)
  {
    hide Feed, Later, AllLater;
    var span := Span(st.cellAt, st.pos);
    LaterSnoc(st.row, span, a);
    AllLaterSnoc(st.rows, st.row + [span], a);
    Nothing(a);
    assert before + (AllLater(st.rows, a) + [Later(st.row + [span], a)])
        == before + AllLater(st.rows, a) + [Later(st.row + [span], a)];
  }

  lemma Nothing(off: nat)
    ensures Later([], off) == [] && AllLater([], off) == []
  {
  }

  /** From the start of a row on, the machine started afresh reads what it reads in the whole stream. */
  lemma {:induction false} RunResumes(d: Dialect, s: bytes, a: nat, before: seq<seq<Span>>, p: nat)
    requires d.Valid() && StartsAt(d, s, a, before) && a + p <= |s|
    ensures Resumed(Run(d, s, a + p), Run(d, s[a..], p), a, before)
  {
    hide Step;
    if p == 0 {
      Nothing(a);
    } else {
      RunResumes(d, s, a, before, p - 1);
      RunPrev(d, s, a + p - 1);
      RunPrev(d, s[a..], p - 1);
      RunChained(d, s[a..], p - 1);
      ResumedStep(d, Run(d, s, a + p - 1), Run(d, s[a..], p - 1), a, before, s[a + p - 1]);
    }
  }

  // ---------------------------------------------------------------------------------------
  // Where rows start
  // ---------------------------------------------------------------------------------------

  /** All rows so far, and the one in progress once its first byte is read, start afresh. */
  ghost predicate StartsKnown(d: Dialect, s: bytes, st: State) {
    && (forall r :: 0 <= r < |st.rows| ==> st.rows[r] != [] && StartsAt(d, s, st.rows[r][0].lo, st.rows[..r]))
    && (st.rowAt < st.pos ==> StartsAt(d, s, st.rowAt, st.rows))
  }

  /** The row in progress, if its first byte is `s[p]`. */
  lemma RowOpens(d: Dialect, s: bytes, p: nat)
    requires d.Valid() && p < |s| && StartsKnown(d, s, Run(d, s, p))
    ensures var st := Run(d, s, p);
      StartsAt(d, s, st.rowAt, st.rows) || (st.q.mode != Open && st.prev == CR && s[p] == LF)
  {
    hide Run;
    RunWf(d, s, p);
    var st := Run(d, s, p);
    if st.row != [] {
      ChainedLo(st.row, st.rowAt, st.cellAt, |st.row| - 1);
    }
  }

  lemma {:induction false} RunStarts(d: Dialect, s: bytes, p: nat)
    requires d.Valid() && p <= |s|
    ensures StartsKnown(d, s, Run(d, s, p))
  {
    hide Run, StartsAt, Chained;
    RunUnfolds(d, s, p);
    if p > 0 {
      RunStarts(d, s, p - 1);
      RunChained(d, s, p - 1);
      RowOpens(d, s, p - 1);
      StartsStep(d, s, p - 1, Run(d, s, p - 1));
    }
  }

  lemma RunUnfolds(d: Dialect, s: bytes, p: nat)
    requires p <= |s|
    ensures Run(d, s, p) == if p == 0 then INIT else Step(d, Run(d, s, p - 1), s[p - 1])
  {
  }

  lemma StartsStep(d: Dialect, s: bytes, p: nat, st: State)
    requires d.Valid() && p < |s| && StartsKnown(d, s, st) && st.pos == p && st.rowAt <= st.cellAt <= p
    requires Chained(st.row, st.rowAt, st.cellAt)
    requires StartsAt(d, s, st.rowAt, st.rows) || (st.q.mode != Open && st.prev == CR && s[p] == LF)
    ensures StartsKnown(d, s, Step(d, st, s[p]))
  {
    hide StartsAt, Feed;
    var st' := Step(d, st, s[p]);
    if |st'.rows| > |st.rows| {
      var last := st.row + [Span(st.cellAt, p)];
      assert st'.rows == st.rows + [last] && last[0].lo == st.rowAt;
      forall r | 0 <= r < |st'.rows| ensures st'.rows[r] != [] && StartsAt(d, s, st'.rows[r][0].lo, st'.rows[..r]) {
        assert st'.rows[..r] == st.rows[..r];
        if r == |st.rows| {
          assert st.rows[..r] == st.rows;
        }
      }
    }
  }

  // ---------------------------------------------------------------------------------------
  // Counting from an offset
  // ---------------------------------------------------------------------------------------

  /** The bytes a worker reads after seeking to `a`. */
  function Tail(s: bytes, a: nat): bytes {
    if a <= |s| then s[a..] else []
  }

  /** The number of rows a parse finds that starts at byte `a`. */
  function RowsFrom(d: Dialect, s: bytes, a: nat): nat {
    |Rows(d, Tail(s, a))|
  }

  /** Where the row starts that is unfinished at the end of the stream. */
  function UnfinishedAt(d: Dialect, s: bytes): nat {
    Run(d, s, |s|).rowAt
  }

  /** The stream ends with a row end outside quotes. */
  ghost predicate Ended(d: Dialect, s: bytes) {
    UnfinishedAt(d, s) == |s|
  }

  lemma NoneUnfinished(d: Dialect, s: bytes)
    requires Ended(d, s)
    ensures UnfinishedAt(d, s) == |s|
  {
  }

  /** Rows from the start of a row on are those of the whole stream less those before it. */
  lemma TailCounts(d: Dialect, s: bytes, a: nat, before: seq<seq<Span>>)
    requires d.Valid() && StartsAt(d, s, a, before)
    ensures |Rows(d, s)| == |before| + RowsFrom(d, s, a)
    ensures Ended(d, s) <==> Ended(d, Tail(s, a))
  {
    hide Run, StartsAt;
    StartBound(d, s, a, before);
    RunResumes(d, s, a, before, |s| - a);
  }

  lemma StartBound(d: Dialect, s: bytes, a: nat, before: seq<seq<Span>>)
    requires StartsAt(d, s, a, before)
    ensures a <= |s|
  {
  }

  lemma TailTail(s: bytes, a: nat, b: nat)
    requires a <= |s| && b <= |s| - a
    ensures Tail(Tail(s, a), b) == Tail(s, a + b)
  {
  }

  /** The stream's row `c` starts after all bytes of the rows before it, and the count splits there. */
  lemma CountSplits(d: Dialect, s: bytes, a: nat, c: nat)
    requires d.Valid() && a <= |s| && c < RowsFrom(d, s, a)
    ensures var rows := Rows(d, Tail(s, a));
      && rows[c] != [] && a + rows[c][0].lo <= |s|
      && c + RowsFrom(d, s, a + rows[c][0].lo) == RowsFrom(d, s, a)
      && (Ended(d, Tail(s, a)) ==> Ended(d, Tail(s, a + rows[c][0].lo)))
      && (c > 0 ==> rows[c - 1] != [] && rows[c - 1][|rows[c - 1]| - 1].hi < rows[c][0].lo)
  {
    hide Run, StartsAt;
    var t := Tail(s, a);
    RunStarts(d, t, |t|);
    var rows: seq<seq<Span>> := Rows(d, t);
    assert StartsAt(d, t, rows[c][0].lo, rows[..c]);
    StartBound(d, t, rows[c][0].lo, rows[..c]);
    TailCounts(d, t, rows[c][0].lo, rows[..c]);
    TailTail(s, a, rows[c][0].lo);
    if c > 0 {
      RowsBefore(d, t, rows[c][0].lo, rows[..c]);
    }
  }

  lemma RowsBefore(d: Dialect, s: bytes, a: nat, before: seq<seq<Span>>)
    requires d.Valid() && StartsAt(d, s, a, before) && before != []
    ensures var last := before[|before| - 1]; last != [] && last[|last| - 1].hi < a
  {
    hide Run, Scan;
    RunWf(d, s, a);
  }

  lemma NothingLeft(d: Dialect, s: bytes, a: nat)
    requires a >= |s|
    ensures RowsFrom(d, s, a) == 0 && Ended(d, Tail(s, a))
  {
  }

  // ---------------------------------------------------------------------------------------
  // One worker
  // ---------------------------------------------------------------------------------------

  /** A worker's part of the file; `end` is the offset of its last byte. */
  class Chunk {
    var start: nat
    var end: nat
    var rows: nat    // rows counted
    var next: nat    // where the next chunk should start

    constructor (start: nat, end: nat)
      ensures this.start == start && this.end == end && rows == 0 && next == 0
    {
      this.start, this.end, rows, next := start, end, 0, 0;
    }
  }

  /** The offset of the byte that ends the row. */
  function EndOf(row: seq<Span>): nat {
    if row == [] then 0 else row[|row| - 1].hi
  }

  function StartOf(row: seq<Span>): nat {
    if row == [] then 0 else row[0].lo
  }

  /**
   `count` rows of `rows[from..]` were counted: all up to the first that ends at or past
   `limit`. `next` is where the row after it starts, or else the offset `eof`.
   */
  ghost predicate CountedTo(rows: seq<seq<Span>>, from: nat, limit: int, eof: nat, count: nat, next: nat)
    requires from <= |rows|
  {
    && from + count <= |rows|
    && (forall k :: from <= k < from + count - 1 ==> EndOf(rows[k]) < limit)
    && (from + count < |rows| ==>
          count > 0 && EndOf(rows[from + count - 1]) >= limit && next == StartOf(rows[from + count]))
    && (from + count == |rows| ==> next == eof)
  }

  /**
   What a worker for start..end leaves behind. It counts the rows its scan delivers, without the
   unfinished one that zsv_finish() would add.
   */
  ghost predicate Worked(d: Dialect, s: bytes, start: nat, end: nat, rows: nat, next: nat) {
    if start >= end then rows == 0 && next == start
    else next >= start && CountedTo(Rows(d, Tail(s, start)), 0, end - start, |Tail(s, start)|, rows, next - start)
  }

  /** Parse from the chunk's start until a row has ended at or past its limit and the next one is complete. */
  method ProcessChunk(d: Dialect, s: bytes, c: Chunk)
    modifies c
    ensures c.start == old(c.start) && c.end == old(c.end)
    ensures Worked(d, s, c.start, c.end, c.rows, c.next)
  {
    hide Run;
    c.rows := 0;
    if c.start >= c.end {
      c.next := c.start;
      return;
    }
    var limit := c.end - c.start;
    var tail := Tail(s, c.start);
    var rows := Rows(d, tail);
    var done, cancelled, i := false, false, 0;
    while i < |rows| && !cancelled
      invariant c.rows <= i <= |rows| && c.start == old(c.start) && c.end == old(c.end)
      invariant forall k :: 0 <= k < c.rows - 1 ==> EndOf(rows[k]) < limit
      invariant cancelled ==> done && c.rows == i - 1 && c.next == c.start + StartOf(rows[i - 1])
      invariant !cancelled ==> c.rows == i
      invariant done ==> 0 < c.rows <= |rows| && EndOf(rows[c.rows - 1]) >= limit
      invariant !done && i > 0 ==> EndOf(rows[i - 1]) < limit
    {
      if done { // worker_row_done
        c.next := c.start + StartOf(rows[i]);
        cancelled := true;
      } else { // worker_row
        c.rows := c.rows + 1;
        if EndOf(rows[i]) >= limit {
          done := true;
        }
      }
      i := i + 1;
    }
    if !cancelled {
      c.next := c.start + |tail|;
    }
  }

  /** A worker's count and the rows from where it stopped make up the rows from where it started. */
  lemma WorkerConserves(d: Dialect, s: bytes, start: nat, end: nat, rows: nat, next: nat)
    requires d.Valid() && Worked(d, s, start, end, rows, next) && Ended(d, Tail(s, start)) && start <= |s|
    ensures rows + RowsFrom(d, s, next) == RowsFrom(d, s, start)
    ensures Ended(d, Tail(s, next)) && next <= |s|
    ensures start < end ==> next > end || next == |s|
  {
    hide Rows, Ended, Tail;
    if start < end {
      if rows < RowsFrom(d, s, start) {
        CountSplits(d, s, start, rows);
      } else {
        TailLength(s, start);
        NothingLeft(d, s, next);
      }
    }
  }

  /**
   In bytes of the file: all rows a worker counts but the last end before the last byte of its
   chunk, and unless the file ends first the last one ends there or later; the row after it is next.
   */
  lemma WorkerStops(d: Dialect, s: bytes, start: nat, end: nat, rows: nat, next: nat)
    requires d.Valid() && Worked(d, s, start, end, rows, next) && start <= |s|
    ensures start >= end ==> rows == 0 && next == start
    ensures start < end ==>
      var all := Rows(d, s[start..]);
      && rows <= |all| && (forall k :: 0 <= k < |all| ==> all[k] != [])
      && (forall k :: 0 <= k < rows - 1 ==> start + all[k][|all[k]| - 1].hi < end)
      && (if rows == |all| then next == |s|
          else rows > 0 && start + all[rows - 1][|all[rows - 1]| - 1].hi >= end && next == start + all[rows][0].lo)
  {
    hide Run, StartsAt;
    RunStarts(d, Tail(s, start), |Tail(s, start)|);
  }

  lemma TailLength(s: bytes, a: nat)
    requires a <= |s|
    ensures |Tail(s, a)| == |s| - a
  {
  }

  // ---------------------------------------------------------------------------------------
  // Stitching the chunks together
  // ---------------------------------------------------------------------------------------

  /** A chunk as the join leaves it. */
  datatype Part = Part(start: nat, end: nat, rows: nat, next: nat)

  /** Where the predecessor of chunk `i` stopped; `first` is where the main parser did. */
  function PrevEnd(first: nat, parts: seq<Part>, i: nat): nat
    requires i <= |parts|
  {
    if i == 0 then first else parts[i - 1].next
  }

  function Total(parts: seq<Part>, n: nat): nat
    requires n <= |parts|
  {
    if n == 0 then 0 else Total(parts, n - 1) + parts[n - 1].rows
  }

  /** Chunk `i` was left with just its last byte, and no later chunk starts there. */
  predicate OneByteLost(guesses: seq<Guess>, parts: seq<Part>, i: nat)
    requires i < |parts| == |guesses|
  {
    parts[i].start == parts[i].end && (i + 1 < |guesses| ==> guesses[i + 1].start == parts[i].end + 1)
  }

  /** How many of the first `n` chunks were. */
  function LostBytes(guesses: seq<Guess>, parts: seq<Part>, n: nat): nat
    requires n <= |parts| == |guesses|
  {
    if n == 0 then 0 else LostBytes(guesses, parts, n - 1) + if OneByteLost(guesses, parts, n - 1) then 1 else 0
  }

  /** Chunk `i` was worked on from its guessed start, or again from where its predecessor stopped. */
  ghost predicate JoinedAt(d: Dialect, s: bytes, first: nat, guesses: seq<Guess>, parts: seq<Part>, i: nat)
    requires i < |parts| == |guesses|
  {
    && parts[i].start == Max(guesses[i].start, PrevEnd(first, parts, i)) && parts[i].end == guesses[i].end
    && Worked(d, s, parts[i].start, parts[i].end, parts[i].rows, parts[i].next)
  }

  /** The chunks as the join leaves them. */
  ghost predicate Stitched(d: Dialect, s: bytes, first: nat, guesses: seq<Guess>, parts: seq<Part>) {
    |parts| == |guesses| && forall i :: 0 <= i < |parts| ==> JoinedAt(d, s, first, guesses, parts, i)
  }

  /**
   Count the rows after the header up to the first that ends at or past `limit`. If there is no
   row after it, `next` is where the unfinished row starts: the parser has been finished by then.
   */
  method FirstChunk(d: Dialect, s: bytes, header: nat, limit: nat) returns (count: nat, next: nat)
    requires d.Valid() && header < |Rows(d, s)|
    ensures CountedTo(Rows(d, s), header + 1, limit, UnfinishedAt(d, s), count, next)
  {
    hide Run;
    var rows: seq<seq<Span>> := Rows(d, s);
    count, next := 0, 0;
    var done, cancelled, i := false, false, header + 1;
    while i < |rows| && !cancelled
      invariant header + 1 + count <= |rows| && i <= |rows|
      invariant forall k :: header + 1 <= k < header + count ==> EndOf(rows[k]) < limit
      invariant cancelled ==> done && count + header + 2 == i && next == StartOf(rows[i - 1])
      invariant !cancelled ==> count + header + 1 == i && next == 0
      invariant done ==> 0 < count && EndOf(rows[header + count]) >= limit
      invariant !done && i > header + 1 ==> EndOf(rows[i - 1]) < limit
    {
      if done { // row_parallel_done
        next := StartOf(rows[i]);
        cancelled := true;
      } else { // row_parallel
        count := count + 1;
        if EndOf(rows[i]) >= limit {
          done := true;
        }
      }
      i := i + 1;
    }
    if cancelled {
      LaterRowsStartLater(d, s, i - 1);
    }
    if next == 0 {
      next := UnfinishedAt(d, s);
    }
  }

  lemma LaterRowsStartLater(d: Dialect, s: bytes, c: nat)
    requires d.Valid() && 0 < c < |Rows(d, s)|
    ensures StartOf(Rows(d, s)[c]) > 0
  {
    hide Run;
    assert Tail(s, 0) == s;
    CountSplits(d, s, 0, c);
  }

  /** The chunks' fields still say what was guessed, and what a worker for that guess leaves behind. */
  ghost predicate AsGuessed(d: Dialect, s: bytes, guesses: seq<Guess>, chunks: seq<Chunk>, from: nat)
    requires |chunks| <= |guesses|
    reads chunks
  {
    && (forall i, j :: 0 <= i < j < |chunks| ==> chunks[i] != chunks[j])
    && forall i :: from <= i < |chunks| ==>
      && chunks[i].start == guesses[i].start && chunks[i].end == guesses[i].end
      && Worked(d, s, chunks[i].start, chunks[i].end, chunks[i].rows, chunks[i].next)
  }

  /** All workers, each on its guess. */
  method RunWorkers(d: Dialect, s: bytes, guesses: seq<Guess>) returns (chunks: seq<Chunk>)
    ensures |chunks| == |guesses| && fresh(chunks) && AsGuessed(d, s, guesses, chunks, 0)
  {
    hide Worked;
    chunks := [];
    while |chunks| < |guesses|
      invariant |chunks| <= |guesses| && fresh(chunks) && AsGuessed(d, s, guesses, chunks, 0)
    {
      var c := new Chunk(guesses[|chunks|].start, guesses[|chunks|].end);
      ProcessChunk(d, s, c);
      chunks := chunks + [c];
    }
  }

  /** Take over chunk `i`, after having it redone if its predecessor went past its start. */
  method JoinChunk(d: Dialect, s: bytes, guesses: seq<Guess>, chunks: seq<Chunk>, i: nat, prevEnd: nat)
    returns (part: Part)
    requires i < |chunks| == |guesses| && AsGuessed(d, s, guesses, chunks, i)
    modifies chunks[i]
    ensures AsGuessed(d, s, guesses, chunks, i + 1)
    ensures part == Part(chunks[i].start, chunks[i].end, chunks[i].rows, chunks[i].next)
    ensures part.start == Max(guesses[i].start, prevEnd) && part.end == guesses[i].end
    ensures Worked(d, s, part.start, part.end, part.rows, part.next)
  {
    hide Worked;
    var chunk := chunks[i];
    if prevEnd > chunk.start {
      chunk.start := prevEnd;
      ProcessChunk(d, s, chunk);
    }
    part := Part(chunk.start, chunk.end, chunk.rows, chunk.next);
  }

  /** Run all workers, then the main parser, then the join; `total` is the number printed. */
  method ParallelCount(d: Dialect, s: bytes, header: nat, limit: nat, guesses: seq<Guess>)
    returns (total: nat, count: nat, first: nat, parts: seq<Part>)
    requires d.Valid() && header < |Rows(d, s)|
    ensures CountedTo(Rows(d, s), header + 1, limit, UnfinishedAt(d, s), count, first)
    ensures Stitched(d, s, first, guesses, parts) && total == count + Total(parts, |parts|)
  {
    hide Rows, Worked, CountedTo, Stitched, AsGuessed;
    var chunks := RunWorkers(d, s, guesses);
    count, first := FirstChunk(d, s, header, limit);
    total, parts := count, [];
    var prevEnd := first;
    StitchedNothing(d, s, first, guesses);
    while |parts| < |chunks|
      invariant |parts| <= |chunks| == |guesses| && fresh(chunks) && AsGuessed(d, s, guesses, chunks, |parts|)
      invariant prevEnd == PrevEnd(first, parts, |parts|)
      invariant Stitched(d, s, first, guesses[..|parts|], parts) && total == count + Total(parts, |parts|)
    {
      var part := JoinChunk(d, s, guesses, chunks, |parts|, prevEnd);
      StitchedSnoc(d, s, first, guesses, parts, part);
      parts := parts + [part];
      prevEnd := part.next;
      total := total + part.rows;
    }
    assert guesses[..|parts|] == guesses;
  }

  lemma StitchedNothing(d: Dialect, s: bytes, first: nat, guesses: seq<Guess>)
    ensures Stitched(d, s, first, guesses[..0], [])
  {
  }

  lemma StitchedSnoc(d: Dialect, s: bytes, first: nat, guesses: seq<Guess>, parts: seq<Part>, part: Part)
    requires |parts| < |guesses| && Stitched(d, s, first, guesses[..|parts|], parts)
    requires part.start == Max(guesses[|parts|].start, PrevEnd(first, parts, |parts|))
    requires part.end == guesses[|parts|].end
    requires Worked(d, s, part.start, part.end, part.rows, part.next)
    ensures Stitched(d, s, first, guesses[..|parts| + 1], parts + [part])
    ensures Total(parts + [part], |parts| + 1) == Total(parts, |parts|) + part.rows
  {
    hide Worked;
    TotalPrefix(parts, part, |parts|);
    var all, more := parts + [part], guesses[..|parts| + 1];
    forall i | 0 <= i < |all| ensures JoinedAt(d, s, first, more, all, i) {
      if i < |parts| {
        JoinedStill(d, s, first, guesses, parts, part, i);
      }
    }
  }

  lemma JoinedStill(d: Dialect, s: bytes, first: nat, guesses: seq<Guess>, parts: seq<Part>, part: Part, i: nat)
    requires i < |parts| < |guesses| && Stitched(d, s, first, guesses[..|parts|], parts)
    ensures JoinedAt(d, s, first, guesses[..|parts| + 1], parts + [part], i)
  {
    hide Worked;
    assert JoinedAt(d, s, first, guesses[..|parts|], parts, i);
  }

  lemma {:induction false} TotalPrefix(parts: seq<Part>, part: Part, n: nat)
    requires n <= |parts|
    ensures Total(parts + [part], n) == Total(parts, n)
  {
    if n > 0 {
      TotalPrefix(parts, part, n - 1);
    }
  }

  // ---------------------------------------------------------------------------------------
  // When the parallel count is the serial one
  // ---------------------------------------------------------------------------------------

  /** The main parser's count and the rows from where it stopped make up the rows after the header. */
  lemma FirstConserves(d: Dialect, s: bytes, header: nat, limit: nat, count: nat, first: nat)
    requires d.Valid() && Ended(d, s) && header < |Rows(d, s)|
    requires CountedTo(Rows(d, s), header + 1, limit, UnfinishedAt(d, s), count, first)
    ensures count + RowsFrom(d, s, first) == |Rows(d, s)| - header - 1
    ensures first <= |s| && Ended(d, Tail(s, first)) && (first > limit || first == |s|)
  {
    hide Rows, Ended, UnfinishedAt;
    NoneUnfinished(d, s);
    assert Tail(s, 0) == s;
    if header + 1 + count < |Rows(d, s)| {
      CountSplits(d, s, 0, header + 1 + count);
    } else {
      NothingLeft(d, s, first);
    }
  }

  /** None of the first `n` guesses lies past the row start its predecessor stopped at. */
  ghost predicate NoGaps(first: nat, guesses: seq<Guess>, parts: seq<Part>, n: nat)
    requires |parts| == |guesses|
  {
    n <= |parts| && forall i :: 0 <= i < n ==> guesses[i].start <= PrevEnd(first, parts, i)
  }

  lemma NoGapsBefore(first: nat, guesses: seq<Guess>, parts: seq<Part>, n: nat)
    requires |parts| == |guesses| && NoGaps(first, guesses, parts, n) && n > 0
    ensures NoGaps(first, guesses, parts, n - 1) && guesses[n - 1].start <= PrevEnd(first, parts, n - 1)
  {
  }

  /** If no chunk starts past the row start its predecessor stopped at, no row is lost or counted twice. */
  lemma {:induction false} StitchConserves(d: Dialect, s: bytes, first: nat,
                                           guesses: seq<Guess>, parts: seq<Part>, n: nat)
    requires d.Valid() && Stitched(d, s, first, guesses, parts) && n <= |parts|
    requires first <= |s| && Ended(d, Tail(s, first))
    requires NoGaps(first, guesses, parts, n)
    ensures Total(parts, n) + RowsFrom(d, s, PrevEnd(first, parts, n)) == RowsFrom(d, s, first)
    ensures PrevEnd(first, parts, n) <= |s| && Ended(d, Tail(s, PrevEnd(first, parts, n)))
  {
    hide RowsFrom, Ended, Worked, NoGaps;
    if n > 0 {
      assert JoinedAt(d, s, first, guesses, parts, n - 1);
      NoGapsBefore(first, guesses, parts, n);
      StitchConserves(d, s, first, guesses, parts, n - 1);
      var part := parts[n - 1];
      WorkerConserves(d, s, part.start, part.end, part.rows, part.next);
    }
  }

  lemma SomethingLeft(d: Dialect, s: bytes, a: nat)
    requires d.Valid() && a < |s| && Ended(d, Tail(s, a))
    ensures RowsFrom(d, s, a) > 0
  {
    hide Run;
    Reading.RowsTileTheStream(d, Tail(s, a));
  }

  /** A row end that stands alone at `a` is one row. */
  lemma LoneRowEnd(d: Dialect, s: bytes, a: nat)
    requires d.Valid() && a < |s| && Ended(d, Tail(s, a)) && (s[a] == CR || s[a] == LF)
    requires a + 1 < |s| ==> s[a + 1] != LF
    ensures RowsFrom(d, s, a) == 1 + RowsFrom(d, s, a + 1) && Ended(d, Tail(s, a + 1))
  {
    hide Run, RowsFrom;
    var t := Tail(s, a);
    LoneStart(d, t);
    TailCounts(d, t, 1, [[Span(0, 0)]]);
    TailTail(s, a, 1);
    TailZero(d, s, a);
    RowsFromTail(d, s, a);
  }

  lemma TailZero(d: Dialect, s: bytes, a: nat)
    ensures |Rows(d, Tail(s, a))| == RowsFrom(d, s, a)
  {
  }

  lemma RowsFromTail(d: Dialect, s: bytes, a: nat)
    requires a < |s|
    ensures RowsFrom(d, Tail(s, a), 1) == RowsFrom(d, s, a + 1)
  {
    TailTail(s, a, 1);
  }

  lemma LoneStart(d: Dialect, t: bytes)
    requires d.Valid() && |t| > 0 && (t[0] == CR || t[0] == LF) && (|t| > 1 ==> t[1] != LF)
    ensures StartsAt(d, t, 1, [[Span(0, 0)]])
  {
    assert Run(d, t, 1) == Step(d, INIT, t[0]);
    assert INIT.row + [Span(0, 0)] == [Span(0, 0)] && INIT.rows + [[Span(0, 0)]] == [[Span(0, 0)]];
  }

  /** The last byte of a stream that ends with a row end is one. */
  lemma EndsInRowEnd(d: Dialect, s: bytes)
    requires d.Valid() && |s| > 0 && Ended(d, Tail(s, |s| - 1))
    ensures s[|s| - 1] == CR || s[|s| - 1] == LF
  {
    var t := Tail(s, |s| - 1);
    assert Run(d, t, 1) == Step(d, INIT, t[0]);
  }

  /**
   If no chunk starts past the row start its predecessor stopped at, the parallel count is the
   serial one just when the last chunk is not left with the last byte of the file alone: chunk
   ends are inclusive, and a chunk that starts at its end is taken for empty.
   */
  lemma ParallelIsSerial(d: Dialect, s: bytes, header: nat, limit: nat, count: nat, first: nat,
                         guesses: seq<Guess>, parts: seq<Part>)
    requires d.Valid() && Ended(d, s) && header < |Rows(d, s)|
    requires CountedTo(Rows(d, s), header + 1, limit, UnfinishedAt(d, s), count, first)
    requires Stitched(d, s, first, guesses, parts) && parts != []
    requires NoGaps(first, guesses, parts, |parts|) && guesses[|guesses| - 1].end + 1 == |s|
    ensures count + Total(parts, |parts|) == |Rows(d, s)| - header - 1 <==> parts[|parts| - 1].start != |s| - 1
  {
    hide Rows, RowsFrom, Ended, CountedTo, Worked, PrevEnd, NoGaps;
    var n := |parts|;
    assert JoinedAt(d, s, first, guesses, parts, n - 1);
    NoGapsBefore(first, guesses, parts, n);
    FirstConserves(d, s, header, limit, count, first);
    StitchConserves(d, s, first, guesses, parts, n - 1);
    var part := parts[n - 1];
    LastPart(d, s, part.start, part.end, part.rows, part.next);
  }

  /** The last chunk counts all rows from its start unless just the last byte is left to it. */
  lemma LastPart(d: Dialect, s: bytes, start: nat, end: nat, rows: nat, next: nat)
    requires d.Valid() && Worked(d, s, start, end, rows, next) && Ended(d, Tail(s, start)) && start <= |s| == end + 1
    ensures rows == RowsFrom(d, s, start) <==> start != |s| - 1
  {
    hide RowsFrom, Ended, CountedTo;
    WorkerConserves(d, s, start, end, rows, next);
    if start == |s| - 1 {
      SomethingLeft(d, s, next);
    } else {
      NothingLeft(d, s, next);
    }
  }

  /** The offset of the last byte before guess `i`. */
  function EndBefore(limit: nat, guesses: seq<Guess>, i: nat): nat
    requires i <= |guesses|
  {
    if i == 0 then limit else guesses[i - 1].end
  }

  predicate AfterBreak(s: bytes, q: nat) {
    0 < q < |s| && IsNewline(s[q - 1]) && !IsNewline(s[q])
  }

  /**
   Guess `i` leaves no byte out between its predecessor and itself, and lies after line breaks,
   which may be quoted, and before another byte.
   */
  ghost predicate GuessAt(s: bytes, limit: nat, guesses: seq<Guess>, i: nat)
    requires i < |guesses|
  {
    guesses[i].start <= EndBefore(limit, guesses, i) + 1 && AfterBreak(s, guesses[i].start)
  }

  /**
   The hypothesis on guesses used from here on: all are such, and the last chunk ends with the
   file. `Jobs.GuessesTile` says when the guesses made meet it.
   */
  ghost predicate Tiled(s: bytes, limit: nat, guesses: seq<Guess>) {
    && guesses != [] && guesses[|guesses| - 1].end + 1 == |s|
    && forall i :: 0 <= i < |guesses| ==> GuessAt(s, limit, guesses, i)
  }

  /** The accounts at the start of chunk `n`. */
  lemma {:induction false} TiledConserves(d: Dialect, s: bytes, limit: nat, first: nat,
                                          guesses: seq<Guess>, parts: seq<Part>, n: nat)
    requires d.Valid() && Stitched(d, s, first, guesses, parts) && Tiled(s, limit, guesses) && n < |parts|
    requires first <= |s| && Ended(d, Tail(s, first)) && (first > limit || first == |s|)
    ensures var start := parts[n].start;
      && Total(parts, n) + LostBytes(guesses, parts, n) + RowsFrom(d, s, start) == RowsFrom(d, s, first)
      && start <= |s| && Ended(d, Tail(s, start))
  {
    hide RowsFrom, Ended, Worked, OneByteLost;
    assert JoinedAt(d, s, first, guesses, parts, n);
    assert GuessAt(s, limit, guesses, n);
    if n > 0 {
      assert JoinedAt(d, s, first, guesses, parts, n - 1);
      TiledConserves(d, s, limit, first, guesses, parts, n - 1);
      NextTiled(d, s, limit, first, guesses, parts, n);
    }
  }

  /** From one chunk to the next: rows are counted, passed on, or lost with a last byte. */
  lemma NextTiled(d: Dialect, s: bytes, limit: nat, first: nat, guesses: seq<Guess>, parts: seq<Part>, n: nat)
    requires d.Valid() && 0 < n < |parts| == |guesses|
    requires JoinedAt(d, s, first, guesses, parts, n - 1) && JoinedAt(d, s, first, guesses, parts, n)
    requires GuessAt(s, limit, guesses, n)
    requires parts[n - 1].start <= |s| && Ended(d, Tail(s, parts[n - 1].start))
    ensures var start := parts[n].start;
      && parts[n - 1].rows + (if OneByteLost(guesses, parts, n - 1) then 1 else 0) + RowsFrom(d, s, start)
         == RowsFrom(d, s, parts[n - 1].start)
      && start <= |s| && Ended(d, Tail(s, start))
  {
    hide RowsFrom, Ended, Worked;
    var part := parts[n - 1];
    WorkerConserves(d, s, part.start, part.end, part.rows, part.next);
    if part.start == part.end {
      StoodStill(d, s, part.start, part.end, part.rows, part.next);
      if guesses[n].start == part.end + 1 {
        LoneRowEnd(d, s, part.end);
      }
    } else {
      WentPast(d, s, part.start, part.end, part.rows, part.next);
    }
  }

  lemma StoodStill(d: Dialect, s: bytes, start: nat, end: nat, rows: nat, next: nat)
    requires Worked(d, s, start, end, rows, next) && start >= end
    ensures rows == 0 && next == start
  {
  }

  lemma WentPast(d: Dialect, s: bytes, start: nat, end: nat, rows: nat, next: nat)
    requires d.Valid() && Worked(d, s, start, end, rows, next) && Ended(d, Tail(s, start)) && start <= |s|
    requires start != end
    ensures next > end || next == |s|
  {
    hide Ended;
    WorkerConserves(d, s, start, end, rows, next);
  }

  /**
   With such guesses the parallel count falls short of the serial one by exactly the number of
   chunks left with only their last byte; all other wrong guesses are repaired.
   */
  lemma TiledCount(d: Dialect, s: bytes, header: nat, limit: nat, count: nat, first: nat,
                   guesses: seq<Guess>, parts: seq<Part>)
    requires d.Valid() && Ended(d, s) && header < |Rows(d, s)|
    requires CountedTo(Rows(d, s), header + 1, limit, UnfinishedAt(d, s), count, first)
    requires Stitched(d, s, first, guesses, parts) && Tiled(s, limit, guesses)
    ensures count + Total(parts, |parts|) + LostBytes(guesses, parts, |parts|) == |Rows(d, s)| - header - 1
  {
    hide Rows, RowsFrom, Ended, CountedTo, Worked;
    var n := |parts| - 1;
    assert JoinedAt(d, s, first, guesses, parts, n);
    FirstConserves(d, s, header, limit, count, first);
    TiledConserves(d, s, limit, first, guesses, parts, n);
    var part := parts[n];
    LastTiled(d, s, part.start, part.end, part.rows, part.next);
  }

  lemma LastTiled(d: Dialect, s: bytes, start: nat, end: nat, rows: nat, next: nat)
    requires d.Valid() && Worked(d, s, start, end, rows, next) && Ended(d, Tail(s, start)) && start <= |s| == end + 1
    ensures rows + (if start == end then 1 else 0) == RowsFrom(d, s, start)
  {
    hide Rows, RowsFrom, Ended, CountedTo;
    WorkerConserves(d, s, start, end, rows, next);
    if start == end {
      EndsInRowEnd(d, s);
      LoneRowEnd(d, s, end);
      NothingLeft(d, s, end + 1);
    } else {
      NothingLeft(d, s, next);
    }
  }
}
