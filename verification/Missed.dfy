/** Files of any size, with rows that fit any buffer, of which jobs of any number miss the last row. */
module Missed {
  import opened Csv
  import opened Chunks
  import opened Count
  import opened Dealing
  import opened Fits
  import opened Jobs
  import Reading

  // ---------------------------------------------------------------------------------------
  // The file
  // ---------------------------------------------------------------------------------------

  const FILLER: byte := 88

  function Filler(n: nat): (r: bytes)
    ensures |r| == n
  {
    seq(n, _ => FILLER)
  }

  /** A cell of two lines of the same length. */
  function TwoLines(k: nat): (r: bytes)
    ensures |r| == 2 * k + 1
  {
    Filler(k) + [LF] + Filler(k)
  }

  function ShortRows(m: nat): (r: bytes)
    ensures |r| == 2 * m
  {
    if m == 0 then [] else ShortRows(m - 1) + [FILLER, LF]
  }

  /** A header of one letter, `m` rows of one letter, a row of one quoted cell, and an empty row. */
  function QuotedFile(m: nat, text: bytes): (s: bytes)
    ensures |s| == 2 * m + |text| + 6
  {
    [65, LF] + ShortRows(m) + ([QT] + text + [QT, LF, LF])
  }

  lemma {:induction false} ShortRowsAt(m: nat, k: nat)
    requires k < 2 * m
    ensures ShortRows(m)[k] == if k % 2 == 0 then FILLER else LF
  {
    if k < 2 * m - 2 {
      ShortRowsAt(m - 1, k);
    }
  }

  /** The bytes of the header and the short rows. */
  lemma HeadAt(m: nat, text: bytes, k: nat)
    requires k < 2 * m + 2
    ensures QuotedFile(m, text)[k] == if k == 0 then 65 else if k % 2 == 0 then FILLER else LF
  {
    hide ShortRows;
    if k >= 2 {
      ShortRowsAt(m, k - 2);
    }
  }

  /** The bytes of the quoted row and the empty one. */
  lemma LastRowsAt(m: nat, text: bytes, k: nat)
    requires k < |text| + 4
    ensures QuotedFile(m, text)[2 * m + 2 + k] ==
            if k == 0 then QT else if k <= |text| then text[k - 1] else if k == |text| + 1 then QT else LF
  {
    hide ShortRows;
  }

  // ---------------------------------------------------------------------------------------
  // Its rows
  // ---------------------------------------------------------------------------------------

  function ShortSpans(j: nat): (r: seq<seq<Span>>)
    ensures |r| == j
  {
    if j == 0 then [] else ShortSpans(j - 1) + [[Span(2 * j - 2, 2 * j - 1)]]
  }

  lemma {:induction false} ShortSpansAt(j: nat, k: nat)
    requires k < j
    ensures ShortSpans(j)[k] == [Span(2 * k, 2 * k + 1)]
  {
    if k < j - 1 {
      ShortSpansAt(j - 1, k);
    }
  }

  /** The state at the start of a row. */
  function Between(p: nat, prev: byte, rows: seq<seq<Span>>): State {
    State(p, prev, FRESH, p, p, [], rows)
  }

  /** One row of one letter. */
  lemma OneRow(d: Dialect, p: nat, prev: byte, rows: seq<seq<Span>>, b: byte)
    requires d.Valid() && !d.IsSeparator(b) && b != QT
    ensures Step(d, Step(d, Between(p, prev, rows), b), LF) == Between(p + 2, LF, rows + [[Span(p, p + 1)]])
  {
    var st := Step(d, Between(p, prev, rows), b);
    assert st.q.mode == Plain && st.prev == b && b != CR;
    Reading.EndStepIs(d, st, LF);
    assert st.row + [Span(p, p + 1)] == [Span(p, p + 1)];
  }

  /** The delimiter is none of the letters, and quotes are quotes. */
  ghost predicate Ordinary(d: Dialect) {
    d.Valid() && d.delim != 65 && d.delim != FILLER && !d.noQuotes
  }

  lemma {:induction false} ShortRowsRead(d: Dialect, m: nat, text: bytes, j: nat)
    requires Ordinary(d) && j <= m + 1
    ensures Run(d, QuotedFile(m, text), 2 * j) == Between(2 * j, if j == 0 then 0 else LF, ShortSpans(j))
  {
    hide QuotedFile, Step;
    var s := QuotedFile(m, text);
    if j > 0 {
      ShortRowsRead(d, m, text, j - 1);
      HeadAt(m, text, 2 * j - 2);
      HeadAt(m, text, 2 * j - 1);
      OneRow(d, 2 * j - 2, if j == 1 then 0 else LF, ShortSpans(j - 1), s[2 * j - 2]);
      RunUnfolds(d, s, 2 * j - 1);
      RunUnfolds(d, s, 2 * j);
    }
  }

  /** Bytes other than quotes do not end a quoted cell. */
  lemma {:induction false} StaysOpen(d: Dialect, s: bytes, p: nat, n: nat)
    requires d.Valid() && p + n <= |s| && Run(d, s, p).q.mode == Open && Run(d, s, p).pos == p
    requires forall k :: p <= k < p + n ==> !d.IsQuote(s[k])
    ensures var st := Run(d, s, p + n);
      st == Run(d, s, p).(pos := p + n, prev := st.prev, q := st.q) && st.q.mode == Open
  {
    if n > 0 {
      StaysOpen(d, s, p, n - 1);
    }
  }

  lemma CellOpens(d: Dialect, p: nat, rows: seq<seq<Span>>)
    requires Ordinary(d)
    ensures var st := Step(d, Between(p, LF, rows), QT);
      st == State(p + 1, QT, st.q, p, p, [], rows) && st.q.mode == Open
  {
  }

  lemma CellCloses(d: Dialect, s: bytes, p: nat)
    requires d.Valid() && !d.noQuotes && p + 3 == |s| && s[p] == QT && s[p + 1] == LF && s[p + 2] == LF
    requires var st := Run(d, s, p); st.q.mode == Open && st.pos == p && st.row == []
    ensures var st := Run(d, s, p);
      Run(d, s, |s|) == Between(p + 3, LF, st.rows + [[Span(st.cellAt, p + 1)], [Span(p + 2, p + 2)]])
  {
    var st := Run(d, s, p);
    var st1 := Step(d, st, QT);
    assert Run(d, s, p + 1) == st1 && st1.q.mode == Pending && st1.prev == QT;
    Reading.EndStepIs(d, st1, LF);
    assert st1.row + [Span(st.cellAt, p + 1)] == [Span(st.cellAt, p + 1)];
    var st2 := Run(d, s, p + 2);
    assert st2 == Step(d, st1, LF);
    Reading.EndStepIs(d, st2, LF);
    assert st2.row + [Span(p + 2, p + 2)] == [Span(p + 2, p + 2)];
    assert Run(d, s, p + 3) == Step(d, st2, LF);
    assert st.rows + [[Span(st.cellAt, p + 1)]] + [[Span(p + 2, p + 2)]]
        == st.rows + [[Span(st.cellAt, p + 1)], [Span(p + 2, p + 2)]];
  }

  /** The header, the short rows, the quoted one and the empty one. */
  lemma QuotedFileRows(d: Dialect, m: nat, text: bytes)
    requires Ordinary(d) && QT !in text
    ensures var s, q := QuotedFile(m, text), 2 * m + 2;
      Ended(d, s) && Rows(d, s) == ShortSpans(m + 1) +
          [[Span(q, q + |text| + 2)], [Span(q + |text| + 3, q + |text| + 3)]]
  {
    hide Run, Step, QuotedFile, ShortSpans;
    var s, q, n := QuotedFile(m, text), 2 * m + 2, |text|;
    ShortRowsRead(d, m, text, m + 1);
    LastRowsAt(m, text, 0);
    CellOpens(d, q, ShortSpans(m + 1));
    RunUnfolds(d, s, q + 1);
    forall k | q + 1 <= k < q + 1 + n ensures !d.IsQuote(s[k]) {
      LastRowsAt(m, text, k - q);
    }
    StaysOpen(d, s, q + 1, n);
    LastRowsAt(m, text, n + 1);
    LastRowsAt(m, text, n + 2);
    LastRowsAt(m, text, n + 3);
    CellCloses(d, s, q + 1 + n);
  }

  /** Which rows these are, one by one. */
  lemma QuotedFileRow(d: Dialect, m: nat, text: bytes, k: nat)
    requires Ordinary(d) && QT !in text && k < m + 3
    ensures var s, q := QuotedFile(m, text), 2 * m + 2;
      && |Rows(d, s)| == m + 3
      && Rows(d, s)[k] == if k <= m then [Span(2 * k, 2 * k + 1)]
                          else if k == m + 1 then [Span(q, q + |text| + 2)]
                          else [Span(q + |text| + 3, q + |text| + 3)]
  {
    hide Rows, QuotedFile;
    QuotedFileRows(d, m, text);
    if k <= m {
      ShortSpansAt(m + 1, k);
    }
  }

  // ---------------------------------------------------------------------------------------
  // Two jobs, cut anywhere inside the quoted cell
  // ---------------------------------------------------------------------------------------

  /** Whatever the workers did, the last row is not counted. */
  lemma LastRowMissed(d: Dialect, m: nat, text: bytes, limit: nat, guess: Guess,
                      count: nat, first: nat, parts: seq<Part>)
    requires Ordinary(d) && QT !in text
    requires (m > 0 ==> limit > 2 * m + 1) && limit < 2 * m + |text| + 4
    requires guess.start <= 2 * m + |text| + 5 == guess.end
    requires var s := QuotedFile(m, text);
      && |Rows(d, s)| > 0 && CountedTo(Rows(d, s), 1, limit, UnfinishedAt(d, s), count, first)
      && Stitched(d, s, first, [guess], parts)
    ensures |Rows(d, QuotedFile(m, text))| == m + 3 && count + Total(parts, |parts|) == m + 1
  {
    hide Rows, QuotedFile, UnfinishedAt, CountedTo;
    var s := QuotedFile(m, text);
    QuotedFileRow(d, m, text, 0);
    QuotedFileRow(d, m, text, m + 1);
    QuotedFileRow(d, m, text, m + 2);
    if 1 <= count <= m {
      QuotedFileRow(d, m, text, count);
    }
    CountedUpTo(Rows(d, s), m, limit, UnfinishedAt(d, s), count, first);
    assert JoinedAt(d, s, first, [guess], parts, 0);
    assert Total(parts, 1) == Total(parts, 0) + parts[0].rows;
  }

  /** If row `m + 1` ends at or past the limit and no row before it does, it is the last one counted. */
  lemma CountedUpTo(rows: seq<seq<Span>>, m: nat, limit: nat, eof: nat, count: nat, first: nat)
    requires |rows| == m + 3 && CountedTo(rows, 1, limit, eof, count, first)
    requires EndOf(rows[m + 1]) >= limit && (1 <= count <= m ==> EndOf(rows[count]) < limit)
    ensures count == m + 1 && first == StartOf(rows[m + 2])
  {
  }

  // ---------------------------------------------------------------------------------------
  // Any number of jobs
  // ---------------------------------------------------------------------------------------

  /** As many short rows as make all nominal chunks `2 * k + 4` bytes long. */
  function Shorts(jobs: nat, k: nat): nat
    requires jobs > 1
  {
    (jobs - 1) * (k + 2) - 1
  }

  function MissFile(jobs: nat, k: nat): bytes
    requires jobs > 1
  {
    QuotedFile(Shorts(jobs, k), TwoLines(k))
  }

  lemma {:induction false} Times(a: nat, b: nat, c: nat)
    ensures a < b ==> a * c + c <= b * c
    decreases b
  {
    if a < b {
      assert b * c == (b - 1) * c + c;
      Times(a, b - 1, c);
    }
  }

  lemma Divided(a: nat, b: nat)
    requires a > 0
    ensures a * b / a == b
  {
    var q := a * b / a;
    assert a * b == a * q + a * b % a;
    Times(q, b, a);
    Times(b, q, a);
  }

  lemma Doubled(a: nat, k: nat)
    ensures a * (2 * k + 4) == 2 * (a * (k + 2)) && a * (2 * k + 4) % 2 == 0
    ensures a > 0 ==> a * (2 * k + 4) > 0
  {
  }

  lemma Sizes(jobs: nat, k: nat)
    requires jobs > 1
    ensures |MissFile(jobs, k)| == 1 + jobs * (2 * k + 4)
    ensures 2 * Shorts(jobs, k) + 2 == (jobs - 1) * (2 * k + 4)
    ensures (|MissFile(jobs, k)| - 1) / jobs == 2 * k + 4
  {
    assert jobs * (2 * k + 4) == (jobs - 1) * (2 * k + 4) + (2 * k + 4);
    assert (jobs - 1) * (2 * k + 4) == 2 * ((jobs - 1) * (k + 2));
    Divided(jobs, 2 * k + 4);
  }

  /** Where the nominal chunks end. */
  lemma NominalAt(jobs: nat, k: nat, i: nat)
    requires i + 1 < jobs
    ensures var q := 2 * Shorts(jobs, k) + 2;
      && Nominal(|MissFile(jobs, k)| - 1, jobs, i) == (i + 1) * (2 * k + 4)
      && (if i + 2 == jobs then (i + 1) * (2 * k + 4) == q else (i + 1) * (2 * k + 4) + 4 <= q)
      && (i + 1) * (2 * k + 4) % 2 == 0 && (i + 1) * (2 * k + 4) > 0
  {
    hide MissFile, Shorts;
    Sizes(jobs, k);
    Doubled(i + 1, k);
    Times(i + 1, jobs - 1, 2 * k + 4);
  }

  lemma CutIs(s: bytes, from: nat, boundary: nat, q: nat, x: nat)
    requires CutAt(s, from, boundary, q) && FirstSplit(s, from, boundary, x)
    ensures q == x && SplitAfter(s, from, boundary)
  {
  }

  /** Where chunk `i` starts: after a short row, and the last one inside the quoted cell. */
  function StartAt(jobs: nat, k: nat, i: nat): nat
    requires 0 < i < jobs
  {
    if i + 1 == jobs then 2 * Shorts(jobs, k) + k + 4 else i * (2 * k + 4) + 2
  }

  lemma ChunkStart(jobs: nat, k: nat, i: nat, start: nat)
    requires 0 < i < jobs && CutStart(MissFile(jobs, k), 1, jobs, i, start)
    ensures start == StartAt(jobs, k, i) && CuttableAt(MissFile(jobs, k), 1, jobs, i - 1)
  {
    hide QuotedFile, Shorts, Nominal, TwoLines, CutAt, Split;
    var s, m, text := MissFile(jobs, k), Shorts(jobs, k), TwoLines(k);
    NominalAt(jobs, k, i - 1);
    var from, boundary := Nominal(|s| - 1, jobs, i - 1), |s| - 1;
    if i + 1 < jobs {
      ShortCut(m, text, from);
      CutIs(s, from, boundary, start, from + 2);
    } else {
      LongCut(m, k);
      CutIs(s, from, boundary, start, from + k + 2);
    }
  }

  /** A cut among the short rows. */
  lemma ShortCut(m: nat, text: bytes, from: nat)
    requires 0 < from && from % 2 == 0 && from + 4 <= 2 * m + 2
    ensures FirstSplit(QuotedFile(m, text), from, |QuotedFile(m, text)| - 1, from + 2)
  {
    hide QuotedFile;
    HeadAt(m, text, from);
    HeadAt(m, text, from + 1);
    HeadAt(m, text, from + 2);
  }

  /** A cut inside the quoted cell. */
  lemma LongCut(m: nat, k: nat)
    ensures var s, q := QuotedFile(m, TwoLines(k)), 2 * m + 2; FirstSplit(s, q, |s| - 1, q + k + 2)
  {
    hide QuotedFile;
    var s, q, text := QuotedFile(m, TwoLines(k)), 2 * m + 2, TwoLines(k);
    var boundary := |s| - 1;
    forall p: nat | p < q + k + 2 ensures !Split(s, q, boundary, p) {
      if q < p {
        LastRowsAt(m, text, p - 1 - q);
      }
    }
    LastRowsAt(m, text, k + 1);
    LastRowsAt(m, text, k + 2);
  }

  /** The guesses, but for the main parser's. */
  lemma GuessIs(jobs: nat, k: nat, guesses: seq<Guess>, i: nat)
    requires jobs == |guesses| && 0 < i < jobs
    requires forall j :: 0 <= j < jobs ==> GuessedAt(MissFile(jobs, k), 1, guesses, j)
    ensures guesses[i].start == StartAt(jobs, k, i) && CuttableAt(MissFile(jobs, k), 1, jobs, i - 1)
    ensures guesses[i].end == if i + 1 == jobs then |MissFile(jobs, k)| - 1 else StartAt(jobs, k, i + 1) - 1
  {
    hide CutStart, CuttableAt, MissFile, Shorts, Nominal;
    var s := MissFile(jobs, k);
    Sizes(jobs, k);
    NominalAt(jobs, k, i - 1);
    assert GuessedAt(s, 1, guesses, i);
    ChunkStart(jobs, k, i, guesses[i].start);
    if i + 1 < jobs {
      assert GuessedAt(s, 1, guesses, i + 1);
      ChunkStart(jobs, k, i + 1, guesses[i + 1].start);
      NominalAt(jobs, k, i);
      Times(i, i + 1, 2 * k + 4);
    }
  }

  /** There is no CR in the file. */
  lemma NoCr(m: nat, k: nat, i: nat)
    requires i < |QuotedFile(m, TwoLines(k))|
    ensures QuotedFile(m, TwoLines(k))[i] != CR
  {
    hide QuotedFile;
    if i < 2 * m + 2 {
      HeadAt(m, TwoLines(k), i);
    } else {
      LastRowsAt(m, TwoLines(k), i - 2 * m - 2);
    }
  }

  lemma NoQuotes(k: nat)
    ensures QT !in TwoLines(k)
  {
  }

  /** The guesses meet the conditions under which the deal can be read off the rows. */
  lemma GuessesAreTiled(d: Dialect, jobs: nat, k: nat, guesses: seq<Guess>)
    requires Ordinary(d) && jobs == |guesses| > 1
    requires forall j :: 0 <= j < jobs ==> GuessedAt(MissFile(jobs, k), 1, guesses, j)
    ensures var s := MissFile(jobs, k);
      && Ended(d, s) && |Rows(d, s)| == Shorts(jobs, k) + 3 && EndOf(Rows(d, s)[0]) == 1
      && Tiled(s, guesses[0].end, guesses[1..]) && InLine(d, s, 0, guesses[0].end, guesses[1..])
  {
    hide Rows, Ended, GuessedAt, Tiled, InLine, QuotedFile, Shorts, TwoLines, CuttableAt;
    var s := MissFile(jobs, k);
    NoQuotes(k);
    QuotedFileRows(d, Shorts(jobs, k), TwoLines(k));
    QuotedFileRow(d, Shorts(jobs, k), TwoLines(k), 0);
    forall i | 0 <= i < jobs - 1 ensures CuttableAt(s, 1, jobs, i) {
      GuessIs(jobs, k, guesses, i + 1);
    }
    GuessesTile(s, 1, guesses);
    forall i | 1 <= i < jobs ensures !AfterCrLf(s, guesses[i].start) {
      if 2 <= guesses[i].start <= |s| {
        NoCr(Shorts(jobs, k), k, guesses[i].start - 2);
      }
    }
    GuessesInLine(d, s, 0, guesses);
  }

  /** No chunk but the last ends with a lone row end. */
  lemma NoneLoneBefore(d: Dialect, jobs: nat, k: nat, guess: Guess, m: nat)
    requires Ordinary(d) && jobs > 1 && guess.end + 1 < |MissFile(jobs, k)|
    ensures !LoneAfter(Rows(d, MissFile(jobs, k)), 0, guess, m)
  {
    hide Rows, QuotedFile, TwoLines, Shorts;
    NoQuotes(k);
    QuotedFileRow(d, Shorts(jobs, k), TwoLines(k), 0);
    if m < Shorts(jobs, k) + 3 {
      QuotedFileRow(d, Shorts(jobs, k), TwoLines(k), m);
    }
  }

  /** The last one does, after the quoted row. */
  lemma LoneAtLast(d: Dialect, jobs: nat, k: nat, guess: Guess)
    requires Ordinary(d) && jobs > 1
    requires guess.end + 1 == |MissFile(jobs, k)| && guess.start == StartAt(jobs, k, jobs - 1)
    ensures LoneAfter(Rows(d, MissFile(jobs, k)), 0, guess, Shorts(jobs, k) + 2)
  {
    hide Rows, QuotedFile, TwoLines, Shorts;
    var m := Shorts(jobs, k);
    NoQuotes(k);
    QuotedFileRow(d, m, TwoLines(k), m + 1);
    QuotedFileRow(d, m, TwoLines(k), m + 2);
    forall i | 0 < i < m + 1 ensures EndOf(Rows(d, MissFile(jobs, k))[i]) < guess.start - 1 {
      QuotedFileRow(d, m, TwoLines(k), i);
    }
  }

  /**
   With the guesses they get, any number of jobs miss exactly the last row, whatever the workers
   did, although no row is longer than `2 * k + 3` bytes.
   */
  lemma JobsMissARow(d: Dialect, jobs: nat, k: nat, guesses: seq<Guess>, count: nat, first: nat, parts: seq<Part>)
    requires Ordinary(d) && jobs == |guesses| > 1
    requires forall j :: 0 <= j < jobs ==> GuessedAt(MissFile(jobs, k), 1, guesses, j)
    requires var s := MissFile(jobs, k);
      && |Rows(d, s)| > 0 && CountedTo(Rows(d, s), 1, guesses[0].end, UnfinishedAt(d, s), count, first)
      && Stitched(d, s, first, guesses[1..], parts)
    ensures var s := MissFile(jobs, k);
      && |s| == 1 + jobs * (2 * k + 4) && RowsFit(d, s, 2 * k + 4) && Ended(d, s)
      && EndOf(Rows(d, s)[0]) == 1 && count + Total(parts, |parts|) + 1 == |Rows(d, s)| - 1
  {
    hide Rows, Ended, GuessedAt, Tiled, InLine, Shorts, MissFile, StartAt, CountedTo, UnfinishedAt,
         OneByteLost, LoneAfter, LeftOver, RowsFit, Total, JoinedAt, CuttableAt;
    var s, rest, last := MissFile(jobs, k), guesses[1..], jobs - 2;
    Sizes(jobs, k);
    GuessesAreTiled(d, jobs, k, guesses);
    RowsAreShort(d, jobs, k);
    TiledCount(d, s, 0, guesses[0].end, count, first, rest, parts);
    forall i | 0 <= i < last ensures !OneByteLost(rest, parts, i) {
      GuessIs(jobs, k, guesses, i + 1);
      LostIffLeftOver(d, s, 0, guesses[0].end, count, first, rest, parts, i);
      LeftOverIff(d, s, 0, guesses[0].end, rest, i);
      EndsBeforeLast(jobs, k, i + 2);
      forall m: nat ensures !LoneAfter(Rows(d, s), 0, rest[i], m) {
        NoneLoneBefore(d, jobs, k, rest[i], m);
      }
    }
    NoneLostIff(rest, parts, last);
    GuessIs(jobs, k, guesses, jobs - 1);
    LostIffLeftOver(d, s, 0, guesses[0].end, count, first, rest, parts, last);
    LeftOverIff(d, s, 0, guesses[0].end, rest, last);
    LoneAtLast(d, jobs, k, rest[last]);
  }

  lemma EndsBeforeLast(jobs: nat, k: nat, i: nat)
    requires 0 < i < jobs
    ensures 0 < StartAt(jobs, k, i) < |MissFile(jobs, k)|
  {
    hide Shorts;
    Sizes(jobs, k);
    NominalAt(jobs, k, i - 1);
  }

  lemma RowsAreShort(d: Dialect, jobs: nat, k: nat)
    requires Ordinary(d) && jobs > 1
    ensures RowsFit(d, MissFile(jobs, k), 2 * k + 4)
  {
    hide Rows, QuotedFile, TwoLines, Shorts;
    var s, m := MissFile(jobs, k), Shorts(jobs, k);
    NoQuotes(k);
    QuotedFileRow(d, m, TwoLines(k), 0);
    forall r | 0 <= r < |Rows(d, s)| ensures RowLength(Rows(d, s)[r]) < 2 * k + 4 {
      QuotedFileRow(d, m, TwoLines(k), r);
    }
  }

  /** For 32 jobs or more there is such a file that is cut, and whose rows are shorter than 64 KiB. */
  lemma LongEnough(d: Dialect, jobs: nat)
    requires Ordinary(d) && jobs >= 32
    ensures 1 + MIN_BYTES <= |MissFile(jobs, 32766)| && RowsFit(d, MissFile(jobs, 32766), 65536)
  {
    hide MissFile, RowsFit;
    Sizes(jobs, 32766);
    RowsAreShort(d, jobs, 32766);
  }

  // ---------------------------------------------------------------------------------------
  // A chunk that starts after a CR LF
  // ---------------------------------------------------------------------------------------

  /** A quoted row of two lines that ends with CR LF, a short row and an empty one. */
  const MIXED_ENDS: bytes := [65, LF, QT, 88, LF, 88, QT, CR, LF, 88, LF, LF]

  const MIXED_ROWS := [[Span(0, 1)], [Span(2, 7)], [Span(9, 10)], [Span(11, 11)]]

  lemma MixedHead(d: Dialect)
    requires Ordinary(d)
    ensures var st := Run(d, MIXED_ENDS, 6);
      st == State(6, st.prev, st.q, 2, 2, [], MIXED_ROWS[..1]) && st.q.mode == Open
  {
    var s := MIXED_ENDS;
    OneRow(d, 0, 0, [], 65);
    assert Run(d, s, 0) == Between(0, 0, []) && [] + [[Span(0, 1)]] == MIXED_ROWS[..1];
    assert Run(d, s, 1) == Step(d, Run(d, s, 0), 65);
    assert Run(d, s, 2) == Between(2, LF, MIXED_ROWS[..1]);
    CellOpens(d, 2, MIXED_ROWS[..1]);
    StaysOpen(d, s, 3, 3);
  }

  lemma MixedMiddle(d: Dialect)
    requires Ordinary(d)
    ensures Run(d, MIXED_ENDS, 9) == Between(9, LF, MIXED_ROWS[..2])
  {
    hide Run;
    var s := MIXED_ENDS;
    MixedHead(d);
    RunUnfolds(d, s, 7);
    RunUnfolds(d, s, 8);
    RunUnfolds(d, s, 9);
    var st := Step(d, Run(d, s, 6), QT);
    assert st.q.mode == Pending && st.prev == QT;
    Reading.EndStepIs(d, st, CR);
    assert st.row + [Span(2, 7)] == [Span(2, 7)] && MIXED_ROWS[..1] + [[Span(2, 7)]] == MIXED_ROWS[..2];
  }

  lemma MixedRows(d: Dialect)
    requires Ordinary(d)
    ensures Ended(d, MIXED_ENDS) && Rows(d, MIXED_ENDS) == MIXED_ROWS
  {
    hide Run, Step;
    var s := MIXED_ENDS;
    MixedMiddle(d);
    RunUnfolds(d, s, 10);
    RunUnfolds(d, s, 11);
    RunUnfolds(d, s, 12);
    OneRow(d, 9, LF, MIXED_ROWS[..2], 88);
    assert MIXED_ROWS[..2] + [[Span(9, 10)]] == MIXED_ROWS[..3];
    Reading.EndStepIs(d, Run(d, s, 11), LF);
    assert Run(d, s, 11).row + [Span(11, 11)] == [Span(11, 11)] && MIXED_ROWS[..3] + [[Span(11, 11)]] == MIXED_ROWS;
  }

  /**
   Cut after the first line of the quoted row and after its CR LF, the last chunk is not left with
   its last byte, though that is a lone row end after the first row to end at or past the byte
   before the chunk: the row before has been taken by the main parser, and the chunk between is passed over.
   */
  lemma NotReadOffAfterCrLf(d: Dialect)
    requires Ordinary(d)
    ensures var s, guesses := MIXED_ENDS, [Guess(5, 8), Guess(9, 11)];
      && Ended(d, s) && |Rows(d, s)| == 4 && Tiled(s, 4, guesses) && AfterCrLf(s, 9)
      && (forall i :: 0 <= i < 2 ==> Follows(guesses, i)) && LoneAfter(Rows(d, s), 0, guesses[1], 3)
      && !LeftOver(Rows(d, s), 12, 0, 4, guesses, 1)
  {
    hide Run;
    MixedRows(d);
    var s, guesses := MIXED_ENDS, [Guess(5, 8), Guess(9, 11)];
    assert Stop(MIXED_ROWS, 12, 1, 4) == Place(2, 9);
    assert Dealt(MIXED_ROWS, 12, 0, 4, guesses, 0) == Place(2, 9);
    assert Dealt(MIXED_ROWS, 12, 0, 4, guesses, 1) == Place(2, 9);
    assert GuessAt(s, 4, guesses, 0) && GuessAt(s, 4, guesses, 1);
  }
}
