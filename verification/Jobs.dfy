/** `count` from beginning to end: guesses, workers, main parser and join. */
module Jobs {
  import opened Csv
  import opened CsvFacts
  import opened Scanner
  import opened Chunks
  import opened Count
  import opened Dealing
  import opened Engines
  import opened Fits
  import opened Wrappers

  // ---------------------------------------------------------------------------------------
  // What the parsers deliver
  // ---------------------------------------------------------------------------------------

  /** Every row of the file is shorter than the parsers' buffers. */
  ghost predicate RowsFit(d: Dialect, s: bytes, bufferSize: nat) {
    forall r :: 0 <= r < |Rows(d, s)| ==> RowLength(Rows(d, s)[r]) < bufferSize
  }

  /** Then no row of the rest of the file fills the buffer. */
  lemma RestFits(d: Dialect, s: bytes, a: nat, bufferSize: nat)
    requires d.Valid() && Ended(d, s) && RowsFit(d, s, bufferSize) && bufferSize > 0
    requires a <= |s| && StartsAt(d, s, a, Run(d, s, a).rows)
    ensures FitsTo(d, Tail(s, a), bufferSize, |Tail(s, a)|) && Ended(d, Tail(s, a))
  {
    hide Run, StartsAt, FitsTo;
    var rest := Tail(s, a);
    TailCounts(d, s, a, Run(d, s, a).rows);
    forall r | 0 <= r < |Rows(d, rest)| ensures RowLength(Rows(d, rest)[r]) < bufferSize {
      RestOfRows(d, s, a, r);
      RowsMeasured(d, rest, |rest|, r);
    }
    FitsIffRowsFit(d, rest, bufferSize);
  }

  /**
   A parse of the rest of the file, from the start of a row, with whatever reads: it does not end
   with a full buffer, and if it ends at the end it has delivered the rows a worker is taken to
   find, at the same bytes. The compat engine always does.
   */
  lemma ParserFindsRows(e: Engine, d: Dialect, s: bytes, a: nat, bufferSize: nat, limit: nat,
                        stat: Status, log: seq<RowEvent>)
    requires d.Valid() && Ended(d, s) && RowsFit(d, s, bufferSize) && bufferSize > 0
    requires a <= |s| && StartsAt(d, s, a, Run(d, s, a).rows)
    requires Outcome(e, d, Tail(s, a), bufferSize, limit, stat, log)
    ensures stat == Status.Ok || (e == Fast && stat == Status.Nonstandard)
    ensures stat == Status.Ok ==> log == Events(e, d, Tail(s, a), Rows(d, Tail(s, a)), limit)
  {
    hide Run, StartsAt, Outcome, FitsTo, Events, RowsFit, FillsAt, LiteralBy;
    var rest := Tail(s, a);
    RestFits(d, s, a, bufferSize);
    OutcomeIff(e, d, rest, bufferSize, limit, stat, log);
    if p :| FillsAt(e, d, rest, bufferSize, p) {
      NeverBoth(e, d, rest, bufferSize, p);
    }
    var k := RowsByThen(e, d, rest, bufferSize, limit, stat, log);
  }

  // ---------------------------------------------------------------------------------------
  // A whole run
  // ---------------------------------------------------------------------------------------

  /** Guesses of which each was cut at a line break are tiled. */
  lemma GuessesTile(s: bytes, initial: nat, guesses: seq<Guess>)
    requires initial <= |s| && |guesses| > 1 && Cuttable(s, initial, |guesses|)
    requires forall i :: 0 <= i < |guesses| ==> GuessedAt(s, initial, guesses, i)
    ensures Tiled(s, guesses[0].end, guesses[1..])
  {
    hide GuessedAt, CuttableAt;
    var rest, n := guesses[1..], |guesses|;
    forall i | 0 <= i < |rest| ensures GuessAt(s, guesses[0].end, rest, i) {
      assert GuessedAt(s, initial, guesses, i) && GuessedAt(s, initial, guesses, i + 1) && CuttableAt(s, initial, n, i);
      CutsAreSplits(s, initial, guesses, i);
    }
    assert GuessedAt(s, initial, guesses, n - 2) && GuessedAt(s, initial, guesses, n - 1);
    assert CuttableAt(s, initial, n, n - 2);
    CutsAreSplits(s, initial, guesses, n - 2);
    LastGuess(s, initial, guesses);
  }

  lemma LastGuess(s: bytes, initial: nat, guesses: seq<Guess>)
    requires initial <= |s| && guesses != [] && GuessedAt(s, initial, guesses, |guesses| - 1)
    requires guesses[|guesses| - 1].start < |s|
    ensures guesses[|guesses| - 1].end + 1 == |s|
  {
  }

  /** No row after the header is empty. */
  ghost predicate NoEmptyRows(d: Dialect, s: bytes, header: nat) {
    forall m :: header < m < |Rows(d, s)| ==> StartOf(Rows(d, s)[m]) < EndOf(Rows(d, s)[m])
  }

  lemma NoEmptyNoLone(d: Dialect, s: bytes, header: nat, guesses: seq<Guess>)
    requires NoEmptyRows(d, s, header)
    ensures NoLoneRow(d, s, header, guesses)
  {
    hide Rows;
  }

  /** Wherever they were cut, the guesses cover the file. */
  lemma GuessesCover(s: bytes, initial: nat, guesses: seq<Guess>)
    requires initial < |s| && |guesses| > 1
    requires forall i :: 0 <= i < |guesses| ==> GuessedAt(s, initial, guesses, i)
    ensures Covering(s, guesses[0].end, guesses[1..])
  {
    hide GuessedAt;
    var rest, n := guesses[1..], |guesses|;
    forall i | 1 <= i < n
      ensures guesses[i].start < |s| && guesses[i].end < |s| && guesses[i].start <= guesses[i - 1].end + 1
    {
      assert GuessedAt(s, initial, guesses, i - 1) && GuessedAt(s, initial, guesses, i);
      assert i + 1 < n ==> GuessedAt(s, initial, guesses, i + 1);
      GuessesInside(s, initial, guesses, i);
    }
    assert GuessedAt(s, initial, guesses, n - 1);
    LastGuess(s, initial, guesses);
  }

  lemma GuessesInside(s: bytes, initial: nat, guesses: seq<Guess>, i: nat)
    requires initial < |s| && 0 < i < |guesses|
    requires GuessedAt(s, initial, guesses, i - 1) && GuessedAt(s, initial, guesses, i)
    requires i + 1 < |guesses| ==> GuessedAt(s, initial, guesses, i + 1)
    ensures guesses[i].start < |s| && guesses[i].end < |s| && guesses[i].start <= guesses[i - 1].end + 1
  {
    CutInside(s, initial, |guesses|, i, guesses[i].start);
    if i + 1 < |guesses| {
      CutInside(s, initial, |guesses|, i + 1, guesses[i + 1].start);
    }
  }

  lemma CutInside(s: bytes, initial: nat, n: nat, i: nat, start: nat)
    requires initial < |s| && 0 < i < n && CutStart(s, initial, n, i, start)
    ensures start < |s|
  {
    var total := |s| - initial;
    NominalInside(total, n, i - 1);
  }

  lemma NominalInside(total: nat, n: nat, i: nat)
    requires 0 < total && i + 1 < n
    ensures Nominal(total, n, i) < total
  {
    var size := total / n;
    assert total == size * n + total % n;
    Smaller(i + 1, n, size);
  }

  lemma Smaller(a: nat, b: nat, c: nat)
    requires a < b
    ensures a * c <= c * b && (c > 0 ==> a * c < c * b)
  {
    assert c * b == a * c + (b - a) * c;
  }

  /** Guesses cut at line breaks, none of which ends a CR LF, follow one another and the main parser's chunk. */
  lemma GuessesInLine(d: Dialect, s: bytes, header: nat, guesses: seq<Guess>)
    requires header < |Rows(d, s)| && EndOf(Rows(d, s)[header]) <= |s| && |guesses| > 1
    requires Cuttable(s, EndOf(Rows(d, s)[header]), |guesses|) && NoCutAfterCrLf(s, guesses)
    requires forall i :: 0 <= i < |guesses| ==> GuessedAt(s, EndOf(Rows(d, s)[header]), guesses, i)
    ensures InLine(d, s, header, guesses[0].end, guesses[1..])
  {
    hide Rows, GuessedAt, CuttableAt;
    var initial, rest, n := EndOf(Rows(d, s)[header]), guesses[1..], |guesses|;
    FirstGuess(s, initial, guesses);
    forall i | 0 <= i < |rest| ensures Follows(rest, i) && !AfterCrLf(s, rest[i].start) {
      if i > 0 {
        assert GuessedAt(s, initial, guesses, i) && GuessedAt(s, initial, guesses, i + 1);
        assert CuttableAt(s, initial, n, i) && CuttableAt(s, initial, n, i - 1);
        GuessesGrow(s, initial, guesses, i);
      }
    }
  }

  lemma FirstGuess(s: bytes, initial: nat, guesses: seq<Guess>)
    requires initial <= |s| && |guesses| > 1 && GuessedAt(s, initial, guesses, 0)
    ensures guesses[0].end == Max(initial, guesses[1].start - 1)
  {
  }

  lemma GuessesGrow(s: bytes, initial: nat, guesses: seq<Guess>, i: nat)
    requires initial <= |s| && 0 < i && i + 1 < |guesses|
    requires GuessedAt(s, initial, guesses, i) && GuessedAt(s, initial, guesses, i + 1)
    requires CuttableAt(s, initial, |guesses|, i - 1) && CuttableAt(s, initial, |guesses|, i)
    ensures guesses[i].start <= guesses[i + 1].start
    ensures guesses[i].end == Max(guesses[i].start, guesses[i + 1].start - 1)
  {
    hide Nominal;
    var total, n := |s| - initial, |guesses|;
    NominalGrows(total, n, i - 1);
    var q: nat :| Split(s, Nominal(total, n, i - 1), total, q);
    var q': nat :| Split(s, Nominal(total, n, i), total, q');
    assert Split(s, Nominal(total, n, i - 1), total, guesses[i + 1].start);
  }

  lemma NominalGrows(total: nat, n: nat, i: nat)
    requires n > 0
    ensures Nominal(total, n, i) <= Nominal(total, n, i + 1)
  {
  }

  /** No chunk but the first starts after a CR LF. */
  ghost predicate NoCutAfterCrLf(s: bytes, guesses: seq<Guess>) {
    forall i :: 1 <= i < |guesses| ==> !AfterCrLf(s, guesses[i].start)
  }

  /** No chunk but the main parser's, which is the first, has a last byte that nobody takes. */
  predicate NoneLeftOver(rows: seq<seq<Span>>, size: nat, header: nat, guesses: seq<Guess>)
    requires header < |rows| && guesses != []
  {
    forall n :: 0 <= n < |guesses| - 1 ==> !LeftOver(rows, size, header, guesses[0].end, guesses[1..], n)
  }

  ghost predicate EndsInLoneRow(rows: seq<seq<Span>>, header: nat, guess: Guess) {
    exists m: nat :: LoneAfter(rows, header, guess, m)
  }

  /** No chunk but the first ends with a lone row end that follows the only row to end at or past the byte before it. */
  ghost predicate NoneLoneAfter(rows: seq<seq<Span>>, header: nat, guesses: seq<Guess>) {
    forall n :: 1 <= n < |guesses| ==> !EndsInLoneRow(rows, header, guesses[n])
  }

  lemma NoneLeftOverIff(d: Dialect, s: bytes, header: nat, guesses: seq<Guess>)
    requires d.Valid() && Ended(d, s) && header < |Rows(d, s)| && |guesses| > 1
    requires Tiled(s, guesses[0].end, guesses[1..]) && InLine(d, s, header, guesses[0].end, guesses[1..])
    ensures NoneLeftOver(Rows(d, s), |s|, header, guesses) <==> NoneLoneAfter(Rows(d, s), header, guesses)
  {
    hide Rows, Ended, Tiled, InLine, LeftOver, LoneAfter;
    forall n | 0 <= n < |guesses| - 1
      ensures LeftOver(Rows(d, s), |s|, header, guesses[0].end, guesses[1..], n)
         <==> EndsInLoneRow(Rows(d, s), header, guesses[n + 1])
    {
      LeftOverIff(d, s, header, guesses[0].end, guesses[1..], n);
    }
    if !NoneLoneAfter(Rows(d, s), header, guesses) {
      var n :| 1 <= n < |guesses| && EndsInLoneRow(Rows(d, s), header, guesses[n]);
      assert LeftOver(Rows(d, s), |s|, header, guesses[0].end, guesses[1..], n - 1);
    }
  }

  /**
   What `count` prints for a file whose header is row `header`, when asked for a number of jobs,
   and the chunks if there are any; all rows are supposed to be shorter than the parsers' buffers
   (`ParserFindsRows`). It is the number of rows if no row starts at the last byte of a chunk.
   Where the file can be cut at line breaks, it is so if and only if the deal leaves no byte over;
   and if no cut is after a CR LF, that means that no chunk ends with a lone row end that follows
   the first row to end at or past the byte before the chunk.
   */
  method CountRows(d: Dialect, s: bytes, header: nat, jobs: nat) returns (total: nat, offsets: Option<seq<Guess>>)
    requires d.Valid() && header < |Rows(d, s)|
    ensures offsets.Some? <==> jobs > 1 && EndOf(Rows(d, s)[header]) + MIN_BYTES <= |s|
    ensures offsets.Some? ==>
      |offsets.value| == jobs && forall i :: 0 <= i < jobs ==> GuessedAt(s, EndOf(Rows(d, s)[header]), offsets.value, i)
    ensures offsets.None? ==> total == |Rows(d, s)| - header - 1
    ensures offsets.Some? && Ended(d, s) && NoRowAtEnd(d, s, header, offsets.value[1..]) ==>
      total == |Rows(d, s)| - header - 1
    ensures offsets.Some? && Ended(d, s) && Cuttable(s, EndOf(Rows(d, s)[header]), jobs) ==>
      && (total == |Rows(d, s)| - header - 1 <==> NoneLeftOver(Rows(d, s), |s|, header, offsets.value))
      && (NoEmptyRows(d, s, header) || NoLoneRow(d, s, header, offsets.value[1..]) ==>
           total == |Rows(d, s)| - header - 1)
      && (NoCutAfterCrLf(s, offsets.value) ==>
           (total == |Rows(d, s)| - header - 1 <==> NoneLoneAfter(Rows(d, s), header, offsets.value)))
  {
    hide Rows, Ended, NoRowAtEnd, NoEmptyRows, NoneLeftOver, NoneLoneAfter, NoCutAfterCrLf,
         UnfinishedAt, Cuttable, CountedTo, Stitched, Tiled, NoLoneRow, GuessedAt, LeftOver;
    var initial := EndOf(Rows(d, s)[header]);
    offsets := None;
    if jobs > 1 {
      offsets := GuessFileChunks(s, jobs, initial);
    }
    if offsets.None? {
      total := |Rows(d, s)| - header - 1;
      return;
    }
    var guesses := offsets.value;
    var count, first, parts;
    total, count, first, parts := ParallelCount(d, s, header, guesses[0].end, guesses[1..]);
    if Ended(d, s) {
      GuessesCover(s, initial, guesses);
      if NoRowAtEnd(d, s, header, guesses[1..]) {
        SerialUnlessRowAtEnd(d, s, header, guesses[0].end, count, first, guesses[1..], parts);
      }
      if Cuttable(s, initial, jobs) {
        WithCuts(d, s, header, total, count, first, guesses, parts);
      }
    }
  }

  lemma WithCuts(d: Dialect, s: bytes, header: nat, total: nat, count: nat, first: nat,
                 guesses: seq<Guess>, parts: seq<Part>)
    requires d.Valid() && Ended(d, s) && header < |Rows(d, s)| && EndOf(Rows(d, s)[header]) <= |s| && |guesses| > 1
    requires forall i :: 0 <= i < |guesses| ==> GuessedAt(s, EndOf(Rows(d, s)[header]), guesses, i)
    requires Cuttable(s, EndOf(Rows(d, s)[header]), |guesses|)
    requires CountedTo(Rows(d, s), header + 1, guesses[0].end, UnfinishedAt(d, s), count, first)
    requires Stitched(d, s, first, guesses[1..], parts) && total == count + Total(parts, |parts|)
    ensures total == |Rows(d, s)| - header - 1 <==> NoneLeftOver(Rows(d, s), |s|, header, guesses)
    ensures NoEmptyRows(d, s, header) || NoLoneRow(d, s, header, guesses[1..]) ==> total == |Rows(d, s)| - header - 1
    ensures NoCutAfterCrLf(s, guesses) ==>
      (total == |Rows(d, s)| - header - 1 <==> NoneLoneAfter(Rows(d, s), header, guesses))
  {
    hide Rows, Ended, NoEmptyRows, NoCutAfterCrLf, Cuttable, CountedTo, Stitched, Tiled, InLine, NoLoneRow,
         GuessedAt, LeftOver, NoneLoneAfter, UnfinishedAt;
    GuessesTile(s, EndOf(Rows(d, s)[header]), guesses);
    SerialIffNoneLeftOver(d, s, header, guesses[0].end, count, first, guesses[1..], parts);
    if NoEmptyRows(d, s, header) {
      NoEmptyNoLone(d, s, header, guesses[1..]);
    }
    if NoLoneRow(d, s, header, guesses[1..]) {
      SerialUnlessLoneRow(d, s, header, guesses[0].end, count, first, guesses[1..], parts);
    }
    if NoCutAfterCrLf(s, guesses) {
      GuessesInLine(d, s, header, guesses);
      NoneLeftOverIff(d, s, header, guesses);
    }
  }
}
