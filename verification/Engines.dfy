/** Whole parses: any chunking gives the same rows, and the two engines agree. */
module Engines {
  import opened Csv
  import opened CsvFacts
  import opened Scanner
  import opened FastFacts
  import opened FastScan
  import opened Buffer
  import opened Fits
  import opened Parser

  // ---------------------------------------------------------------------------------------
  // Comparing what the engines deliver
  // ---------------------------------------------------------------------------------------

  /** Same byte offsets, same cells, and the compat engine's texts are the raw ones unquoted. */
  ghost predicate SameCuts(d: Dialect, compat: RowEvent, fast: RowEvent) {
    && compat.start == fast.start && compat.end == fast.end && |compat.cells| == |fast.cells|
    && forall k :: 0 <= k < |compat.cells| ==> compat.cells[k].text == Norm(d, fast.cells[k].text)
  }

  lemma {:induction false} SameValues(d: Dialect, s: bytes, row: seq<Span>, n: nat)
    requires n <= |row|
    ensures var compat, fast := Values(Compat, d, s, row, n), Values(Fast, d, s, row, n);
      |compat| == |fast| == n && forall k :: 0 <= k < n ==> compat[k].text == Norm(d, fast[k].text)
  {
    hide Norm, FlagsOf, Slice;
    if n > 0 {
      SameValues(d, s, row, n - 1);
    }
  }

  lemma SameEvent(d: Dialect, s: bytes, row: seq<Span>, limit: nat)
    ensures SameCuts(d, EventOf(Compat, d, s, row, limit), EventOf(Fast, d, s, row, limit))
  {
    hide Norm, Values;
    SameValues(d, s, row, Min(|row|, limit));
  }

  lemma {:induction false} EventsAre(e: Engine, d: Dialect, s: bytes, rows: seq<seq<Span>>, limit: nat)
    ensures |Events(e, d, s, rows, limit)| == |rows|
    ensures forall r :: 0 <= r < |rows| ==> Events(e, d, s, rows, limit)[r] == EventOf(e, d, s, rows[r], limit)
  {
    hide EventOf;
    if rows != [] {
      EventsAre(e, d, s, rows[..|rows| - 1], limit);
    }
  }

  /** On the same stream, rows the fast engine has delivered are the compat engine's first rows. */
  lemma FastIsPrefixOfCompat(d: Dialect, s: bytes, k: nat, k': nat, limit: nat)
    requires k <= |s| && k' <= |s|
    ensures var fast := Events(Fast, d, s, Run(d, s, k).rows, limit);
      var compat := Events(Compat, d, s, Run(d, s, k').rows, limit);
      && (k <= k' ==> |fast| <= |compat|) && (k == k' ==> |fast| == |compat|)
      && forall r :: 0 <= r < |fast| && r < |compat| ==> SameCuts(d, compat[r], fast[r])
  {
    hide Run, Events, EventOf, SameCuts;
    var rows, rows' := Run(d, s, k).rows, Run(d, s, k').rows;
    EventsAre(Fast, d, s, rows, limit);
    EventsAre(Compat, d, s, rows', limit);
    if k <= k' {
      RowsGrow(d, s, k, k');
    } else {
      RowsGrow(d, s, k', k);
    }
    forall r | 0 <= r < |rows| && r < |rows'|
      ensures SameCuts(d, EventOf(Compat, d, s, rows'[r], limit), EventOf(Fast, d, s, rows[r], limit))
    {
      assert rows[r] == rows'[r];
      SameEvent(d, s, rows[r], limit);
    }
  }

  // ---------------------------------------------------------------------------------------
  // A whole push parse
  // ---------------------------------------------------------------------------------------

  function Concat(chunks: seq<bytes>): bytes {
    if chunks == [] then [] else chunks[0] + Concat(chunks[1..])
  }

  /** The rows that have ended by byte `k`. */
  ghost predicate RowsBy(e: Engine, d: Dialect, s: bytes, limit: nat, k: nat, log: seq<RowEvent>) {
    k <= |s| && log == Events(e, d, s, Run(d, s, k).rows, limit)
  }

  /** A row fills the buffer at byte `p`, before the input ends and before the engine has met a literal quote. */
  ghost predicate FillsAt(e: Engine, d: Dialect, s: bytes, bufferSize: nat, p: nat) {
    p < |s| && FirstCrowded(d, s, bufferSize, p) && (e == Fast ==> Clean(d, s, p))
  }

  /** There is a literal quote before byte `p`, and no row fills the buffer before that byte. */
  ghost predicate LiteralBy(d: Dialect, s: bytes, bufferSize: nat, p: nat) {
    FitsTo(d, s, bufferSize, p) && !Clean(d, s, p)
  }

  /**
   What a parse of the whole input `s` ends in: at the end; or at the first byte at which a row
   fills the buffer; or, with the fast engine, less than 64 bytes before the first literal quote.
   */
  ghost predicate Outcome(e: Engine, d: Dialect, s: bytes, bufferSize: nat, limit: nat,
                          stat: Status, log: seq<RowEvent>) {
    match stat
    case Ok => FitsTo(d, s, bufferSize, |s|) && (e == Fast ==> Clean(d, s, |s|)) && RowsBy(e, d, s, limit, |s|, log)
    case Truncated => exists p :: FillsAt(e, d, s, bufferSize, p) && RowsBy(e, d, s, limit, p, log)
    case Nonstandard =>
      && e == Fast && (exists p :: LiteralBy(d, s, bufferSize, p))
      && exists k :: BailsAt(d, s, k) && RowsBy(e, d, s, limit, k, log)
    case _ => false
  }

  /** Which of the three it is, is decided by the input alone. */
  lemma OutcomeIff(e: Engine, d: Dialect, s: bytes, bufferSize: nat, limit: nat, stat: Status, log: seq<RowEvent>)
    requires Outcome(e, d, s, bufferSize, limit, stat, log)
    ensures stat in {Ok, Truncated, Status.Nonstandard}
    ensures stat == Ok <==> FitsTo(d, s, bufferSize, |s|) && (e == Fast ==> Clean(d, s, |s|))
    ensures stat == Truncated <==> exists p :: FillsAt(e, d, s, bufferSize, p)
    ensures stat == Status.Nonstandard <==> e == Fast && exists p :: LiteralBy(d, s, bufferSize, p)
  {
    hide Clean, Crowded, RowsBy, BailsAt;
    if p :| FillsAt(e, d, s, bufferSize, p) {
      NeverBoth(e, d, s, bufferSize, p);
    }
    if e == Fast && Clean(d, s, |s|) {
      forall p: nat ensures !LiteralBy(d, s, bufferSize, p) {
        if LiteralBy(d, s, bufferSize, p) {
          NotClean(d, s, p, |s|);
        }
      }
    }
  }

  /** Where a row fills the buffer first, the rest of the input is not looked at. */
  lemma NeverBoth(e: Engine, d: Dialect, s: bytes, bufferSize: nat, p: nat)
    requires FillsAt(e, d, s, bufferSize, p)
    ensures !FitsTo(d, s, bufferSize, |s|)
    ensures e == Fast ==> forall q :: !LiteralBy(d, s, bufferSize, q)
    ensures forall q :: FillsAt(e, d, s, bufferSize, q) ==> q == p
  {
    hide Clean, Crowded;
    if e == Fast {
      forall q: nat ensures !LiteralBy(d, s, bufferSize, q) {
        if q <= p && !Clean(d, s, q) {
          NotClean(d, s, q, p);
        }
      }
    }
  }

  /**
   So two parses of the same bytes end in the same way, and unless the fast engine met a
   literal quote they have delivered the same rows.
   */
  lemma OutcomeIsDetermined(e: Engine, d: Dialect, s: bytes, bufferSize: nat, limit: nat,
                            stat: Status, log: seq<RowEvent>, stat': Status, log': seq<RowEvent>)
    requires Outcome(e, d, s, bufferSize, limit, stat, log) && Outcome(e, d, s, bufferSize, limit, stat', log')
    ensures stat == stat' && (stat != Status.Nonstandard ==> log == log')
  {
    hide FillsAt, LiteralBy, FitsTo, Clean, BailsAt, Events, Run;
    OutcomeIff(e, d, s, bufferSize, limit, stat, log);
    OutcomeIff(e, d, s, bufferSize, limit, stat', log');
    if stat == Truncated {
      var p :| FillsAt(e, d, s, bufferSize, p) && RowsBy(e, d, s, limit, p, log);
      NeverBoth(e, d, s, bufferSize, p);
    }
  }

  lemma RowsByGrows(e: Engine, d: Dialect, s: bytes, t: bytes, limit: nat, k: nat, log: seq<RowEvent>)
    requires d.Valid() && RowsBy(e, d, s, limit, k, log)
    ensures RowsBy(e, d, s + t, limit, k, log)
  {
    hide Events, Run;
    EventsAtGrow(e, d, s, t, k, limit);
  }

  lemma CleanPrefix(d: Dialect, s: bytes, t: bytes, p: nat)
    requires p <= |s|
    ensures Clean(d, s + t, p) == Clean(d, s, p)
  {
    hide Run;
    forall j | 0 <= j < p ensures Literal(d, s + t, j) == Literal(d, s, j) {
      RunPrefix(d, s, s + t, j);
    }
  }

  lemma BailsGrows(d: Dialect, s: bytes, t: bytes, k: nat)
    requires BailsAt(d, s, k)
    ensures BailsAt(d, s + t, k)
  {
    hide Clean;
    CleanPrefix(d, s, t, k);
    CleanPrefix(d, s, t, Min(k + 64, |s|));
    NotClean(d, s + t, Min(k + 64, |s|), Min(k + 64, |s + t|));
  }

  /** An early end of a prefix of the input is an early end of the input. */
  lemma OutcomeGrows(z: Scanner, t: bytes, stat: Status)
    requires z.d.Valid() && stat in {Truncated, Status.Nonstandard}
    requires stat == Truncated ==> RowTooLong(z) && t != []
    requires stat == Status.Nonstandard ==>
      z.e == Fast && Fitting(z) && !Clean(z.d, z.stream, |z.stream|) && RowsOfPrefix(z)
    ensures Outcome(z.e, z.d, z.stream + t, z.buff.Length, z.cells.Length, stat, z.log)
  {
    hide Events, Run, Clean, Crowded, FitsTo, RowsBy;
    var s, p := z.stream + t, |z.stream|;
    FitsPrefix(z.d, z.stream, t, z.buff.Length, p);
    CleanPrefix(z.d, z.stream, t, p);
    if stat == Truncated {
      CrowdedPrefix(z.d, z.stream, t, z.buff.Length, p);
      RowsSoFar(z, p);
      RowsByGrows(z.e, z.d, z.stream, t, z.cells.Length, p, z.log);
      assert FillsAt(z.e, z.d, s, z.buff.Length, p);
    } else {
      var k: nat :| BailsAt(z.d, z.stream, k)
        && z.log == Events(z.e, z.d, z.stream, Run(z.d, z.stream, k).rows, z.cells.Length);
      BailsIsNotClean(z.d, z.stream, k);
      RowsSoFar(z, k);
      RowsByGrows(z.e, z.d, z.stream, t, z.cells.Length, k, z.log);
      BailsGrows(z.d, z.stream, t, k);
      assert LiteralBy(z.d, s, z.buff.Length, p);
    }
  }

  lemma RowsSoFar(z: Scanner, k: nat)
    requires k <= |z.stream| && z.log == Events(z.e, z.d, z.stream, Run(z.d, z.stream, k).rows, z.cells.Length)
    ensures RowsBy(z.e, z.d, z.stream, z.cells.Length, k, z.log)
  {
  }

  lemma PrefixSplit(s: bytes, t: bytes)
    requires s <= t
    ensures s + t[|s|..] == t
  {
  }

  /**
   Parse the chunks one after the other. Whatever they are, and wherever a quote, a doubled
   quote or a CR LF is split, `Outcome` says of their concatenation how the parse ends and
   what has been delivered.
   */
  method PushAll(e: Engine, d: Dialect, chunks: seq<bytes>, bufferSize: nat, limit: nat, v: nat)
    returns (z: Scanner, stat: Status)
    requires d.Valid() && v > 0
    ensures fresh(z) && Outcome(e, d, Concat(chunks), bufferSize, limit, stat, z.log)
  {
    hide Events, Run, Clean, Loaded, RowHeld, Idle, RowsOfPrefix, RowTooLong, Outcome, FitsTo;
    NothingFits(d, bufferSize);
    z := new Scanner(e, d, false, bufferSize, limit);
    ghost var all := Concat(chunks);
    var i := 0;
    ConcatNothing(chunks);
    while i < |chunks|
      invariant i <= |chunks| && z.d == d && z.e == e && !z.pull && !z.abort && Pushing(z) && fresh(z)
      invariant z.buff.Length == bufferSize && z.cells.Length == limit && fresh(z.buff) && fresh(z.cells)
      invariant z.stream + Concat(chunks[i..]) == all
    {
      ghost var was := z.stream;
      ConcatStep(chunks, i);
      stat := ParseBytes(z, chunks[i], v);
      Assoc(was, chunks[i], Concat(chunks[i + 1..]));
      if stat != Ok {
        PrefixOf(was + chunks[i], Concat(chunks[i + 1..]), z.stream);
        PrefixSplit(z.stream, all);
        NotTheEnd(z.stream, was + chunks[i], Concat(chunks[i + 1..]));
        OutcomeGrows(z, all[|z.stream|..], stat);
        return;
      }
      i := i + 1;
    }
    stat := Ok;
    ConcatEnd(chunks, z.stream);
    DeliveredAll(z);
    OutcomeOk(z);
  }

  lemma ConcatNothing(chunks: seq<bytes>)
    ensures [] + Concat(chunks[0..]) == Concat(chunks)
  {
    assert chunks[0..] == chunks;
  }

  lemma ConcatStep(chunks: seq<bytes>, i: nat)
    requires i < |chunks|
    ensures Concat(chunks[i..]) == chunks[i] + Concat(chunks[i + 1..])
  {
    assert chunks[i..][1..] == chunks[i + 1..];
  }

  lemma ConcatEnd(chunks: seq<bytes>, s: bytes)
    ensures s + Concat(chunks[|chunks|..]) == s
  {
  }

  lemma NothingFits(d: Dialect, size: nat)
    ensures FitsTo(d, [], size, 0)
  {
  }

  lemma NotTheEnd(p: bytes, s: bytes, t: bytes)
    requires p <= s
    ensures p != s ==> (s + t)[|p|..] != []
  {
  }

  lemma PrefixOf(s: bytes, t: bytes, p: bytes)
    requires p <= s
    ensures p <= s + t
  {
  }

  lemma OutcomeOk(z: Scanner)
    requires z.log == Events(z.e, z.d, z.stream, Rows(z.d, z.stream), z.cells.Length)
    requires Fitting(z) && (z.e == Fast ==> Clean(z.d, z.stream, |z.stream|))
    ensures Outcome(z.e, z.d, z.stream, z.buff.Length, z.cells.Length, Ok, z.log)
  {
    hide Events, Run, Clean;
  }

  lemma RowsByThen(e: Engine, d: Dialect, s: bytes, bufferSize: nat, limit: nat, stat: Status, log: seq<RowEvent>)
    returns (k: nat)
    requires Outcome(e, d, s, bufferSize, limit, stat, log)
    ensures RowsBy(e, d, s, limit, k, log) && (stat == Ok ==> k == |s|)
  {
    hide FillsAt, LiteralBy, FitsTo, Clean, BailsAt, RowsBy;
    if stat == Ok {
      k := |s|;
    } else if stat == Truncated {
      k :| FillsAt(e, d, s, bufferSize, k) && RowsBy(e, d, s, limit, k, log);
    } else {
      k :| BailsAt(d, s, k) && RowsBy(e, d, s, limit, k, log);
    }
  }

  /**
   The main comparison. Two parsers are fed the same bytes in different chunks, one with each
   engine. Both end as `Outcome` says, and every row both deliver is cut at the same bytes. If
   the compat engine reaches the end, the fast one delivers no row that it does not, and all of
   them if it reaches the end too.
   */
  method CompareEngines(d: Dialect, chunks: seq<bytes>, chunks': seq<bytes>, bufferSize: nat, bufferSize': nat,
                        limit: nat, v: nat)
    returns (compat: seq<RowEvent>, fast: seq<RowEvent>, stat: Status, stat': Status)
    requires d.Valid() && v > 0 && Concat(chunks) == Concat(chunks')
    ensures Outcome(Compat, d, Concat(chunks), bufferSize, limit, stat, compat)
    ensures Outcome(Fast, d, Concat(chunks), bufferSize', limit, stat', fast)
    ensures forall r :: 0 <= r < |fast| && r < |compat| ==> SameCuts(d, compat[r], fast[r])
    ensures stat == Ok ==> |fast| <= |compat| && (stat' == Ok ==> |fast| == |compat|)
  {
    hide Events, Run, SameCuts, Outcome;
    ghost var s := Concat(chunks);
    var z, z';
    z, stat := PushAll(Compat, d, chunks, bufferSize, limit, v);
    compat := z.log;
    z', stat' := PushAll(Fast, d, chunks', bufferSize', limit, v);
    fast := z'.log;
    ghost var k' := RowsByThen(Compat, d, s, bufferSize, limit, stat, compat);
    ghost var k := RowsByThen(Fast, d, s, bufferSize', limit, stat', fast);
    FastIsPrefixOfCompat(d, s, k, k', limit);
  }
}
