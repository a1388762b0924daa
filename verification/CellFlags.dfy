/** What the flags of a cell say about its bytes. */
module CellFlags {
  import opened Csv
  import opened CsvFacts
  import opened CellUnquote
  import opened Scanner
  import Reading

  /** There is a quote at one of the places i..j. */
  ghost predicate QuoteIn(raw: bytes, i: nat, j: nat) {
    exists p :: i <= p < j && p < |raw| && raw[p] == 34
  }

  /** There is a quote, a line break or a delimiter. */
  ghost predicate SpecialIn(d: Dialect, raw: bytes, i: nat, j: nat) {
    exists p :: i <= p < j && p < |raw| && (raw[p] == 34 || raw[p] == 10 || raw[p] == 13 || raw[p] == d.delim)
  }

  lemma InSnoc(d: Dialect, raw: bytes, i: nat, k: nat)
    requires i <= k < |raw|
    ensures QuoteIn(raw, i, k + 1) <==> QuoteIn(raw, i, k) || raw[k] == 34
    ensures SpecialIn(d, raw, i, k + 1) <==>
            SpecialIn(d, raw, i, k) || raw[k] == 34 || raw[k] == 10 || raw[k] == 13 || raw[k] == d.delim
  {
  }

  lemma InNothing(d: Dialect, raw: bytes, i: nat)
    ensures !QuoteIn(raw, i, i) && !SpecialIn(d, raw, i, i)
  {
  }

  /** What has been noted of the first `k` bytes. */
  ghost predicate Noted(d: Dialect, raw: bytes, k: nat, q: Quoting) {
    match q.mode
    case Start => k == 0 && !q.needed && !q.embedded
    case Plain => 0 < k <= |raw| && raw[0] != 34 && !q.needed && (q.embedded <==> QuoteIn(raw, 1, k))
    case Open =>
      && 0 < k <= |raw| && raw[0] == 34
      && (q.needed <==> SpecialIn(d, raw, 1, k)) && (q.embedded <==> QuoteIn(raw, 1, k))
    case Pending =>
      && 1 < k <= |raw| && raw[0] == 34 && raw[k - 1] == 34
      && (q.needed <==> SpecialIn(d, raw, 1, k - 1)) && (q.embedded <==> QuoteIn(raw, 1, k - 1))
    case Closed =>
      && 0 < q.close < k <= |raw| && raw[0] == 34 && raw[q.close] == 34
      && (q.needed <==> SpecialIn(d, raw, 1, q.close))
      && (q.embedded <==> QuoteIn(raw, 1, q.close) || QuoteIn(raw, q.close + 1, k))
  }

  lemma FeedNotes(d: Dialect, raw: bytes, k: nat, q: Quoting)
    requires !d.noQuotes && k < |raw| && Noted(d, raw, k, q)
    ensures Noted(d, raw, k + 1, Feed(d, q, k, raw[k]))
  {
    hide QuoteIn, SpecialIn;
    InNothing(d, raw, 1);
    InNothing(d, raw, k);
    if k > 0 {
      InSnoc(d, raw, 1, k);
    }
    if k > 1 {
      InSnoc(d, raw, 1, k - 1);
    }
    InSnoc(d, raw, k, k);
    if q.mode == Closed {
      InSnoc(d, raw, q.close + 1, k);
    }
  }

  lemma {:induction false} ScanNotes(d: Dialect, raw: bytes, k: nat)
    requires !d.noQuotes && k <= |raw|
    ensures Noted(d, raw, k, Scan(d, raw, k))
  {
    hide Feed, Noted;
    if k == 0 {
      NotedNothing(d, raw);
    } else {
      ScanNotes(d, raw, k - 1);
      FeedNotes(d, raw, k - 1, Scan(d, raw, k - 1));
    }
  }

  lemma NotedNothing(d: Dialect, raw: bytes)
    ensures Noted(d, raw, 0, FRESH)
  {
  }

  lemma FinalNotes(d: Dialect, raw: bytes)
    requires !d.noQuotes && Scan(d, raw, |raw|).mode != Open
    ensures Noted(d, raw, |raw|, Final(d, raw)) && Final(d, raw).mode != Pending && Final(d, raw).mode != Open
    ensures Final(d, raw).mode == Closed ==> Final(d, raw).close == CloseAt(raw, 1)
  {
    hide QuoteIn, SpecialIn, Scan;
    ScanNotes(d, raw, |raw|);
    ScanMeaning(d, raw, |raw|);
    FinalMeaning(d, raw);
    InNothing(d, raw, |raw|);
  }

  /**
   The flags of a finished cell, exactly. `closed`: it starts with a quote. `embedded`: there is a
   quote besides that and the closing one, which is at CloseAt(raw, 1). `needed`: before the
   closing quote there is a separator or another quote; or there is no quote at all, commas are
   not delimiters and there is one.
   */
  lemma FlagsSay(d: Dialect, raw: bytes)
    requires !d.noQuotes && Scan(d, raw, |raw|).mode != Open
    ensures var f, quoted := FlagsOf(d, raw), raw != [] && raw[0] == 34;
      && !f.unclosed && !f.pending && f.closed == quoted
      && (quoted ==> CloseAt(raw, 1) < |raw| && raw[CloseAt(raw, 1)] == 34)
      && (f.embedded <==> exists p :: 1 <= p < |raw| && raw[p] == 34 && !(quoted && p == CloseAt(raw, 1)))
      && (f.needed <==>
            || (quoted && exists p | 1 <= p < CloseAt(raw, 1) ::
                  raw[p] == 34 || raw[p] == 10 || raw[p] == 13 || raw[p] == d.delim)
            || (d.delim != 44 && 44 in raw && 34 !in raw))
  {
    hide Scan, Final;
    FinalNotes(d, raw);
    var q := Final(d, raw);
    if q.mode == Closed {
      assert FlagsFor(q) != NONE;
    } else if !q.embedded {
      assert FlagsFor(q) == NONE;
      assert forall p :: 0 <= p < |raw| ==> raw[p] != 34;
    }
  }

  /** With quoting disabled every cell has the same flags, whatever its bytes, and so have cells of the fast engine. */
  lemma FlagsWithoutQuoting(d: Dialect, s: bytes, span: Span)
    ensures d.noQuotes ==> FlagsOf(d, Slice(s, span)) == Flags(true, false, false, false, false)
    ensures ValueOf(Fast, d, s, span).quoted == Flags(d.noQuotes, false, false, false, false)
  {
  }

  /** The text of a cell without flags can be written bare, with its own delimiter or with commas. */
  lemma BareIsSafe(d: Dialect, s: bytes, span: Span)
    requires d.Valid() && !d.noQuotes && Reading.IsCell(d, s, span)
    requires FlagsOf(d, s[span.lo..span.hi]) == Flags(false, false, false, false, false)
    ensures forall b :: b in Norm(d, s[span.lo..span.hi]) ==> b != 34 && b != 10 && b != 13 && b != 44 && b != d.delim
  {
    hide Scan, FlagsOf;
    var raw := s[span.lo..span.hi];
    FlagsSay(d, raw);
    forall p | 0 <= p < |raw|
      ensures raw[p] != 34 && raw[p] != 10 && raw[p] != 13 && raw[p] != 44 && raw[p] != d.delim
    {
      ScanMeaning(d, raw, p);
      assert raw[p] == s[span.lo + p];
    }
  }
}
