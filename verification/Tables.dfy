/** Writing a table and parsing the bytes, in any chunks and with either engine. */
module Tables {
  import opened Csv
  import opened Scanner
  import opened FastFacts
  import opened Fits
  import opened RoundTrip
  import opened Engines

  /** The text of a cell as its engine delivers it: the fast engine leaves the quotes on. */
  function CellText(e: Engine, d: Dialect, c: CellValue): bytes {
    if e == Compat then c.text else Norm(d, c.text)
  }

  /** The row handed over has the texts `row`, as far as the column limit allows. */
  ghost predicate RowDelivered(e: Engine, d: Dialect, limit: nat, ev: RowEvent, row: seq<bytes>) {
    && |ev.cells| == (if |row| < limit then |row| else limit)
    && forall k :: 0 <= k < |ev.cells| ==> CellText(e, d, ev.cells[k]) == row[k]
  }

  ghost predicate Delivered(e: Engine, d: Dialect, limit: nat, log: seq<RowEvent>, table: seq<seq<bytes>>) {
    |log| == |table| && forall r :: 0 <= r < |log| ==> RowDelivered(e, d, limit, log[r], table[r])
  }

  lemma {:induction false} ValueTexts(e: Engine, d: Dialect, s: bytes, row: seq<Span>, n: nat)
    requires n <= |row|
    ensures var values := Values(e, d, s, row, n);
      |values| == n && forall k :: 0 <= k < n ==> CellText(e, d, values[k]) == Norm(d, Slice(s, row[k]))
  {
    hide Norm, FlagsOf, Slice;
    if n > 0 {
      ValueTexts(e, d, s, row, n - 1);
    }
  }

  lemma EventDelivers(e: Engine, d: Dialect, s: bytes, row: seq<Span>, limit: nat)
    ensures RowDelivered(e, d, limit, EventOf(e, d, s, row, limit), Texts(d, s, row))
  {
    hide Norm, Slice, Values;
    ValueTexts(e, d, s, row, Min(|row|, limit));
  }

  lemma EventsDeliver(e: Engine, d: Dialect, s: bytes, rows: seq<seq<Span>>, limit: nat)
    ensures Delivered(e, d, limit, Events(e, d, s, rows, limit), TableTexts(d, s, rows))
  {
    hide Events, EventOf, Texts, RowDelivered;
    EventsAre(e, d, s, rows, limit);
    forall r | 0 <= r < |rows|
      ensures RowDelivered(e, d, limit, EventOf(e, d, s, rows[r], limit), Texts(d, s, rows[r]))
    {
      EventDelivers(e, d, s, rows[r], limit);
    }
  }

  /**
   A table of non-empty rows, written as section 2 of RFC 4180 asks, and parsed in any chunks:
   if all rows are shorter than the buffer, either engine delivers its texts, and otherwise both
   stop where a row fills it.
   */
  method ParseWritten(e: Engine, d: Dialect, table: seq<seq<bytes>>, chunks: seq<bytes>,
                      bufferSize: nat, limit: nat, v: nat)
    returns (log: seq<RowEvent>, stat: Status)
    requires d.Valid() && !d.noQuotes && v > 0 && forall r :: 0 <= r < |table| ==> table[r] != []
    requires ValidTable(d, Written(d, table)) && Concat(chunks) == Print(d, Written(d, table))
    ensures stat == if FitsTo(d, Concat(chunks), bufferSize, |Concat(chunks)|) then Ok else Truncated
    ensures bufferSize > 0 ==>
      (stat == Ok <==> forall r :: 0 <= r < |Rows(d, Concat(chunks))| ==>
          RowLength(Rows(d, Concat(chunks))[r]) < bufferSize)
    ensures stat == Ok ==> Delivered(e, d, limit, log, table)
  {
    hide Events, Run, Outcome, Written, Print, Texts, Delivered, FitsTo, Clean, FillsAt, LiteralBy;
    ghost var s := Concat(chunks);
    Rfc4180RoundTrip(d, table);
    var z;
    z, stat := PushAll(e, d, chunks, bufferSize, limit, v);
    log := z.log;
    OutcomeIff(e, d, s, bufferSize, limit, stat, log);
    NeverLiteral(e, d, s, bufferSize);
    ghost var k := RowsByThen(e, d, s, bufferSize, limit, stat, log);
    EventsDeliver(e, d, s, Rows(d, s), limit);
    if bufferSize > 0 {
      FitsIffRowsFit(d, s, bufferSize);
    }
  }

  lemma NeverLiteral(e: Engine, d: Dialect, s: bytes, bufferSize: nat)
    requires Clean(d, s, |s|)
    ensures forall p :: !LiteralBy(d, s, bufferSize, p)
  {
  }
}
