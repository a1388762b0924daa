/** Writing a table as section 2 of RFC 4180 prescribes, and reading it back. */
module RoundTrip {
  import opened Csv
  import opened CsvFacts
  import opened FastFacts

  /** A cell's text, and whether it is written between quotes. */
  datatype Field = Field(text: bytes, quoted: bool)

  datatype RowEnd = EndCr | EndLf | EndCrLf

  datatype Record = Record(fields: seq<Field>, end: RowEnd)

  /** Quotes may be left out only where nothing needs them. */
  ghost predicate ValidField(d: Dialect, f: Field) {
    f.quoted || forall k :: 0 <= k < |f.text| ==> !d.IsSpecial(f.text[k])
  }

  ghost predicate ValidRecord(d: Dialect, r: Record) {
    r.fields != [] && forall k :: 0 <= k < |r.fields| ==> ValidField(d, r.fields[k])
  }

  ghost predicate ValidTable(d: Dialect, t: seq<Record>) {
    forall k :: 0 <= k < |t| ==> ValidRecord(d, t[k])
  }

  function Double(text: bytes): bytes {
    if text == [] then []
    else (if text[0] == QT then [QT, QT] else [text[0]]) + Double(text[1..])
  }

  function PrintField(f: Field): bytes {
    if f.quoted then [QT] + (Double(f.text) + [QT]) else f.text
  }

  function PrintEnd(e: RowEnd): bytes {
    match e case EndCr => [CR] case EndLf => [LF] case EndCrLf => [CR, LF]
  }

  function PrintRow(d: Dialect, fields: seq<Field>, end: RowEnd): bytes
    requires fields != []
  {
    if |fields| == 1 then PrintField(fields[0]) + PrintEnd(end)
    else PrintField(fields[0]) + ([d.delim] + PrintRow(d, fields[1..], end))
  }

  ghost function Print(d: Dialect, t: seq<Record>): bytes
    requires ValidTable(d, t)
  {
    if t == [] then [] else PrintRow(d, t[0].fields, t[0].end) + Print(d, t[1..])
  }

  // ---------------------------------------------------------------------------------------
  // One field
  // ---------------------------------------------------------------------------------------

  lemma {:induction false} CollapseDouble(text: bytes)
    ensures Collapse(Double(text)) == text
  {
    if text != [] {
      CollapseDouble(text[1..]);
      var rest := Double(text[1..]);
      if text[0] == QT {
        CollapsePair(rest);
      } else {
        CollapseHead(text[0], rest);
      }
    }
  }

  /** Doubling, byte by byte: a quote is 34. */
  lemma {:induction false} DoubleBytes(text: bytes, more: bytes, b: byte)
    ensures Double(text + more) == Double(text) + Double(more)
    ensures Double([]) == [] && Double([b]) == if b == 34 then [34, 34] else [b]
  {
    assert Double([b][1..]) == [];
    if text == [] {
      assert text + more == more;
    } else {
      DoubleBytes(text[1..], more, b);
      assert (text + more)[1..] == text[1..] + more;
      Assoc(if text[0] == QT then [QT, QT] else [text[0]], Double(text[1..]), Double(more));
    }
  }

  lemma {:induction false} CloseAfterDouble(raw: bytes, i: nat, text: bytes)
    requires i + |Double(text)| <= |raw| && raw[i..i + |Double(text)|] == Double(text)
    ensures CloseAt(raw, i) == CloseAt(raw, i + |Double(text)|)
    decreases |text|
  {
    if text != [] {
      var rest := Double(text[1..]);
      var n := if text[0] == QT then 2 else 1;
      var all := raw[i..i + |Double(text)|];
      assert raw[i + n..i + n + |rest|] == all[n..] == rest;
      assert raw[i] == all[0] && (n == 2 ==> raw[i + 1] == all[1]);
      CloseAfterDouble(raw, i + n, text[1..]);
    }
  }

  /**
   A quoted text closes after its doubled quotes, and what follows the closing quote is kept, with
   pairs of quotes made one; without a closing quote all stays as it is.
   */
  lemma QuotedText(d: Dialect, text: bytes, rest: bytes)
    requires !d.noQuotes && (rest != [] ==> rest[0] != 34)
    ensures CloseAt([34] + (Double(text) + ([34] + rest)), 1) == 1 + |Double(text)|
    ensures Norm(d, [34] + (Double(text) + ([34] + rest))) == text + Collapse(rest)
    ensures Norm(d, [34] + Double(text)) == [34] + Double(text)
  {
    hide Double, Collapse, CloseAt, Norm;
    QuotedCloses(d, text, rest);
    CollapseDouble(text);
    NeverCloses(d, text);
  }

  lemma QuotedCloses(d: Dialect, text: bytes, rest: bytes)
    requires !d.noQuotes && (rest != [] ==> rest[0] != 34)
    ensures var raw := [34] + (Double(text) + ([34] + rest));
      CloseAt(raw, 1) == 1 + |Double(text)| && Norm(d, raw) == Collapse(Double(text)) + Collapse(rest)
  {
    hide Double, Collapse;
    var raw, c := [34] + (Double(text) + ([34] + rest)), 1 + |Double(text)|;
    assert raw[1..c] == Double(text) && raw[c + 1..] == rest && raw[c] == 34;
    assert rest != [] ==> raw[c + 1] == rest[0];
    CloseAfterDouble(raw, 1, text);
    CollapsePaired(raw, 1, rest);
  }

  lemma NeverCloses(d: Dialect, text: bytes)
    requires !d.noQuotes
    ensures Norm(d, [34] + Double(text)) == [34] + Double(text)
  {
    hide Double, Collapse;
    var raw := [34] + Double(text);
    assert raw[1..1 + |Double(text)|] == Double(text);
    CloseAfterDouble(raw, 1, text);
  }

  /** Pairs of quotes made one, byte by byte and from left to right. */
  lemma CollapseBytes(s: bytes, b: byte)
    ensures Collapse([]) == [] && Collapse([34]) == [34] && Collapse([34, 34] + s) == [34] + Collapse(s)
    ensures b != 34 ==> Collapse([b] + s) == [b] + Collapse(s) && Collapse([34] + ([b] + s)) == [34] + Collapse([b] + s)
  {
    CollapsePair(s);
    if b != QT {
      CollapseHead(b, s);
      assert ([34] + ([b] + s))[1..] == [b] + s;
    }
  }

  /** Other cells are their own text, and with quoting disabled all are. */
  lemma BareText(d: Dialect, raw: bytes)
    requires d.noQuotes || raw == [] || raw[0] != 34
    ensures Norm(d, raw) == raw
  {
  }

  /** No byte of `raw` before the end would end a cell or be a literal quote. */
  ghost predicate Joined(d: Dialect, raw: bytes, n: nat) {
    && n <= |raw|
    && (forall k :: 0 <= k < n && d.IsSeparator(raw[k]) ==> Scan(d, raw, k).mode == Open)
    && (forall k :: 0 <= k < n && d.IsQuote(raw[k]) ==> Scan(d, raw, k).mode in {Start, Open, Pending})
  }

  lemma {:induction false} JoinedBare(d: Dialect, raw: bytes, n: nat)
    requires n <= |raw| && forall k :: 0 <= k < |raw| ==> !d.IsSpecial(raw[k])
    ensures Joined(d, raw, n) && Scan(d, raw, n).mode in {Start, Plain}
  {
    if n > 0 {
      JoinedBare(d, raw, n - 1);
    }
  }

  lemma JoinedStep(d: Dialect, raw: bytes, k: nat)
    requires Joined(d, raw, k) && k < |raw|
    requires d.IsSeparator(raw[k]) ==> Scan(d, raw, k).mode == Open
    requires d.IsQuote(raw[k]) ==> Scan(d, raw, k).mode in {Start, Open, Pending}
    ensures Joined(d, raw, k + 1) && Scan(d, raw, k + 1) == Feed(d, Scan(d, raw, k), k, raw[k])
  {
    hide Feed;
  }

  /** Doubled text inside an open quote leaves it open. */
  lemma {:induction false} JoinedDouble(d: Dialect, raw: bytes, k: nat, text: bytes)
    requires d.Valid() && !d.noQuotes && k + |Double(text)| <= |raw| && raw[k..k + |Double(text)|] == Double(text)
    requires Joined(d, raw, k) && Scan(d, raw, k).mode == Open
    ensures Joined(d, raw, k + |Double(text)|) && Scan(d, raw, k + |Double(text)|).mode == Open
    decreases |text|
  {
    hide Joined, Scan;
    if text != [] {
      var rest := Double(text[1..]);
      var n := if text[0] == QT then 2 else 1;
      var all := raw[k..k + |Double(text)|];
      assert raw[k + n..k + n + |rest|] == all[n..] == rest;
      assert raw[k] == all[0];
      JoinedStep(d, raw, k);
      if text[0] == QT {
        assert raw[k + 1] == all[1];
        JoinedStep(d, raw, k + 1);
      }
      JoinedDouble(d, raw, k + n, text[1..]);
    }
  }

  /** A printed field is one cell to the reference, and its content is the field's text. */
  lemma FieldRead(d: Dialect, f: Field)
    requires d.Valid() && !d.noQuotes && ValidField(d, f)
    ensures var raw := PrintField(f);
      Joined(d, raw, |raw|) && Scan(d, raw, |raw|).mode != Open && Norm(d, raw) == f.text
  {
    var raw := PrintField(f);
    if !f.quoted {
      JoinedBare(d, raw, |raw|);
      if raw != [] {
        assert !d.IsSpecial(raw[0]);
      }
    } else {
      var inner := Double(f.text);
      assert raw[1..1 + |inner|] == inner;
      assert Scan(d, raw, 1) == Feed(d, FRESH, 0, raw[0]);
      JoinedDouble(d, raw, 1, f.text);
      QuotedRead(d, raw, inner);
      CollapseDouble(f.text);
    }
  }

  lemma QuotedRead(d: Dialect, raw: bytes, inner: bytes)
    requires !d.noQuotes && d.Valid() && raw == [QT] + (inner + [QT])
    requires Joined(d, raw, |raw| - 1) && Scan(d, raw, |raw| - 1).mode == Open
    ensures Joined(d, raw, |raw|) && Scan(d, raw, |raw|).mode == Pending
    ensures Norm(d, raw) == Collapse(inner)
  {
    hide Collapse, Joined, Scan, Norm;
    assert raw[|raw| - 1] == QT;
    JoinedStep(d, raw, |raw| - 1);
    QuotedNorm(d, raw, inner);
  }

  lemma QuotedNorm(d: Dialect, raw: bytes, inner: bytes)
    requires !d.noQuotes && raw == [QT] + (inner + [QT]) && Scan(d, raw, |raw|).mode == Pending
    ensures Norm(d, raw) == Collapse(inner)
  {
    hide Collapse, Scan;
    assert raw[1..|raw| - 1] == inner;
    assert raw[|raw|..] == [];
    assert inner + [] == inner;
    ScanMeaning(d, raw, |raw|);
  }

  // ---------------------------------------------------------------------------------------
  // Fields, rows and tables in a stream
  // ---------------------------------------------------------------------------------------

  /** The stream has `raw` at `p`. */
  ghost predicate Has(s: bytes, p: nat, raw: bytes) {
    p + |raw| <= |s| && s[p..p + |raw|] == raw
  }

  lemma HasParts(s: bytes, p: nat, x: bytes, y: bytes)
    requires Has(s, p, x + y)
    ensures Has(s, p, x) && Has(s, p + |x|, y)
  {
    assert s[p..p + |x + y|][..|x|] == x;
    assert s[p..p + |x + y|][|x|..] == y;
  }

  /** A cell starts at `p`, and all quotes so far are standard. */
  ghost predicate CellStart(d: Dialect, s: bytes, p: nat) {
    p <= |s| && Clean(d, s, p) && var st := Run(d, s, p); st.pos == st.cellAt == p && st.q == FRESH
  }

  lemma {:induction false} JoinedRead(d: Dialect, s: bytes, p: nat, raw: bytes, n: nat)
    requires CellStart(d, s, p) && Has(s, p, raw) && Joined(d, raw, |raw|) && n <= |raw|
    ensures Clean(d, s, p + n)
    ensures Run(d, s, p + n) == Run(d, s, p).(pos := p + n, prev := if n == 0 then Run(d, s, p).prev else raw[n - 1],
                                              q := Scan(d, raw, n))
  {
    hide Feed;
    if n > 0 {
      JoinedRead(d, s, p, raw, n - 1);
      assert s[p + n - 1] == s[p..p + |raw|][n - 1];
    }
  }

  /** The texts of a row's cells. */
  function Texts(d: Dialect, s: bytes, row: seq<Span>): (r: seq<bytes>)
    ensures |r| == |row|
  {
    seq(|row|, k requires 0 <= k < |row| => Norm(d, Slice(s, row[k])))
  }

  lemma TextsSnoc(d: Dialect, s: bytes, row: seq<Span>, span: Span)
    ensures Texts(d, s, row + [span]) == Texts(d, s, row) + [Norm(d, Slice(s, span))]
  {
    hide Norm, Slice;
  }

  function FieldTexts(fields: seq<Field>): (r: seq<bytes>)
    ensures |r| == |fields|
  {
    seq(|fields|, k requires 0 <= k < |fields| => fields[k].text)
  }

  /** After a field's bytes, the row is as it will be once the field has been cut off. */
  lemma FieldInStream(d: Dialect, s: bytes, p: nat, f: Field)
    requires d.Valid() && !d.noQuotes && ValidField(d, f) && CellStart(d, s, p) && Has(s, p, PrintField(f))
    ensures var q := p + |PrintField(f)|; var st, st' := Run(d, s, p), Run(d, s, q);
      && q <= |s| && Clean(d, s, q)
      && st' == st.(pos := q, prev := st'.prev, q := st'.q) && st'.q.mode != Open
      && Texts(d, s, st.row + [Span(p, q)]) == Texts(d, s, st.row) + [f.text]
      && (st'.prev == CR ==> PrintField(f) == [] && st.prev == CR)
  {
    hide Joined, Scan, Norm, Run, Texts;
    FieldRead(d, f);
    JoinedRead(d, s, p, PrintField(f), |PrintField(f)|);
    TextsSnoc(d, s, Run(d, s, p).row, Span(p, p + |PrintField(f)|));
  }

  /** A row starts at `p`. */
  ghost predicate RowStart(d: Dialect, s: bytes, p: nat) {
    CellStart(d, s, p) && Run(d, s, p).row == [] && Run(d, s, p).rowAt == p
  }

  lemma CutAfter(d: Dialect, s: bytes, p: nat)
    requires d.Valid() && p < |s| && s[p] == d.delim && Run(d, s, p).q.mode != Open && Run(d, s, p).pos == p
    requires Clean(d, s, p)
    ensures CellStart(d, s, p + 1) && Run(d, s, p + 1).rows == Run(d, s, p).rows
    ensures Run(d, s, p + 1).row == Run(d, s, p).row + [Span(Run(d, s, p).cellAt, p)] && Run(d, s, p + 1).prev != CR
  {
  }

  lemma EndAfter(d: Dialect, s: bytes, p: nat, e: RowEnd)
    requires d.Valid() && Has(s, p, PrintEnd(e)) && Run(d, s, p).q.mode != Open && Run(d, s, p).pos == p
    requires Clean(d, s, p)
    requires !(e == EndLf && Run(d, s, p).prev == CR)
    ensures var q := p + |PrintEnd(e)|; var st := Run(d, s, p);
      && q <= |s| && RowStart(d, s, q)
      && Run(d, s, q).rows == st.rows + [st.row + [Span(st.cellAt, p)]]
      && Run(d, s, q).prev == (if e == EndCr then CR else LF)
  {
    hide Run, RowStart, Clean, Has;
    match e {
      case EndCr =>
        HasByte(s, p, CR);
        EndStep(d, s, p);
      case EndLf =>
        HasByte(s, p, LF);
        EndStep(d, s, p);
      case EndCrLf =>
        var cr: bytes, lf: bytes := [CR], [LF];
        assert PrintEnd(e) == cr + lf;
        HasParts(s, p, cr, lf);
        HasByte(s, p, CR);
        HasByte(s, p + 1, LF);
        EndStep(d, s, p);
        LfStep(d, s, p + 1);
    }
  }

  lemma EndStep(d: Dialect, s: bytes, p: nat)
    requires d.Valid() && p < |s| && (s[p] == CR || (s[p] == LF && Run(d, s, p).prev != CR))
    requires Run(d, s, p).q.mode != Open && Run(d, s, p).pos == p && Clean(d, s, p)
    ensures RowStart(d, s, p + 1) && Run(d, s, p + 1).prev == s[p]
    ensures Run(d, s, p + 1).rows == Run(d, s, p).rows + [Run(d, s, p).row + [Span(Run(d, s, p).cellAt, p)]]
  {
  }

  lemma LfStep(d: Dialect, s: bytes, p: nat)
    requires d.Valid() && p < |s| && s[p] == LF && RowStart(d, s, p) && Run(d, s, p).prev == CR
    ensures RowStart(d, s, p + 1) && Run(d, s, p + 1).prev == LF && Run(d, s, p + 1).rows == Run(d, s, p).rows
  {
  }

  /** A line feed here would belong to the row end before it. */
  ghost predicate Vanishes(r: Record)
    requires r.fields != []
  {
    |r.fields| == 1 && PrintField(r.fields[0]) == [] && r.end == EndLf
  }

  /** The stream's rows at `q` are those at `p` and one more, with these texts. */
  ghost predicate OneRowMore(d: Dialect, s: bytes, p: nat, q: nat, texts: seq<bytes>) {
    && p <= |s| && q <= |s|
    && var rows, rows' := Run(d, s, p).rows, Run(d, s, q).rows;
    && |rows'| == |rows| + 1 && rows'[..|rows|] == rows && Texts(d, s, rows'[|rows|]) == texts
  }

  /** The fields from some cell of a row on, and the row's end. */
  lemma {:induction false} FieldsRead(d: Dialect, s: bytes, p: nat, fields: seq<Field>, end: RowEnd)
    requires d.Valid() && !d.noQuotes && CellStart(d, s, p) && ValidRecord(d, Record(fields, end))
    requires Has(s, p, PrintRow(d, fields, end))
    requires !(Vanishes(Record(fields, end)) && Run(d, s, p).prev == CR)
    ensures var q := p + |PrintRow(d, fields, end)|;
      && q <= |s| && RowStart(d, s, q) && Run(d, s, q).prev == (if end == EndCr then CR else LF)
      && OneRowMore(d, s, p, q, Texts(d, s, Run(d, s, p).row) + FieldTexts(fields))
    decreases |fields|
  {
    hide Run, Texts, Has, CellStart, RowStart, PrintField, PrintEnd, ValidField, Clean;
    var f, q := fields[0], p + |PrintField(fields[0])|;
    var rest := if |fields| == 1 then PrintEnd(end) else [d.delim] + PrintRow(d, fields[1..], end);
    HasParts(s, p, PrintField(f), rest);
    StartMeans(d, s, p);
    FieldInStream(d, s, p, f);
    if |fields| == 1 {
      EndAfter(d, s, q, end);
      assert FieldTexts(fields) == [f.text];
    } else {
      HasParts(s, q, [d.delim], PrintRow(d, fields[1..], end));
      HasByte(s, q, d.delim);
      CutAfter(d, s, q);
      FieldsRead(d, s, q + 1, fields[1..], end);
      assert FieldTexts(fields) == [f.text] + FieldTexts(fields[1..]);
    }
  }

  lemma StartMeans(d: Dialect, s: bytes, p: nat)
    requires CellStart(d, s, p)
    ensures p <= |s| && Clean(d, s, p) && Run(d, s, p).pos == Run(d, s, p).cellAt == p && Run(d, s, p).q == FRESH
  {
  }

  lemma HasByte(s: bytes, p: nat, b: byte)
    requires Has(s, p, [b])
    ensures p < |s| && s[p] == b
  {
    assert s[p..p + 1][0] == b;
  }

  // ---------------------------------------------------------------------------------------
  // Whole tables
  // ---------------------------------------------------------------------------------------

  /**
   The records that read back as rows: an empty line ended by LF disappears after a row
   ended by CR, since CR LF is one row end.
   */
  ghost function Kept(d: Dialect, t: seq<Record>, afterCr: bool): seq<Record>
    requires ValidTable(d, t)
  {
    if t == [] then []
    else if afterCr && Vanishes(t[0]) then Kept(d, t[1..], false)
    else [t[0]] + Kept(d, t[1..], t[0].end == EndCr)
  }

  function TableTexts(d: Dialect, s: bytes, rows: seq<seq<Span>>): (r: seq<seq<bytes>>)
    ensures |r| == |rows|
  {
    seq(|rows|, k requires 0 <= k < |rows| => Texts(d, s, rows[k]))
  }

  function RecordTexts(t: seq<Record>): (r: seq<seq<bytes>>)
    ensures |r| == |t|
  {
    seq(|t|, k requires 0 <= k < |t| => FieldTexts(t[k].fields))
  }

  lemma TableSnoc(d: Dialect, s: bytes, p: nat, q: nat, texts: seq<bytes>)
    requires OneRowMore(d, s, p, q, texts)
    ensures TableTexts(d, s, Run(d, s, q).rows) == TableTexts(d, s, Run(d, s, p).rows) + [texts]
  {
    hide Run, Texts;
    var rows, rows' := Run(d, s, p).rows, Run(d, s, q).rows;
    var tt, tt' := TableTexts(d, s, rows), TableTexts(d, s, rows');
    forall k | 0 <= k < |rows| ensures tt'[k] == tt[k] {
      assert rows'[k] == rows'[..|rows|][k] == rows[k];
    }
  }

  lemma VanishRead(d: Dialect, s: bytes, p: nat, r: Record)
    requires d.Valid() && r.fields != [] && Vanishes(r) && RowStart(d, s, p) && Run(d, s, p).prev == CR
    requires Has(s, p, PrintRow(d, r.fields, r.end))
    ensures var q := p + |PrintRow(d, r.fields, r.end)|;
      q <= |s| && RowStart(d, s, q) && Run(d, s, q).prev == LF && Run(d, s, q).rows == Run(d, s, p).rows
  {
    hide Run, RowStart, PrintField;
    assert PrintRow(d, r.fields, r.end) == [LF];
    HasByte(s, p, LF);
    LfStep(d, s, p);
  }

  lemma {:induction false} TableRead(d: Dialect, s: bytes, p: nat, t: seq<Record>)
    requires d.Valid() && !d.noQuotes && ValidTable(d, t) && RowStart(d, s, p) && Has(s, p, Print(d, t))
    ensures var q := p + |Print(d, t)|;
      && q <= |s| && Clean(d, s, q) && RowStart(d, s, q)
      && TableTexts(d, s, Run(d, s, q).rows)
         == TableTexts(d, s, Run(d, s, p).rows) + RecordTexts(Kept(d, t, Run(d, s, p).prev == CR))
    decreases |t|
  {
    hide Run, Texts, Has, PrintRow, ValidField, OneRowMore, FieldTexts, TableTexts, Vanishes;
    RowStartMeans(d, s, p);
    if t != [] {
      var r, row := t[0], PrintRow(d, t[0].fields, t[0].end);
      var q := p + |row|;
      HasParts(s, p, row, Print(d, t[1..]));
      if Run(d, s, p).prev == CR && Vanishes(r) {
        VanishRead(d, s, p, r);
        TableRead(d, s, q, t[1..]);
      } else {
        FieldsRead(d, s, p, r.fields, r.end);
        TextsOfNone(d, s);
        assert [] + FieldTexts(r.fields) == FieldTexts(r.fields);
        TableSnoc(d, s, p, q, FieldTexts(r.fields));
        TableRead(d, s, q, t[1..]);
        RecordsCons(r, Kept(d, t[1..], r.end == EndCr));
        AssocRows(TableTexts(d, s, Run(d, s, p).rows), [FieldTexts(r.fields)],
                  RecordTexts(Kept(d, t[1..], r.end == EndCr)));
      }
    } else {
      assert RecordTexts([]) == [];
    }
  }

  lemma RowStartMeans(d: Dialect, s: bytes, p: nat)
    requires RowStart(d, s, p)
    ensures p <= |s| && Clean(d, s, p) && CellStart(d, s, p) && Run(d, s, p).row == []
  {
  }

  lemma TextsOfNone(d: Dialect, s: bytes)
    ensures Texts(d, s, []) == []
  {
  }

  lemma RecordsCons(r: Record, t: seq<Record>)
    ensures RecordTexts([r] + t) == [FieldTexts(r.fields)] + RecordTexts(t)
  {
    hide FieldTexts;
  }

  lemma AssocRows(a: seq<seq<bytes>>, b: seq<seq<bytes>>, c: seq<seq<bytes>>)
    ensures (a + b) + c == a + (b + c)
  {
  }

  /**
   Reading back: whatever fields are quoted and whatever ends the rows, the printed table is
   standard and its rows are the records that do not vanish.
   */
  lemma ReadBack(d: Dialect, t: seq<Record>)
    requires d.Valid() && !d.noQuotes && ValidTable(d, t)
    ensures var s := Print(d, t);
      TableTexts(d, s, Rows(d, s)) == RecordTexts(Kept(d, t, false)) && Clean(d, s, |s|) && Run(d, s, |s|).rowAt == |s|
  {
    hide Texts, FieldTexts, Kept;
    var s := Print(d, t);
    assert Run(d, s, 0) == INIT;
    TableRead(d, s, 0, t);
    assert TableTexts(d, s, []) == [];
    assert [] + RecordTexts(Kept(d, t, false)) == RecordTexts(Kept(d, t, false));
  }

  /** Record `i` is an empty line ended by LF, right after a row ended by CR. */
  ghost predicate Swallowed(t: seq<Record>, i: nat)
    requires forall k :: 0 <= k < |t| ==> t[k].fields != []
  {
    0 < i < |t| && t[i - 1].end == EndCr && Vanishes(t[i])
  }

  lemma {:induction false} KeptSize(d: Dialect, t: seq<Record>, afterCr: bool)
    requires ValidTable(d, t)
    ensures |Kept(d, t, afterCr)| <= |t|
    ensures |Kept(d, t, afterCr)| == |t| ==> Kept(d, t, afterCr) == t
  {
    hide Vanishes, ValidRecord;
    if t != [] {
      NonEmpty(d, t);
      KeptSize(d, t[1..], false);
      KeptSize(d, t[1..], t[0].end == EndCr);
    }
  }

  lemma {:induction false} KeptAll(d: Dialect, t: seq<Record>, afterCr: bool)
    requires ValidTable(d, t)
    ensures forall k :: 0 <= k < |t| ==> t[k].fields != []
    ensures |Kept(d, t, afterCr)| == |t| <==>
      !(t != [] && afterCr && Vanishes(t[0])) && forall i :: 0 < i < |t| ==> !Swallowed(t, i)
  {
    hide Vanishes, ValidRecord, Swallowed;
    NonEmpty(d, t);
    if t != [] {
      if afterCr && Vanishes(t[0]) {
        KeptSize(d, t[1..], false);
      } else {
        KeptAll(d, t[1..], t[0].end == EndCr);
        SwallowedTail(t);
      }
    }
  }

  lemma NonEmpty(d: Dialect, t: seq<Record>)
    requires ValidTable(d, t)
    ensures forall k :: 0 <= k < |t| ==> t[k].fields != []
  {
  }

  lemma SwallowedTail(t: seq<Record>)
    requires t != [] && forall k :: 0 <= k < |t| ==> t[k].fields != []
    ensures (forall i :: 0 < i < |t| ==> !Swallowed(t, i)) <==>
      && !(|t| > 1 && t[0].end == EndCr && Vanishes(t[1]))
      && (forall i :: 0 < i < |t[1..]| ==> !Swallowed(t[1..], i))
  {
    hide Vanishes;
    var rest := t[1..];
    forall i | 0 < i < |rest| ensures Swallowed(rest, i) == Swallowed(t, i + 1) {
    }
    if |t| > 1 {
      assert Swallowed(t, 1) == (t[0].end == EndCr && Vanishes(t[1]));
    }
    if exists i :: 0 < i < |t| && Swallowed(t, i) {
      var i :| 0 < i < |t| && Swallowed(t, i);
      if i > 1 {
        assert Swallowed(rest, i - 1);
      }
    }
  }

  /** A printed table reads back as itself if and only if no record is swallowed. */
  lemma ReadsBackIff(d: Dialect, t: seq<Record>)
    requires d.Valid() && !d.noQuotes && ValidTable(d, t)
    ensures (forall k :: 0 <= k < |t| ==> t[k].fields != [])
    ensures TableTexts(d, Print(d, t), Rows(d, Print(d, t))) == RecordTexts(t) <==>
            forall i :: 0 < i < |t| ==> !Swallowed(t, i)
  {
    hide Texts, FieldTexts, Kept, Run, Vanishes, Print;
    NonEmpty(d, t);
    ReadBack(d, t);
    KeptSize(d, t, false);
    KeptAll(d, t, false);
  }

  // ---------------------------------------------------------------------------------------
  // The RFC's own printer
  // ---------------------------------------------------------------------------------------

  predicate NeedsQuotes(d: Dialect, text: bytes) {
    exists k :: 0 <= k < |text| && d.IsSpecial(text[k])
  }

  /** Cells quoted where needed, quotes doubled, rows ended by CR LF. */
  function Written(d: Dialect, table: seq<seq<bytes>>): (t: seq<Record>)
    ensures |t| == |table|
  {
    seq(|table|, r requires 0 <= r < |table| =>
      Record(seq(|table[r]|, k requires 0 <= k < |table[r]| =>
          Field(table[r][k], NeedsQuotes(d, table[r][k]))), EndCrLf))
  }

  lemma WrittenValid(d: Dialect, table: seq<seq<bytes>>)
    requires forall r :: 0 <= r < |table| ==> table[r] != []
    ensures ValidTable(d, Written(d, table)) && RecordTexts(Written(d, table)) == table
    ensures forall r :: 0 <= r < |table| ==> Written(d, table)[r].end == EndCrLf
  {
    var t := Written(d, table);
    forall r | 0 <= r < |t| ensures ValidRecord(d, t[r]) && RecordTexts(t)[r] == table[r] {
      assert FieldTexts(t[r].fields) == table[r];
    }
  }

  /** Any table of non-empty rows of arbitrary cells survives writing and reading. */
  lemma Rfc4180RoundTrip(d: Dialect, table: seq<seq<bytes>>)
    requires d.Valid() && !d.noQuotes && forall r :: 0 <= r < |table| ==> table[r] != []
    ensures ValidTable(d, Written(d, table))
    ensures var s := Print(d, Written(d, table));
      TableTexts(d, s, Rows(d, s)) == table && Clean(d, s, |s|) && Run(d, s, |s|).rowAt == |s|
  {
    hide Texts, FieldTexts, Kept, Run, Vanishes, Print, Written, Clean;
    WrittenValid(d, table);
    ReadBack(d, Written(d, table));
    ReadsBackIff(d, Written(d, table));
  }

  /** Reading any input, writing what was read and reading that again changes nothing. */
  lemma RewriteIsStable(d: Dialect, s: bytes)
    requires d.Valid() && !d.noQuotes
    ensures var table := TableTexts(d, s, Rows(d, s));
      && ValidTable(d, Written(d, table))
      && var s' := Print(d, Written(d, table)); TableTexts(d, s', Rows(d, s')) == table
  {
    hide Texts, FieldTexts, Kept, Run, Vanishes, Print, Written, Clean, Chained;
    var table := TableTexts(d, s, Rows(d, s));
    RunWf(d, s, |s|);
    forall r | 0 <= r < |table| ensures table[r] != [] {
      assert WfRow(Rows(d, s)[r]) && table[r] == Texts(d, s, Rows(d, s)[r]);
    }
    Rfc4180RoundTrip(d, table);
  }
}
