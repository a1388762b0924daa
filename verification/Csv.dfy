/**
 The reference reading of a byte stream as CSV: a one-pass machine over bytes, with no
 buffer, no chunks and no lookahead. Every engine of the library is related to it.
 */
module Csv {
  type byte = b: int | 0 <= b < 256
  type bytes = seq<byte>

  const QT: byte := 34
  const LF: byte := 10
  const CR: byte := 13

  /** The scanner options the delimiter engines depend on. */
  datatype Dialect = Dialect(delim: byte, noQuotes: bool) {
    // Parsers are refused for the first three; a C `char` delimiter of 128 or more never
    // compares equal to an unsigned byte.
    ghost predicate Valid() {
      delim != QT && delim != LF && delim != CR && delim < 128
    }

    predicate IsQuote(b: byte) {
      !noQuotes && b == QT
    }

    predicate IsSeparator(b: byte) {
      b == delim || b == CR || b == LF
    }

    predicate IsSpecial(b: byte) {
      IsSeparator(b) || IsQuote(b)
    }
  }

  // ---------------------------------------------------------------------------------------
  // Quoting inside one cell
  // ---------------------------------------------------------------------------------------

  /** `Pending` is reached after a quote inside an open quote: the next byte decides. */
  datatype Mode = Start | Plain | Open | Pending | Closed

  /** What is known of a cell from the bytes read so far; `close` is its closing quote's offset. */
  datatype Quoting = Quoting(mode: Mode, needed: bool, embedded: bool, close: nat)

  const FRESH := Quoting(Start, false, false, 0)

  /** The byte `b`, at offset `k` of its cell, becomes part of that cell. */
  function Feed(d: Dialect, q: Quoting, k: nat, b: byte): Quoting {
    match q.mode
    case Start => if d.IsQuote(b) then Quoting(Open, false, false, 0) else Quoting(Plain, false, false, 0)
    case Plain => if d.IsQuote(b) then q.(embedded := true) else q
    case Open => if d.IsQuote(b) then q.(mode := Pending) else if d.IsSeparator(b) then q.(needed := true) else q
    case Pending => if d.IsQuote(b) then q.(mode := Open, needed := true, embedded := true) else Settle(q, k)
    case Closed => if d.IsQuote(b) then q.(embedded := true) else q
  }

  /** A pending quote just before offset `k` turns out to be the closing one. */
  function Settle(q: Quoting, k: nat): Quoting {
    if q.mode == Pending && k > 0 then q.(mode := Closed, close := k - 1) else q
  }

  /** The quoting of the first `k` bytes of `raw`. */
  function Scan(d: Dialect, raw: bytes, k: nat): Quoting
    requires k <= |raw|
  {
    if k == 0 then FRESH else Feed(d, Scan(d, raw, k - 1), k - 1, raw[k - 1])
  }

  /** The quoting of a whole cell once its end is known. */
  function Final(d: Dialect, raw: bytes): Quoting {
    Settle(Scan(d, raw, |raw|), |raw|)
  }

  // ---------------------------------------------------------------------------------------
  // Cells and rows
  // ---------------------------------------------------------------------------------------

  /** The bytes lo..hi of the stream: one raw cell. */
  datatype Span = Span(lo: nat, hi: nat)

  /**
   The machine's state after `pos` bytes: the cell being read starts at `cellAt`, its row at
   `rowAt`; `row` holds the row's finished cells and `rows` the finished rows.
   */
  datatype State = State(pos: nat, prev: byte, q: Quoting, cellAt: nat, rowAt: nat,
                         row: seq<Span>, rows: seq<seq<Span>>) {
    /** The number of bytes read of the current cell. */
    function Offset(): nat {
      if pos < cellAt then 0 else pos - cellAt
    }
  }

  const INIT := State(0, 0, FRESH, 0, 0, [], [])

  function Step(d: Dialect, st: State, b: byte): State {
    if !d.IsSeparator(b) || st.q.mode == Open then
      st.(pos := st.pos + 1, prev := b, q := Feed(d, st.q, st.Offset(), b))
    else if b == d.delim then
      st.(pos := st.pos + 1, prev := b, q := FRESH, cellAt := st.pos + 1,
          row := st.row + [Span(st.cellAt, st.pos)])
    else if b == LF && st.prev == CR then // the CR has already ended the row
      st.(pos := st.pos + 1, prev := b, cellAt := st.pos + 1, rowAt := st.pos + 1)
    else
      State(st.pos + 1, b, FRESH, st.pos + 1, st.pos + 1, [],
            st.rows + [st.row + [Span(st.cellAt, st.pos)]])
  }

  /** The machine's state after the first `p` bytes of `s`. */
  function Run(d: Dialect, s: bytes, p: nat): State
    requires p <= |s|
  {
    if p == 0 then INIT else Step(d, Run(d, s, p - 1), s[p - 1])
  }

  /** The rows whose terminator lies within `s`. */
  function Rows(d: Dialect, s: bytes): seq<seq<Span>> {
    Run(d, s, |s|).rows
  }

  function Slice(s: bytes, span: Span): bytes {
    if span.lo <= span.hi <= |s| then s[span.lo..span.hi] else []
  }

  // ---------------------------------------------------------------------------------------
  // Cell contents
  // ---------------------------------------------------------------------------------------

  /** Each pair of adjacent quotes, left to right, becomes one quote. */
  function Collapse(s: bytes): bytes {
    if |s| < 2 then s
    else if s[0] == QT && s[1] == QT then [QT] + Collapse(s[2..])
    else [s[0]] + Collapse(s[1..])
  }

  /** The offset, from `i` on, of the first quote that is not the first of a pair; |raw| if none. */
  function CloseAt(raw: bytes, i: nat): (c: nat)
    requires i <= |raw|
    ensures i <= c <= |raw|
    decreases |raw| - i
  {
    if i == |raw| then i
    else if raw[i] != QT then CloseAt(raw, i + 1)
    else if i + 1 < |raw| && raw[i + 1] == QT then CloseAt(raw, i + 2)
    else i
  }

  /** The content of a raw cell: surrounding quotes dropped and doubled quotes undone. */
  function Norm(d: Dialect, raw: bytes): bytes {
    if d.noQuotes || raw == [] || raw[0] != QT then raw
    else
      var c := CloseAt(raw, 1);
      if c == |raw| then raw else Collapse(raw[1..c] + raw[c + 1..])
  }
}
