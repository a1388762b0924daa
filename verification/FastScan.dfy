/** The fast engine: 64 bytes at a time, with quoting decided by the parity of quotes. */
module FastScan {
  import opened Csv
  import opened CsvFacts
  import opened CellUnquote
  import opened Words
  import opened Scanner
  import opened CompatScan
  import opened FastFacts

  /** Buffer byte `i` is next; so far the input is standard. */
  ghost predicate Going(z: Scanner, i: nat, end: nat)
    reads z`stream, z`base, z`cumScanned, z`last, z`used, z`cellStart, z`rowStart, z`log, z.buff, z.cells
  {
    z.At(i, end) && Clean(z.d, z.stream, z.base + i)
  }

  /** The byte at `i` is a separator outside quotes. */
  ghost predicate CutsAt(z: Scanner, i: nat)
    reads z`stream, z`base
  {
    Cuts(z.d, z.stream, z.base + i)
  }

  // ---------------------------------------------------------------------------------------
  // Cells and rows
  // ---------------------------------------------------------------------------------------

  /** The raw cell that ends at `i`, as it is stored: a pointer and a length. */
  function RawCell(z: Scanner, i: nat): Cell
    reads z`cellStart
    requires z.cellStart <= i
  {
    Cell(z.cellStart, i - z.cellStart, if z.d.noQuotes then Flags(true, false, false, false, false) else NONE)
  }

  lemma RawCellHeld(v: View, st: State, cellStart: nat, i: nat, end: nat, c: Cell)
    requires v.e == Fast && InStep(v, st, cellStart, i, end)
    requires c == Cell(cellStart, i - cellStart, if v.d.noQuotes then Flags(true, false, false, false, false) else NONE)
    ensures RowHeld(Stored(v, c), st.row + [Span(st.cellAt, v.base + i)])
    ensures Loaded(Stored(v, c), i, end)
  {
    hide RowHeld, Chained;
    InStepCell(v, st, cellStart, i, end);
    RowHeldSnoc(v, st.row, c, Span(st.cellAt, v.base + i));
    LoadedFrom(v, Pred(cellStart), i, end);
  }

  /** `fast_store_cell`: the cell that ends at `i`. */
  method FastStoreCell(z: Scanner, i: nat, ghost end: nat)
    requires z.e == Fast && z.At(i, end)
    modifies z`used, z.cells
    ensures RowHeld(z.V(), z.St(i).row + [Span(z.St(i).cellAt, z.base + i)])
    ensures Loaded(z.V(), i, end) && z.used <= z.cells.Length
  {
    hide ValueOf, RowHeld, Loaded, InStep, Run, Events, Chained, Stored;
    z.AtInStep(i, end);
    RawCellHeld(z.V(), z.St(i), z.cellStart, i, end, RawCell(z, i));
    StoredUsed(z.V(), RawCell(z, i));
    z.StoreCell(RawCell(z, i));
  }

  lemma StoredUsed(v: View, c: Cell)
    requires v.used <= |v.cells|
    ensures Stored(v, c).used <= |Stored(v, c).cells|
  {
  }

  /** The delimiter at `i` ends a cell. */
  method FastCut(z: Scanner, i: nat, ghost end: nat)
    requires z.e == Fast && z.At(i, end) && i < end && CutsAt(z, i) && z.stream[z.base + i] == z.d.delim
    modifies z`used, z`cellStart, z.cells
    ensures z.At(i + 1, end)
  {
    hide RowHeld, Events, Chained, Run, Loaded;
    CutStep(z, i, end);
    FastStoreCell(z, i, end);
    z.cellStart := i + 1;
  }

  /** `fast_store_cell_and_row` and what follows it: the row end at `i`. */
  method FastEndRow(z: Scanner, i: nat, ghost end: nat)
    requires z.e == Fast && !z.pull && z.At(i, end) && i < end && EndsRow(z, i)
    modifies z`scanned, z`used, z`cellStart, z`rowStart, z`log, z`pullNow, z`pullUsed, z.cells
    ensures z.At(i + 1, end)
  {
    hide RowHeld, Events, Chained, Run, Loaded, Contents, EventOf;
    ghost var st := z.St(i);
    z.AtInStep(i, end);
    RowAtChain(z.V(), st, z.cellStart, i, end);
    RowStep(z, i, end);
    z.scanned := i;
    FastStoreCell(z, i, end);
    ghost var v := z.V();
    EventHeld(v, st.row + [Span(st.cellAt, z.base + i)]);
    z.RowDl();
    z.FinishRow(i);
    NoCells(z.V());
    LoadedUsed(v, 0, i, end);
  }

  lemma NoCells(v: View)
    ensures v.used == 0 ==> RowHeld(v, [])
  {
  }

  /** `FAST_ROWEND_NOQUOTE`: a CR or LF outside quotes. */
  method FastRowEnd(z: Scanner, i: nat, end: nat, isCr: bool)
    requires z.e == Fast && !z.pull && z.At(i, end) && i < end && CutsAt(z, i) && z.stream[z.base + i] != z.d.delim
    requires isCr <==> z.stream[z.base + i] == CR
    modifies z`scanned, z`used, z`cellStart, z`rowStart, z`log, z`pullNow, z`pullUsed, z.cells
    ensures z.At(i + 1, end)
  {
    hide RowHeld, Events, Chained, Run, Loaded;
    ByteAt(z, i, end);
    if !isCr && (if i > 0 then z.buff[i - 1] else z.last) == CR {
      SwallowStep(z, i, end);
      LoadedFrom(z.V(), Pred(z.cellStart), i, end);
      z.cellStart, z.rowStart := i + 1, i + 1;
    } else {
      FastEndRow(z, i, end);
    }
  }

  /** One separator outside quotes, whichever it is. */
  method FastSeparator(z: Scanner, i: nat, end: nat, isDelim: bool, isCr: bool)
    requires z.e == Fast && !z.pull && Going(z, i, end) && i < end && CutsAt(z, i)
    requires isDelim <==> z.stream[z.base + i] == z.d.delim
    requires isCr <==> z.stream[z.base + i] == CR
    modifies z`scanned, z`used, z`cellStart, z`rowStart, z`log, z`pullNow, z`pullUsed, z.cells
    ensures Going(z, i + 1, end)
  {
    hide RowHeld, Events, Chained, Run, Loaded, Clean;
    CleanCut(z.d, z.stream, z.base + i);
    if isDelim {
      FastCut(z, i, end);
    } else {
      FastRowEnd(z, i, end, isCr);
    }
  }

  lemma CleanCut(d: Dialect, s: bytes, j: nat)
    requires d.Valid() && Clean(d, s, j) && j < |s| && !d.IsQuote(s[j])
    ensures Clean(d, s, j + 1)
  {
  }

  // ---------------------------------------------------------------------------------------
  // A block of 64 bytes
  // ---------------------------------------------------------------------------------------

  /** Bytes that are not separators outside quotes only extend the current cell. */
  lemma {:induction false} PassFeed(z: Scanner, i: nat, j: nat, end: nat)
    requires z.At(i, end) && i <= j <= end
    requires forall k :: z.base + i <= k < z.base + j ==> !Cuts(z.d, z.stream, k)
    ensures z.At(j, end)
    decreases j
  {
    hide RowHeld, Events, Chained, Run, Loaded;
    if i < j {
      PassFeed(z, i, j - 1, end);
      assert !Cuts(z.d, z.stream, z.base + (j - 1));
      AtFeed(z, j - 1, end);
    }
  }

  /** One vector compare: the lanes equal to `x`. */
  function Lanes(b: bytes, i: nat, x: byte): (w: Word)
    requires i + 64 <= |b|
    ensures |w| == 64
  {
    seq(64, k requires 0 <= k < 64 => b[i + k] == x)
  }

  /** `fast_scan_block`: the four masks of the block at `i`. */
  datatype Masks = Masks(commas: Word, newlines: Word, crs: Word, quotes: Word) {
    function Delims(): Word
      requires |commas| == |newlines| == |crs|
    {
      Or(Or(commas, newlines), crs)
    }
  }

  function ScanBlock(d: Dialect, b: bytes, i: nat): (m: Masks)
    requires i + 64 <= |b|
    ensures |m.commas| == |m.newlines| == |m.crs| == |m.quotes| == 64
  {
    Masks(Lanes(b, i, d.delim), Lanes(b, i, LF), Lanes(b, i, CR), if d.noQuotes then Zero(64) else Lanes(b, i, QT))
  }

  lemma ScanBlockMeans(z: Scanner, i: nat, end: nat)
    requires z.At(i, end) && i + 64 <= end
    ensures var m := ScanBlock(z.d, z.buff[..], i);
      && BlockAt(z.d, z.stream, z.base + i, m.Delims(), m.quotes)
      && (forall k :: 0 <= k < 64 ==> m.commas[k] == (z.stream[z.base + i + k] == z.d.delim))
      && (forall k :: 0 <= k < 64 ==> m.crs[k] == (z.stream[z.base + i + k] == CR))
  {
    hide RowHeld, Events, Chained, Run, Loaded;
    BufferIsStream(z, i, end);
    var m, b := ScanBlock(z.d, z.buff[..], i), z.buff[..];
    forall k | 0 <= k < 64
      ensures m.Delims()[k] == z.d.IsSeparator(z.stream[z.base + i + k])
      ensures m.quotes[k] == z.d.IsQuote(z.stream[z.base + i + k])
      ensures m.commas[k] == (z.stream[z.base + i + k] == z.d.delim)
      ensures m.crs[k] == (z.stream[z.base + i + k] == CR)
    {
      assert b[i + k] == z.stream[z.base + (i + k)];
    }
  }

  /** The separators of the block at stream byte `o` that are left from lane `p` on. */
  ghost predicate ValidBits(d: Dialect, s: bytes, o: nat, w: Word, p: nat) {
    |w| == 64 && o + 64 <= |s| && forall k :: 0 <= k < 64 ==> (w[k] <==> k >= p && Cuts(d, s, o + k))
  }

  /** In a clean block, masking the separators by the state leaves those outside quotes. */
  lemma ValidFromState(d: Dialect, s: bytes, o: nat, delims: Word, quotes: Word)
    requires d.Valid() && BlockAt(d, s, o, delims, quotes) && Clean(d, s, o + 64)
    ensures ValidBits(d, s, o, And(delims, Not(StateMask(quotes, OddQuotes(d, s, o)))), 0)
  {
    hide Cascade, StateMask, Run, Clean;
    var w := And(delims, Not(StateMask(quotes, OddQuotes(d, s, o))));
    forall k | 0 <= k < 64 ensures w[k] <==> Cuts(d, s, o + k) {
      StateMaskIsParity(d, s, o, delims, quotes, k);
      CleanShorter(d, s, o + k, o + 64);
      OpenIsOdd(d, s, o + k);
      assert delims[k] == d.IsSeparator(s[o + k]);
      assert OddQuotes(d, s, o + (k + 1)) == (OddQuotes(d, s, o + k) != d.IsQuote(s[o + k]));
    }
  }

  lemma CleanShorter(d: Dialect, s: bytes, p: nat, p': nat)
    requires Clean(d, s, p') && p <= p'
    ensures Clean(d, s, p)
  {
  }

  lemma ValidStep(d: Dialect, s: bytes, o: nat, w: Word, p: nat)
    requires ValidBits(d, s, o, w, p) && NonZero(w)
    ensures p <= Lowest(w) < 64 && Cuts(d, s, o + Lowest(w))
    ensures forall k :: o + p <= k < o + Lowest(w) ==> !Cuts(d, s, k)
    ensures ValidBits(d, s, o, ClearLowest(w), Lowest(w) + 1)
  {
    hide Cuts;
    ClearLowestBits(w);
    forall k | o + p <= k < o + Lowest(w) ensures !Cuts(d, s, k) {
      assert !w[k - o] && o + (k - o) == k;
    }
  }

  lemma ValidDone(d: Dialect, s: bytes, o: nat, w: Word, p: nat)
    requires ValidBits(d, s, o, w, p) && !NonZero(w)
    ensures forall k :: o + p <= k < o + 64 ==> !Cuts(d, s, k)
  {
    hide Cuts;
    forall k | o + p <= k < o + 64 ensures !Cuts(d, s, k) {
      assert !w[k - o] && o + (k - o) == k;
    }
  }

  /** The loop over a block's separators, lowest bit first. */
  method EmitBlock(z: Scanner, i: nat, end: nat, m: Masks, valid0: Word)
    requires z.e == Fast && !z.pull && z.At(i, end) && i + 64 <= end && Clean(z.d, z.stream, z.base + i + 64)
    requires m == ScanBlock(z.d, z.buff[..], i) && ValidBits(z.d, z.stream, z.base + i, valid0, 0)
    modifies z`scanned, z`used, z`cellStart, z`rowStart, z`log, z`pullNow, z`pullUsed, z.cells
    ensures Going(z, i + 64, end)
  {
    hide RowHeld, Events, Chained, Run, Loaded, Clean, ValidBits, NonZero, ScanBlock, Cuts, BlockAt;
    ScanBlockMeans(z, i, end);
    var valid := valid0;
    ghost var p := 0;
    while NonZero(valid)
      invariant p <= 64 && z.At(i + p, end) && ValidBits(z.d, z.stream, z.base + i, valid, p)
      decreases 64 - p
    {
      ValidStep(z.d, z.stream, z.base + i, valid, p);
      var bit := Lowest(valid);
      valid := ClearLowest(valid);
      PassFeed(z, i + p, i + bit, end);
      CleanShorter(z.d, z.stream, z.base + (i + bit), z.base + i + 64);
      FastSeparator(z, i + bit, end, m.commas[bit], m.crs[bit]);
      p := bit + 1;
    }
    ValidDone(z.d, z.stream, z.base + i, valid, p);
    PassFeed(z, i + p, i + 64, end);
  }

  /** A block without quotes, entered outside quotes: every separator counts. */
  lemma {:induction false} QuietParity(d: Dialect, s: bytes, o: nat, delims: Word, quotes: Word, k: nat)
    requires d.Valid() && BlockAt(d, s, o, delims, quotes) && k <= 64 && !NonZero(quotes)
    requires Clean(d, s, o) && !OddQuotes(d, s, o)
    ensures Clean(d, s, o + k) && !OddQuotes(d, s, o + k)
  {
    hide Run;
    if k > 0 {
      QuietParity(d, s, o, delims, quotes, k - 1);
      assert !quotes[k - 1] && quotes[k - 1] == d.IsQuote(s[o + (k - 1)]);
    }
  }

  lemma QuietBlock(d: Dialect, s: bytes, o: nat, delims: Word, quotes: Word)
    requires d.Valid() && BlockAt(d, s, o, delims, quotes) && !NonZero(quotes)
    requires Clean(d, s, o) && !OddQuotes(d, s, o)
    ensures Clean(d, s, o + 64) && !OddQuotes(d, s, o + 64) && ValidBits(d, s, o, delims, 0)
  {
    hide Run, Clean, NonZero, OddQuotes;
    QuietParity(d, s, o, delims, quotes, 64);
    forall k | 0 <= k < 64 ensures delims[k] <==> Cuts(d, s, o + k) {
      QuietParity(d, s, o, delims, quotes, k);
      OpenIsOdd(d, s, o + k);
      assert delims[k] == d.IsSeparator(s[o + k]);
    }
  }

  /** One block. If it is `bad`, nothing of it has been handed on. */
  method FastBlock(z: Scanner, i: nat, end: nat, inside: bool) returns (inside': bool, bad: bool)
    requires z.e == Fast && !z.pull && Going(z, i, end) && i + 64 <= end
    requires inside == OddQuotes(z.d, z.stream, z.base + i)
    modifies z`scanned, z`used, z`cellStart, z`rowStart, z`log, z`pullNow, z`pullUsed, z.cells
    ensures !bad ==> Going(z, i + 64, end) && inside' == OddQuotes(z.d, z.stream, z.base + i + 64)
    ensures bad ==> Going(z, i, end) && !Clean(z.d, z.stream, z.base + i + 64)
  {
    hide RowHeld, Events, Chained, Run, Loaded, Clean, ValidBits, NonZero, ScanBlock, BlockAt, StateMask, OddQuotes;
    bad := false;
    var m := ScanBlock(z.d, z.buff[..], i);
    ScanBlockMeans(z, i, end);
    ghost var o := z.base + i;
    if !NonZero(m.quotes) && !inside {
      QuietBlock(z.d, z.stream, o, m.Delims(), m.quotes);
      EmitBlock(z, i, end, m, m.Delims());
      return false, false;
    }
    var state := StateMask(m.quotes, inside);
    StateMaskIsParity(z.d, z.stream, o, m.Delims(), m.quotes, 63);
    inside' := state[63];
    bad := Nonstandard(z, i, end, m, state);
    if !bad {
      ValidFromState(z.d, z.stream, o, m.Delims(), m.quotes);
      EmitBlock(z, i, end, m, And(m.Delims(), Not(state)));
    }
  }

  /** The non-standard check of a block: true exactly if the block holds a literal quote. */
  method Nonstandard(z: Scanner, i: nat, end: nat, m: Masks, state: Word) returns (bad: bool)
    requires Going(z, i, end) && i + 64 <= end && m == ScanBlock(z.d, z.buff[..], i)
    requires state == StateMask(m.quotes, OddQuotes(z.d, z.stream, z.base + i))
    ensures bad <==> !Clean(z.d, z.stream, z.base + i + 64)
  {
    hide RowHeld, Events, Chained, Run, Loaded, Clean, ScanBlock, BlockAt, StateMask, Suspects, OddQuotes;
    ScanBlockMeans(z, i, end);
    ByteAt(z, i, end);
    RunPrev(z.d, z.stream, z.base + i);
    ghost var o := z.base + i;
    var prev := if i > 0 then z.buff[i - 1] else z.last;
    var prevOk := z.d.IsSeparator(prev) || prev == QT;
    var suspects := Suspects(m.Delims(), m.quotes, state, prevOk, z.cellStart, i);
    bad := NonZero(m.quotes) && NonZero(suspects);
    if NonZero(suspects) {
      SuspectQuote(m.Delims(), m.quotes, state, prevOk, z.cellStart, i, Lowest(suspects));
      SuspectIsLiteral(z.d, z.stream, o, m.Delims(), m.quotes, prevOk, z.cellStart, i, Lowest(suspects));
      if Clean(z.d, z.stream, o + 64) {
        CleanShorter(z.d, z.stream, o + (Lowest(suspects) + 1), o + 64);
      }
    } else {
      NoSuspects(z.d, z.stream, o, m.Delims(), m.quotes, prevOk, z.cellStart, i, 64);
    }
  }

  lemma SuspectQuote(delims: Word, quotes: Word, state: Word, prevOk: bool, cellStart: nat, i: nat, k: nat)
    requires |delims| == |quotes| == |state| == 64 && k < 64
    requires Suspects(delims, quotes, state, prevOk, cellStart, i)[k]
    ensures NonZero(quotes)
  {
    hide ValidPrev;
    assert quotes[k];
  }

  // ---------------------------------------------------------------------------------------
  // Where the engine may stop
  // ---------------------------------------------------------------------------------------

  /** The first literal quote is among the 64 bytes from `k` on. */
  ghost predicate BailsAt(d: Dialect, s: bytes, k: nat) {
    k <= |s| && Clean(d, s, k) && !Clean(d, s, Min(k + 64, |s|))
  }

  lemma Bails(d: Dialect, s: bytes, k: nat, n: nat)
    requires n <= 64 && k + n <= |s| && Clean(d, s, k) && !Clean(d, s, k + n)
    ensures BailsAt(d, s, k)
  {
    NotClean(d, s, k + n, Min(k + 64, |s|));
  }

  lemma BailsIsNotClean(d: Dialect, s: bytes, k: nat)
    requires BailsAt(d, s, k)
    ensures k <= |s| && !Clean(d, s, |s|)
  {
    NotClean(d, s, Min(k + 64, |s|), |s|);
  }

  // ---------------------------------------------------------------------------------------
  // The scalar tail
  // ---------------------------------------------------------------------------------------

  /** A quote met outside quotes: standard unless it is literal. */
  method OpensStandard(z: Scanner, i: nat, end: nat) returns (ok: bool)
    requires Going(z, i, end) && i < end && z.d.IsQuote(z.stream[z.base + i])
    requires !OddQuotes(z.d, z.stream, z.base + i)
    ensures ok <==> Clean(z.d, z.stream, z.base + i + 1)
  {
    hide RowHeld, Events, Chained, Run, Loaded, OddQuotes;
    ByteAt(z, i, end);
    ghost var j := z.base + i;
    RunPrev(z.d, z.stream, j);
    OpenIsOdd(z.d, z.stream, j);
    QuotingNow(z, i, end);
    if Literal(z.d, z.stream, j) {
      BeforeLiteral(z.d, z.stream, j);
    } else {
      BeforeOpening(z.d, z.stream, j);
    }
    var prev := if i > 0 then z.buff[i - 1] else z.last;
    ok := i == z.cellStart || z.d.IsSeparator(prev) || prev == QT;
  }

  /** A byte inside quotes, or an ordinary one, or a standard quote. */
  lemma PassOne(z: Scanner, i: nat, end: nat)
    requires Going(z, i, end) && i < end && !CutsAt(z, i) && !Literal(z.d, z.stream, z.base + i)
    ensures Going(z, i + 1, end)
    ensures OddQuotes(z.d, z.stream, z.base + i + 1)
            == (OddQuotes(z.d, z.stream, z.base + i) != z.d.IsQuote(z.stream[z.base + i]))
  {
    hide RowHeld, Events, Chained, Run, Loaded;
    AtFeed(z, i, end);
  }

  /** The two quotes of a pair inside quotes. */
  lemma PassPair(z: Scanner, i: nat, end: nat)
    requires Going(z, i, end) && i + 1 < end && OddQuotes(z.d, z.stream, z.base + i)
    requires z.d.IsQuote(z.stream[z.base + i]) && z.d.IsQuote(z.stream[z.base + i + 1])
    ensures Going(z, i + 2, end) && OddQuotes(z.d, z.stream, z.base + i + 2)
  {
    hide RowHeld, Events, Chained, Run, Loaded, OddQuotes;
    OpenIsOdd(z.d, z.stream, z.base + i);
    AtFeed(z, i, end);
    PassOne(z, i, end);
    PassOne(z, i + 1, end);
  }

  /** The bytes after the last whole block, one at a time. */
  method FastTail(z: Scanner, i0: nat, end: nat, inside0: bool) returns (i: nat, inside: bool, bad: bool)
    requires z.e == Fast && !z.pull && Going(z, i0, end) && inside0 == OddQuotes(z.d, z.stream, z.base + i0)
    modifies z`scanned, z`used, z`cellStart, z`rowStart, z`log, z`pullNow, z`pullUsed, z.cells
    ensures i <= end && Going(z, i, end)
    ensures !bad ==> i == end && inside == OddQuotes(z.d, z.stream, z.base + end)
    ensures bad ==> BailsAt(z.d, z.stream, z.base + i)
  {
    hide RowHeld, Events, Chained, Run, Loaded, Clean, OddQuotes, BailsAt;
    i, inside, bad := i0, inside0, false;
    while i < end
      invariant i <= end && Going(z, i, end) && inside == OddQuotes(z.d, z.stream, z.base + i)
      decreases end - i
    {
      ByteAt(z, i, end);
      OpenIsOdd(z.d, z.stream, z.base + i);
      var c := z.buff[i];
      if z.d.IsQuote(c) {
        if inside {
          if i + 1 < end && NextIsQuote(z, i, end) {
            PassPair(z, i, end);
            i := i + 1;
          } else {
            PassOne(z, i, end);
            inside := false;
          }
        } else {
          var ok := OpensStandard(z, i, end);
          if !ok {
            GoingMeans(z, i, end);
            Bails(z.d, z.stream, z.base + i, 1);
            return i, inside, true;
          }
          CleanHere(z.d, z.stream, z.base + i);
          PassOne(z, i, end);
          inside := true;
        }
      } else if !inside && z.d.IsSeparator(c) {
        OddStep(z.d, z.stream, z.base + i);
        FastSeparator(z, i, end, c == z.d.delim, c == CR);
      } else {
        PassOne(z, i, end);
      }
      i := i + 1;
    }
  }

  function NextIsQuote(z: Scanner, i: nat, ghost end: nat): (r: bool)
    reads z`stream, z`base, z`cumScanned, z`last, z`used, z`cellStart, z`rowStart, z`log, z.buff, z.cells
    requires z.At(i, end) && i + 1 < end
    ensures r == (z.stream[z.base + i + 1] == QT)
  {
    hide RowHeld, Events, Chained, Run, Loaded;
    BufferIsStream(z, i, end);
    assert z.buff[..][i + 1] == z.stream[z.base + (i + 1)];
    z.buff[i + 1] == QT
  }

  lemma NotClean(d: Dialect, s: bytes, p: nat, p': nat)
    requires !Clean(d, s, p) && p <= p' <= |s|
    ensures !Clean(d, s, p')
  {
  }

  lemma CleanHere(d: Dialect, s: bytes, j: nat)
    requires Clean(d, s, j + 1)
    ensures !Literal(d, s, j)
  {
  }

  lemma OddStep(d: Dialect, s: bytes, j: nat)
    requires j < |s|
    ensures OddQuotes(d, s, j + 1) == (OddQuotes(d, s, j) != d.IsQuote(s[j]))
  {
  }

  // ---------------------------------------------------------------------------------------
  // One scan call
  // ---------------------------------------------------------------------------------------

  /** The flags the fast engine carries from one chunk to the next: inside quotes or not. */
  ghost predicate Carried(z: Scanner, p: nat)
    reads z`stream, z`base, z`quoted
    requires z.base + p <= |z.stream|
  {
    z.quoted == Flags(OddQuotes(z.d, z.stream, z.base + p), false, false, false, false)
  }

  /** `n` bytes have been put into the buffer after the partial row. */
  ghost predicate FastPrimed(z: Scanner, n: nat)
    reads z`stream, z`base, z`cumScanned, z`last, z`used, z`cellStart, z`rowStart, z`log, z`quoted, z`partial,
          z.buff, z.cells
  {
    n > 0 && Going(z, z.partial, z.partial + n) && Carried(z, z.partial)
  }

  /** All bytes received have been scanned and were standard. */
  ghost predicate FastScanned(z: Scanner)
    reads z`stream, z`base, z`cumScanned, z`last, z`used, z`cellStart, z`rowStart, z`log, z`quoted,
          z`partial, z`oldBytesRead, z`scanned, z.buff, z.cells
  {
    && Going(z, z.oldBytesRead, z.oldBytesRead) && Carried(z, z.oldBytesRead)
    && z.oldBytesRead > 0 && z.scanned == z.oldBytesRead && z.partial == 0
  }

  /** The rows delivered are those that end before some byte at which the engine may stop. */
  ghost predicate RowsOfPrefix(z: Scanner)
    reads z`stream, z`log, z.cells
  {
    exists k: nat :: BailsAt(z.d, z.stream, k)
      && z.log == Events(z.e, z.d, z.stream, Run(z.d, z.stream, k).rows, z.cells.Length)
  }

  /** Whole blocks, as long as there are any. */
  method FastBlocks(z: Scanner, i0: nat, end: nat, inside0: bool) returns (i: nat, inside: bool, bad: bool)
    requires z.e == Fast && !z.pull && Going(z, i0, end) && inside0 == OddQuotes(z.d, z.stream, z.base + i0)
    modifies z`scanned, z`used, z`cellStart, z`rowStart, z`log, z`pullNow, z`pullUsed, z.cells
    ensures i <= end && Going(z, i, end)
    ensures !bad ==> inside == OddQuotes(z.d, z.stream, z.base + i)
    ensures bad ==> BailsAt(z.d, z.stream, z.base + i)
  {
    hide RowHeld, Events, Chained, Run, Loaded, Clean, OddQuotes, BailsAt;
    i, inside, bad := i0, inside0, false;
    while i + 64 <= end
      invariant i <= end && Going(z, i, end) && inside == OddQuotes(z.d, z.stream, z.base + i)
      decreases end - i
    {
      inside, bad := FastBlock(z, i, end, inside);
      if bad {
        GoingMeans(z, i, end);
        Bails(z.d, z.stream, z.base + i, 64);
        return;
      }
      i := i + 64;
    }
  }

  /** Inside quotes the current cell starts with a quote, so the gate on the carry lets it through. */
  method CarryGate(z: Scanner, end: nat, inside: bool)
    requires Going(z, end, end) && inside == OddQuotes(z.d, z.stream, z.base + end)
    requires z.quoted == NONE || z.quoted == NONE.(unclosed := true)
    modifies z`quoted
    ensures Carried(z, end)
  {
    hide RowHeld, Events, Chained, Run, Clean, OddQuotes;
    OpenIsOdd(z.d, z.stream, z.base + end);
    if inside {
      OpenStartsWithQuote(z, end);
    }
    if inside && z.cellStart < end && !z.d.noQuotes && z.buff[z.cellStart] == QT {
      z.quoted := z.quoted.(unclosed := true);
    } else {
      z.quoted := z.quoted.(unclosed := false);
    }
  }

  lemma OpenStartsWithQuote(z: Scanner, end: nat)
    requires z.At(end, end) && z.St(end).q.mode == Open
    ensures z.cellStart < end && !z.d.noQuotes && z.buff[z.cellStart] == QT
  {
    hide RowHeld, Events, Chained, Run;
    RunQuoting(z.d, z.stream, z.base + end);
    var raw := Slice(z.stream, Span(z.St(end).cellAt, z.base + end));
    ScanMeaning(z.d, raw, |raw|);
    var b := z.buff[..];
    assert z.V().b[z.cellStart] == b[z.cellStart];
  }

  /** Blocks, then the tail. */
  method FastBytes(z: Scanner, i0: nat, end: nat, inside0: bool) returns (i: nat, inside: bool, bad: bool)
    requires z.e == Fast && !z.pull && Going(z, i0, end) && inside0 == OddQuotes(z.d, z.stream, z.base + i0)
    modifies z`scanned, z`used, z`cellStart, z`rowStart, z`log, z`pullNow, z`pullUsed, z.cells
    ensures i <= end && Going(z, i, end)
    ensures !bad ==> i == end && inside == OddQuotes(z.d, z.stream, z.base + end)
    ensures bad ==> BailsAt(z.d, z.stream, z.base + i)
  {
    hide RowHeld, Events, Chained, Run, Loaded, Clean, OddQuotes, BailsAt;
    i, inside, bad := FastBlocks(z, i0, end, inside0);
    if !bad {
      i, inside, bad := FastTail(z, i, end, inside);
    }
  }

  lemma GoingMeans(z: Scanner, i: nat, end: nat)
    requires Going(z, i, end)
    ensures i <= end && z.base + end == |z.stream| && Clean(z.d, z.stream, z.base + i)
    ensures z.log == Events(z.e, z.d, z.stream, Run(z.d, z.stream, z.base + i).rows, z.cells.Length)
  {
    hide RowHeld, Events, Chained, Run, Loaded, Clean;
  }

  lemma PrimedMeans(z: Scanner, n: nat)
    requires FastPrimed(z, n)
    ensures n > 0 && Going(z, z.partial, z.partial + n)
    ensures z.base + z.partial <= |z.stream|
    ensures z.quoted.unclosed == OddQuotes(z.d, z.stream, z.base + z.partial)
    ensures z.quoted == NONE || z.quoted == NONE.(unclosed := true)
  {
    hide RowHeld, Events, Chained, Run, Loaded, Clean, OddQuotes;
  }

  /** `zsv_scan_delim_fast`, the normal path: scan the `n` bytes just received. */
  method ScanFast(z: Scanner, n: nat) returns (stat: Status)
    requires z.e == Fast && !z.pull && FastPrimed(z, n)
    modifies z`scanned, z`used, z`quoted, z`cellStart, z`rowStart, z`log, z`pullNow,
             z`pullUsed, z`oldBytesRead, z`partial, z`abort, z.cells
    ensures stat == if Clean(z.d, z.stream, |z.stream|) then Ok else Status.Nonstandard
    ensures stat == Ok ==> FastScanned(z) && z.abort == old(z.abort)
    ensures stat == Status.Nonstandard ==> z.abort && RowsOfPrefix(z)
  {
    hide Going, FastPrimed, Carried, Clean, OddQuotes, Run, Events, BailsAt;
    PrimedMeans(z, n);
    GoingMeans(z, z.partial, z.partial + n);
    var i, end := z.partial, n + z.partial;
    var inside, bad := z.quoted.unclosed, false;
    z.scanned := i;
    z.partial := 0;
    i, inside, bad := FastBytes(z, i, end, inside);
    GoingMeans(z, i, end);
    if bad {
      BailsIsNotClean(z.d, z.stream, z.base + i);
      z.abort := true;
      z.scanned, z.oldBytesRead := i, end;
      return Status.Nonstandard;
    }
    CarryGate(z, end, inside);
    z.scanned, z.oldBytesRead := i, end;
    return Ok;
  }
}
