/** The bit arithmetic of the fast engine, and why quote parity decides quoting. */
module FastFacts {
  import opened Csv
  import opened CsvFacts
  import opened Words

  // ---------------------------------------------------------------------------------------
  // fast_prefix_xor
  // ---------------------------------------------------------------------------------------

  /** Whether the first `k` bits hold an odd number of ones. */
  function Parity(x: Word, k: nat): bool
    requires k <= |x|
  {
    k > 0 && (Parity(x, k - 1) != x[k - 1])
  }

  /** One round of the shift-XOR cascade. */
  function Round(x: Word, s: nat): (r: Word)
    ensures |r| == |x|
  {
    Xor(x, Shl(x, s))
  }

  /** The six rounds used without PCLMULQDQ. */
  function Cascade(x: Word): (r: Word)
    ensures |r| == |x|
  {
    Round(Round(Round(Round(Round(Round(x, 1), 2), 4), 8), 16), 32)
  }

  /** Bit `k` of the carry-less product of `x` and `y`, from the first `n` bits of `x`. */
  function ClmulBit(x: Word, y: Word, k: nat, n: nat): bool
    requires n <= |x| && n <= k + 1 && k < |y|
  {
    n > 0 && (ClmulBit(x, y, k, n - 1) != (x[n - 1] && y[k - (n - 1)]))
  }

  /** The low half of the carry-less product of two words of the same size. */
  function ClmulLow(x: Word, y: Word): (r: Word)
    requires |x| == |y|
  {
    seq(|x|, k requires 0 <= k < |x| => ClmulBit(x, y, k, k + 1))
  }

  function Ones(n: nat): Word {
    seq(n, _ => true)
  }

  /** Bit `k` of `y` is the parity of the `w` bits of `x` that end with bit `k`. */
  ghost predicate Windowed(x: Word, y: Word, w: nat) {
    |y| == |x| && forall k :: 0 <= k < |y| ==>
      y[k] == (Parity(x, k + 1) != Parity(x, if k + 1 < w then 0 else k + 1 - w))
  }

  lemma RoundDoubles(x: Word, y: Word, w: nat)
    requires Windowed(x, y, w)
    ensures Windowed(x, Round(y, w), 2 * w)
  {
    hide Parity;
    ParityZero(x);
    var r := Round(y, w);
    forall k | 0 <= k < |r|
      ensures r[k] == (Parity(x, k + 1) != Parity(x, if k + 1 < 2 * w then 0 else k + 1 - 2 * w))
    {
      assert r[k] == (y[k] != (k >= w && y[k - w]));
    }
  }

  lemma ParityZero(x: Word)
    ensures !Parity(x, 0)
  {
  }

  /** The cascade computes the running XOR of all bits up to each position. */
  lemma CascadeIsPrefixXor(x: Word, k: nat)
    requires |x| <= 64 && k < |x|
    ensures Cascade(x)[k] == Parity(x, k + 1)
  {
    hide Parity, Round;
    ParityZero(x);
    WindowOne(x);
    var x1 := Round(x, 1);   RoundDoubles(x, x, 1);
    var x2 := Round(x1, 2);  RoundDoubles(x, x1, 2);
    var x3 := Round(x2, 4);  RoundDoubles(x, x2, 4);
    var x4 := Round(x3, 8);  RoundDoubles(x, x3, 8);
    var x5 := Round(x4, 16); RoundDoubles(x, x4, 16);
    RoundDoubles(x, x5, 32);
  }

  lemma WindowOne(x: Word)
    ensures Windowed(x, x, 1)
  {
  }

  lemma {:induction false} ClmulOnes(x: Word, k: nat, n: nat)
    requires n <= |x| && n <= k + 1 && k < |x|
    ensures ClmulBit(x, Ones(|x|), k, n) == Parity(x, n)
  {
    if n > 0 {
      ClmulOnes(x, k, n - 1);
    }
  }

  /** The carry-less multiplication by all ones and the cascade are the same function. */
  lemma ClmulIsCascade(x: Word)
    requires |x| <= 64
    ensures ClmulLow(x, Ones(|x|)) == Cascade(x)
  {
    hide Cascade, ClmulBit, Parity;
    var m := ClmulLow(x, Ones(|x|));
    forall k | 0 <= k < |x| ensures m[k] == Cascade(x)[k] {
      ClmulOnes(x, k, k + 1);
      CascadeIsPrefixXor(x, k);
    }
  }

  // ---------------------------------------------------------------------------------------
  // Parity and quoting
  // ---------------------------------------------------------------------------------------

  /** The first `p` bytes hold an odd number of quotes. */
  function OddQuotes(d: Dialect, s: bytes, p: nat): bool
    requires p <= |s|
  {
    p > 0 && (OddQuotes(d, s, p - 1) != d.IsQuote(s[p - 1]))
  }

  /** The quote at `j` neither opens, nor closes, nor doubles: it is read as a plain byte. */
  ghost predicate Literal(d: Dialect, s: bytes, j: nat) {
    j < |s| && d.IsQuote(s[j]) && Run(d, s, j).q.mode in {Plain, Closed}
  }

  /** The first `p` bytes are standard CSV as far as quoting goes. */
  ghost predicate Clean(d: Dialect, s: bytes, p: nat) {
    p <= |s| && forall j :: 0 <= j < p ==> !Literal(d, s, j)
  }

  /** A separator at `j` that is outside quotes. */
  ghost predicate Cuts(d: Dialect, s: bytes, j: nat) {
    j < |s| && d.IsSeparator(s[j]) && Run(d, s, j).q.mode != Open
  }

  /** In standard CSV a byte is inside quotes exactly when an odd number of quotes precede it. */
  lemma {:induction false} OpenIsOdd(d: Dialect, s: bytes, p: nat)
    requires d.Valid() && Clean(d, s, p)
    ensures Run(d, s, p).q.mode == Open <==> OddQuotes(d, s, p)
  {
    if p > 0 {
      OpenIsOdd(d, s, p - 1);
      assert !Literal(d, s, p - 1);
    }
  }

  /** Before a literal quote there is an ordinary byte. */
  lemma BeforeLiteral(d: Dialect, s: bytes, j: nat)
    requires d.Valid() && Clean(d, s, j) && Literal(d, s, j)
    ensures j > 0 && !d.IsSeparator(s[j - 1]) && !d.IsQuote(s[j - 1])
  {
    hide Chained, Scan;
    RunWf(d, s, j - 1);
    assert !Literal(d, s, j - 1);
  }

  /** Before any other quote outside quotes there is a separator, a quote, or nothing. */
  lemma BeforeOpening(d: Dialect, s: bytes, j: nat)
    requires d.Valid() && j <= |s| && Run(d, s, j).q.mode in {Start, Pending}
    ensures j == 0 || d.IsSeparator(s[j - 1]) || d.IsQuote(s[j - 1])
  {
    hide Chained, Scan;
    if j > 0 {
      RunWf(d, s, j - 1);
    }
  }

  // ---------------------------------------------------------------------------------------
  // One block of 64 bytes
  // ---------------------------------------------------------------------------------------

  /** The lanes of the block at stream position `o` that hold a quote, and those with a separator. */
  ghost predicate BlockAt(d: Dialect, s: bytes, o: nat, delims: Word, quotes: Word) {
    && o + 64 <= |s| && |delims| == |quotes| == 64
    && (forall k :: 0 <= k < 64 ==> delims[k] == d.IsSeparator(s[o + k]))
    && (forall k :: 0 <= k < 64 ==> quotes[k] == d.IsQuote(s[o + k]))
  }

  /** `state_mask`: bit `k` says whether lane `k`, once read, leaves the scan inside quotes. */
  function StateMask(quotes: Word, inside: bool): (r: Word)
    ensures |r| == |quotes|
  {
    if inside then Not(Cascade(quotes)) else Cascade(quotes)
  }

  lemma {:induction false} ParityOfBlock(d: Dialect, s: bytes, o: nat, delims: Word, quotes: Word, k: nat)
    requires BlockAt(d, s, o, delims, quotes) && k <= 64
    ensures OddQuotes(d, s, o + k) == (OddQuotes(d, s, o) != Parity(quotes, k))
  {
    if k > 0 {
      ParityOfBlock(d, s, o, delims, quotes, k - 1);
      assert quotes[k - 1] == d.IsQuote(s[o + (k - 1)]);
    }
  }

  /** Whatever the input, each bit of the mask is the parity of all quotes up to its byte. */
  lemma StateMaskIsParity(d: Dialect, s: bytes, o: nat, delims: Word, quotes: Word, k: nat)
    requires BlockAt(d, s, o, delims, quotes) && k < 64
    ensures StateMask(quotes, OddQuotes(d, s, o))[k] == OddQuotes(d, s, o + (k + 1))
  {
    hide Cascade, OddQuotes, Parity, BlockAt;
    BlockSizes(d, s, o, delims, quotes);
    CascadeIsPrefixXor(quotes, k);
    ParityOfBlock(d, s, o, delims, quotes, k + 1);
  }

  lemma BlockSizes(d: Dialect, s: bytes, o: nat, delims: Word, quotes: Word)
    requires BlockAt(d, s, o, delims, quotes)
    ensures o + 64 <= |s| && |delims| == |quotes| == 64
  {
  }

  /** The single bit `1 << n`. */
  function Bit(n: nat): (r: Word)
    ensures |r| == 64
  {
    seq(64, k => k == n)
  }

  /** The lanes at which an opening quote is standard. */
  function ValidPrev(delims: Word, quotes: Word, prevOk: bool, cellStart: nat, i: nat): (r: Word)
    requires |delims| == |quotes| == 64
    ensures |r| == 64
  {
    var after := Shl(Or(delims, quotes), 1);
    var first := if prevOk then Or(after, Bit(0)) else after;
    if i <= cellStart < i + 64 then Or(first, Bit(cellStart - i)) else first
  }

  /** `opening_quotes & ~valid_prev`. */
  function Suspects(delims: Word, quotes: Word, state: Word, prevOk: bool, cellStart: nat, i: nat): (r: Word)
    requires |delims| == |quotes| == |state| == 64
    ensures |r| == 64
  {
    And(And(quotes, state), Not(ValidPrev(delims, quotes, prevOk, cellStart, i)))
  }

  /** What the block check is given: buffer byte `i` is stream byte `o`, the current cell starts at `cellStart`. */
  ghost predicate Checked(d: Dialect, s: bytes, o: nat, delims: Word, quotes: Word, prevOk: bool,
                          cellStart: nat, i: nat) {
    && d.Valid() && BlockAt(d, s, o, delims, quotes) && Clean(d, s, o)
    && prevOk == (var prev := if o == 0 then 0 else s[o - 1]; d.IsSeparator(prev) || prev == QT)
    && cellStart <= i <= o && Run(d, s, o).cellAt == o - i + cellStart
  }

  lemma SuspectBit(d: Dialect, s: bytes, o: nat, delims: Word, quotes: Word, prevOk: bool,
                   cellStart: nat, i: nat, k: nat)
    requires Checked(d, s, o, delims, quotes, prevOk, cellStart, i) && k < 64
    ensures var state := StateMask(quotes, OddQuotes(d, s, o));
      Suspects(delims, quotes, state, prevOk, cellStart, i)[k] <==>
        && d.IsQuote(s[o + k]) && OddQuotes(d, s, o + (k + 1))
        && !(if k > 0 then d.IsSeparator(s[o + (k - 1)]) || d.IsQuote(s[o + (k - 1)]) else prevOk || cellStart == i)
  {
    hide Cascade, StateMask, OddQuotes, Run, Clean;
    StateMaskIsParity(d, s, o, delims, quotes, k);
    if k > 0 {
      assert delims[k - 1] == d.IsSeparator(s[o + (k - 1)]);
      assert quotes[k - 1] == d.IsQuote(s[o + (k - 1)]);
    }
  }

  /** A suspect lane means that some quote up to it is literal. */
  lemma SuspectIsLiteral(d: Dialect, s: bytes, o: nat, delims: Word, quotes: Word, prevOk: bool, cellStart: nat, i: nat,
                         k: nat)
    requires Checked(d, s, o, delims, quotes, prevOk, cellStart, i) && k < 64
    requires Suspects(delims, quotes, StateMask(quotes, OddQuotes(d, s, o)), prevOk, cellStart, i)[k]
    ensures !Clean(d, s, o + (k + 1))
  {
    hide Cascade, StateMask, Suspects, Run;
    SuspectBit(d, s, o, delims, quotes, prevOk, cellStart, i, k);
    if Clean(d, s, o + (k + 1)) {
      var j := o + k;
      assert !Literal(d, s, j);
      OpenIsOdd(d, s, j);
      BeforeOpening(d, s, j);
      assert false;
    }
  }

  /** Without a suspect lane the whole block is clean. */
  lemma {:induction false} NoSuspects(d: Dialect, s: bytes, o: nat, delims: Word, quotes: Word, prevOk: bool,
                                      cellStart: nat, i: nat, k: nat)
    requires Checked(d, s, o, delims, quotes, prevOk, cellStart, i) && k <= 64
    requires !NonZero(Suspects(delims, quotes, StateMask(quotes, OddQuotes(d, s, o)), prevOk, cellStart, i))
    ensures Clean(d, s, o + k)
  {
    hide Cascade, StateMask, Suspects, Run;
    if k > 0 {
      NoSuspects(d, s, o, delims, quotes, prevOk, cellStart, i, k - 1);
      SuspectBit(d, s, o, delims, quotes, prevOk, cellStart, i, k - 1);
      var j := o + (k - 1);
      if Literal(d, s, j) {
        BeforeLiteral(d, s, j);
        OpenIsOdd(d, s, j);
        assert !Suspects(delims, quotes, StateMask(quotes, OddQuotes(d, s, o)), prevOk, cellStart, i)[k - 1];
        if cellStart == i && k == 1 {
          RunWf(d, s, j);
        }
        assert false;
      }
    }
  }
}
