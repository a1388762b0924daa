/** Machine words as their bits: bit `k` of an unsigned integer of `|w|` bits is `w[k]`. */
module Words {
  type Word = seq<bool>

  function Zero(n: nat): Word {
    seq(n, _ => false)
  }

  ghost predicate Any(w: Word) {
    exists k :: 0 <= k < |w| && w[k]
  }

  predicate NonZero(w: Word)
    ensures NonZero(w) <==> Any(w)
  {
    |w| > 0 && (w[0] || NonZeroFrom(w, 1))
  }

  predicate NonZeroFrom(w: Word, i: nat)
    requires i <= |w|
    ensures NonZeroFrom(w, i) <==> exists k :: i <= k < |w| && w[k]
    decreases |w| - i
  {
    i < |w| && (w[i] || NonZeroFrom(w, i + 1))
  }

  function And(x: Word, y: Word): (r: Word)
    requires |x| == |y|
  {
    seq(|x|, k requires 0 <= k < |x| => x[k] && y[k])
  }

  function Or(x: Word, y: Word): (r: Word)
    requires |x| == |y|
  {
    seq(|x|, k requires 0 <= k < |x| => x[k] || y[k])
  }

  function Xor(x: Word, y: Word): (r: Word)
    requires |x| == |y|
  {
    seq(|x|, k requires 0 <= k < |x| => x[k] != y[k])
  }

  function Not(x: Word): (r: Word) {
    seq(|x|, k requires 0 <= k < |x| => !x[k])
  }

  /** Left shift: the top `s` bits are lost. */
  function Shl(x: Word, s: nat): (r: Word) {
    seq(|x|, k requires 0 <= k < |x| => k >= s && x[k - s])
  }

  /** The unsigned integer with these bits. */
  ghost function Value(w: Word): nat {
    if w == [] then 0 else (if w[0] then 1 else 0) + 2 * Value(w[1..])
  }

  /** `x - 1`, wrapping at zero: the borrow runs through the low zeros up to the lowest one. */
  function Minus1(x: Word): (r: Word)
    ensures |r| == |x|
  {
    if x == [] then [] else if x[0] then [false] + x[1..] else [true] + Minus1(x[1..])
  }

  lemma {:induction false} Minus1Value(x: Word)
    requires Any(x)
    ensures Value(Minus1(x)) + 1 == Value(x)
  {
    var r := Minus1(x);
    if x[0] {
      assert r[1..] == x[1..];
    } else {
      var k :| 0 <= k < |x| && x[k];
      assert x[1..][k - 1];
      assert r[1..] == Minus1(x[1..]);
      Minus1Value(x[1..]);
    }
  }

  /** Count trailing zeros: the position of the lowest set bit. */
  function Lowest(x: Word): (k: nat)
    requires Any(x)
    ensures k < |x| && x[k] && forall j :: 0 <= j < k ==> !x[j]
  {
    LowestFrom(x, 0)
  }

  function LowestFrom(x: Word, i: nat): (k: nat)
    requires i <= |x| && (exists k :: i <= k < |x| && x[k]) && forall j :: 0 <= j < i ==> !x[j]
    ensures k < |x| && x[k] && forall j :: 0 <= j < k ==> !x[j]
    decreases |x| - i
  {
    if x[i] then i else LowestFrom(x, i + 1)
  }

  /** `x & (x - 1)`. */
  function ClearLowest(x: Word): (r: Word)
    ensures |r| == |x|
  {
    And(x, Minus1(x))
  }

  lemma {:induction false} Minus1Bits(x: Word, l: nat, k: nat)
    requires l < |x| && x[l] && (forall j :: 0 <= j < l ==> !x[j]) && k < |x|
    ensures Minus1(x)[k] == if k < l then true else if k == l then false else x[k]
  {
    if !x[0] && k > 0 {
      Minus1Bits(x[1..], l - 1, k - 1);
    }
  }

  /** Clearing the lowest bit clears that bit and no other. */
  lemma ClearLowestBits(x: Word)
    requires Any(x)
    ensures forall k :: 0 <= k < |x| ==> (ClearLowest(x)[k] <==> x[k] && k != Lowest(x))
  {
    forall k | 0 <= k < |x| ensures ClearLowest(x)[k] <==> x[k] && k != Lowest(x) {
      Minus1Bits(x, Lowest(x), k);
    }
  }
}
