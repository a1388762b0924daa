/** The order of row keys in `compare`, from an arbitrary order of cell values. */
module Keys {
  import opened Csv

  type Key = seq<bytes>

  /** How two cell values compare: negative, zero or positive. */
  type CellOrder = (bytes, bytes) -> int

  /** A total preorder; values that compare equal need not be equal (letter case, say). */
  ghost predicate IsOrder(c: CellOrder) {
    && (forall x :: c(x, x) == 0)
    && (forall x, y :: c(x, y) < 0 <==> c(y, x) > 0)
    && (forall x, y, z :: c(x, y) <= 0 && c(y, z) <= 0 ==> c(x, z) <= 0)
  }

  /** Compare from cell `i` on: the first difference decides, and otherwise the number of cells. */
  function KeyCmp(c: CellOrder, x: Key, y: Key, i: nat): int
    decreases |x| - i
  {
    if i < |x| && i < |y| then
      var d := c(x[i], y[i]);
      if d != 0 then d else KeyCmp(c, x, y, i + 1)
    else if |x| != |y| then (if |x| < |y| then -1 else 1)
    else 0
  }

  predicate Le(c: CellOrder, x: Key, y: Key) {
    KeyCmp(c, x, y, 0) <= 0
  }

  predicate Equiv(c: CellOrder, x: Key, y: Key) {
    KeyCmp(c, x, y, 0) == 0
  }

  /** Cell `k` is the first in which the keys differ. */
  predicate FirstDiffers(c: CellOrder, x: Key, y: Key, k: nat) {
    k < |x| && k < |y| && c(x[k], y[k]) != 0 && forall j :: 0 <= j < k ==> c(x[j], y[j]) == 0
  }

  /** No cell differs as far as both keys go. */
  predicate NoneDiffers(c: CellOrder, x: Key, y: Key) {
    forall j :: 0 <= j < |x| && j < |y| ==> c(x[j], y[j]) == 0
  }

  method CompareKeys(c: CellOrder, x: Key, y: Key) returns (cmp: int)
    ensures cmp == KeyCmp(c, x, y, 0)
    ensures forall k: nat :: FirstDiffers(c, x, y, k) ==> cmp == c(x[k], y[k])
    ensures NoneDiffers(c, x, y) ==> cmp == if |x| < |y| then -1 else if |x| > |y| then 1 else 0
  {
    cmp := 0;
    var i := 0;
    while cmp == 0 && i < |x| && i < |y|
      invariant 0 <= i
      invariant if cmp == 0 then KeyCmp(c, x, y, 0) == KeyCmp(c, x, y, i) else cmp == KeyCmp(c, x, y, 0)
      invariant if cmp == 0 then i <= |x| && i <= |y| && forall j :: 0 <= j < i ==> c(x[j], y[j]) == 0
                else i > 0 && FirstDiffers(c, x, y, i - 1) && cmp == c(x[i - 1], y[i - 1])
    {
      cmp := c(x[i], y[i]);
      i := i + 1;
    }
    if cmp == 0 && |x| != |y| {
      cmp := if |x| < |y| then -1 else 1;
    }
  }

  /** The first difference decides, else the number of cells; one of the two is the case. */
  lemma {:induction false} CmpDecides(c: CellOrder, x: Key, y: Key, i: nat)
    requires i <= |x| && i <= |y| && forall j :: 0 <= j < i ==> c(x[j], y[j]) == 0
    ensures NoneDiffers(c, x, y) || exists k: nat :: FirstDiffers(c, x, y, k)
    ensures forall k: nat :: FirstDiffers(c, x, y, k) ==> KeyCmp(c, x, y, i) == c(x[k], y[k])
    ensures NoneDiffers(c, x, y) ==> KeyCmp(c, x, y, i) == if |x| < |y| then -1 else if |x| > |y| then 1 else 0
    decreases |x| - i
  {
    if i < |x| && i < |y| {
      if c(x[i], y[i]) != 0 {
        assert FirstDiffers(c, x, y, i);
      } else {
        CmpDecides(c, x, y, i + 1);
      }
    }
  }

  lemma {:induction false} CmpReflexive(c: CellOrder, x: Key, i: nat)
    requires IsOrder(c)
    ensures KeyCmp(c, x, x, i) == 0
    decreases |x| - i
  {
    if i < |x| {
      CmpReflexive(c, x, i + 1);
    }
  }

  lemma {:induction false} CmpOpposite(c: CellOrder, x: Key, y: Key, i: nat)
    requires IsOrder(c)
    ensures KeyCmp(c, x, y, i) < 0 <==> KeyCmp(c, y, x, i) > 0
    ensures KeyCmp(c, x, y, i) == 0 <==> KeyCmp(c, y, x, i) == 0
    decreases |x| - i
  {
    if i < |x| && i < |y| {
      CmpOpposite(c, x, y, i + 1);
      assert c(x[i], y[i]) < 0 <==> c(y[i], x[i]) > 0;
      assert c(y[i], x[i]) < 0 <==> c(x[i], y[i]) > 0;
    }
  }

  lemma {:induction false} CmpTransitive(c: CellOrder, x: Key, y: Key, z: Key, i: nat)
    requires IsOrder(c) && KeyCmp(c, x, y, i) <= 0 && KeyCmp(c, y, z, i) <= 0
    requires i <= |x| && i <= |y| && i <= |z|
    ensures KeyCmp(c, x, z, i) <= 0
    decreases |x| - i
  {
    if i < |x| && i < |y| && i < |z| {
      CellTransitive(c, x[i], y[i], z[i]);
      if c(x[i], y[i]) == 0 && c(y[i], z[i]) == 0 {
        CmpTransitive(c, x, y, z, i + 1);
      }
    }
  }

  lemma CellTransitive(c: CellOrder, x: bytes, y: bytes, z: bytes)
    requires IsOrder(c) && c(x, y) <= 0 && c(y, z) <= 0
    ensures c(x, z) <= 0 && (c(x, z) == 0 <==> c(x, y) == 0 && c(y, z) == 0)
  {
    assert c(x, z) <= 0;
    assert c(z, x) < 0 <==> c(x, z) > 0;
    assert c(x, z) < 0 <==> c(z, x) > 0;
    assert c(x, y) < 0 <==> c(y, x) > 0;
    assert c(y, z) < 0 <==> c(z, y) > 0;
    assert c(y, x) < 0 <==> c(x, y) > 0;
    assert c(z, y) < 0 <==> c(y, z) > 0;
    if c(x, z) == 0 {
      assert c(z, x) <= 0 && c(x, y) <= 0 ==> c(z, y) <= 0;
      assert c(y, z) <= 0 && c(z, x) <= 0 ==> c(y, x) <= 0;
    }
  }

  /** Keys are totally preordered. */
  lemma KeyOrder(c: CellOrder, x: Key, y: Key, z: Key)
    requires IsOrder(c)
    ensures Equiv(c, x, x) && (Le(c, x, y) || Le(c, y, x))
    ensures Equiv(c, x, y) <==> Le(c, x, y) && Le(c, y, x)
    ensures Le(c, x, y) && Le(c, y, z) ==> Le(c, x, z)
  {
    CmpReflexive(c, x, 0);
    CmpOpposite(c, x, y, 0);
    CmpOpposite(c, y, x, 0);
    if Le(c, x, y) && Le(c, y, z) {
      CmpTransitive(c, x, y, z, 0);
    }
  }
}
