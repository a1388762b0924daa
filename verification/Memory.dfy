/** Memory as arrays of bytes, and the C library's operations on it. */
module Memory {
  import opened Csv

  /** The `n` bytes at `s`. */
  function Part(b: bytes, s: nat, n: nat): (r: bytes)
    requires s + n <= |b|
    ensures |r| == n
  {
    b[s..s + n]
  }

  /** The memory `b` after the `n` bytes at `src` have been copied to `dst`. */
  ghost function Moved(b: bytes, dst: nat, src: nat, n: nat): (r: bytes)
    requires dst + n <= |b| && src + n <= |b|
    ensures |r| == |b|
  {
    b[..dst] + b[src..src + n] + b[dst + n..]
  }

  /** C's `memmove`: the ranges may overlap. */
  method MemMove(a: array<byte>, dst: nat, src: nat, n: nat)
    requires dst + n <= a.Length && src + n <= a.Length
    modifies a
    ensures a[..] == Moved(old(a[..]), dst, src, n)
  {
    var moved := a[src..src + n];
    forall k | 0 <= k < n {
      a[dst + k] := moved[k];
    }
  }

  /** C's `memchr`, as a test. */
  method MemChr(a: array<byte>, s: nat, n: nat, x: byte) returns (found: bool)
    requires s + n <= a.Length
    ensures found <==> x in Part(a[..], s, n)
  {
    ghost var text := Part(a[..], s, n);
    found := false;
    for k := 0 to n
      invariant found <==> exists j :: 0 <= j < k && text[j] == x
    {
      assert text[k] == a[s + k];
      found := found || a[s + k] == x;
    }
  }

  /** The memory `b` after `text` has been copied to `dst`. */
  ghost function Overlaid(b: bytes, dst: nat, text: bytes): (r: bytes)
    requires dst + |text| <= |b|
    ensures |r| == |b|
  {
    b[..dst] + text + b[dst + |text|..]
  }

  /** C's `memcpy`, from other memory. */
  method MemCpy(a: array<byte>, dst: nat, text: bytes)
    requires dst + |text| <= a.Length
    modifies a
    ensures a[..] == Overlaid(old(a[..]), dst, text)
  {
    forall k | 0 <= k < |text| {
      a[dst + k] := text[k];
    }
  }
}
