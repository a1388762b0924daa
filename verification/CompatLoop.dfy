/** The compat engine's scan of one chunk: a loop driven by vector masks. */
module CompatLoop {
  import opened Csv
  import opened CsvFacts
  import opened Words
  import opened Scanner
  import opened CompatScan

  // ---------------------------------------------------------------------------------------
  // Masks
  // ---------------------------------------------------------------------------------------

  /** Without quotes the quote vector is filled with zeros, so NUL bytes match as well. */
  predicate Matches(d: Dialect, b: byte) {
    d.IsSeparator(b) || b == (if d.noQuotes then 0 else QT)
  }

  /** The mask of the vector at `s`: one bit a byte. */
  function MaskAt(d: Dialect, b: bytes, s: nat, v: nat): (w: Word)
    requires s + v <= |b|
    ensures |w| == v
  {
    seq(v, k requires 0 <= k < v => Matches(d, b[s + k]))
  }

  /** No byte of b[s..t] needs attention. */
  ghost predicate Dull(d: Dialect, b: bytes, s: nat, t: nat) {
    t <= |b| && forall j :: s <= j < t ==> !Matches(d, b[j])
  }

  /**
   `vec_delims` over the `n` bytes at `s`: skip whole vectors without a match. The mask stays
   zero if there is none.
   */
  method VecDelims(d: Dialect, a: array<byte>, s: nat, n: nat, v: nat) returns (total: nat, mask: Word)
    requires s + n <= a.Length && v > 0
    ensures |mask| == v && total <= n && Dull(d, a[..], s, s + total)
    ensures total > 0 ==> total >= v
    ensures NonZero(mask) ==> total + v <= n && mask == MaskAt(d, a[..], s + total, v)
    ensures !NonZero(mask) ==> n - total < v
  {
    hide NonZero, MaskAt, Dull;
    total, mask := 0, Zero(v);
    ZeroIsZero(v);
    DullNothing(d, a[..], s);
    while total + v <= n // whole vectors are left
      invariant |mask| == v && !NonZero(mask) && total <= n && (total > 0 ==> total >= v)
      invariant Dull(d, a[..], s, s + total)
    {
      mask := MaskAt(d, a[..], s + total, v);
      if NonZero(mask) {
        return;
      }
      MaskZero(d, a[..], s, s + total, v);
      total := total + v;
    }
  }

  lemma ZeroIsZero(v: nat)
    ensures !NonZero(Zero(v))
  {
  }

  lemma DullNothing(d: Dialect, b: bytes, s: nat)
    requires s <= |b|
    ensures Dull(d, b, s, s)
  {
  }

  lemma MaskZero(d: Dialect, b: bytes, from: nat, s: nat, v: nat)
    requires from <= s && s + v <= |b| && !NonZero(MaskAt(d, b, s, v)) && Dull(d, b, from, s)
    ensures Dull(d, b, from, s + v)
  {
    forall j | s <= j < s + v ensures !Matches(d, b[j]) {
      assert !MaskAt(d, b, s, v)[j - s];
    }
  }

  // ---------------------------------------------------------------------------------------
  // What the mask register promises
  // ---------------------------------------------------------------------------------------

  /** No byte of the buffer from `i` to `j` needs attention, going by the stream. */
  ghost predicate DullStream(d: Dialect, s: bytes, base: nat, i: nat, j: nat) {
    base + j <= |s| && forall k :: base + i <= k < base + j ==> !Matches(d, s[k])
  }

  /**
   The mask register is used as if bit 0 stood for buffer byte `maskStart`. The scanner sets
   `maskStart` before it skips vectors without a match, so after a skip the bits are those of
   a later vector; then none of the bytes they are taken for needs attention. Either way:
   every byte from `i` to the end of that vector that needs attention has its bit set, and
   all bits left lie at `i` or later.
   */
  ghost predicate Masked(d: Dialect, s: bytes, base: nat, mask: Word, maskStart: nat, i: nat, end: nat) {
    NonZero(mask) ==>
      && maskStart <= i && maskStart + |mask| <= end && base + end <= |s|
      && (forall k :: 0 <= k < |mask| && mask[k] ==> maskStart + k >= i)
      && (forall k :: 0 <= k < |mask| && maskStart + k >= i && Matches(d, s[base + (maskStart + k)]) ==> mask[k])
  }

  lemma MaskedSkip(d: Dialect, s: bytes, base: nat, mask: Word, maskStart: nat, i: nat, end: nat)
    requires Masked(d, s, base, mask, maskStart, i, end) && NonZero(mask)
    ensures var stop := maskStart + Lowest(mask);
      && i <= stop < end
      && DullStream(d, s, base, i, stop)
      && Masked(d, s, base, ClearLowest(mask), maskStart, stop + 1, end)
  {
    ClearLowestBits(mask);
    var stop := maskStart + Lowest(mask);
    forall k | base + i <= k < base + stop ensures !Matches(d, s[k]) {
      var bit := k - base - maskStart;
      assert s[base + (maskStart + bit)] == s[k] && !mask[bit];
    }
  }

  /** The mask `vec_delims` finds, at `total` bytes past `i`, keeps the promise from `i` on. */
  lemma MaskedFresh(d: Dialect, s: bytes, base: nat, b: bytes, i: nat, total: nat, v: nat, end: nat)
    requires base + end <= |s| && end <= |b| && i + total + v <= end
    requires forall j :: i <= j < end ==> b[j] == s[base + j]
    requires Dull(d, b, i, i + total) && (total > 0 ==> total >= v)
    ensures Masked(d, s, base, MaskAt(d, b, i + total, v), i, i, end)
  {
    var mask := MaskAt(d, b, i + total, v);
    forall k | 0 <= k < |mask| && Matches(d, s[base + (i + k)]) ensures mask[k] {
      assert b[i + k] == s[base + (i + k)];
    }
  }

  lemma DullInStream(d: Dialect, s: bytes, base: nat, b: bytes, i: nat, j: nat, end: nat)
    requires base + end <= |s| && end <= |b| && i <= j <= end
    requires forall j :: i <= j < end ==> b[j] == s[base + j]
    requires Dull(d, b, i, j)
    ensures DullStream(d, s, base, i, j)
  {
    forall k | base + i <= k < base + j ensures !Matches(d, s[k]) {
      assert b[k - base] == s[base + (k - base)];
    }
  }

  /** Bytes that need no attention can be passed over: nothing the scanner does depends on them. */
  lemma {:induction false} PassOver(z: Scanner, i: nat, j: nat, end: nat, skip: bool)
    requires z.At(i, end) && z.Ready(i, end, skip) && i < j <= end && DullStream(z.d, z.stream, z.base, i, j)
    ensures !skip && z.At(j, end) && z.Ready(j, end, false)
    decreases j
  {
    hide RowHeld, Events, Chained, Run, Loaded, Scan;
    if i < j - 1 {
      PassOver(z, i, j - 1, end, skip);
    }
    assert !Matches(z.d, z.stream[z.base + i]);
    assert !Matches(z.d, z.stream[z.base + j - 1]);
    Ordinary(z, j - 1, end);
  }

  // ---------------------------------------------------------------------------------------
  // The loop
  // ---------------------------------------------------------------------------------------

  /** Whole vectors start before this buffer byte. */
  function ChunkEnd(bytesRead: nat, v: nat): nat {
    if bytesRead >= v then bytesRead - v + 1 else 0
  }

  /** What the top of the loop body decides to do at buffer byte `i`. */
  datatype Move = Stop | Skip | Look

  /** The registers at the head of the loop. */
  ghost predicate Looping(z: Scanner, i: nat, end: nat, skip: bool, mask: Word, maskStart: nat)
    reads z`stream, z`base, z`cumScanned, z`last, z`used, z`cellStart, z`rowStart, z`log, z`quoted, z`closeAt,
          z.buff, z.cells
  {
    && z.At(i, end) && z.Ready(i, end, skip)
    && Masked(z.d, z.stream, z.base, mask, maskStart, i, end)
  }

  /** With the mask used up, look for the next vector with a match, or go byte by byte. */
  method Refill(z: Scanner, i0: nat, end: nat, v: nat, chunkEnd: nat, ghost skip: bool) returns (i: nat, mask: Word)
    requires v > 0 && i0 < end && chunkEnd == ChunkEnd(end, v)
    requires z.At(i0, end) && z.Ready(i0, end, skip)
    ensures |mask| == v && i0 <= i <= end
    ensures i0 >= chunkEnd ==> i == i0 && !NonZero(mask)
    ensures NonZero(mask) ==> Masked(z.d, z.stream, z.base, mask, i0, i0, end)
    ensures !NonZero(mask) ==> z.At(i, end) && z.Ready(i, end, skip) && (i0 < chunkEnd ==> !skip)
  {
    hide RowHeld, Events, Chained, Run, Loaded, Scan, Dull, MaskAt, NonZero, Masked, DullStream;
    BufferIsStream(z, i0, end);
    ZeroIsZero(v);
    i, mask := i0, Zero(v);
    if i0 < chunkEnd {
      var total;
      total, mask := VecDelims(z.d, z.buff, i0, end - i0, v);
      i := i0 + total;
      if NonZero(mask) {
        MaskedFresh(z.d, z.stream, z.base, z.buff[..], i0, total, v, end);
      } else {
        DullInStream(z.d, z.stream, z.base, z.buff[..], i0, i, end);
        PassOver(z, i0, i, end, skip);
      }
    }
  }

  /** The top of the loop body: find the byte to look at. */
  method NextStop(z: Scanner, i0: nat, end: nat, v: nat, chunkEnd: nat, skip: bool, mask0: Word, maskStart0: nat)
    returns (move: Move, i: nat, mask: Word, maskStart: nat)
    requires v > 0 && i0 < end && |mask0| == v && chunkEnd == ChunkEnd(end, v)
    requires Looping(z, i0, end, skip, mask0, maskStart0)
    ensures i0 <= i && |mask| == v
    ensures move == Stop ==> i == end && !skip && Looping(z, i, end, false, mask, maskStart)
    ensures move == Skip ==> i0 <= i < end && Looping(z, i + 1, end, false, mask, maskStart)
    ensures move == Look ==>
      && i < end && z.At(i, end) && z.Ready(i, end, false)
      && Masked(z.d, z.stream, z.base, mask, maskStart, i + 1, end)
  {
    hide RowHeld, Events, Chained, Run, Loaded, Scan, NonZero, DullStream, Masked;
    i, mask, maskStart := i0, mask0, maskStart0;
    if !NonZero(mask) {
      maskStart := i;
      i, mask := Refill(z, i, end, v, chunkEnd, skip);
      MaskedZero(z.d, z.stream, z.base, mask, maskStart, i, end);
      MaskedZero(z.d, z.stream, z.base, mask, maskStart, i + 1, end);
      if !NonZero(mask) {
        if maskStart < chunkEnd {
          if i == end {
            return Stop, i, mask, maskStart;
          }
        } else if skip {
          SecondQuote(z, i, end);
          return Skip, i, mask, maskStart;
        }
        return Look, i, mask, maskStart;
      }
    }
    MaskedSkip(z.d, z.stream, z.base, mask, maskStart, i0, end);
    i := maskStart + Lowest(mask);
    mask := ClearLowest(mask);
    if i0 < i {
      PassOver(z, i0, i, end, skip);
    }
    if skip {
      SecondQuote(z, i, end);
      return Skip, i, mask, maskStart;
    }
    return Look, i, mask, maskStart;
  }

  lemma MaskedZero(d: Dialect, s: bytes, base: nat, mask: Word, maskStart: nat, i: nat, end: nat)
    ensures !NonZero(mask) ==> Masked(d, s, base, mask, maskStart, i, end)
  {
  }

  // ---------------------------------------------------------------------------------------
  // One scan call
  // ---------------------------------------------------------------------------------------

  /** `n` bytes have been put into the buffer after the partial row. */
  ghost predicate Primed(z: Scanner, n: nat)
    reads z`stream, z`base, z`cumScanned, z`last, z`used, z`cellStart, z`rowStart, z`log, z`quoted, z`closeAt,
          z`partial, z.buff, z.cells
  {
    n > 0 && z.At(z.partial, z.partial + n) && z.Flagged(z.St(z.partial).q)
  }

  /** All bytes received have been scanned: the state between scan calls. */
  ghost predicate Scanned(z: Scanner)
    reads z`stream, z`base, z`cumScanned, z`last, z`used, z`cellStart, z`rowStart, z`log, z`quoted, z`closeAt,
          z`partial, z`oldBytesRead, z`scanned, z.buff, z.cells
  {
    && z.At(z.oldBytesRead, z.oldBytesRead) && z.Flagged(z.St(z.oldBytesRead).q)
    && z.oldBytesRead > 0 && z.scanned == z.oldBytesRead && z.partial == 0
  }

  /** A pull parser has returned a row in the middle of a scan; its registers say how to go on. */
  ghost predicate Suspended(z: Scanner, v: nat)
    reads z`stream, z`base, z`cumScanned, z`last, z`used, z`log, z`quoted, z`regs, z`partial, z.buff, z.cells
  {
    var r := z.regs;
    && r.location != 0 && !r.skip && |r.mask| == v && r.chunkEnd == ChunkEnd(r.bytesRead, v) && z.partial == 0
    && Ended(z, r.i, r.bytesRead)
    && Masked(z.d, z.stream, z.base, r.mask, r.maskStart, r.i + 1, r.bytesRead)
  }

  /** The log is one row longer, and the scanner's cells still hold that row. */
  ghost predicate Yielded(z: Scanner, log: seq<RowEvent>)
    reads z`used, z`log, z.buff, z.cells
  {
    && |z.log| == |log| + 1 && z.log[..|log|] == log
    && z.used <= z.cells.Length && Contents(z.buff[..], z.cells[..], z.used) == z.log[|log|].cells
  }

  /** A quote that ended the previous chunk is decided by the first byte of this one. */
  method Prologue(z: Scanner, end: nat) returns (i: nat)
    requires z.partial < end && z.At(z.partial, end) && z.Flagged(z.St(z.partial).q)
    modifies z`quoted, z`closeAt, z`partial
    ensures i <= end && z.At(i, end) && z.Ready(i, end, false) && z.partial == 0
  {
    hide RowHeld, Events, Chained, Run, Loaded, Scan;
    i := z.partial;
    z.partial := 0;
    QuotingNow(z, i, end);
    AtOffset(z, i, end);
    if z.quoted.pending {
      z.quoted := z.quoted.(pending := false);
      ByteAt(z, i, end);
      if !z.d.IsQuote(z.buff[i]) {
        z.quoted := z.quoted.(closed := true, unclosed := false);
        z.closeAt := i - z.cellStart - 1;
      } else {
        AtFeed(z, i, end);
        z.quoted := z.quoted.(needed := true, embedded := true);
        i := i + 1;
      }
    }
  }

  lemma AtOffset(z: Scanner, i: nat, end: nat)
    requires z.At(i, end)
    ensures z.St(i).Offset() == i - z.cellStart
  {
    hide RowHeld, Events, Chained, Run, Loaded;
    RunChained(z.d, z.stream, z.base + i);
  }

  /** Save the registers, and leave the row that byte `i` ended readable for the caller. */
  method Suspend(z: Scanner, i: nat, end: nat, v: nat, chunkEnd: nat, skip: bool, mask: Word, maskStart: nat,
                 ghost log: seq<RowEvent>)
    requires z.pull && HandedOver(z, i, end, log) && z.partial == 0
    requires |mask| == v && chunkEnd == ChunkEnd(end, v) && !skip
    requires Masked(z.d, z.stream, z.base, mask, maskStart, i + 1, end)
    modifies z`used, z`pullNow, z`regs
    ensures Suspended(z, v) && Yielded(z, log) && !z.pullNow
  {
    hide Masked, Events, Held, Contents, Run;
    z.pullNow := false;
    z.used := z.pullUsed;
    z.regs := Registers(if z.buff[i] == CR then 1 else 2, i, chunkEnd, end, skip, mask, maskStart);
  }

  /** Look at byte `i`, and see the row end through if it is one. */
  method LookAt(z: Scanner, i: nat, end: nat, v: nat, chunkEnd: nat, mask: Word, maskStart: nat)
    returns (skip: bool, suspended: bool)
    requires z.e == Compat && z.At(i, end) && z.Ready(i, end, false) && i < end && z.partial == 0 && !z.pullNow
    requires |mask| == v && chunkEnd == ChunkEnd(end, v)
    requires Masked(z.d, z.stream, z.base, mask, maskStart, i + 1, end)
    modifies z`scanned, z`used, z`quoted, z`closeAt, z`cellStart, z`rowStart, z`log,
             z`pullNow, z`pullUsed, z`regs, z.buff, z.cells
    ensures !z.pullNow
    ensures suspended ==> z.pull && Suspended(z, v) && Yielded(z, old(z.log))
    ensures !suspended ==>
      && Looping(z, i + 1, end, skip, mask, maskStart) && z.regs == old(z.regs)
      && (z.pull ==> z.log == old(z.log))
  {
    hide Masked, Events, RowHeld, Contents, Run, Loaded, Chained, Scan;
    var ended;
    skip, ended := Dispatch(z, i, end);
    suspended := false;
    if ended {
      skip := false;
      if z.pullNow {
        Suspend(z, i, end, v, chunkEnd, skip, mask, maskStart, old(z.log));
        suspended := true;
      } else {
        AfterRow(z, i, end);
      }
    }
  }

  lemma LoopEnd(z: Scanner, end: nat, mask: Word, maskStart: nat)
    requires Looping(z, end, end, false, mask, maskStart)
    ensures z.At(end, end) && z.Flagged(z.St(end).q)
  {
  }

  lemma NeverSkipsAtEnd(z: Scanner, i: nat, end: nat, skip: bool, mask: Word, maskStart: nat)
    requires Looping(z, i, end, skip, mask, maskStart)
    ensures i <= end && (i == end ==> !skip)
  {
  }

  /** The scanning loop, from buffer byte `i0` with the given registers. */
  method ScanFrom(z: Scanner, i0: nat, end: nat, v: nat, chunkEnd: nat, mask0: Word, maskStart0: nat)
    returns (stat: Status)
    requires z.e == Compat && v > 0 && 0 < end && z.partial == 0
    requires |mask0| == v && chunkEnd == ChunkEnd(end, v)
    requires Looping(z, i0, end, false, mask0, maskStart0) && !z.pullNow
    modifies z`scanned, z`used, z`quoted, z`closeAt, z`cellStart, z`rowStart, z`log,
             z`pullNow, z`pullUsed, z`regs, z`oldBytesRead, z.buff, z.cells
    ensures !z.pullNow && stat in {Ok, RowReady}
    ensures stat == Ok ==> Scanned(z) && z.regs == old(z.regs) && (z.pull ==> z.log == old(z.log))
    ensures stat == RowReady ==> z.pull && Suspended(z, v) && Yielded(z, old(z.log))
  {
    hide *;
    var i, skip, mask, maskStart := i0, false, mask0, maskStart0;
    NeverSkipsAtEnd(z, i, end, skip, mask, maskStart);
    while i < end
      invariant i <= end && (i == end ==> !skip) && |mask| == v && Looping(z, i, end, skip, mask, maskStart)
      invariant !z.pullNow && z.regs == old(z.regs) && z.partial == 0
      invariant z.pull ==> z.log == old(z.log)
      decreases end - i
    {
      var move, at, mask', maskStart' := NextStop(z, i, end, v, chunkEnd, skip, mask, maskStart);
      i, mask, maskStart, skip := at, mask', maskStart', false;
      if move == Stop {
        break;
      } else if move == Look {
        var suspended;
        skip, suspended := LookAt(z, i, end, v, chunkEnd, mask, maskStart);
        if suspended {
          return RowReady;
        }
      }
      i := i + 1;
      NeverSkipsAtEnd(z, i, end, skip, mask, maskStart);
    }
    LoopEnd(z, end, mask, maskStart);
    z.scanned, z.oldBytesRead := i, end;
    ScannedNow(z);
    return Ok;
  }

  lemma ScannedNow(z: Scanner)
    requires z.At(z.oldBytesRead, z.oldBytesRead) && z.Flagged(z.St(z.oldBytesRead).q)
    requires z.oldBytesRead > 0 && z.scanned == z.oldBytesRead && z.partial == 0
    ensures Scanned(z)
  {
  }

  /**
   `zsv_scan_delim` and `zsv_scan_delim_pull`, with vectors of `v` bytes: scan the `n` bytes
   just received, or, after a pull parser was suspended, go on from the saved registers.
   */
  method ScanDelim(z: Scanner, n: nat, v: nat) returns (stat: Status)
    requires z.e == Compat && v > 0 && !z.pullNow
    requires if z.regs.location != 0 then Suspended(z, v) else Primed(z, n)
    modifies z`scanned, z`used, z`quoted, z`closeAt, z`cellStart, z`rowStart, z`log,
             z`pullNow, z`pullUsed, z`regs, z`oldBytesRead, z`partial, z.buff, z.cells
    ensures !z.pullNow && stat in {Ok, RowReady}
    ensures stat == Ok ==> Scanned(z) && z.regs.location == 0 && (z.pull ==> z.log == old(z.log))
    ensures stat == RowReady ==> z.pull && Suspended(z, v) && Yielded(z, old(z.log))
  {
    hide RowHeld, Events, Chained, Run, Loaded, Scan, Ended, NonZero, Scanned, Yielded;
    if z.regs.location != 0 {
      var r := z.regs;
      AfterRow(z, r.i, r.bytesRead);
      z.regs := r.(location := 0);
      stat := ScanFrom(z, r.i + 1, r.bytesRead, v, r.chunkEnd, r.mask, r.maskStart);
    } else {
      var end := n + z.partial;
      var i := Prologue(z, end);
      MaskedZero(z.d, z.stream, z.base, Zero(v), 0, i, end);
      ZeroIsZero(v);
      stat := ScanFrom(z, i, end, v, ChunkEnd(end, v), Zero(v), 0);
    }
  }
}
