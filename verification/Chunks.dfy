/** Guessing where a file can be cut for parallel work. */
module Chunks {
  import opened Csv
  import opened Wrappers

  /** A guessed chunk; like all chunk ends, `end` is the offset of its last byte. */
  datatype Guess = Guess(start: nat, end: nat)

  /** Smaller inputs are not cut. */
  const MIN_BYTES := 2 * 1024 * 1024

  predicate IsNewline(b: byte) {
    b == CR || b == LF
  }

  /** A place to cut: after line breaks, before another byte. */
  predicate Split(s: bytes, from: nat, boundary: nat, q: nat) {
    from < q < boundary <= |s| && IsNewline(s[q - 1]) && !IsNewline(s[q])
  }

  /** In bytes: behind a CR or LF, and before none. */
  lemma SplitIs(s: bytes, from: nat, boundary: nat, q: nat)
    requires boundary <= |s|
    ensures Split(s, from, boundary, q) <==>
      && from < q < boundary
      && (s[q - 1] == 10 || s[q - 1] == 13) && s[q] != 10 && s[q] != 13
  {
  }

  /** The first such place. */
  ghost predicate FirstSplit(s: bytes, from: nat, boundary: nat, q: nat) {
    Split(s, from, boundary, q) && forall p: nat :: p < q ==> !Split(s, from, boundary, p)
  }

  /** zsv_find_chunk_start(): the first place to cut after `from`. */
  method FindChunkStart(s: bytes, from: nat, boundary: nat) returns (r: Option<nat>)
    requires boundary <= |s|
    ensures r.Some? ==> FirstSplit(s, from, boundary, r.value)
    ensures r.None? ==> forall q: nat :: !Split(s, from, boundary, q)
  {
    var pos := from;
    while pos < boundary
      invariant from <= pos
      invariant forall k :: from <= k < pos && k < boundary ==> !IsNewline(s[k])
    {
      var c := s[pos];
      pos := pos + 1;
      if IsNewline(c) {
        while pos < boundary
          invariant from < pos <= boundary && IsNewline(s[pos - 1])
          invariant forall q: nat :: q < pos ==> !Split(s, from, boundary, q)
        {
          if !IsNewline(s[pos]) {
            return Some(pos);
          }
          pos := pos + 1;
        }
        return None;
      }
    }
    return None;
  }

  function Max(a: int, b: int): int {
    if a < b then b else a
  }

  /** Where chunk `i` of `n` would end if bytes were shared out evenly; the header's bytes are left out of account. */
  function Nominal(total: nat, n: nat, i: nat): nat
    requires n > 0
  {
    (i + 1) * (total / n)
  }

  /** The next chunk starts at the first place to cut after the nominal boundary, or there if there is none. */
  ghost predicate CutAt(s: bytes, nominal: nat, total: nat, q: nat) {
    FirstSplit(s, nominal, total, q) || (q == nominal && forall p: nat :: !Split(s, nominal, total, p))
  }

  /** Where chunk `i` of `n` starts. */
  ghost predicate CutStart(s: bytes, initial: nat, n: nat, i: nat, start: nat)
    requires initial <= |s| && n > 0
  {
    if i == 0 then start == initial
    else CutAt(s, Nominal(|s| - initial, n, i - 1), |s| - initial, start)
  }

  /** Chunk `i` of the guesses: it ends before the next one starts, but not before its own first byte. */
  ghost predicate GuessedAt(s: bytes, initial: nat, guesses: seq<Guess>, i: nat)
    requires i < |guesses| && initial <= |s|
  {
    && CutStart(s, initial, |guesses|, i, guesses[i].start)
    && guesses[i].end == Max(guesses[i].start, NextStart(s, guesses, i) - 1)
  }

  function NextStart(s: bytes, guesses: seq<Guess>, i: nat): nat
    requires i < |guesses|
  {
    if i + 1 < |guesses| then guesses[i + 1].start else |s|
  }

  /** The start of the chunk after `i`. */
  method CutNext(s: bytes, initial: nat, n: nat, i: nat) returns (start: nat)
    requires initial <= |s| && i + 1 < n
    ensures CutStart(s, initial, n, i + 1, start)
  {
    hide FirstSplit, Split, Nominal;
    var total := |s| - initial;
    var nominal := Nominal(total, n, i);
    var split := FindChunkStart(s, nominal, total);
    match split {
      case Some(q) => return q;
      case None => return nominal;
    }
  }

  /** zsv_guess_file_chunks(): `n` chunks of the file from byte `initial` on. */
  method GuessFileChunks(s: bytes, n: nat, initial: nat) returns (r: Option<seq<Guess>>)
    ensures r.Some? <==> n > 0 && initial + 2097152 <= |s|
    ensures r.Some? ==> |r.value| == n && forall i :: 0 <= i < n ==> GuessedAt(s, initial, r.value, i)
  {
    hide CutStart;
    if n == 0 || |s| < initial {
      return None;
    }
    if |s| - initial < MIN_BYTES {
      return None;
    }
    FirstStart(s, initial, n);
    var guesses: seq<Guess> := [];
    var current: nat := initial;
    for i := 0 to n
      invariant |guesses| == i
      invariant forall k :: 0 <= k < i ==> CutStart(s, initial, n, k, guesses[k].start)
      invariant i < n ==> CutStart(s, initial, n, i, current)
      invariant i == n ==> current == |s|
      invariant i > 0 ==> guesses[i - 1].end == Max(guesses[i - 1].start, current - 1)
      invariant forall k :: 0 <= k && k + 1 < i ==> guesses[k].end == Max(guesses[k].start, guesses[k + 1].start - 1)
    {
      var start := current;
      if i < n - 1 {
        current := CutNext(s, initial, n, i);
      } else {
        current := |s|;
      }
      var end := current - 1;
      if start > end {
        end := start;
      }
      guesses := guesses + [Guess(start, end)];
    }
    return Some(guesses);
  }

  lemma FirstStart(s: bytes, initial: nat, n: nat)
    requires initial <= |s| && n > 0
    ensures CutStart(s, initial, n, 0, initial)
  {
  }

  ghost predicate SplitAfter(s: bytes, from: nat, boundary: nat) {
    exists q: nat :: Split(s, from, boundary, q)
  }

  /** After the nominal end of chunk `i` there is a place to cut. */
  ghost predicate CuttableAt(s: bytes, initial: nat, n: nat, i: nat)
    requires initial <= |s| && n > 0
  {
    SplitAfter(s, Nominal(|s| - initial, n, i), |s| - initial)
  }

  ghost predicate Cuttable(s: bytes, initial: nat, n: nat)
    requires initial <= |s| && n > 0
  {
    forall i :: 0 <= i < n - 1 ==> CuttableAt(s, initial, n, i)
  }

  /** Then chunk `i + 1` starts at such a place, and no byte is left out before it. */
  lemma CutsAreSplits(s: bytes, initial: nat, guesses: seq<Guess>, i: nat)
    requires initial <= |s| && i + 1 < |guesses| && CuttableAt(s, initial, |guesses|, i)
    requires GuessedAt(s, initial, guesses, i) && GuessedAt(s, initial, guesses, i + 1)
    ensures var start := guesses[i + 1].start;
      0 < start < |s| && start <= guesses[i].end + 1 && IsNewline(s[start - 1]) && !IsNewline(s[start])
  {
    var from, boundary := Nominal(|s| - initial, |guesses|, i), |s| - initial;
    hide Nominal;
    var q: nat :| Split(s, from, boundary, q);
  }
}
