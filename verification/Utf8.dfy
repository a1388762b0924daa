/** `utf8_is_valid` against the encoding of section 3 of RFC 3629. */
module Utf8 {
  import opened Csv

  /** A Unicode scalar value: a code point that is not a surrogate. */
  predicate IsScalar(cp: nat) {
    cp < 0xD800 || 0xE000 <= cp <= 0x10FFFF
  }

  /** The bits of the code point in groups of six, from the lowest up. */
  function Encode(cp: nat): bytes
    requires IsScalar(cp)
  {
    var high := cp / 0x40;
    var higher := high / 0x40;
    if cp < 0x80 then [cp]
    else if cp < 0x800 then [0xC0 + high, 0x80 + cp % 0x40]
    else if cp < 0x10000 then [0xE0 + higher, 0x80 + high % 0x40, 0x80 + cp % 0x40]
    else [0xF0 + higher / 0x40, 0x80 + higher % 0x40, 0x80 + high % 0x40, 0x80 + cp % 0x40]
  }

  /**
   Section 3 of RFC 3629, in decimal: how many bytes there are, what range each is in, and that
   their low bits, from the first byte on, make up the code point.
   */
  lemma EncodingIs(cp: nat)
    ensures IsScalar(cp) <==> cp <= 1114111 && !(55296 <= cp <= 57343)
    ensures IsScalar(cp) ==>
      && |Encode(cp)| == (if cp < 128 then 1 else if cp < 2048 then 2 else if cp < 65536 then 3 else 4)
      && forall k :: 1 <= k < |Encode(cp)| ==> 128 <= Encode(cp)[k] < 192
    ensures IsScalar(cp) && cp < 128 ==> Encode(cp)[0] == cp
    ensures IsScalar(cp) && 128 <= cp < 2048 ==>
      194 <= Encode(cp)[0] < 224 && cp == (Encode(cp)[0] as int - 192) * 64 + (Encode(cp)[1] as int - 128)
    ensures IsScalar(cp) && 2048 <= cp < 65536 ==>
      && 224 <= Encode(cp)[0] < 240
      && cp == (Encode(cp)[0] as int - 224) * 4096 + (Encode(cp)[1] as int - 128) * 64 + (Encode(cp)[2] as int - 128)
    ensures IsScalar(cp) && 65536 <= cp ==>
      && 240 <= Encode(cp)[0] < 245
      && cp == (Encode(cp)[0] as int - 240) * 262144 + (Encode(cp)[1] as int - 128) * 4096
               + (Encode(cp)[2] as int - 128) * 64 + (Encode(cp)[3] as int - 128)
  {
  }

  ghost predicate AllScalar(text: seq<nat>) {
    forall k :: 0 <= k < |text| ==> IsScalar(text[k])
  }

  function EncodeAll(text: seq<nat>): bytes
    requires forall k :: 0 <= k < |text| ==> IsScalar(text[k])
  {
    if text == [] then [] else Encode(text[0]) + EncodeAll(text[1..])
  }

  /** The bytes encode some text. */
  ghost predicate IsText(s: bytes) {
    exists text: seq<nat> :: AllScalar(text) && s == EncodeAll(text)
  }

  // ---------------------------------------------------------------------------------------
  // The first character
  // ---------------------------------------------------------------------------------------

  predicate IsCont(b: byte) {
    b / 0x40 == 2
  }

  /** The bytes start with the encoding of `cp`. */
  ghost predicate Starts(s: bytes, cp: nat) {
    IsScalar(cp) && |Encode(cp)| <= |s| && s[..|Encode(cp)|] == Encode(cp)
  }

  /** The length of the first character as its bytes show it, or 0 if they are no character. */
  function FirstLength(s: bytes): (n: nat)
    requires s != []
    ensures n <= |s| && n <= 4
  {
    var c := s[0];
    if c < 0x80 then 1
    else if c < 0xC2 then 0
    else if c < 0xE0 then (if |s| < 2 || !IsCont(s[1]) then 0 else 2)
    else if c < 0xF0 then
      if |s| < 3 || !IsCont(s[1]) || !IsCont(s[2]) || (c == 0xE0 && s[1] < 0xA0) || (c == 0xED && s[1] > 0x9F)
        then 0 else 3
    else if c < 0xF5 then
      if |s| < 4 || !IsCont(s[1]) || !IsCont(s[2]) || !IsCont(s[3]) || (c == 0xF0 && s[1] < 0x90)
         || (c == 0xF4 && s[1] > 0x8F)
      then 0 else 4
    else 0
  }

  /** The number whose last six bits are those of `b`, after the bits of `a`. */
  function Join(a: int, b: byte): int {
    a * 0x40 + (b - 0x80)
  }

  /** The code point in a character of `n` bytes. */
  function Decode(s: bytes, n: nat): int
    requires 1 <= n <= 4 && n <= |s|
  {
    var c: int := s[0];
    if n == 1 then c
    else if n == 2 then Join(c - 0xC0, s[1])
    else if n == 3 then Join(Join(c - 0xE0, s[1]), s[2])
    else Join(Join(Join(c - 0xF0, s[1]), s[2]), s[3])
  }

  lemma JoinSplit(a: nat, b: byte)
    requires IsCont(b)
    ensures Join(a, b) / 0x40 == a && Join(a, b) % 0x40 == b - 0x80 && Join(a, b) >= 0
  {
  }

  lemma SplitJoin(v: nat)
    ensures v % 0x40 < 0x40 && IsCont(0x80 + v % 0x40) && Join(v / 0x40, 0x80 + v % 0x40) == v
  {
  }

  /** What the byte tests accept is the encoding of a scalar value. */
  lemma AcceptedStarts(s: bytes)
    requires s != [] && FirstLength(s) > 0
    ensures var cp := Decode(s, FirstLength(s)); cp >= 0 && Starts(s, cp) && |Encode(cp)| == FirstLength(s)
  {
    hide Encode, Join, IsCont;
    var n := FirstLength(s);
    if n == 1 {
      Encode1(s[0]);
    } else if n == 2 {
      Encode2(s[0], s[1]);
    } else if n == 3 {
      Encode3(s[0], s[1], s[2]);
    } else {
      Encode4(s[0], s[1], s[2], s[3]);
    }
  }

  lemma Encode1(a: byte)
    requires a < 0x80
    ensures Encode(a) == [a]
  {
  }

  lemma Encode2(a: byte, b: byte)
    requires 0xC2 <= a < 0xE0 && IsCont(b)
    ensures var cp := Join(a - 0xC0, b); cp >= 0 && IsScalar(cp) && Encode(cp) == [a, b]
  {
    JoinSplit(a - 0xC0, b);
  }

  lemma Encode3(a: byte, b: byte, c: byte)
    requires 0xE0 <= a < 0xF0 && IsCont(b) && IsCont(c) && (a == 0xE0 ==> b >= 0xA0) && (a == 0xED ==> b <= 0x9F)
    ensures var cp := Join(Join(a - 0xE0, b), c); cp >= 0 && IsScalar(cp) && Encode(cp) == [a, b, c]
  {
    JoinSplit(a - 0xE0, b);
    JoinSplit(Join(a - 0xE0, b), c);
  }

  lemma Encode4(a: byte, b: byte, c: byte, d: byte)
    requires 0xF0 <= a < 0xF5 && IsCont(b) && IsCont(c) && IsCont(d) && (a == 0xF0 ==> b >= 0x90)
    requires (a == 0xF4 ==> b <= 0x8F)
    ensures var cp := Join(Join(Join(a - 0xF0, b), c), d); cp >= 0 && IsScalar(cp) && Encode(cp) == [a, b, c, d]
  {
    JoinSplit(a - 0xF0, b);
    JoinSplit(Join(a - 0xF0, b), c);
    JoinSplit(Join(Join(a - 0xF0, b), c), d);
  }

  /** The byte tests accept every encoding, and find its length and code point. */
  lemma StartsAccepted(s: bytes, cp: nat)
    requires Starts(s, cp)
    ensures s != [] && FirstLength(s) == |Encode(cp)| && Decode(s, FirstLength(s)) == cp
  {
    hide IsCont, Join;
    var e := Encode(cp);
    forall k | 0 <= k < |e| ensures s[k] == e[k] {
      assert s[..|e|][k] == e[k];
    }
    var high := cp / 0x40;
    SplitJoin(cp);
    SplitJoin(high);
    SplitJoin(high / 0x40);
  }

  // ---------------------------------------------------------------------------------------
  // Whole texts
  // ---------------------------------------------------------------------------------------

  /** A text is a character and a text, or nothing. */
  lemma TextUnfolds(s: bytes)
    requires s != []
    ensures IsText(s) <==> FirstLength(s) > 0 && IsText(s[FirstLength(s)..])
  {
    hide FirstLength, Decode, Encode;
    if IsText(s) {
      var text: seq<nat> :| AllScalar(text) && s == EncodeAll(text);
      var e := Encode(text[0]);
      assert s[..|e|] == e && s[|e|..] == EncodeAll(text[1..]);
      StartsAccepted(s, text[0]);
      EncodeNonEmpty(text[0]);
      assert AllScalar(text[1..]);
    }
    if FirstLength(s) > 0 && IsText(s[FirstLength(s)..]) {
      AcceptedStarts(s);
      var cp: nat := Decode(s, FirstLength(s));
      var rest: seq<nat> :| AllScalar(rest) && s[FirstLength(s)..] == EncodeAll(rest);
      var text := [cp] + rest;
      assert text[1..] == rest;
      assert AllScalar(text) && s == EncodeAll(text);
    }
  }

  lemma EncodeNonEmpty(cp: nat)
    requires IsScalar(cp)
    ensures |Encode(cp)| > 0
  {
  }

  /** Valid UTF-8 is exactly the encodings of texts. */
  method Utf8IsValid(s: bytes) returns (valid: bool)
    ensures valid <==> IsText(s)
  {
    hide IsText, FirstLength;
    Whole(s);
    var i := 0;
    while i < |s|
      invariant i <= |s| && (IsText(s) <==> IsText(s[i..]))
    {
      CharacterAt(s, i);
      TextUnfolds(s[i..]);
      var c := s[i];
      if c < 0x80 {
        i := i + 1;
      } else if c < 0xC2 {
        return false;
      } else if c < 0xE0 {
        if i + 1 >= |s| || !IsCont(s[i + 1]) {
          return false;
        }
        i := i + 2;
      } else if c < 0xF0 {
        if i + 2 >= |s| || !IsCont(s[i + 2]) {
          return false;
        }
        var c1 := s[i + 1];
        if c == 0xE0 {
          if c1 < 0xA0 || c1 > 0xBF {
            return false;
          }
        } else if c == 0xED {
          if c1 < 0x80 || c1 > 0x9F {
            return false;
          }
        } else if !IsCont(c1) {
          return false;
        }
        i := i + 3;
      } else if c < 0xF5 {
        if i + 3 >= |s| || !IsCont(s[i + 2]) || !IsCont(s[i + 3]) {
          return false;
        }
        var c1 := s[i + 1];
        if c == 0xF0 {
          if c1 < 0x90 || c1 > 0xBF {
            return false;
          }
        } else if c == 0xF4 {
          if c1 < 0x80 || c1 > 0x8F {
            return false;
          }
        } else if !IsCont(c1) {
          return false;
        }
        i := i + 4;
      } else {
        return false;
      }
    }
    TextEnds(s[i..]);
    return true;
  }

  lemma Whole(s: bytes)
    ensures s[0..] == s
  {
  }

  lemma TextEnds(s: bytes)
    requires s == []
    ensures IsText(s)
  {
    assert AllScalar([]) && EncodeAll([]) == s;
  }

  /** FirstLength, in terms of the bytes at `i`. */
  lemma CharacterAt(s: bytes, i: nat)
    requires i < |s|
    ensures var n, c := FirstLength(s[i..]), s[i];
      && i + n <= |s| && s[i..][n..] == s[i + n..]
      && (n == 0 || n == (if c < 0x80 then 1 else if c < 0xE0 then 2 else if c < 0xF0 then 3 else 4))
      && (n > 0 <==> c < 0x80 || (0xC2 <= c < 0xF5 && Continues(s, i)))
  {
  }

  /** The bytes after the first one are as it asks for. */
  ghost predicate Continues(s: bytes, i: nat)
    requires i < |s|
  {
    var c := s[i];
    var n := if c < 0xE0 then 1 else if c < 0xF0 then 2 else 3;
    && i + n < |s| && (forall k :: i < k <= i + n ==> IsCont(s[k]))
    && (c == 0xE0 ==> s[i + 1] >= 0xA0) && (c == 0xED ==> s[i + 1] <= 0x9F)
    && (c == 0xF0 ==> s[i + 1] >= 0x90) && (c == 0xF4 ==> s[i + 1] <= 0x8F)
  }
}
