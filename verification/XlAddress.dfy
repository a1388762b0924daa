/** Spreadsheet addresses: letters for the column in bijective base 26, then the row counted from 1. */
module XlAddress {
  import opened Csv
  import opened CsvFacts
  import opened Memory
  import opened Wrappers

  /** `size_t` arithmetic wraps around at this. */
  const WIDTH := 0x1_0000_0000_0000_0000

  datatype Address = Address(row: nat, col: nat)

  predicate IsDigit(b: byte) {
    48 <= b <= 57
  }

  predicate IsUpper(b: byte) {
    65 <= b <= 90
  }

  predicate IsLower(b: byte) {
    97 <= b <= 122
  }

  predicate IsLetter(b: byte) {
    IsUpper(b) || IsLower(b)
  }

  /** 1 for `A` and `a` up to 26. */
  function Rank(b: byte): nat
    requires IsLetter(b)
  {
    if IsUpper(b) then b - 64 else b - 96
  }

  ghost predicate Letters(s: bytes) {
    forall k :: 0 <= k < |s| ==> IsLetter(s[k])
  }

  ghost predicate Digits(s: bytes) {
    forall k :: 0 <= k < |s| ==> IsDigit(s[k])
  }

  /** The column letters stand for, counted from 1. */
  ghost function Column(s: bytes): nat
    requires Letters(s)
  {
    if s == [] then 0 else Column(s[..|s| - 1]) * 26 + Rank(s[|s| - 1])
  }

  ghost function Number(s: bytes): nat
    requires Digits(s)
  {
    if s == [] then 0 else Number(s[..|s| - 1]) * 10 + (s[|s| - 1] as int - 48)
  }

  /** The letters from A and a on are 1 to 26, and the digits from 0 on are 0 to 9; no other byte is one. */
  lemma LettersAndDigits(k: nat, b: byte)
    ensures k < 26 ==>
      && IsLetter(65 + k) && IsLetter(97 + k) && Rank(65 + k) == Rank(97 + k) == k + 1
      && Upper([65 + k]) == Upper([97 + k]) == [65 + k]
    ensures k < 10 ==> IsDigit(48 + k) && Digits([48 + k]) && Number([48 + k]) == k
    ensures IsLetter(b) ==> 65 <= b < 65 + 26 || 97 <= b < 97 + 26
    ensures IsDigit(b) ==> 48 <= b < 48 + 10
  {
    if k < 10 {
      assert [(48 + k) as byte][..0] == [];
    }
  }

  /** The letters in upper case. */
  function Upper(s: bytes): (r: bytes)
    ensures |r| == |s|
  {
    seq(|s|, k requires 0 <= k < |s| => if IsLower(s[k]) then s[k] - 32 else s[k])
  }

  /** The decimal digits of `n`, as `%zu` prints them. */
  function Decimal(n: nat): bytes {
    if n < 10 then [48 + n] else Decimal(n / 10) + [48 + n % 10]
  }

  /** The letters of column `col`, counted from 1. */
  function ColumnLetters(col: nat): bytes {
    if col == 0 then [] else ColumnLetters((col - 1) / 26) + [65 + (col - 1) % 26]
  }

  // ---------------------------------------------------------------------------------------
  // Both notations are exact
  // ---------------------------------------------------------------------------------------

  lemma ColumnSnoc(s: bytes, b: byte)
    requires Letters(s) && IsLetter(b)
    ensures Letters(s + [b]) && Column(s + [b]) == Column(s) * 26 + Rank(b)
  {
    hide IsLetter, Rank;
    var t := s + [b];
    assert t[..|t| - 1] == s;
  }

  lemma UpperSnoc(s: bytes, b: byte)
    requires IsUpper(b)
    ensures Upper(s + [b]) == Upper(s) + [b]
  {
  }

  lemma {:induction false} ColumnOfLetters(col: nat)
    ensures Letters(ColumnLetters(col)) && Column(ColumnLetters(col)) == col
    ensures Upper(ColumnLetters(col)) == ColumnLetters(col)
    ensures col > 0 <==> ColumnLetters(col) != []
  {
    if col > 0 {
      hide Letters, Column, Upper;
      ColumnOfLetters((col - 1) / 26);
      ColumnSnoc(ColumnLetters((col - 1) / 26), 65 + (col - 1) % 26);
      UpperSnoc(ColumnLetters((col - 1) / 26), 65 + (col - 1) % 26);
    }
  }

  lemma {:induction false} LettersOfColumn(s: bytes)
    requires Letters(s)
    ensures ColumnLetters(Column(s)) == Upper(s)
  {
    if s != [] {
      var before, last := s[..|s| - 1], s[|s| - 1];
      LettersOfColumn(before);
      assert (Column(s) - 1) / 26 == Column(before) && (Column(s) - 1) % 26 == Rank(last) - 1;
      assert Upper(s) == Upper(before) + [65 + (Rank(last) - 1)];
    }
  }

  lemma {:induction false} NumberOfDecimal(n: nat)
    ensures Digits(Decimal(n)) && Number(Decimal(n)) == n && |Decimal(n)| > 0
    ensures n > 0 ==> Decimal(n)[0] != 48
  {
    var s := Decimal(n);
    if n >= 10 {
      NumberOfDecimal(n / 10);
      assert s[..|s| - 1] == Decimal(n / 10);
    } else {
      assert s[..|s| - 1] == [];
    }
  }

  lemma {:induction false} DecimalOfNumber(s: bytes)
    requires Digits(s) && s != [] && s[0] != 48
    ensures Decimal(Number(s)) == s && Number(s) > 0
  {
    var before, last := s[..|s| - 1], s[|s| - 1];
    if before != [] {
      DecimalOfNumber(before);
      assert Number(s) / 10 == Number(before) && Number(s) % 10 == last as int - 48;
    } else {
      assert Number(before) == 0;
    }
  }

  // ---------------------------------------------------------------------------------------
  // Printing an address
  // ---------------------------------------------------------------------------------------

  /** The address of column `col`, counted from 1, and row `row`, counted from 0. */
  function A1(col: nat, row: nat): bytes {
    ColumnLetters(col) + Decimal((row + 1) % WIDTH)
  }

  /** row_col_to_a1(): write the letters backwards into a buffer of 63. */
  method RowColToA1(col: nat, row: nat) returns (r: Result<bytes>)
    requires col > 0
    ensures r == if |ColumnLetters(col)| <= 63 then Ok(A1(col, row)) else Err
  {
    hide ColumnLetters, A1, Decimal, Upper, Part;
    var buffer := new byte[64];
    var index, rest := 63, col;
    ghost var letters: bytes := [];
    NoLetters(buffer[..], col);
    while true
      invariant 0 <= index <= 63 && rest > 0 && ColumnLetters(col) == ColumnLetters(rest) + letters
      invariant letters == Part(buffer[..], index, 63 - index)
      decreases index
    {
      LastLetter(rest, letters);
      if index == 0 {
        return Err;
      }
      ghost var was := buffer[..];
      rest := rest - 1;
      index := index - 1;
      buffer[index] := 65 + rest % 26;
      OneMoreLetter(was, index, 65 + rest % 26);
      letters := [65 + rest % 26] + letters;
      rest := rest / 26;
      if rest == 0 {
        break;
      }
    }
    AllLetters(col, row, letters);
    return Ok(Part(buffer[..], index, 63 - index) + Decimal((row + 1) % WIDTH));
  }

  lemma NoLetters(b: bytes, col: nat)
    requires |b| >= 63
    ensures Part(b, 63, 0) == [] && ColumnLetters(col) + [] == ColumnLetters(col)
  {
  }

  lemma OneMoreLetter(b: bytes, index: nat, letter: byte)
    requires index < 63 < |b|
    ensures Part(b[index := letter], index, 63 - index) == [letter] + Part(b, index + 1, 62 - index)
  {
  }

  lemma AllLetters(col: nat, row: nat, letters: bytes)
    requires ColumnLetters(col) == ColumnLetters(0) + letters
    ensures ColumnLetters(col) == letters && A1(col, row) == letters + Decimal((row + 1) % WIDTH)
  {
    assert [] + letters == letters;
  }

  lemma LastLetter(col: nat, letters: bytes)
    requires col > 0
    ensures |ColumnLetters(col)| > 0
    ensures ColumnLetters(col) + letters == ColumnLetters((col - 1) / 26) + ([65 + (col - 1) % 26] + letters)
  {
    Assoc(ColumnLetters((col - 1) / 26), [65 + (col - 1) % 26], letters);
  }

  function Pow26(n: nat): nat {
    if n == 0 then 1 else 26 * Pow26(n - 1)
  }

  lemma {:induction false} LettersBound(col: nat, n: nat)
    requires col < Pow26(n)
    ensures |ColumnLetters(col)| <= n
  {
    if col > 0 {
      LettersBound((col - 1) / 26, n - 1);
    }
  }

  /** The buffer holds the letters of every column a `size_t` can count. */
  lemma BufferSuffices(col: nat)
    requires col < WIDTH
    ensures |ColumnLetters(col)| <= 14
  {
    assert Pow26(7) == 8031810176;
    assert Pow26(14) == 8031810176 * 8031810176;
    LettersBound(col, 14);
  }

  // ---------------------------------------------------------------------------------------
  // Parsing an address
  // ---------------------------------------------------------------------------------------

  function Finish(row: nat, col: nat): Result<Address> {
    if row > 0 && col > 0 then Ok(Address(row - 1, col - 1)) else Err
  }

  /** What remains to be done from byte `i` on. */
  function ParseFrom(s: bytes, i: nat, row: nat, col: nat): Result<Address>
    decreases |s| - i
  {
    if i >= |s| then Finish(row, col)
    else
      var c := s[i];
      if IsDigit(c) then
        if col == 0 || (row == 0 && c == 48) then Err else ParseFrom(s, i + 1, (row * 10 + (c - 48)) % WIDTH, col)
      else if IsLetter(c) then
        if row > 0 then Err else ParseFrom(s, i + 1, row, (col * 26 + Rank(c)) % WIDTH)
      else Finish(row, col)
  }

  /** parse_xl_address() */
  method ParseXlAddress(s: bytes) returns (r: Result<Address>)
    ensures r == ParseFrom(s, 0, 0, 0)
  {
    var row, col, i := 0, 0, 0;
    while i < |s|
      invariant i <= |s| && row >= 0 && col >= 0 && ParseFrom(s, 0, 0, 0) == ParseFrom(s, i, row, col)
    {
      var c := s[i];
      if IsDigit(c) {
        if col == 0 {
          return Err; // letters come before digits
        }
        if row == 0 && c == 48 {
          return Err; // the first digit is not 0
        }
        row := (row * 10 + (c - 48)) % WIDTH;
      } else if IsUpper(c) {
        if row > 0 {
          return Err;
        }
        col := (col * 26 + (c - 65) + 1) % WIDTH;
      } else if IsLower(c) {
        if row > 0 {
          return Err;
        }
        col := (col * 26 + (c - 97) + 1) % WIDTH;
      } else {
        break;
      }
      i := i + 1;
    }
    return if row > 0 && col > 0 then Ok(Address(row - 1, col - 1)) else Err;
  }

  lemma {:induction false} ColumnGrows(s: bytes, n: nat)
    requires Letters(s) && n <= |s|
    ensures Column(s[..n]) <= Column(s)
    decreases |s|
  {
    if n < |s| {
      ColumnGrows(s[..|s| - 1], n);
      assert s[..|s| - 1][..n] == s[..n];
    } else {
      assert s[..n] == s;
    }
  }

  lemma {:induction false} NumberGrows(s: bytes, n: nat)
    requires Digits(s) && n <= |s|
    ensures Number(s[..n]) <= Number(s)
    decreases |s|
  {
    if n < |s| {
      NumberGrows(s[..|s| - 1], n);
      assert s[..|s| - 1][..n] == s[..n];
    } else {
      assert s[..n] == s;
    }
  }

  lemma ParseLetter(s: bytes, i: nat, col: nat)
    requires i < |s| && IsLetter(s[i]) && col * 26 + Rank(s[i]) < WIDTH
    ensures ParseFrom(s, i, 0, col) == ParseFrom(s, i + 1, 0, col * 26 + Rank(s[i]))
  {
  }

  lemma ParseDigit(s: bytes, i: nat, row: nat, col: nat)
    requires i < |s| && IsDigit(s[i]) && col > 0 && (row == 0 ==> s[i] != 48) && row * 10 + (s[i] - 48) < WIDTH
    ensures ParseFrom(s, i, row, col) == ParseFrom(s, i + 1, row * 10 + (s[i] - 48), col)
  {
  }

  lemma ColumnStep(s: bytes, n: nat)
    requires Letters(s) && n < |s|
    ensures Letters(s[..n]) && Letters(s[..n + 1]) && IsLetter(s[n])
    ensures Column(s[..n + 1]) == Column(s[..n]) * 26 + Rank(s[n])
  {
    assert s[..n + 1][..n] == s[..n];
  }

  lemma NumberStep(s: bytes, n: nat)
    requires Digits(s) && n < |s|
    ensures Digits(s[..n]) && Digits(s[..n + 1]) && IsDigit(s[n])
    ensures Number(s[..n + 1]) == Number(s[..n]) * 10 + (s[n] - 48)
  {
    assert s[..n + 1][..n] == s[..n];
  }

  lemma NothingYet(s: bytes)
    ensures Letters(s[..0]) && Column(s[..0]) == 0 && Digits(s[..0]) && Number(s[..0]) == 0
  {
  }

  lemma ParseEnds(s: bytes, i: nat, row: nat, col: nat)
    requires i < |s| ==> !IsLetter(s[i]) && !IsDigit(s[i])
    ensures ParseFrom(s, i, row, col) == Finish(row, col)
  {
  }

  lemma {:induction false} ParseLetters(s: bytes, letters: bytes, n: nat)
    requires Letters(letters) && letters <= s && n <= |letters| && Column(letters) < WIDTH
    ensures Letters(letters[..n]) && ParseFrom(s, 0, 0, 0) == ParseFrom(s, n, 0, Column(letters[..n]))
  {
    hide ParseFrom, Letters;
    NothingYet(letters);
    if n > 0 {
      ParseLetters(s, letters, n - 1);
      ColumnStep(letters, n - 1);
      ColumnGrows(letters, n);
      assert s[n - 1] == letters[n - 1];
      ParseLetter(s, n - 1, Column(letters[..n - 1]));
    }
  }

  lemma {:induction false} ParseDigits(s: bytes, at: nat, digits: bytes, col: nat, n: nat)
    requires Digits(digits) && at + |digits| <= |s| && s[at..at + |digits|] == digits && col > 0
    requires n <= |digits| && Number(digits) < WIDTH && digits != [] && digits[0] != 48
    ensures Digits(digits[..n]) && ParseFrom(s, at, 0, col) == ParseFrom(s, at + n, Number(digits[..n]), col)
    ensures n > 0 ==> Number(digits[..n]) > 0
  {
    hide ParseFrom, Digits;
    NothingYet(digits);
    if n > 0 {
      ParseDigits(s, at, digits, col, n - 1);
      NumberStep(digits, n - 1);
      NumberGrows(digits, n);
      assert s[at + (n - 1)] == s[at..at + |digits|][n - 1] == digits[n - 1];
      ParseDigit(s, at + (n - 1), Number(digits[..n - 1]), col);
    }
  }

  /** Letters and then digits, up to the first byte that is neither, are an address. */
  lemma AddressParses(letters: bytes, digits: bytes, rest: bytes)
    requires Letters(letters) && letters != [] && Column(letters) < WIDTH
    requires Digits(digits) && digits != [] && digits[0] != 48 && Number(digits) < WIDTH
    requires rest != [] ==> !IsLetter(rest[0]) && !IsDigit(rest[0])
    ensures Column(letters) > 0 && Number(digits) > 0
    ensures ParseFrom(letters + digits + rest, 0, 0, 0) == Ok(Address(Number(digits) - 1, Column(letters) - 1))
  {
    hide Column, Number, ParseFrom, Letters, Digits, IsLetter, IsDigit;
    var s := letters + digits + rest;
    var m, n := |letters|, |digits|;
    ColumnPositive(letters);
    ParseLetters(s, letters, m);
    assert letters[..m] == letters && digits[..n] == digits;
    ParseDigits(s, m, digits, Column(letters), n);
    assert m + n < |s| ==> s[m + n] == rest[0];
    ParseEnds(s, m + n, Number(digits), Column(letters));
  }

  lemma ColumnPositive(letters: bytes)
    requires Letters(letters) && letters != []
    ensures Column(letters) > 0
  {
  }

  // ---------------------------------------------------------------------------------------
  // Exactly what is an address
  // ---------------------------------------------------------------------------------------

  /** The number of letters from byte `i` on. */
  function LetterRun(s: bytes, i: nat): (n: nat)
    requires i <= |s|
    ensures i + n <= |s| && (i + n < |s| ==> !IsLetter(s[i + n])) && forall k :: i <= k < i + n ==> IsLetter(s[k])
    decreases |s| - i
  {
    if i < |s| && IsLetter(s[i]) then LetterRun(s, i + 1) + 1 else 0
  }

  function DigitRun(s: bytes, i: nat): (n: nat)
    requires i <= |s|
    ensures i + n <= |s| && (i + n < |s| ==> !IsDigit(s[i + n])) && forall k :: i <= k < i + n ==> IsDigit(s[k])
    decreases |s| - i
  {
    if i < |s| && IsDigit(s[i]) then DigitRun(s, i + 1) + 1 else 0
  }

  /** The letters the input starts with, and the digits right after them. */
  function LettersOf(s: bytes): (r: bytes)
    ensures Letters(r) && r <= s
  {
    s[..LetterRun(s, 0)]
  }

  function DigitsOf(s: bytes): (r: bytes)
    ensures Digits(r) && |LettersOf(s)| + |r| <= |s| && s[|LettersOf(s)|..|LettersOf(s)| + |r|] == r
  {
    var a := LetterRun(s, 0);
    s[a..a + DigitRun(s, a)]
  }

  /** Letters, digits that do not start with 0, and then the end or a byte that is neither. */
  predicate IsAddress(s: bytes) {
    var letters, digits := LettersOf(s), DigitsOf(s);
    && letters != [] && digits != [] && digits[0] != 48
    && (|letters| + |digits| < |s| ==> !IsLetter(s[|letters| + |digits|]))
  }

  lemma RunsEnd(s: bytes)
    ensures var a, b := |LettersOf(s)|, |DigitsOf(s)|;
      && (a < |s| ==> !IsLetter(s[a])) && (a + b < |s| ==> !IsDigit(s[a + b]))
      && (b > 0 ==> s[a] == DigitsOf(s)[0])
  {
  }

  /** As long as no number wraps around, just that is accepted. */
  lemma AcceptsIffAddress(s: bytes)
    requires Column(LettersOf(s)) < WIDTH && Number(DigitsOf(s)) < WIDTH
    ensures ParseFrom(s, 0, 0, 0).Ok? <==> IsAddress(s)
    ensures IsAddress(s) ==>
      && Number(DigitsOf(s)) > 0 && Column(LettersOf(s)) > 0
      && ParseFrom(s, 0, 0, 0) == Ok(Address(Number(DigitsOf(s)) - 1, Column(LettersOf(s)) - 1))
  {
    hide Column, Number, Letters, Digits, LettersOf, DigitsOf, IsLetter, IsDigit, ParseFrom;
    var letters, digits := LettersOf(s), DigitsOf(s);
    var a, b := |letters|, |digits|;
    RunsEnd(s);
    ParseLetters(s, letters, a);
    assert letters[..a] == letters && digits[..b] == digits;
    if a == 0 {
      NothingYet(letters);
      NoLettersFirst(s);
    } else {
      ColumnPositive(letters);
      if b == 0 || digits[0] == 48 {
        NoRow(s, a, Column(letters));
      } else {
        ParseDigits(s, a, digits, Column(letters), b);
        AfterDigits(s, a + b, Number(digits), Column(letters));
      }
    }
  }

  lemma NoLettersFirst(s: bytes)
    requires |s| > 0 ==> !IsLetter(s[0])
    ensures ParseFrom(s, 0, 0, 0) == Err
  {
  }

  lemma NoRow(s: bytes, i: nat, col: nat)
    requires i < |s| ==> !IsLetter(s[i]) && (IsDigit(s[i]) ==> s[i] == 48)
    ensures ParseFrom(s, i, 0, col) == Err
  {
  }

  lemma AfterDigits(s: bytes, i: nat, row: nat, col: nat)
    requires row > 0 && col > 0 && (i < |s| ==> !IsDigit(s[i]))
    ensures ParseFrom(s, i, row, col) == if i < |s| && IsLetter(s[i]) then Err else Ok(Address(row - 1, col - 1))
  {
  }

  // ---------------------------------------------------------------------------------------
  // Numbers that wrap around
  // ---------------------------------------------------------------------------------------

  predicate IsPart(b: byte) {
    IsLetter(b) || IsDigit(b)
  }

  /** The letters among the first `n` bytes, and the digits. */
  function LettersIn(s: bytes, n: nat): (r: bytes)
    requires n <= |s|
    ensures Letters(r)
  {
    if n == 0 then [] else if IsLetter(s[n - 1]) then LettersIn(s, n - 1) + [s[n - 1]] else LettersIn(s, n - 1)
  }

  function DigitsIn(s: bytes, n: nat): (r: bytes)
    requires n <= |s|
    ensures Digits(r)
  {
    if n == 0 then [] else if IsDigit(s[n - 1]) then DigitsIn(s, n - 1) + [s[n - 1]] else DigitsIn(s, n - 1)
  }

  /** What they stand for to a `size_t`. */
  ghost function ColumnIn(s: bytes, n: nat): nat
    requires n <= |s|
  {
    Column(LettersIn(s, n)) % WIDTH
  }

  ghost function NumberIn(s: bytes, n: nat): nat
    requires n <= |s|
  {
    Number(DigitsIn(s, n)) % WIDTH
  }

  /** A digit comes after letters and does not start the number with 0; a letter comes before the number. */
  ghost predicate InPlace(s: bytes, i: nat)
    requires i < |s|
  {
    if IsDigit(s[i]) then ColumnIn(s, i) != 0 && (NumberIn(s, i) == 0 ==> s[i] != 48) else NumberIn(s, i) == 0
  }

  /** The bytes from `i` to `n` are in place, and the numbers at `n` make an address. */
  ghost predicate Accepted(s: bytes, i: nat, n: nat)
    requires n <= |s|
  {
    (forall k :: i <= k < n ==> InPlace(s, k)) && ColumnIn(s, n) > 0 && NumberIn(s, n) > 0
  }

  lemma Wraps(x: nat, factor: nat, r: nat)
    requires factor == 10 || factor == 26
    ensures (x % WIDTH * factor + r) % WIDTH == (x * factor + r) % WIDTH
  {
    var q, m := x / WIDTH, x % WIDTH;
    assert x == WIDTH * q + m;
    if factor == 10 {
      TimesAround(10 * q, m * 10 + r);
    } else {
      TimesAround(26 * q, m * 26 + r);
    }
  }

  lemma TimesAround(q: nat, y: nat)
    ensures (WIDTH * q + y) % WIDTH == y % WIDTH
  {
  }

  lemma NumberSnoc(s: bytes, b: byte)
    requires Digits(s) && IsDigit(b)
    ensures Digits(s + [b]) && Number(s + [b]) == Number(s) * 10 + (b as int - 48)
  {
    assert (s + [b])[..|s|] == s;
  }

  lemma OneMore(s: bytes, i: nat)
    requires i < |s| && IsPart(s[i])
    ensures ColumnIn(s, i + 1) == if IsLetter(s[i]) then (ColumnIn(s, i) * 26 + Rank(s[i])) % WIDTH else ColumnIn(s, i)
    ensures NumberIn(s, i + 1) == if IsDigit(s[i]) then (NumberIn(s, i) * 10 + (s[i] - 48)) % WIDTH else NumberIn(s, i)
  {
    hide Column, Number;
    if IsLetter(s[i]) {
      ColumnSnoc(LettersIn(s, i), s[i]);
      Wraps(Column(LettersIn(s, i)), 26, Rank(s[i]));
    } else {
      NumberSnoc(DigitsIn(s, i), s[i]);
      Wraps(Number(DigitsIn(s, i)), 10, s[i] - 48);
    }
  }

  lemma {:induction false} AcceptsFrom(s: bytes, i: nat, n: nat)
    requires i <= n <= |s| && (n < |s| ==> !IsPart(s[n])) && forall k :: i <= k < n ==> IsPart(s[k])
    ensures ParseFrom(s, i, NumberIn(s, i), ColumnIn(s, i)) ==
            if Accepted(s, i, n) then Ok(Address(NumberIn(s, n) - 1, ColumnIn(s, n) - 1)) else Err
    decreases n - i
  {
    hide ColumnIn, NumberIn;
    if i < n {
      OneMore(s, i);
      AcceptsFrom(s, i + 1, n);
      assert Accepted(s, i, n) <==> InPlace(s, i) && Accepted(s, i + 1, n);
    }
  }

  /**
   Exactly what is accepted, and as what, numbers that wrap around included; `n` is the first byte
   that is no part of an address.
   */
  lemma AcceptsIffInPlace(s: bytes, n: nat)
    requires n <= |s| && (n < |s| ==> !IsPart(s[n])) && forall k :: 0 <= k < n ==> IsPart(s[k])
    ensures ParseFrom(s, 0, 0, 0) ==
            if Accepted(s, 0, n) then Ok(Address(NumberIn(s, n) - 1, ColumnIn(s, n) - 1)) else Err
  {
    hide ParseFrom, Accepted;
    AcceptsFrom(s, 0, n);
  }

  // ---------------------------------------------------------------------------------------
  // Round trips
  // ---------------------------------------------------------------------------------------

  /** Every printed address parses back, except that of the last row a `size_t` can count. */
  lemma PrintThenParse(col: nat, row: nat)
    requires 0 < col < WIDTH && row < WIDTH
    ensures ParseFrom(A1(col, row), 0, 0, 0) == Ok(Address(row, col - 1)) <==> row + 1 < WIDTH
  {
    hide Column, Number, ParseFrom;
    var letters, digits := ColumnLetters(col), Decimal((row + 1) % WIDTH);
    ColumnOfLetters(col);
    NumberOfDecimal((row + 1) % WIDTH);
    if row + 1 < WIDTH {
      AddressParses(letters, digits, []);
      assert letters + digits + [] == A1(col, row);
    } else {
      ZeroRow(letters);
    }
  }

  /** The row numbers at the edge, of 64 bits. */
  lemma LastRows(col: nat)
    requires 0 < col < 18446744073709551616
    ensures ParseFrom(A1(col, 18446744073709551614), 0, 0, 0) == Ok(Address(18446744073709551614, col - 1))
    ensures ParseFrom(A1(col, 18446744073709551615), 0, 0, 0) != Ok(Address(18446744073709551615, col - 1))
  {
    PrintThenParse(col, 18446744073709551614);
    PrintThenParse(col, 18446744073709551615);
  }

  lemma ZeroRow(letters: bytes)
    requires Letters(letters) && letters != [] && Column(letters) < WIDTH
    ensures ParseFrom(letters + Decimal(0), 0, 0, 0) == Err
  {
    var s := letters + Decimal(0);
    ParseLetters(s, letters, |letters|);
    assert letters[..|letters|] == letters && s[|letters|] == 48;
  }

  /** Printing a parsed address of letters and digits gives it back in upper case. */
  lemma ParseThenPrint(letters: bytes, digits: bytes)
    requires Letters(letters) && letters != [] && Column(letters) < WIDTH
    requires Digits(digits) && digits != [] && digits[0] != 48 && Number(digits) < WIDTH
    ensures var r := ParseFrom(letters + digits, 0, 0, 0);
      r.Ok? && A1(r.value.col + 1, r.value.row) == Upper(letters) + digits
  {
    hide Column, Number, ParseFrom, ColumnLetters, Decimal, Upper, Letters, Digits;
    AddressParses(letters, digits, []);
    assert letters + digits + [] == letters + digits;
    LettersOfColumn(letters);
    DecimalOfNumber(digits);
  }
}
