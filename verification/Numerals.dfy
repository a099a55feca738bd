/** Numbers as text: the `std::sto*` family as the code calls it, and the printers it has to agree with. */
module Numerals {
  import opened Outcomes

  /** The value of a digit character, or 16 for a character that is no hexadecimal digit. */
  function DigitValue(c: char): (d: nat)
    ensures d <= 16
  {
    if '0' <= c <= '9' then (c - '0') as nat
    else if 'a' <= c <= 'f' then (c - 'a') as nat + 10
    else if 'A' <= c <= 'F' then (c - 'A') as nat + 10
    else 16
  }

  function DigitChar(d: nat): (c: char)
    requires d < 16
    ensures DigitValue(c) == d
    ensures (c == '0') == (d == 0)
  {
    if d < 10 then '0' + d as char else 'a' + (d - 10) as char
  }

  predicate IsBase(b: nat) {
    b == 8 || b == 10 || b == 16
  }

  /** The number of digits of base `b` that `s` starts with. */
  function DigitRun(s: string, b: nat): (n: nat)
    requires b <= 16
    ensures n <= |s|
  {
    if s == [] || DigitValue(s[0]) >= b then 0 else 1 + DigitRun(s[1..], b)
  }

  /** The number that a string of digits denotes. */
  function Horner(s: string, b: nat): nat {
    if s == [] then 0 else Horner(s[..|s| - 1], b) * b + DigitValue(s[|s| - 1])
  }

  function Digits(s: string, b: nat): Option<nat>
    requires b <= 16
  {
    var n := DigitRun(s, b);
    if n == 0 then None else Some(Horner(s[..n], b))
  }

  predicate IsSpace(c: char) {
    c == ' ' || '\t' <= c <= '\r'
  }

  function SkipSpace(s: string): string {
    if s != [] && IsSpace(s[0]) then SkipSpace(s[1..]) else s
  }

  predicate HasHexPrefix(s: string) {
    |s| >= 3 && s[0] == '0' && (s[1] == 'x' || s[1] == 'X') && DigitValue(s[2]) < 16
  }

  /** An unsigned numeral at the front of `s`; base 0 chooses the base from the prefix. */
  function Magnitude(s: string, b: nat): Option<nat>
    requires b == 0 || IsBase(b)
  {
    if (b == 0 || b == 16) && HasHexPrefix(s) then Digits(s[2..], 16)
    else if b == 0 then Digits(s, if s != [] && s[0] == '0' then 8 else 10)
    else Digits(s, b)
  }

  /** What `strtol` reads: blanks, an optional sign, a numeral; anything after it is ignored. */
  function Numeral(text: string, b: nat): Option<int>
    requires b == 0 || IsBase(b)
  {
    var s := SkipSpace(text);
    var signed := s != [] && (s[0] == '-' || s[0] == '+');
    match Magnitude(if signed then s[1..] else s, b)
    case None => None
    case Some(n) =>
      var magnitude: int := n;
      Some(if signed && s[0] == '-' then -magnitude else magnitude)
  }

  const INT_MIN := -0x8000_0000
  const INT_MAX := 0x7fff_ffff
  const LONG_MIN := -0x8000_0000_0000_0000
  const LONG_MAX := 0x7fff_ffff_ffff_ffff
  const ULLONG_MAX := 0xffff_ffff_ffff_ffff

  /** `std::stoi(s)` */
  function Stoi(s: string): Result<int> {
    InRange(Numeral(s, 10), INT_MIN, INT_MAX)
  }

  /** `std::stol(s, nullptr, 0)` */
  function Stol(s: string): Result<int> {
    InRange(Numeral(s, 0), LONG_MIN, LONG_MAX)
  }

  /** `std::stoull(s, nullptr, 16)`: a minus sign negates modulo 2^64. */
  function Stoull16(s: string): Result<nat> {
    match InRange(Numeral(s, 16), -ULLONG_MAX, ULLONG_MAX)
    case Ok(n) => Ok(n % (ULLONG_MAX + 1))
    case Threw(f) => Threw(f)
  }

  function InRange(n: Option<int>, low: int, high: int): (r: Result<int>)
    ensures r.Ok? ==> low <= r.value <= high
  {
    if n.None? then Threw(InvalidArgument)
    else if low <= n.value <= high then Ok(n.value)
    else Threw(OutOfRange)
  }

  // ----- printing -----

  function Print(n: nat, b: nat): (s: string)
    requires IsBase(b)
    ensures s != []
  {
    if n < b then [DigitChar(n)]
    else
      LeadingDigits(n, b);
      Print(n / b, b) + [DigitChar(n % b)]
  }

  lemma LeadingDigits(n: nat, b: nat)
    requires IsBase(b) && n >= b
    ensures 0 < n / b < n && n % b < b && n == n / b * b + n % b
  {
    if b == 8 {
    } else if b == 10 {
    } else {
    }
  }

  function PrintInt(n: int): string {
    if n < 0 then "-" + Print(-n, 10) else Print(n, 10)
  }

  predicate AllDigits(s: string, b: nat) {
    forall i :: 0 <= i < |s| ==> DigitValue(s[i]) < b
  }

  /** The text after a numeral does not continue it. */
  predicate Stops(rest: string, b: nat) {
    rest == [] || DigitValue(rest[0]) >= b
  }

  lemma {:induction false} PrintIsDigits(n: nat, b: nat)
    requires IsBase(b)
    ensures AllDigits(Print(n, b), b)
    ensures (Print(n, b)[0] == '0') == (n == 0)
  {
    if n >= b {
      LeadingDigits(n, b);
      var front := Print(n / b, b);
      PrintIsDigits(n / b, b);
      assert Print(n, b) == front + [DigitChar(n % b)];
    }
  }

  lemma {:induction false} HornerOfPrint(n: nat, b: nat)
    requires IsBase(b)
    ensures Horner(Print(n, b), b) == n
  {
    if n >= b {
      LeadingDigits(n, b);
      HornerOfPrint(n / b, b);
      var s := Print(n, b);
      assert s[..|s| - 1] == Print(n / b, b);
    } else {
      assert [DigitChar(n)][..0] == [];
    }
  }

  lemma {:induction false} RunOfDigits(s: string, rest: string, b: nat)
    requires b <= 16 && AllDigits(s, b) && Stops(rest, b)
    ensures DigitRun(s + rest, b) == |s|
  {
    if s == [] {
      assert s + rest == rest;
    } else {
      assert (s + rest)[1..] == s[1..] + rest;
      RunOfDigits(s[1..], rest, b);
    }
  }

  lemma DigitsOfPrint(n: nat, b: nat, rest: string)
    requires IsBase(b) && Stops(rest, b)
    ensures DigitRun(Print(n, b) + rest, b) == |Print(n, b)|
    ensures Digits(Print(n, b) + rest, b) == Some(n)
  {
    PrintIsDigits(n, b);
    HornerOfPrint(n, b);
    RunOfDigits(Print(n, b), rest, b);
    assert (Print(n, b) + rest)[..|Print(n, b)|] == Print(n, b);
  }

  /** Reading a printed number gives it back, whatever non-digit follows. */
  lemma NumeralOfPrint(n: int, rest: string)
    requires Stops(rest, 10)
    ensures Numeral(PrintInt(n) + rest, 10) == Some(n)
  {
    if n < 0 {
      NegativeNumeral(-n, rest);
    } else {
      PositiveNumeral(n, rest);
    }
  }

  lemma NegativeNumeral(n: nat, rest: string)
    requires Stops(rest, 10)
    ensures Numeral("-" + Print(n, 10) + rest, 10) == Some(Signed("-", n))
  {
    DecimalNumeral("-", n, rest);
    assert "-" + Print(n, 10) + rest == "-" + (Print(n, 10) + rest);
  }

  lemma PositiveNumeral(n: nat, rest: string)
    requires Stops(rest, 10)
    ensures Numeral(Print(n, 10) + rest, 10) == Some(n as int)
  {
    DecimalNumeral("", n, rest);
    assert "" + (Print(n, 10) + rest) == Print(n, 10) + rest;
  }

  lemma DecimalNumeral(sign: string, n: nat, rest: string)
    requires sign in {"", "+", "-"} && Stops(rest, 10)
    ensures Numeral(sign + (Print(n, 10) + rest), 10) == Some(Signed(sign, n))
  {
    DigitsOfPrint(n, 10, rest);
    SignedNumeral("", sign, Print(n, 10) + rest, 10);
    assert "" + (sign + (Print(n, 10) + rest)) == sign + (Print(n, 10) + rest);
  }

  /** `stol` with base 0 reads a hexadecimal numeral after `0x`, unless it needs the sign bit of a long. */
  lemma StolOfHex(n: nat)
    ensures Stol("0x" + Print(n, 16)) == if n <= LONG_MAX then Ok(n) else Threw(OutOfRange)
  {
    var s := "0x" + Print(n, 16);
    PrintIsDigits(n, 16);
    DigitsOfPrint(n, 16, "");
    assert Print(n, 16) + "" == Print(n, 16) == s[2..];
    assert SkipSpace(s) == s;
  }

  // ----- every way of writing a number -----

  /** `strtol`'s spellings of a natural number in base 0. */
  datatype Style = Decimal | Octal | Hexadecimal(mark: char, capital: bool)

  function Capital(s: string): (r: string)
    ensures |r| == |s|
    ensures forall i :: 0 <= i < |s| ==> r[i] == if 'a' <= s[i] <= 'f' then s[i] - 'a' + 'A' else s[i]
  {
    seq(|s|, i requires 0 <= i < |s| => if 'a' <= s[i] <= 'f' then s[i] - 'a' + 'A' else s[i])
  }

  function Spelled(n: nat, style: Style): string {
    match style
    case Decimal => Print(n, 10)
    case Octal => "0" + Print(n, 8)
    case Hexadecimal(mark, capital) => ['0', mark] + HexDigits(n, capital)
  }

  function HexDigits(n: nat, capital: bool): string {
    if capital then Capital(Print(n, 16)) else Print(n, 16)
  }

  lemma HexDigitsDenote(n: nat, capital: bool)
    ensures HexDigits(n, capital) != "" && AllDigits(HexDigits(n, capital), 16)
    ensures Horner(HexDigits(n, capital), 16) == n
  {
    PrintIsDigits(n, 16);
    HornerOfPrint(n, 16);
    HornerOfCapital(Print(n, 16));
  }

  /** The text after a spelling does not continue it. A decimal zero is taken for the start of another style
      unless it stands alone. */
  predicate Ends(n: nat, style: Style, rest: string) {
    match style
    case Decimal => if n == 0 then rest == "" else Stops(rest, 10)
    case Octal => Stops(rest, 8)
    case Hexadecimal(mark, _) => (mark == 'x' || mark == 'X') && Stops(rest, 16)
  }

  lemma {:induction false} HornerOfCapital(s: string)
    ensures Horner(Capital(s), 16) == Horner(s, 16)
  {
    if s != "" {
      var n := |s| - 1;
      HornerOfCapital(s[..n]);
      assert Capital(s)[..n] == Capital(s[..n]);
      assert DigitValue(Capital(s)[n]) == DigitValue(s[n]);
    }
  }

  predicate AllZeros(s: string) {
    forall i :: 0 <= i < |s| ==> s[i] == '0'
  }

  lemma {:induction false} ZerosAreZero(zeros: string, b: nat)
    requires AllZeros(zeros)
    ensures Horner(zeros, b) == 0
  {
    if zeros != "" {
      ZerosAreZero(zeros[..|zeros| - 1], b);
    }
  }

  lemma {:induction false} HornerAfterZeros(zeros: string, s: string, b: nat)
    requires AllZeros(zeros)
    ensures Horner(zeros + s, b) == Horner(s, b)
  {
    if s == "" {
      assert zeros + s == zeros;
      ZerosAreZero(zeros, b);
    } else {
      assert (zeros + s)[..|zeros + s| - 1] == zeros + s[..|s| - 1];
      HornerAfterZeros(zeros, s[..|s| - 1], b);
    }
  }

  lemma DigitsRead(s: string, rest: string, b: nat)
    requires IsBase(b) && s != "" && AllDigits(s, b) && Stops(rest, b)
    ensures Digits(s + rest, b) == Some(Horner(s, b))
  {
    RunOfDigits(s, rest, b);
    assert (s + rest)[..|s|] == s;
  }

  lemma MarkedNumeral(mark: char, digits: string, rest: string, b: nat)
    requires (mark == 'x' || mark == 'X') && (b == 0 || b == 16)
    requires digits != "" && AllDigits(digits, 16)
    ensures Magnitude(['0', mark] + digits + rest, b) == Digits(digits + rest, 16)
  {
    var s := ['0', mark] + digits + rest;
    assert s[2..] == digits + rest;
    assert s[0] == '0' && s[1] == mark && s[2] == digits[0];
  }

  lemma MagnitudeOfHex(n: nat, mark: char, capital: bool, rest: string, b: nat)
    requires (mark == 'x' || mark == 'X') && Stops(rest, 16) && (b == 0 || b == 16)
    ensures Magnitude(['0', mark] + HexDigits(n, capital) + rest, b) == Some(n)
  {
    HexDigitsDenote(n, capital);
    MarkedNumeral(mark, HexDigits(n, capital), rest, b);
    DigitsRead(HexDigits(n, capital), rest, 16);
  }

  lemma MagnitudeOfOctal(n: nat, rest: string)
    requires Stops(rest, 8)
    ensures Magnitude("0" + Print(n, 8) + rest, 0) == Some(n)
  {
    var s := "0" + Print(n, 8);
    PrintIsDigits(n, 8);
    HornerOfPrint(n, 8);
    HornerAfterZeros("0", Print(n, 8), 8);
    DigitsRead(s, rest, 8);
    assert (s + rest)[1] == Print(n, 8)[0];
  }

  lemma MagnitudeOfSpelled(n: nat, style: Style, rest: string)
    requires Ends(n, style, rest)
    ensures Magnitude(Spelled(n, style) + rest, 0) == Some(n)
  {
    match style
    case Decimal =>
      PrintIsDigits(n, 10);
      if n == 0 {
        assert Print(0, 10) + "" == "0";
        assert Digits("0", 8) == Some(0);
      } else {
        DigitsOfPrint(n, 10, rest);
      }
    case Octal =>
      MagnitudeOfOctal(n, rest);
    case Hexadecimal(mark, capital) =>
      MagnitudeOfHex(n, mark, capital, rest, 0);
  }

  /** The blanks of the C locale. */
  predicate Blank(s: string) {
    forall c :: c in s ==> c in {' ', '\t', '\n', '\r', 11 as char, 12 as char}
  }

  function Signed(sign: string, n: nat): int {
    if sign == "-" then -(n as int) else n
  }

  lemma StartsWithDigit(s: string, b: nat)
    requires (b == 0 || IsBase(b)) && Magnitude(s, b).Some?
    ensures s != "" && DigitValue(s[0]) < 16
  {
  }

  lemma SignedNumeral(blanks: string, sign: string, s: string, b: nat)
    requires (b == 0 || IsBase(b)) && Blank(blanks) && sign in {"", "+", "-"} && Magnitude(s, b).Some?
    ensures Numeral(blanks + (sign + s), b) == Some(Signed(sign, Magnitude(s, b).value))
  {
    StartsWithDigit(s, b);
    var t := sign + s;
    BlanksBefore(blanks, t);
    if sign == "" {
      assert t == s;
    } else {
      assert t[1..] == s;
    }
  }

  /** Term values: `stol` with base 0 reads every spelling, in decimal, octal and hexadecimal, with any sign
      and after any blanks, up to the limits of a 64-bit long. */
  lemma StolOfSpelled(blanks: string, sign: string, n: nat, style: Style, rest: string)
    requires Blank(blanks) && sign in {"", "+", "-"} && Ends(n, style, rest)
    ensures var v := if sign == "-" then -(n as int) else n;
      Stol(blanks + (sign + (Spelled(n, style) + rest))) ==
        if -0x8000_0000_0000_0000 <= v <= 0x7fff_ffff_ffff_ffff then Ok(v) else Threw(OutOfRange)
  {
    MagnitudeOfSpelled(n, style, rest);
    SignedNumeral(blanks, sign, Spelled(n, style) + rest, 0);
  }

  /** Range ends and CPU ids: `stoi` reads decimal digits, leading zeros included, up to the limits of an int. */
  lemma StoiOfSpelled(blanks: string, sign: string, zeros: string, n: nat, rest: string)
    requires Blank(blanks) && sign in {"", "+", "-"} && AllZeros(zeros) && Stops(rest, 10)
    ensures var v := if sign == "-" then -(n as int) else n;
      Stoi(blanks + (sign + (zeros + Print(n, 10) + rest))) ==
        if -0x8000_0000 <= v <= 0x7fff_ffff then Ok(v) else Threw(OutOfRange)
  {
    PrintIsDigits(n, 10);
    HornerOfPrint(n, 10);
    HornerAfterZeros(zeros, Print(n, 10), 10);
    DigitsRead(zeros + Print(n, 10), rest, 10);
    SignedNumeral(blanks, sign, zeros + Print(n, 10) + rest, 10);
  }

  /** Raw numbers: `stoull` with base 16 reads hexadecimal digits in either case, with or without `0x`, and
      negates modulo 2^64 after a minus sign. */
  lemma StoullOfSpelled(blanks: string, sign: string, n: nat, prefixed: bool, capital: bool)
    requires Blank(blanks) && sign in {"", "+", "-"}
    ensures Stoull16(blanks + (sign + RawText(n, prefixed, capital))) ==
      if n >= 0x1_0000_0000_0000_0000 then Threw(OutOfRange)
      else Ok(if sign == "-" && n > 0 then 0x1_0000_0000_0000_0000 - n else n)
  {
    MagnitudeInBase16(n, prefixed, capital);
    SignedNumeral(blanks, sign, RawText(n, prefixed, capital), 16);
    if 0 < n <= ULLONG_MAX {
      WrapsOnce(n);
    }
  }

  function RawText(n: nat, prefixed: bool, capital: bool): string {
    if prefixed then "0x" + HexDigits(n, capital) else HexDigits(n, capital)
  }

  lemma WrapsOnce(n: int)
    requires 0 < n <= ULLONG_MAX
    ensures (-n) % (ULLONG_MAX + 1) == ULLONG_MAX + 1 - n && n % (ULLONG_MAX + 1) == n
  {
  }

  lemma MagnitudeInBase16(n: nat, prefixed: bool, capital: bool)
    ensures Magnitude(RawText(n, prefixed, capital), 16) == Some(n)
  {
    if prefixed {
      MagnitudeOfHex(n, 'x', capital, "", 16);
      assert "0x" + HexDigits(n, capital) + "" == "0x" + HexDigits(n, capital);
    } else {
      HexDigitsDenote(n, capital);
      var digits := HexDigits(n, capital);
      DigitsRead(digits, "", 16);
      assert digits + "" == digits;
      assert |digits| >= 2 ==> DigitValue(digits[1]) < 16;
    }
  }

  /** Text without a number after blanks and at most one sign is an invalid argument for all three. */
  lemma NoNumber(blanks: string, sign: string, s: string)
    requires Blank(blanks) && sign in {"", "+", "-"}
    requires s == "" || (DigitValue(s[0]) == 16 && !IsSpace(s[0]) && s[0] != '-' && s[0] != '+')
    ensures Stoi(blanks + (sign + s)) == Threw(InvalidArgument)
    ensures Stol(blanks + (sign + s)) == Threw(InvalidArgument)
    ensures Stoull16(blanks + (sign + s)) == Threw(InvalidArgument)
  {
    var t := sign + s;
    assert sign == "" ==> t == s;
    assert sign != "" ==> t[0] == sign[0] && t[1..] == s;
    BlanksBefore(blanks, t);
  }

  lemma {:induction false} BlanksBefore(blanks: string, s: string)
    requires Blank(blanks) && (s == "" || !IsSpace(s[0]))
    ensures SkipSpace(blanks + s) == s
  {
    if blanks == "" {
      assert blanks + s == s;
    } else {
      assert (blanks + s)[1..] == blanks[1..] + s && blanks[0] in blanks;
      assert forall c :: c in blanks[1..] ==> c in blanks;
      BlanksBefore(blanks[1..], s);
    }
  }
}
