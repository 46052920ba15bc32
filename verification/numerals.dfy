/** Digits, positional values and the integer literals of ISO C11, section 6.4.4.1
    (without suffixes), which are what `strtoull` accepts in base 0 (section 7.22.1.4). */
module Numerals {
  import opened Text

  const U64_MAX: nat := 0xFFFF_FFFF_FFFF_FFFF
  const U32_MAX: nat := 0xFFFF_FFFF
  const I64_MIN: int := -0x8000_0000_0000_0000
  const I64_MAX: nat := 0x7FFF_FFFF_FFFF_FFFF

  type u64 = n: nat | n <= U64_MAX
  type u32 = n: nat | n <= U32_MAX
  type i64 = n: int | I64_MIN <= n <= I64_MAX

  lemma Limits()
    ensures U64_MAX == 18446744073709551615 && U32_MAX == 4294967295
    ensures I64_MIN == -9223372036854775808 && I64_MAX == 9223372036854775807
  {}

  type Base = b: nat | b == 8 || b == 10 || b == 16 witness 10

  function DigitOf(c: char): nat {
    if '0' <= c <= '9' then c as nat - '0' as nat
    else if 'a' <= c <= 'f' then c as nat - 'a' as nat + 10
    else if 'A' <= c <= 'F' then c as nat - 'A' as nat + 10
    else 16
  }

  predicate IsDigit(c: char, b: Base) {
    DigitOf(c) < b
  }

  predicate AllDigits(s: string, b: Base) {
    forall c <- s :: IsDigit(c, b)
  }

  /** The positional value of a digit string, most significant digit first. */
  function Value(s: string, b: Base): nat
    requires AllDigits(s, b)
  {
    if s == "" then 0
    else Value(s[..|s| - 1], b) * b + DigitOf(s[|s| - 1])
  }

  /** How many digits a text starts with. */
  function DigitRun(s: string, b: Base): (n: nat)
    ensures n <= |s| && AllDigits(s[..n], b)
    ensures n < |s| ==> !IsDigit(s[n], b)
  {
    if s == "" || !IsDigit(s[0], b) then 0
    else
      var n := DigitRun(s[1..], b);
      assert s[..n + 1] == [s[0]] + s[1..][..n];
      n + 1
  }

  lemma {:induction false} DigitRunIs(d: string, rest: string, b: Base)
    requires AllDigits(d, b) && (rest != "" ==> !IsDigit(rest[0], b))
    ensures DigitRun(d + rest, b) == |d|
  {
    if d == "" {
      assert d + rest == rest;
    } else {
      assert (d + rest)[1..] == d[1..] + rest;
      DigitRunIs(d[1..], rest, b);
    }
  }

  predicate IsHexPrefix(s: string) {
    |s| >= 2 && s[0] == '0' && (s[1] == 'x' || s[1] == 'X')
  }

  predicate IsDecimalLiteral(s: string) {
    s != "" && s[0] != '0' && AllDigits(s, 10)
  }

  predicate IsOctalLiteral(s: string) {
    s != "" && s[0] == '0' && AllDigits(s, 8)
  }

  predicate IsHexLiteral(s: string) {
    |s| > 2 && IsHexPrefix(s) && AllDigits(s[2..], 16)
  }

  /** Section 6.4.4.1: decimal, octal or hexadecimal, complete. */
  predicate IsLiteral(s: string) {
    IsDecimalLiteral(s) || IsOctalLiteral(s) || IsHexLiteral(s)
  }

  function LiteralValue(s: string): nat
    requires IsLiteral(s)
  {
    if IsHexLiteral(s) then Value(s[2..], 16)
    else if IsOctalLiteral(s) then Value(s, 8)
    else Value(s, 10)
  }

  /** The length of the literal that a left-to-right scan reads. */
  function LiteralRun(s: string): (n: nat)
    ensures n <= |s|
    ensures n > 0 ==> IsLiteral(s[..n])
  {
    if |s| > 2 && IsHexPrefix(s) && IsDigit(s[2], 16) then
      var n := DigitRun(s[2..], 16);
      assert s[..n + 2][2..] == s[2..][..n];
      n + 2
    else if s != "" && s[0] == '0' then DigitRun(s, 8)
    else DigitRun(s, 10)
  }

  /** Section 7.22.1.4: the subject sequence is the longest initial literal. */
  lemma LongestLiteral(s: string)
    ensures forall m :: LiteralRun(s) < m <= |s| ==> !IsLiteral(s[..m])
  {
    var n := LiteralRun(s);
    forall m | n < m <= |s|
      ensures !IsLiteral(s[..m])
    {
      var t := s[..m];
      assert t[n] == s[n] && t[n] in t && t[0] in t;
      if |s| > 2 && IsHexPrefix(s) && IsDigit(s[2], 16) {
        assert t[1] == 'x' || t[1] == 'X';
        assert t[1] in t && t[2..][n - 2] == s[n] && s[n] in t[2..];
      } else if m > 2 {
        assert t[2..][0] == s[2] && s[2] in t[2..];
      }
    }
  }

  lemma LiteralChars(s: string)
    ensures IsLiteral(s) ==> forall c <- s :: !IsSpace(c) && c != '\0' && c != ',' && c != '-' && c != '+'
  {
    if IsHexLiteral(s) {
      assert s == s[..2] + s[2..];
    }
  }

  /** A complete literal before white space is what the scan reads. */
  lemma LiteralRunIs(t: string, rest: string)
    requires IsLiteral(t) && (rest != "" ==> IsSpace(rest[0]))
    ensures LiteralRun(t + rest) == |t|
  {
    var s := t + rest;
    LongestLiteral(s);
    assert s[..|t|] == t;
    forall m | |t| < m <= |s|
      ensures !IsLiteral(s[..m])
    {
      LiteralChars(s[..m]);
      assert s[..m][|t|] == rest[0];
    }
  }

  // Printing.

  function HexChar(d: nat): (c: char)
    requires d < 16
    ensures DigitOf(c) == d && 0x20 <= c as int < 0x80
  {
    if d < 10 then '0' + d as char else 'a' + (d - 10) as char
  }

  /** The numeral of a number in a base, in lower case. */
  function Numeral(n: nat, b: Base): (s: string)
    ensures s != "" && AllDigits(s, b)
  {
    if n < b then [HexChar(n)] else Numeral(n / b, b) + [HexChar(n % b)]
  }

  lemma {:induction false} NumeralValue(n: nat, b: Base)
    ensures Value(Numeral(n, b), b) == n
    ensures Numeral(n, b)[0] == '0' <==> n == 0
  {
    assert Value("", b) == 0;
    if n >= b {
      NumeralValue(n / b, b);
      ValueSnoc(Numeral(n / b, b), HexChar(n % b), b);
    } else {
      ValueSnoc("", HexChar(n), b);
      assert "" + [HexChar(n)] == [HexChar(n)];
    }
  }

  /** The numeral that `operator<<` and `std::to_string` print for a non-negative number. */
  function Decimal(n: nat): (s: string)
    ensures s != "" && AllDigits(s, 10)
  {
    Numeral(n, 10)
  }

  function SignedDecimal(n: int): string {
    if n < 0 then "-" + Decimal(-n) else Decimal(n)
  }

  lemma DecimalValue(n: nat)
    ensures Value(Decimal(n), 10) == n
    ensures Decimal(n)[0] == '0' <==> n == 0
  {
    NumeralValue(n, 10);
  }

  /** The ordinary numeral is a literal of the same value, although base 0 reads a
      leading zero as octal. */
  lemma DecimalIsLiteral(n: nat)
    ensures IsLiteral(Decimal(n)) && LiteralValue(Decimal(n)) == n
  {
    DecimalValue(n);
    if n == 0 {
      assert Decimal(0) == "0";
      assert Value("0"[..0], 8) == 0;
    }
  }

  // Other bases.

  /** Upper and lower case mean the same. */
  lemma UpperDigits(c: char)
    requires 'A' <= c <= 'Z'
    ensures DigitOf(c) == DigitOf((c as int + 32) as char)
  {}

  /** The prefixes that choose a base: the value is that of the numeral behind them. */
  lemma BaseLiterals(n: nat)
    ensures IsLiteral("0x" + Numeral(n, 16)) && LiteralValue("0x" + Numeral(n, 16)) == n
    ensures IsLiteral("0X" + Numeral(n, 16)) && LiteralValue("0X" + Numeral(n, 16)) == n
    ensures IsLiteral("0" + Numeral(n, 8)) && LiteralValue("0" + Numeral(n, 8)) == n
  {
    NumeralValue(n, 16);
    NumeralValue(n, 8);
    assert ("0x" + Numeral(n, 16))[2..] == Numeral(n, 16);
    assert ("0X" + Numeral(n, 16))[2..] == Numeral(n, 16);
    var s := "0" + Numeral(n, 8);
    assert s[1] in Numeral(n, 8);
    LeadingZero(Numeral(n, 8), 8);
  }

  lemma {:induction false} LeadingZero(s: string, b: Base)
    requires AllDigits(s, b)
    ensures AllDigits("0" + s, b) && Value("0" + s, b) == Value(s, b)
  {
    assert Value("", b) == 0;
    if s == "" {
      assert "0" + s == "" + "0";
      ValueSnoc("", '0', b);
    } else {
      var front, c := s[..|s| - 1], s[|s| - 1];
      LeadingZero(front, b);
      assert "0" + s == ("0" + front) + [c] && c in s;
      ValueSnoc("0" + front, c, b);
    }
  }

  /** Appending digits only makes a value larger. */
  lemma ValueSnoc(s: string, c: char, b: Base)
    requires AllDigits(s, b) && IsDigit(c, b)
    ensures AllDigits(s + [c], b) && Value(s + [c], b) == Value(s, b) * b + DigitOf(c)
  {
    assert (s + [c])[..|s|] == s;
  }
}
