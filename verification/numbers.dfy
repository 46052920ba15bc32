/** The numeric readers of src/internal.hh, over `strtoull` and `strtoll`. */
module Numbers {
  import opened Text
  import opened Numerals

  /** What the `strto*` functions read: a sign, an unbounded magnitude and the position
      after the subject sequence, which is 0 when no conversion happens. */
  datatype Scan = Scan(negative: bool, magnitude: nat, end: nat)

  predicate IsSign(c: char) {
    c == '+' || c == '-'
  }

  /** Section 7.22.1.4 of ISO C11 for bases 0 and 10: white space, an optional sign,
      then the longest initial literal (base 0) or digit string (base 10). */
  function ScanOf(s: string, base: nat): (r: Scan)
    requires base == 0 || base == 10
    ensures r.end <= |s|
  {
    TrimLeftShorter(s);
    var start := |s| - |TrimLeft(s)|;
    var first := if start < |s| && IsSign(s[start]) then start + 1 else start;
    var body := s[first..];
    var n := if base == 0 then LiteralRun(body) else DigitRun(body, 10);
    if n == 0 then Scan(false, 0, 0)
    else Scan(s[start] == '-',
              if base == 0 then LiteralValue(body[..n]) else Value(body[..n], 10),
              first + n)
  }

  /** The digit loop of the conversion. */
  method ScanDigits(s: string, b: Base) returns (magnitude: nat, n: nat)
    ensures n == DigitRun(s, b) && magnitude == Value(s[..n], b)
  {
    n, magnitude := 0, 0;
    while n < |s| && IsDigit(s[n], b)
      invariant n <= |s| && AllDigits(s[..n], b)
      invariant magnitude == Value(s[..n], b)
    {
      ValueSnoc(s[..n], s[n], b);
      assert s[..n + 1] == s[..n] + [s[n]];
      magnitude := magnitude * b + DigitOf(s[n]);
      n := n + 1;
    }
    DigitRunIs(s[..n], s[n..], b);
    assert s == s[..n] + s[n..];
  }

  /** Base 0: the prefix chooses the base. */
  method ScanLiteral(s: string) returns (magnitude: nat, n: nat)
    ensures n == LiteralRun(s) && (n > 0 ==> magnitude == LiteralValue(s[..n]))
  {
    if |s| > 2 && IsHexPrefix(s) && IsDigit(s[2], 16) {
      magnitude, n := ScanDigits(s[2..], 16);
      assert s[..n + 2][2..] == s[2..][..n];
      n := n + 2;
    } else if |s| > 0 && s[0] == '0' {
      magnitude, n := ScanDigits(s, 8);
    } else {
      magnitude, n := ScanDigits(s, 10);
    }
  }

  method ScanInteger(s: string, base: nat) returns (r: Scan)
    requires base == 0 || base == 10
    ensures r == ScanOf(s, base)
  {
    hide LiteralRun, LiteralValue, DigitRun, Value, IsLiteral;
    var start := 0;
    assert s[0..] == s;
    while start < |s| && IsSpace(s[start])
      invariant start <= |s|
      invariant TrimLeft(s[start..]) == TrimLeft(s)
    {
      start := start + 1;
    }
    assert |TrimLeft(s)| == |s| - start;
    var first := start;
    if start < |s| && IsSign(s[start]) {
      first := start + 1;
    }
    var magnitude, n;
    if base == 0 {
      magnitude, n := ScanLiteral(s[first..]);
    } else {
      magnitude, n := ScanDigits(s[first..], 10);
    }
    if n == 0 {
      return Scan(false, 0, 0);
    }
    return Scan(s[start] == '-', magnitude, first + n);
  }

  /** `strtoull`: out of range is ERANGE, and a minus sign negates modulo 2^64. */
  method Strtoull(s: string, base: nat) returns (value: u64, end: nat, erange: bool)
    requires base == 0 || base == 10
    ensures end == ScanOf(s, base).end
    ensures erange <==> ScanOf(s, base).magnitude > U64_MAX
    ensures !erange ==> value == if ScanOf(s, base).negative
                                 then (U64_MAX + 1 - ScanOf(s, base).magnitude) % (U64_MAX + 1)
                                 else ScanOf(s, base).magnitude
  {
    var r := ScanInteger(s, base);
    if r.magnitude > U64_MAX {
      return U64_MAX, r.end, true;
    }
    return if r.negative then (U64_MAX + 1 - r.magnitude) % (U64_MAX + 1) else r.magnitude, r.end, false;
  }

  /** `strtoll`: the magnitude is signed before the range is checked. */
  method Strtoll(s: string, base: nat) returns (value: i64, end: nat, erange: bool)
    requires base == 0 || base == 10
    ensures end == ScanOf(s, base).end
    ensures var n := Signed(ScanOf(s, base));
            (erange <==> !(I64_MIN <= n <= I64_MAX)) && (!erange ==> value == n)
  {
    var r := ScanInteger(s, base);
    var n := Signed(r);
    if n < I64_MIN || n > I64_MAX {
      return if n < 0 then I64_MIN else I64_MAX, r.end, true;
    }
    return n, r.end, false;
  }

  function Signed(r: Scan): int {
    if r.negative then -(r.magnitude as int) else r.magnitude
  }

  // The accepted texts, stated without scanning.

  /** The part of a text that the C functions see, less the white space that the final
      loop skips. */
  function Payload(text: string): string {
    TrimRight(CString(Trim(text)))
  }

  function Unsigned(s: string): string {
    if s != "" && IsSign(s[0]) then s[1..] else s
  }

  /** A non-negative 64-bit number: an optional plus sign and one complete literal. */
  function U64Text(text: string): Option<u64> {
    var body := Payload(text);
    var digits := Unsigned(body);
    if (body != "" && body[0] == '-') || !IsLiteral(digits) || LiteralValue(digits) > U64_MAX then None
    else Some(LiteralValue(digits))
  }

  /** A signed 64-bit number: an optional sign and one complete literal. */
  function I64Text(text: string): Option<i64> {
    var body := Payload(text);
    var digits := Unsigned(body);
    if !IsLiteral(digits) then None
    else
      var n: int := if body[0] == '-' then -(LiteralValue(digits) as int) else LiteralValue(digits);
      if I64_MIN <= n <= I64_MAX then Some(n) else None
  }

  /** After no white space, the scan reads the body behind the sign. */
  lemma ScanUnsigned(c: string)
    requires c != "" && !IsSpace(c[0])
    ensures var r, body, sign := ScanOf(c, 0), Unsigned(c), |c| - |Unsigned(c)|;
            r.end == if LiteralRun(body) == 0 then 0 else sign + LiteralRun(body)
    ensures var r, body := ScanOf(c, 0), Unsigned(c);
            r.end > 0 ==> r.magnitude == LiteralValue(body[..LiteralRun(body)]) && (r.negative <==> c[0] == '-')
  {
    assert TrimLeft(c) == c && c[0..] == c;
  }

  lemma UnsignedTake(c: string, n: nat)
    requires c != "" && |c| - |Unsigned(c)| <= n <= |c| && n > 0
    ensures Unsigned(c[..n]) == Unsigned(c)[..n - (|c| - |Unsigned(c)|)]
    ensures Unsigned(c) == Unsigned(c[..n]) + c[n..]
  {}

  lemma ScanToText(c: string)
    requires c != "" && !IsSpace(c[0])
    requires ScanOf(c, 0).end > 0 && AllSpace(c[ScanOf(c, 0).end..])
    ensures TrimRight(c) == c[..ScanOf(c, 0).end] && IsLiteral(Unsigned(TrimRight(c)))
    ensures ScanOf(c, 0).magnitude == LiteralValue(Unsigned(TrimRight(c)))
  {
    ScanUnsigned(c);
    TrimToLiteral(c, ScanOf(c, 0).end);
  }

  lemma TrimToLiteral(c: string, n: nat)
    requires c != "" && n == |c| - |Unsigned(c)| + LiteralRun(Unsigned(c))
    requires LiteralRun(Unsigned(c)) > 0 && AllSpace(c[n..])
    ensures TrimRight(c) == c[..n] && Unsigned(c[..n]) == Unsigned(c)[..LiteralRun(Unsigned(c))]
  {
    hide TrimRight, LiteralRun, IsLiteral;
    UnsignedTake(c, n);
    LiteralEnd(c[..n]);
    TrimRightPad(c[..n], c[n..]);
    assert c == c[..n] + c[n..];
  }

  lemma LiteralEnd(w: string)
    requires w != "" && IsLiteral(Unsigned(w))
    ensures !IsSpace(w[|w| - 1])
  {
    var digits := Unsigned(w);
    LiteralChars(digits);
    assert w[|w| - 1] == digits[|digits| - 1] && digits[|digits| - 1] in digits;
  }

  lemma TextToScan(c: string)
    requires c != "" && !IsSpace(c[0])
    requires IsLiteral(Unsigned(TrimRight(c)))
    ensures ScanOf(c, 0).end == |TrimRight(c)| && AllSpace(c[ScanOf(c, 0).end..])
  {
    var q := TrimRightSplits(c);
    var n := |TrimRight(c)|;
    assert c[..n] == TrimRight(c) && c[n..] == q;
    ScanUnsigned(c);
    UnsignedTake(c, n);
    LiteralRunIs(Unsigned(TrimRight(c)), q);
  }

  /** A scan that ends at trailing white space has read a signed literal, and the other
      way round. */
  lemma ScanReads(c: string)
    requires c != "" && !IsSpace(c[0])
    ensures var r, body := ScanOf(c, 0), TrimRight(c);
            && (r.end > 0 && AllSpace(c[r.end..]) <==> IsLiteral(Unsigned(body)))
            && (IsLiteral(Unsigned(body)) ==>
                  && r.magnitude == LiteralValue(Unsigned(body))
                  && (r.negative <==> body[0] == '-'))
  {
    var r := ScanOf(c, 0);
    if IsLiteral(Unsigned(TrimRight(c))) {
      TextToScan(c);
    }
    if r.end > 0 && AllSpace(c[r.end..]) {
      ScanToText(c);
      ScanUnsigned(c);
    }
  }

  /** What the two callers know about the text that they hand to `strto*`. */
  lemma TrimmedFirst(text: string)
    requires CString(Trim(text)) != ""
    ensures !IsSpace(CString(Trim(text))[0]) && CString(Trim(text))[0] == Trim(text)[0]
  {
    var p, q := TrimSplits(text);
  }

  /** The trailing loop: only white space may follow the subject sequence. */
  method OnlySpaceFrom(s: string, start: nat) returns (ok: bool)
    requires start <= |s|
    ensures ok <==> AllSpace(s[start..])
  {
    var end := start;
    while end < |s|
      invariant start <= end <= |s|
      invariant forall k :: start <= k < end ==> IsSpace(s[k])
    {
      if !IsSpace(s[end]) {
        assert s[end] == s[start..][end - start];
        return false;
      }
      end := end + 1;
    }
    return true;
  }

  method ParseU64(text: string) returns (r: Option<u64>)
    ensures r == U64Text(text)
  {
    var trimmed := Trim(text);
    if trimmed == "" || trimmed[0] == '-' {
      NotNegative(text);
      return None;
    }
    var chars := CString(trimmed);
    var value, end, erange := Strtoull(chars, 0);
    if chars != "" {
      TrimmedFirst(text);
      ScanReads(chars);
      var q := TrimRightSplits(chars);
    }
    if erange || end == 0 {
      return None;
    }
    var ok := OnlySpaceFrom(chars, end);
    return if ok then Some(value) else None;
  }

  lemma NotNegative(text: string)
    requires Trim(text) == "" || Trim(text)[0] == '-'
    ensures U64Text(text) == None
  {
    var c := CString(Trim(text));
    var q := TrimRightSplits(c);
    if Payload(text) != "" {
      assert Payload(text)[0] == '-';
    }
  }

  method ParseI64(text: string) returns (r: Option<i64>)
    ensures r == I64Text(text)
  {
    hide Trim, ScanOf, LiteralValue;
    var trimmed := Trim(text);
    var chars := CString(trimmed);
    if trimmed == "" {
      return None;
    }
    var value, end, erange := Strtoll(chars, 0);
    if chars != "" {
      TrimmedFirst(text);
      ScanReads(chars);
    }
    if erange || end == 0 {
      return None;
    }
    var ok := OnlySpaceFrom(chars, end);
    return if ok then Some(value) else None;
  }

  /** `parse_u64` accepts exactly an optional '+' and a complete base-0 literal in
      range, and returns its positional value.  Without NUL the text is only trimmed. */
  lemma U64Exact(text: string, n: nat)
    ensures U64Text(text) == Some(n) <==>
            n <= U64_MAX && exists lit | IsLiteral(lit) && LiteralValue(lit) == n :: Payload(text) in {lit, "+" + lit}
    ensures '\0' !in text ==> Payload(text) == Trim(text)
  {
    if '\0' !in text {
      PlainPayload(text);
    }
    var t := Payload(text);
    if U64Text(text) == Some(n) {
      assert t[0] == '+' ==> t == "+" + t[1..];
      assert t in {Unsigned(t), "+" + Unsigned(t)};
    }
    forall lit | IsLiteral(lit) && LiteralValue(lit) == n && t in {lit, "+" + lit}
      ensures Unsigned(t) == lit && t[0] != '-'
    {
      LiteralChars(lit);
      assert lit[0] in lit;
      assert t == "+" + lit ==> t[1..] == lit;
    }
  }

  /** Without NUL, the C functions see the whole trimmed text. */
  lemma PlainPayload(text: string)
    requires '\0' !in text
    ensures Payload(text) == Trim(text)
  {
    var p, q := TrimSplits(text);
    assert forall c <- Trim(text) :: c in text;
    assert TrimRight(Trim(text)) == Trim(text);
  }

  /** A literal, padded, means its value. */
  lemma LiteralText(p: string, lit: string, q: string)
    requires AllSpace(p) && AllSpace(q) && IsLiteral(lit)
    ensures Payload(p + lit + q) == lit && Unsigned(lit) == lit && lit[0] != '-'
  {
    LiteralChars(lit);
    assert lit[0] in lit && lit[|lit| - 1] in lit;
    TrimPad(p, lit, q);
    TrimRightPad(lit, "");
    assert lit + "" == lit;
  }

  /** The ordinary numeral of every 64-bit number is read back despite base 0, and
      that of a larger number is rejected. */
  lemma U64OfDecimal(p: string, n: nat, q: string)
    requires AllSpace(p) && AllSpace(q)
    ensures U64Text(p + Decimal(n) + q) == if n <= U64_MAX then Some(n) else None
  {
    DecimalIsLiteral(n);
    LiteralText(p, Decimal(n), q);
  }

  /** The same for numerals behind the prefixes of the other bases. */
  lemma U64OfNumeral(p: string, n: nat, q: string)
    requires AllSpace(p) && AllSpace(q)
    ensures U64Text(p + ("0x" + Numeral(n, 16)) + q) == if n <= U64_MAX then Some(n) else None
    ensures U64Text(p + ("0X" + Numeral(n, 16)) + q) == if n <= U64_MAX then Some(n) else None
    ensures U64Text(p + ("0" + Numeral(n, 8)) + q) == if n <= U64_MAX then Some(n) else None
  {
    hide IsLiteral, LiteralValue, Payload;
    BaseLiterals(n);
    LiteralText(p, "0x" + Numeral(n, 16), q);
    LiteralText(p, "0X" + Numeral(n, 16), q);
    LiteralText(p, "0" + Numeral(n, 8), q);
  }

  /** `parse_i64` accepts exactly a complete base-0 literal behind an optional sign, when the
      signed value is in range. */
  lemma I64Exact(text: string, n: int)
    ensures I64Text(text) == Some(n) <==>
            && I64_MIN <= n <= I64_MAX
            && exists lit | IsLiteral(lit) ::
                 || (LiteralValue(lit) == n && Payload(text) in {lit, "+" + lit})
                 || (LiteralValue(lit) == -n && Payload(text) == "-" + lit)
  {
    hide LiteralValue, Payload;
    var t := Payload(text);
    if IsLiteral(Unsigned(t)) {
      LiteralSign(Unsigned(t));
      assert t[0] == '+' ==> t == "+" + t[1..];
      assert t[0] == '-' ==> t == "-" + t[1..];
    }
    forall lit | IsLiteral(lit) && t in {lit, "+" + lit, "-" + lit}
      ensures Unsigned(t) == lit && (t[0] == '-' <==> t == "-" + lit)
    {
      LiteralSign(lit);
      assert t != lit ==> t[1..] == lit;
    }
  }

  lemma LiteralSign(lit: string)
    requires IsLiteral(lit)
    ensures lit != "" && !IsSign(lit[0])
  {
    LiteralChars(lit);
    assert lit[0] in lit;
  }

  lemma NegatedLiteral(lit: string)
    requires IsLiteral(lit)
    ensures Payload("-" + lit) == "-" + lit && Unsigned("-" + lit) == lit
  {
    var t := "-" + lit;
    LiteralChars(lit);
    assert t[|t| - 1] == lit[|lit| - 1] && lit[|lit| - 1] in lit;
    assert forall c <- t :: c == '-' || c in lit;
    TrimOfTrimmed(t);
    PlainPayload(t);
  }

  lemma I64OfDecimal(n: int)
    ensures I64Text(SignedDecimal(n)) == if I64_MIN <= n <= I64_MAX then Some(n) else None
  {
    var m := if n < 0 then -n else n;
    var lit := Decimal(m);
    DecimalIsLiteral(m);
    if n < 0 {
      NegatedLiteral(lit);
    } else {
      LiteralText("", lit, "");
      assert "" + lit + "" == lit;
    }
  }

  // Sizes with a unit suffix.

  function LowerChar(c: char): (r: char)
    ensures r as int == if 'A' <= c <= 'Z' then c as int + 32 else c as int
  {
    if 'A' <= c <= 'Z' then c - 'A' + 'a' else c
  }

  function Lower(s: string): (r: string)
    ensures |r| == |s| && forall k :: 0 <= k < |s| ==> r[k] == LowerChar(s[k])
  {
    seq(|s|, i requires 0 <= i < |s| => LowerChar(s[i]))
  }

  const KIB: nat := 1024
  const MIB: nat := 1024 * 1024
  const GIB: nat := 1024 * 1024 * 1024

  /** The bytes that one unit of a lower-case suffix stands for. */
  function Unit(suffix: string): (r: Option<nat>)
    ensures r.Some? ==> r.value > 0
  {
    if suffix in {"k", "kb", "kib"} then Some(KIB)
    else if suffix in {"m", "mb", "mib"} then Some(MIB)
    else if suffix in {"g", "gb", "gib"} then Some(GIB)
    else if suffix in {"", "b"} then Some(1)
    else None
  }

  function Scaled(v: nat, unit: Option<nat>): Option<u64> {
    if unit == None || v * unit.value > U64_MAX then None else Some(v * unit.value)
  }

  /** A size is a decimal number, white space and a unit; the product is exact. */
  function SizeText(text: string): Option<u64> {
    SizeOf(CString(Trim(text)))
  }

  function SizeOf(chars: string): Option<u64> {
    var body := Unsigned(chars);
    var n := DigitRun(body, 10);
    if n == 0 || chars[0] == '-' then None
    else Scaled(Value(body[..n], 10), Unit(Lower(Trim(body[n..]))))
  }

  /** The division guard in front of a multiplication is exact. */
  lemma GuardExact(v: nat, m: nat)
    requires m > 0
    ensures v > U64_MAX / m <==> v * m > U64_MAX
  {
    var k := U64_MAX / m;
    if v > k {
      assert v * m >= (k + 1) * m;
    } else {
      assert v * m <= k * m;
    }
  }

  method ParseSizeBytes(text: string) returns (r: Option<u64>)
    ensures r == SizeText(text)
  {
    hide Trim, ScanOf, Unit, Lower;
    var value := Trim(text);
    if value == "" || value[0] == '-' {
      return None;
    }
    var chars := CString(value);
    var parsed, end, erange := Strtoull(chars, 10);
    SizeFromScan(text);
    NoUnitShrinks(ScanOf(chars, 10).magnitude, Unit(Lower(Trim(chars[end..]))));
    if erange || end == 0 {
      return None;
    }
    var multiplier := Multiplier(Lower(Trim(chars[end..])));
    if multiplier == None {
      return None;
    }
    GuardExact(parsed, multiplier.value);
    if multiplier.value != 0 && parsed > U64_MAX / multiplier.value {
      return None;
    }
    return Some(parsed * multiplier.value);
  }

  lemma NoUnitShrinks(v: nat, unit: Option<nat>)
    requires v > U64_MAX && unit.Some? ==> unit.value > 0
    ensures v > U64_MAX ==> Scaled(v, unit) == None
  {
    if v > U64_MAX && unit.Some? {
      assert v * unit.value >= v;
    }
  }

  method Multiplier(suffix: string) returns (multiplier: Option<nat>)
    ensures multiplier == Unit(suffix)
    ensures multiplier.Some? ==> multiplier.value > 0
  {
    multiplier := Some(1);
    if suffix == "k" || suffix == "kb" || suffix == "kib" {
      multiplier := Some(KIB);
    } else if suffix == "m" || suffix == "mb" || suffix == "mib" {
      multiplier := Some(MIB);
    } else if suffix == "g" || suffix == "gb" || suffix == "gib" {
      multiplier := Some(GIB);
    } else if suffix != "" && suffix != "b" {
      multiplier := None;
    }
  }

  lemma SizeFromScan(text: string)
    requires CString(Trim(text)) == "" || CString(Trim(text))[0] != '-'
    ensures var chars := CString(Trim(text));
            var r := ScanOf(chars, 10);
            && !r.negative
            && SizeText(text) == if r.end == 0 then None
                                 else Scaled(r.magnitude, Unit(Lower(Trim(chars[r.end..]))))
  {
    var chars := CString(Trim(text));
    if chars != "" {
      TrimmedFirst(text);
    }
    assert TrimLeft(chars) == chars && chars[0..] == chars;
    assert chars[ScanOf(chars, 10).end..] == if ScanOf(chars, 10).end == 0 then chars else
      Unsigned(chars)[DigitRun(Unsigned(chars), 10)..];
  }

  /** Exactly the decimal numbers with a known unit, in any letter case, whose product
      fits: the number may carry a plus sign, and white space may precede the unit.
      Without NUL the text is only trimmed. */
  lemma SizeExact(text: string, bytes: nat)
    ensures SizeText(text) == Some(bytes) <==>
            exists digits, gap, suffix | IsSize(digits, gap, suffix) ::
              && Payload(text) in {digits + gap + suffix, "+" + (digits + gap + suffix)}
              && bytes == Value(digits, 10) * Unit(Lower(suffix)).value <= U64_MAX
    ensures '\0' !in text ==> Payload(text) == Trim(text)
  {
    hide Unit, Lower, SizeText;
    if '\0' !in text {
      PlainPayload(text);
    }
    var t := Payload(text);
    SizePayload(text);
    PayloadTrimmed(text);
    if SizeOf(t) == Some(bytes) {
      var digits, gap, suffix := SizeParts(t);
    }
    forall digits, gap, suffix | IsSize(digits, gap, suffix) &&
                                 t in {digits + gap + suffix, "+" + (digits + gap + suffix)}
      ensures var v := Value(digits, 10) * Unit(Lower(suffix)).value;
              SizeOf(t) == if v <= U64_MAX then Some(v) else None
    {
      SizeReads(t, digits, gap, suffix);
    }
  }

  /** The units are powers of 1024, and the product must fit. */
  lemma SizeOfDecimal(n: nat, gap: string, suffix: string)
    requires AllSpace(gap)
    ensures var size, low := SizeText(Decimal(n) + gap + suffix), Lower(suffix);
            && (low in {"", "b"} ==> size == if n <= U64_MAX then Some(n) else None)
            && (low in {"k", "kb", "kib"} ==> size == if n * 1024 <= U64_MAX then Some(n * 1024) else None)
            && (low in {"m", "mb", "mib"} ==> size == if n * 1048576 <= U64_MAX then Some(n * 1048576) else None)
            && (low in {"g", "gb", "gib"} ==> size == if n * 1073741824 <= U64_MAX then Some(n * 1073741824) else None)
  {
    hide Decimal, Lower, SizeText, DigitRun, Value;
    if Unit(Lower(suffix)).Some? {
      var inner := if suffix == "" then "" else gap;
      var t := Decimal(n) + inner + suffix;
      DecimalValue(n);
      SizeTextIs(Decimal(n), gap, suffix);
      SizeReads(t, Decimal(n), inner, suffix);
      UnitsOf(Lower(suffix));
    }
  }

  lemma UnitsOf(low: string)
    ensures low in {"", "b"} ==> Unit(low) == Some(1)
    ensures low in {"k", "kb", "kib"} ==> Unit(low) == Some(1024)
    ensures low in {"m", "mb", "mib"} ==> Unit(low) == Some(1048576)
    ensures low in {"g", "gb", "gib"} ==> Unit(low) == Some(1073741824)
  {}

  /** White space behind the digits is only a gap when a unit follows. */
  lemma SizeTextIs(digits: string, gap: string, suffix: string)
    requires IsSize(digits, gap, suffix)
    ensures SizeText(digits + gap + suffix) == SizeOf(digits + (if suffix == "" then "" else gap) + suffix)
  {
    hide Lower, SizeOf;
    var inner, tail := if suffix == "" then "" else gap, if suffix == "" then gap else "";
    var t := digits + inner + suffix;
    UnitChars(suffix);
    assert digits[0] in digits && t[0] == digits[0];
    assert suffix != "" ==> t[|t| - 1] == suffix[|suffix| - 1];
    assert suffix == "" ==> t == digits && t[|t| - 1] in digits;
    assert "" + t + tail == digits + gap + suffix;
    TrimPad("", t, tail);
    NoNul(digits, inner, suffix);
  }

  lemma NoNul(digits: string, gap: string, suffix: string)
    requires IsSize(digits, gap, suffix)
    ensures '\0' !in digits + gap + suffix
  {
    var low := Lower(suffix);
    forall k | 0 <= k < |suffix| ensures suffix[k] != '\0' {
      assert low[k] in "kmgib";
    }
  }

  lemma PayloadTrimmed(text: string)
    ensures Trimmed(Payload(text))
  {
    var chars := CString(Trim(text));
    var q := TrimRightSplits(chars);
    if chars != "" {
      TrimmedFirst(text);
    }
  }

  /** What the C function sees after the last character that is not white space does not
      matter. */
  lemma SizePayload(text: string)
    ensures SizeText(text) == SizeOf(Payload(text))
  {
    hide Trim, Unit, Lower;
    var chars := CString(Trim(text));
    var q := TrimRightSplits(chars);
    var body, rest := Unsigned(Payload(text)), Unsigned(chars);
    if Payload(text) != "" {
      assert chars[0] == Payload(text)[0];
      assert rest == body + q;
      TailRun(body, q);
    } else {
      NoSize(chars, q);
    }
  }

  lemma NoSize(chars: string, q: string)
    requires chars == q && AllSpace(q)
    ensures SizeOf(chars) == None == SizeOf("")
  {
    if chars != "" {
      assert chars[0] in q;
    }
  }

  lemma TrimTail(x: string, q: string)
    requires AllSpace(q)
    ensures Trim(x + q) == Trim(x)
  {
    hide Trim;
    var p, r := TrimSplits(x);
    TrimPad(p, Trim(x), r + q);
    assert x + q == p + Trim(x) + (r + q);
  }

  lemma TailRun(body: string, q: string)
    requires AllSpace(q)
    ensures var n := DigitRun(body, 10);
            && DigitRun(body + q, 10) == n && (body + q)[..n] == body[..n]
            && Trim((body + q)[n..]) == Trim(body[n..])
  {
    hide Trim, DigitRun;
    var n := DigitRun(body, 10);
    var digits, rest := body[..n], body[n..];
    TrimTail(rest, q);
    assert body == digits + rest;
    Assoc(digits, rest, q);
    assert q != "" ==> q[0] in q;
    DigitRunIs(digits, rest + q, 10);
    assert (body + q)[n..] == rest + q && (body + q)[..n] == digits;
  }

  lemma SizeParts(t: string) returns (digits: string, gap: string, suffix: string)
    requires Trimmed(t) && SizeOf(t).Some?
    ensures IsSize(digits, gap, suffix)
    ensures t in {digits + gap + suffix, "+" + (digits + gap + suffix)}
    ensures SizeOf(t) == Some(Value(digits, 10) * Unit(Lower(suffix)).value)
  {
    assert t != "" && t[0] != '-';
    digits := Unsigned(t)[..DigitRun(Unsigned(t), 10)];
    suffix := Trim(Unsigned(t)[|digits|..]);
    gap := SizeGap(t, digits, suffix);
  }

  lemma SizeGap(t: string, digits: string, suffix: string) returns (gap: string)
    requires Trimmed(t) && t != "" && t[0] != '-'
    requires digits <= Unsigned(t) && suffix == Trim(Unsigned(t)[|digits|..])
    ensures AllSpace(gap) && t in {digits + gap + suffix, "+" + (digits + gap + suffix)}
  {
    hide Trim;
    gap := TailTrimmed(t, Unsigned(t)[|digits|..]);
    SignSplits(t);
    assert digits + gap + suffix == digits + (gap + suffix) == Unsigned(t);
  }

  lemma SignSplits(t: string)
    requires t != "" && t[0] != '-'
    ensures t in {Unsigned(t), "+" + Unsigned(t)}
  {
    assert t[0] == '+' ==> t == "+" + Unsigned(t);
  }

  lemma SizeReads(t: string, digits: string, gap: string, suffix: string)
    requires IsSize(digits, gap, suffix)
    requires t in {digits + gap + suffix, "+" + (digits + gap + suffix)}
    ensures var body, n := Unsigned(t), DigitRun(Unsigned(t), 10);
            && t[0] != '-' && n > 0 && body[..n] == digits && Trim(body[n..]) == suffix
  {
    hide Unit, Lower, Trim, DigitRun;
    var whole := digits + gap + suffix;
    assert digits[0] in digits && whole[0] == digits[0];
    assert t == "+" + whole ==> t[1..] == whole;
    assert whole == digits + (gap + suffix);
    UnitChars(suffix);
    assert gap == "" ==> gap + suffix == suffix;
    assert gap != "" ==> gap[0] in gap && (gap + suffix)[0] == gap[0];
    DigitRunIs(digits, gap + suffix, 10);
    assert gap + suffix + "" == gap + suffix;
    TrimPad(gap, suffix, "");
    assert whole[|digits|..] == gap + suffix && whole[..|digits|] == digits;
  }

  ghost predicate IsSize(digits: string, gap: string, suffix: string) {
    && digits != "" && AllDigits(digits, 10)
    && AllSpace(gap)
    && Unit(Lower(suffix)).Some?
  }

  lemma UnitChars(suffix: string)
    requires Unit(Lower(suffix)).Some?
    ensures Trimmed(suffix) && (suffix != "" ==> !IsDigit(suffix[0], 10))
  {
    var low := Lower(suffix);
    if suffix != "" {
      assert low[0] in "kmgb" && low[|low| - 1] in "kmgb";
    }
  }

  /** Dropping a prefix of a trimmed text leaves white space at its start only. */
  lemma TailTrimmed(t: string, x: string) returns (gap: string)
    requires Trimmed(t) && |x| <= |t| && x == t[|t| - |x|..]
    ensures AllSpace(gap) && x == gap + Trim(x)
  {
    gap := TrimLeftSplits(x);
    if TrimLeft(x) != "" {
      assert TrimLeft(x)[|TrimLeft(x)| - 1] == x[|x| - 1] == t[|t| - 1];
    }
  }
}
