/** JSON as a specification: a parser for sections 2 to 7 of RFC 8259 over bytes, the
    compact text of a tree, and the proof that the first undoes the second. */
module JsonGrammar {
  import opened Text
  import opened Numerals

  /** A number is mantissa * 10^exponent; member order and repetition are kept. */
  datatype Json =
    | Null
    | Bool(b: bool)
    | Number(mantissa: int, exponent: int)
    | String(s: string)
    | Array(items: seq<Json>)
    | Object(members: seq<Pair>)

  datatype Pair = Pair(name: string, value: Json)

  datatype Parsed<+T> = Fail | Got(value: T, rest: string) {
    predicate IsFailure() {
      Fail?
    }

    function PropagateFailure<U>(): Parsed<U>
      requires Fail?
    {
      Fail
    }

    function Extract(): (T, string)
      requires Got?
    {
      (value, rest)
    }
  }

  // The grammar.

  /** Section 2: insignificant white space. */
  function SkipWs(s: string): (r: string)
    ensures |r| <= |s|
  {
    if s != "" && s[0] in " \t\n\r" then SkipWs(s[1..]) else s
  }

  /** Section 3: a value that starts at the first character. */
  function ParseValue(s: string): (r: Parsed<Json>)
    ensures r.Got? ==> |r.rest| < |s|
    decreases |s|, 0
  {
    if s == "" then Fail
    else if s[0] == '{' then
      var t := SkipWs(s[1..]);
      if t != "" && t[0] == '}' then Got(Object([]), t[1..])
      else
        var (members, rest) :- ParseMembers(t);
        Got(Object(members), rest)
    else if s[0] == '[' then
      var t := SkipWs(s[1..]);
      if t != "" && t[0] == ']' then Got(Array([]), t[1..])
      else
        var (items, rest) :- ParseItems(t);
        Got(Array(items), rest)
    else if s[0] == '"' then
      var (chars, rest) :- ParseChars(s[1..]);
      Got(String(chars), rest)
    else if s[0] == '-' || IsDigit(s[0], 10) then ParseNumber(s)
    else if "true" <= s then Got(Bool(true), s[4..])
    else if "false" <= s then Got(Bool(false), s[5..])
    else if "null" <= s then Got(Null, s[4..])
    else Fail
  }

  /** Section 5: the values of a non-empty array, up to its closing bracket. */
  function ParseItems(s: string): (r: Parsed<seq<Json>>)
    ensures r.Got? ==> |r.rest| < |s|
    decreases |s|, 1
  {
    var (v, rest) :- ParseValue(s);
    var t := SkipWs(rest);
    if t == "" then Fail
    else if t[0] == ']' then Got([v], t[1..])
    else if t[0] == ',' then
      var (vs, end) :- ParseItems(SkipWs(t[1..]));
      Got([v] + vs, end)
    else Fail
  }

  /** Section 4: the members of a non-empty object, up to its closing brace. */
  function ParseMembers(s: string): (r: Parsed<seq<Pair>>)
    ensures r.Got? ==> |r.rest| < |s|
    decreases |s|, 1
  {
    if s == "" || s[0] != '"' then Fail
    else
      var (name, rest) :- ParseChars(s[1..]);
      var t := SkipWs(rest);
      if t == "" || t[0] != ':' then Fail
      else
        var (v, after) :- ParseValue(SkipWs(t[1..]));
        var u := SkipWs(after);
        if u == "" then Fail
        else if u[0] == '}' then Got([Pair(name, v)], u[1..])
        else if u[0] == ',' then
          var (ms, end) :- ParseMembers(SkipWs(u[1..]));
          Got([Pair(name, v)] + ms, end)
        else Fail
  }

  /** Section 6: `[ minus ] int [ frac ] [ exp ]`. */
  function ParseNumber(s: string): (r: Parsed<Json>)
    ensures r.Got? ==> |r.rest| < |s|
  {
    var negative := s != "" && s[0] == '-';
    var (whole, r0) :- ParseInt(if negative then s[1..] else s);
    var (fraction, r1) :- ParseFraction(r0);
    var (power, r2) :- ParseExponent(r1);
    assert AllDigits(whole + fraction, 10);
    var n := Value(whole + fraction, 10);
    Got(Number(if negative then -(n as int) else n, power - |fraction|), r2)
  }

  /** `int`: one zero, or digits that do not start with zero. */
  function ParseInt(s: string): (r: Parsed<string>)
    ensures r.Got? ==> |r.rest| < |s| && AllDigits(r.value, 10)
  {
    var n := DigitRun(s, 10);
    if n == 0 then Fail
    else if s[0] == '0' then Got("0", s[1..])
    else Got(s[..n], s[n..])
  }

  function ParseFraction(s: string): (r: Parsed<string>)
    ensures r.Got? ==> |r.rest| <= |s| && AllDigits(r.value, 10)
  {
    if s == "" || s[0] != '.' then Got("", s)
    else
      var n := DigitRun(s[1..], 10);
      if n == 0 then Fail else Got(s[1..][..n], s[1..][n..])
  }

  function ParseExponent(s: string): (r: Parsed<int>)
    ensures r.Got? ==> |r.rest| <= |s|
  {
    if s == "" || (s[0] != 'e' && s[0] != 'E') then Got(0, s)
    else
      var t := if |s| > 1 && (s[1] == '+' || s[1] == '-') then s[2..] else s[1..];
      var n := DigitRun(t, 10);
      if n == 0 then Fail
      else Got(if s[1] == '-' then -(Value(t[..n], 10) as int) else Value(t[..n], 10), t[n..])
  }

  /** Section 7: the characters of a string, after its opening quotation mark. */
  function ParseChars(s: string): (r: Parsed<string>)
    ensures r.Got? ==> |r.rest| < |s|
  {
    if s == "" then Fail
    else if s[0] == '"' then Got("", s[1..])
    else
      var (c, t) :- ParseChar(s);
      var (cs, rest) :- ParseChars(t);
      Got(c + cs, rest)
  }

  /** One character or escape; a `\u` escape stands for the bytes of its UTF-8 form. */
  function ParseChar(s: string): (r: Parsed<string>)
    requires s != ""
    ensures r.Got? ==> |r.rest| < |s|
  {
    if s[0] as int < 0x20 then Fail
    else if s[0] != '\\' then Got([s[0]], s[1..])
    else if |s| < 2 then Fail
    else match s[1]
      case '"' => Got("\"", s[2..])
      case '\\' => Got("\\", s[2..])
      case '/' => Got("/", s[2..])
      case 'b' => Got([8 as char], s[2..])
      case 'f' => Got([12 as char], s[2..])
      case 'n' => Got("\n", s[2..])
      case 'r' => Got("\r", s[2..])
      case 't' => Got("\t", s[2..])
      case 'u' =>
        var (unit, t) :- ParseHex4(s[2..]);
        if 0xD800 <= unit < 0xDC00 && "\\u" <= t then
          var (low, u) :- ParseHex4(t[2..]);
          if 0xDC00 <= low < 0xE000 then Got(Utf8(0x10000 + (unit - 0xD800) * 0x400 + (low - 0xDC00)), u)
          else Got(Utf8(unit), t)
        else Got(Utf8(unit), t)
      case _ => Fail
  }

  function ParseHex4(s: string): (r: Parsed<nat>)
    ensures r.Got? ==> |r.rest| < |s| && r.value < 0x10000
  {
    if |s| < 4 || !AllDigits(s[..4], 16) then Fail
    else
      var h := s[..4];
      assert h[0] in h && h[1] in h && h[2] in h && h[3] in h;
      Got(DigitOf(h[0]) * 4096 + DigitOf(h[1]) * 256 + DigitOf(h[2]) * 16 + DigitOf(h[3]), s[4..])
  }

  function Utf8(code: nat): string
    requires code < 0x110000
  {
    if code < 0x80 then [code as char]
    else if code < 0x800 then [(0xC0 + code / 64) as char, (0x80 + code % 64) as char]
    else if code < 0x10000 then
      [(0xE0 + code / 4096) as char, (0x80 + code / 64 % 64) as char, (0x80 + code % 64) as char]
    else
      [(0xF0 + code / 262144) as char, (0x80 + code / 4096 % 64) as char,
       (0x80 + code / 64 % 64) as char, (0x80 + code % 64) as char]
  }

  /** A JSON text: one value between white space, and nothing else. */
  function ParseText(s: string): Option<Json> {
    match ParseValue(SkipWs(s))
    case Fail => None
    case Got(v, rest) => if SkipWs(rest) == "" then Some(v) else None
  }
}
