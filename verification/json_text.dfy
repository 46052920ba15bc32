/** The compact JSON text of a tree, as src/json.cc lays it out, and the round trip
    through the grammar. */
module JsonText {
  import opened Text
  import opened Numerals
  import opened JsonGrammar

  /** How one byte is written inside a string. */
  function EscapedChar(c: char): string {
    if c == '"' then "\\\""
    else if c == '\\' then "\\\\"
    else if c as int == 8 then "\\b"
    else if c as int == 12 then "\\f"
    else if c == '\n' then "\\n"
    else if c == '\r' then "\\r"
    else if c == '\t' then "\\t"
    else if c as int < 0x20 then "\\u00" + [HexChar(c as nat / 16), HexChar(c as nat % 16)]
    else [c]
  }

  function Escaped(s: string): string {
    if s == "" then "" else EscapedChar(s[0]) + Escaped(s[1..])
  }

  function Quoted(s: string): string {
    "\"" + Escaped(s) + "\""
  }

  function MemberText(name: string, value: string): string {
    Quoted(name) + ":" + value
  }

  /** The text of a tree: no white space, members and items joined by single commas. */
  function Render(j: Json): string {
    match j
    case Null => "null"
    case Bool(b) => if b then "true" else "false"
    case Number(m, e) => SignedDecimal(m) + ExponentText(e)
    case String(s) => Quoted(s)
    case Array(items) => "[" + Join(RenderItems(items), ",") + "]"
    case Object(members) => "{" + Join(RenderMembers(members), ",") + "}"
  }

  function ExponentText(e: int): string {
    if e == 0 then "" else "e" + SignedDecimal(e)
  }

  function RenderItems(items: seq<Json>): (r: seq<string>)
    ensures |r| == |items|
  {
    if items == [] then [] else [Render(items[0])] + RenderItems(items[1..])
  }

  function RenderMembers(members: seq<Pair>): (r: seq<string>)
    ensures |r| == |members|
  {
    if members == [] then []
    else [MemberText(members[0].name, Render(members[0].value))] + RenderMembers(members[1..])
  }

  // Strings.

  lemma EscapedCharParses(c: char, rest: string)
    ensures ParseChar(EscapedChar(c) + rest) == Got([c], rest)
    ensures EscapedChar(c)[0] != '"'
    ensures forall x <- EscapedChar(c) :: x as int >= 0x20
  {
    var s := EscapedChar(c) + rest;
    if |EscapedChar(c)| == 1 {
      assert s[1..] == rest;
    } else if |EscapedChar(c)| == 2 {
      assert s[2..] == rest;
    } else {
      var h := s[2..][..4];
      assert h == "00" + [HexChar(c as nat / 16), HexChar(c as nat % 16)];
      assert s[2..][4..] == rest;
      assert ParseHex4(s[2..]) == Got(c as nat, rest);
    }
  }

  /** Decoding by section 7 returns the string and stops at its closing quotation mark,
      whatever follows. */
  lemma {:induction false} StringRoundTrip(s: string, rest: string)
    ensures ParseChars(Escaped(s) + "\"" + rest) == Got(s, rest)
  {
    hide EscapedChar, ParseChar;
    if s == "" {
      assert Escaped(s) + "\"" + rest == "\"" + rest;
    } else {
      var tail := Escaped(s[1..]) + "\"" + rest;
      EscapedCharParses(s[0], tail);
      StringRoundTrip(s[1..], rest);
      assert Escaped(s) + "\"" + rest == EscapedChar(s[0]) + tail;
      assert [s[0]] + s[1..] == s;
    }
  }

  /** Hence escaping is injective, also when other text follows. */
  lemma EscapedInjective(a: string, b: string, restA: string, restB: string)
    requires Escaped(a) + "\"" + restA == Escaped(b) + "\"" + restB
    ensures a == b && restA == restB
  {
    StringRoundTrip(a, restA);
    StringRoundTrip(b, restB);
  }

  /** No control byte survives inside a string. */
  lemma {:induction false} EscapedHasNoControl(s: string)
    ensures forall x <- Escaped(s) :: x as int >= 0x20
  {
    if s != "" {
      EscapedCharParses(s[0], "");
      EscapedHasNoControl(s[1..]);
    }
  }

  // Numbers.

  /** What may follow a number: nothing that could continue it. */
  ghost predicate Ends(rest: string) {
    rest != "" ==> !IsDigit(rest[0], 10) && rest[0] !in ".eE"
  }

  /** A numeral is cut off exactly at the first character that is not a digit. */
  lemma NumeralRun(n: nat, rest: string)
    requires rest != "" ==> !IsDigit(rest[0], 10)
    ensures var s, k := Decimal(n) + rest, DigitRun(Decimal(n) + rest, 10);
            k == |Decimal(n)| && s[..k] == Decimal(n) && s[k..] == rest && Value(s[..k], 10) == n
    ensures var c := (Decimal(n) + rest)[0];
            IsDigit(c, 10) && (c == '0' <==> n == 0)
  {
    DigitRunIs(Decimal(n), rest, 10);
    DecimalValue(n);
    assert (Decimal(n) + rest)[..|Decimal(n)|] == Decimal(n);
    assert Decimal(n)[0] in Decimal(n);
  }

  lemma IntParses(n: nat, rest: string)
    requires rest != "" ==> !IsDigit(rest[0], 10)
    ensures ParseInt(Decimal(n) + rest) == Got(Decimal(n), rest)
  {
    NumeralRun(n, rest);
    if n == 0 {
      assert Decimal(0) == "0";
    }
  }

  lemma ExponentParses(e: int, rest: string)
    requires Ends(rest)
    ensures ParseExponent(ExponentText(e) + rest) == Got(e, rest)
  {
    if e != 0 {
      var n := if e < 0 then -e else e;
      NumeralRun(n, rest);
      var s := ExponentSplits(e < 0, Decimal(n), rest);
      ExponentFrom(s, n, rest);
    }
  }

  lemma ExponentSplits(negative: bool, digits: string, rest: string) returns (s: string)
    requires digits != "" && (digits + rest)[0] !in "+-"
    ensures s == "e" + (if negative then "-" + digits else digits) + rest
    ensures |s| > 1 && s[0] == 'e' && s[1] != '+' && (s[1] == '-' <==> negative)
    ensures digits + rest == if negative then s[2..] else s[1..]
  {
    s := "e" + (if negative then "-" + digits else digits) + rest;
    assert !negative ==> s[1] == (digits + rest)[0];
  }

  lemma ExponentFrom(s: string, n: nat, rest: string)
    requires rest != "" ==> !IsDigit(rest[0], 10)
    requires |s| > 1 && s[0] == 'e'
    requires Decimal(n) + rest == if s[1] == '-' || s[1] == '+' then s[2..] else s[1..]
    ensures ParseExponent(s) == Got(if s[1] == '-' then -(n as int) else n, rest)
  {
    NumeralRun(n, rest);
  }

  /** The pieces of a number are read in turn. */
  lemma NumberFrom(s: string, body: string, n: nat, tail: string, e: int, rest: string)
    requires body == if s != "" && s[0] == '-' then s[1..] else s
    requires ParseInt(body) == Got(Decimal(n), tail)
    requires tail == "" || tail[0] != '.'
    requires ParseExponent(tail) == Got(e, rest)
    ensures ParseNumber(s) == Got(Number(if s[0] == '-' then -(n as int) else n, e), rest)
  {
    hide ParseInt, ParseExponent, Decimal;
    DecimalValue(n);
    assert Decimal(n) + "" == Decimal(n);
  }

  lemma NumberParses(m: int, e: int, rest: string)
    requires Ends(rest)
    ensures ParseNumber(SignedDecimal(m) + ExponentText(e) + rest) == Got(Number(m, e), rest)
  {
    hide Decimal, ParseNumber, ParseInt, ParseExponent, Value, DigitRun;
    var n := if m < 0 then -m else m;
    var tail := ExponentText(e) + rest;
    var body := Decimal(n) + tail;
    var s := if m < 0 then "-" + body else body;
    NumeralRun(n, tail);
    IntParses(n, tail);
    ExponentParses(e, rest);
    assert m < 0 ==> s[1..] == body;
    NumberFrom(s, body, n, tail, e, rest);
    Assoc(SignedDecimal(m), ExponentText(e), rest);
    Assoc("-", Decimal(n), tail);
  }

  // Arrays and objects.

  /** No value starts with white space or a closing bracket. */
  lemma RenderStarts(j: Json)
    ensures Render(j) != "" && Render(j)[0] !in " \t\n\r]}"
    ensures j.Number? ==> IsDigit(Render(j)[0], 10) || Render(j)[0] == '-'
  {
    if j.Number? {
      var digits := Decimal(if j.mantissa < 0 then -j.mantissa else j.mantissa);
      assert digits[0] in digits;
    }
  }

  // How the parser proceeds, one construct at a time.

  ghost predicate Solid(s: string) {
    s != "" && s[0] !in " \t\n\r]}"
  }

  lemma NumberValue(s: string)
    requires s != "" && (IsDigit(s[0], 10) || s[0] == '-')
    ensures ParseValue(s) == ParseNumber(s)
  {
    hide ParseNumber, ParseMembers, ParseItems, ParseChars, SkipWs;
    assert s[0] !in "{[\"";
  }

  lemma StringValue(body: string, t: string, rest: string)
    requires ParseChars(body) == Got(t, rest)
    ensures ParseValue("\"" + body) == Got(String(t), rest)
  {
    assert ("\"" + body)[1..] == body;
  }

  lemma WordValue(rest: string)
    ensures ParseValue("null" + rest) == Got(Null, rest)
    ensures ParseValue("true" + rest) == Got(Bool(true), rest)
    ensures ParseValue("false" + rest) == Got(Bool(false), rest)
  {
    assert ("null" + rest)[4..] == rest;
    assert ("true" + rest)[4..] == rest;
    assert ("false" + rest)[5..] == rest;
  }

  lemma EmptyValue(rest: string)
    ensures ParseValue("[]" + rest) == Got(Array([]), rest)
    ensures ParseValue("{}" + rest) == Got(Object([]), rest)
  {
    assert ("[]" + rest)[1..] == "]" + rest && ("]" + rest)[1..] == rest;
    assert ("{}" + rest)[1..] == "}" + rest && ("}" + rest)[1..] == rest;
  }

  lemma ArrayValue(inner: string, items: seq<Json>, rest: string)
    requires Solid(inner) && ParseItems(inner) == Got(items, rest)
    ensures ParseValue("[" + inner) == Got(Array(items), rest)
  {
    assert ("[" + inner)[1..] == inner;
  }

  lemma ObjectValue(inner: string, members: seq<Pair>, rest: string)
    requires Solid(inner) && ParseMembers(inner) == Got(members, rest)
    ensures ParseValue("{" + inner) == Got(Object(members), rest)
  {
    assert ("{" + inner)[1..] == inner;
  }

  lemma LastItem(s: string, v: Json, rest: string)
    requires ParseValue(s) == Got(v, "]" + rest)
    ensures ParseItems(s) == Got([v], rest)
  {
    assert ("]" + rest)[1..] == rest;
  }

  lemma NextItem(s: string, v: Json, more: string, vs: seq<Json>, rest: string)
    requires ParseValue(s) == Got(v, "," + more)
    requires Solid(more) && ParseItems(more) == Got(vs, rest)
    ensures ParseItems(s) == Got([v] + vs, rest)
  {
    assert ("," + more)[1..] == more;
  }

  lemma LastMember(s: string, m: Pair, value: string, rest: string)
    requires s != "" && s[0] == '"' && ParseChars(s[1..]) == Got(m.name, ":" + value)
    requires Solid(value) && ParseValue(value) == Got(m.value, "}" + rest)
    ensures ParseMembers(s) == Got([m], rest)
  {
    assert (":" + value)[1..] == value && ("}" + rest)[1..] == rest;
  }

  lemma NextMember(s: string, m: Pair, value: string, more: string, ms: seq<Pair>, rest: string)
    requires s != "" && s[0] == '"' && ParseChars(s[1..]) == Got(m.name, ":" + value)
    requires Solid(value) && ParseValue(value) == Got(m.value, "," + more)
    requires Solid(more) && ParseMembers(more) == Got(ms, rest)
    ensures ParseMembers(s) == Got([m] + ms, rest)
  {
    hide ParseValue, ParseChars;
    assert (":" + value)[1..] == value && ("," + more)[1..] == more;
  }

  lemma NameParses(name: string, value: string)
    ensures var s := MemberText(name, value);
            s != "" && s[0] == '"' && ParseChars(s[1..]) == Got(name, ":" + value)
  {
    StringRoundTrip(name, ":" + value);
    assert MemberText(name, value)[1..] == Escaped(name) + "\"" + (":" + value);
  }

  // The round trip.

  lemma ScalarParses(j: Json, rest: string)
    requires !j.Array? && !j.Object? && Ends(rest)
    ensures ParseValue(Render(j) + rest) == Got(j, rest)
  {
    match j
    case Null => WordValue(rest);
    case Bool(b) => WordValue(rest);
    case String(t) =>
      StringRoundTrip(t, rest);
      StringValue(Escaped(t) + "\"" + rest, t, rest);
      Opened("\"", Escaped(t), "\"", rest);
    case Number(m, e) =>
      NumberParses(m, e, rest);
      RenderStarts(j);
      NumberValue(Render(j) + rest);
  }

  /** The text of a list: its first part, then what separates or closes. */
  function Separated(parts: seq<string>, close: string, rest: string): string
    requires parts != []
  {
    if |parts| == 1 then close + rest else "," + (Join(parts[1..], ",") + close + rest)
  }

  lemma JoinParts(parts: seq<string>, close: string, rest: string)
    requires parts != []
    ensures Join(parts, ",") + close + rest == parts[0] + Separated(parts, close, rest)
  {}

  lemma Opened(open: string, inner: string, close: string, rest: string)
    ensures open + inner + close + rest == open + (inner + close + rest)
  {}

  /** Every tree is read back from its text, and the text after it is left over. */
  lemma {:induction false} RoundTrip(j: Json, rest: string)
    requires Ends(rest)
    ensures ParseValue(Render(j) + rest) == Got(j, rest)
    decreases j, 0
  {
    hide ParseValue, ParseItems, ParseMembers;
    match j
    case Array(items) =>
      if items == [] {
        EmptyValue(rest);
        assert Render(j) + rest == "[]" + rest;
      } else {
        ItemsRoundTrip(items, rest);
        ArrayValue(Join(RenderItems(items), ",") + "]" + rest, items, rest);
        Opened("[", Join(RenderItems(items), ","), "]", rest);
      }
    case Object(members) =>
      if members == [] {
        EmptyValue(rest);
        assert Render(j) + rest == "{}" + rest;
      } else {
        MembersRoundTrip(members, rest);
        ObjectValue(Join(RenderMembers(members), ",") + "}" + rest, members, rest);
        Opened("{", Join(RenderMembers(members), ","), "}", rest);
      }
    case _ => ScalarParses(j, rest);
  }

  lemma {:induction false} ItemsRoundTrip(items: seq<Json>, rest: string)
    requires items != []
    ensures var s := Join(RenderItems(items), ",") + "]" + rest;
            Solid(s) && ParseItems(s) == Got(items, rest)
    decreases items, 1
  {
    hide ParseValue, ParseItems, SkipWs;
    var parts := RenderItems(items);
    RenderStarts(items[0]);
    JoinParts(parts, "]", rest);
    var s := parts[0] + Separated(parts, "]", rest);
    RoundTrip(items[0], Separated(parts, "]", rest));
    if |items| == 1 {
      LastItem(s, items[0], rest);
      assert items == [items[0]];
    } else {
      ItemsRoundTrip(items[1..], rest);
      NextItem(s, items[0], Join(parts[1..], ",") + "]" + rest, items[1..], rest);
      assert items == [items[0]] + items[1..];
    }
  }

  lemma {:induction false} MembersRoundTrip(members: seq<Pair>, rest: string)
    requires members != []
    ensures var s := Join(RenderMembers(members), ",") + "}" + rest;
            Solid(s) && ParseMembers(s) == Got(members, rest)
    decreases members, 1
  {
    hide ParseValue, ParseMembers, ParseChars, SkipWs;
    var parts := RenderMembers(members);
    var m := members[0];
    var tail := Separated(parts, "}", rest);
    var value := Render(m.value) + tail;
    RenderStarts(m.value);
    NameParses(m.name, value);
    JoinParts(parts, "}", rest);
    RoundTrip(m.value, tail);
    var s := MemberText(m.name, value);
    Assoc(Quoted(m.name) + ":", Render(m.value), tail);
    if |members| == 1 {
      LastMember(s, m, value, rest);
      assert members == [m];
    } else {
      MembersRoundTrip(members[1..], rest);
      NextMember(s, m, value, Join(parts[1..], ",") + "}" + rest, members[1..], rest);
      assert members == [m] + members[1..];
    }
  }

  /** The text of a tree is a JSON text, and it means that tree. */
  lemma TextRoundTrip(j: Json)
    ensures ParseText(Render(j)) == Some(j)
  {
    RoundTrip(j, "");
    RenderStarts(j);
    assert Render(j) + "" == Render(j);
  }
}
