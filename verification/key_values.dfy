/** The key-value parsers: `parse_colon_blocks` and `unquote_value` of src/internal.hh, and
    `parse_os_release` of src/os.cc. */
module KeyValues {
  import opened Text

  type KeyValueMap = map<string, string>

  /** `map_value`: a missing key and an empty value are the same. */
  function MapValue(values: KeyValueMap, key: string): (r: Option<string>)
    ensures r.Some? <==> key in values && values[key] != ""
    ensures r.Some? ==> r.value == values[key]
  {
    if key !in values || values[key] == "" then None else Some(values[key])
  }

  // Colon blocks.

  /** The blocks of a list of lines, with one block already begun. */
  function BlocksOf(lines: seq<string>, current: KeyValueMap): seq<KeyValueMap> {
    if lines == [] then
      if current == map[] then [] else [current]
    else if Trim(lines[0]) == "" then
      (if current == map[] then [] else [current]) + BlocksOf(lines[1..], map[])
    else
      match Find(lines[0], ':', 0)
      case None => BlocksOf(lines[1..], current)
      case Some(colon) =>
        BlocksOf(lines[1..], current[Trim(lines[0][..colon]) := Trim(lines[0][colon + 1..])])
  }

  function Blocks(text: string): seq<KeyValueMap> {
    BlocksOf(Lines(text, '\n'), map[])
  }

  method ParseColonBlocks(text: string) returns (blocks: seq<KeyValueMap>)
    ensures blocks == Blocks(text)
  {
    hide Trim, Find, Lines;
    blocks := [];
    var current: KeyValueMap := map[];
    var lines := Lines(text, '\n');
    assert lines[0..] == lines;
    for i := 0 to |lines|
      invariant blocks + BlocksOf(lines[i..], current) == Blocks(text)
    {
      var line := lines[i];
      assert lines[i..][1..] == lines[i + 1..];
      if Trim(line) == "" {
        if current != map[] {
          Assoc(blocks, [current], BlocksOf(lines[i + 1..], map[]));
          blocks := blocks + [current];
          current := map[];
        }
        continue;
      }
      var colon := Find(line, ':', 0);
      if colon == None {
        continue;
      }
      current := current[Trim(line[..colon.value]) := Trim(line[colon.value + 1..])];
    }
    if current != map[] {
      blocks := blocks + [current];
    }
  }

  /** No block is empty, and every key and value is trimmed. */
  lemma {:induction false} BlocksAreClean(lines: seq<string>, current: KeyValueMap)
    requires Clean(current)
    ensures forall block <- BlocksOf(lines, current) :: block != map[] && Clean(block)
  {
    hide Trim, Find;
    if lines != [] {
      var line := lines[0];
      if Trim(line) == "" {
        BlocksAreClean(lines[1..], map[]);
      } else {
        match Find(line, ':', 0)
        case None => BlocksAreClean(lines[1..], current);
        case Some(colon) =>
          var p, q := TrimSplits(line[..colon]);
          var r, s := TrimSplits(line[colon + 1..]);
          BlocksAreClean(lines[1..], current[Trim(line[..colon]) := Trim(line[colon + 1..])]);
      }
    }
  }

  ghost predicate Clean(block: KeyValueMap) {
    forall key <- block :: Trimmed(key) && Trimmed(block[key])
  }

  /** A blank line cuts a list of lines into two that are parsed apart. */
  lemma {:induction false} BlocksCut(x: seq<string>, blank: string, y: seq<string>, current: KeyValueMap)
    requires Trim(blank) == ""
    ensures BlocksOf(x + [blank] + y, current) == BlocksOf(x, current) + BlocksOf(y, map[])
  {
    hide Trim, Find;
    var all := x + [blank] + y;
    if x == [] {
      assert all[1..] == y;
    } else {
      assert all[1..] == x[1..] + [blank] + y;
      if Trim(x[0]) == "" {
        BlocksCut(x[1..], blank, y, map[]);
        Assoc(if current == map[] then [] else [current], BlocksOf(x[1..], map[]), BlocksOf(y, map[]));
      } else {
        match Find(x[0], ':', 0)
        case None => BlocksCut(x[1..], blank, y, current);
        case Some(colon) =>
          BlocksCut(x[1..], blank, y, current[Trim(x[0][..colon]) := Trim(x[0][colon + 1..])]);
      }
    }
  }

  /** A line without a colon is as if it were not there. */
  lemma {:induction false} NoColonSkipped(x: seq<string>, line: string, y: seq<string>, current: KeyValueMap)
    requires Trim(line) != "" && ':' !in line
    ensures BlocksOf(x + [line] + y, current) == BlocksOf(x + y, current)
  {
    hide Trim, Find;
    var all := x + [line] + y;
    if x == [] {
      assert all[1..] == y && x + y == y;
    } else {
      assert all[1..] == x[1..] + [line] + y && (x + y)[1..] == x[1..] + y;
      if Trim(x[0]) == "" {
        NoColonSkipped(x[1..], line, y, map[]);
      } else {
        match Find(x[0], ':', 0)
        case None => NoColonSkipped(x[1..], line, y, current);
        case Some(colon) =>
          NoColonSkipped(x[1..], line, y, current[Trim(x[0][..colon]) := Trim(x[0][colon + 1..])]);
      }
    }
  }

  /** Parsing is a homomorphism: two texts with a blank line between them give the blocks
      of the first, then the blocks of the second. */
  lemma BlocksConcat(a: string, blank: string, b: string)
    requires Trim(blank) == "" && '\n' !in blank
    ensures Blocks(a + "\n" + blank + "\n" + b) == Blocks(a) + Blocks(b)
  {
    hide Trim, Find, BlocksOf;
    var x := Lines(a + ['\n'], '\n');
    assert Lines(a + "\n" + blank + "\n" + b, '\n') == x + [blank] + Lines(b, '\n') by {
      LinesConcat(a, '\n', blank + "\n" + b);
      LinesFirst(blank, '\n', b);
      assert a + "\n" + blank + "\n" + b == a + ['\n'] + (blank + "\n" + b);
      Assoc(x, [blank], Lines(b, '\n'));
    }
    BlocksCut(x, blank, Lines(b, '\n'), map[]);
    LinesTerminated(a, '\n');
    FinalBlank(Lines(a, '\n'));
  }

  lemma FinalBlank(x: seq<string>)
    ensures BlocksOf(x + [""], map[]) == BlocksOf(x, map[])
  {
    BlocksCut(x, "", [], map[]);
    assert x + [""] + [] == x + [""];
    assert BlocksOf(x, map[]) + [] == BlocksOf(x, map[]);
  }

  // Rendering blocks.

  /** One line of a block, with white space wherever the parser tolerates it. */
  datatype Line = Line(indent: string, key: string, left: string, right: string, value: string, trailing: string) {
    function Text(): string {
      indent + key + left + ":" + right + value + trailing
    }

    ghost predicate Valid() {
      && (forall s <- [indent, left, right, trailing] :: AllSpace(s) && '\n' !in s)
      && Trimmed(key) && ':' !in key && '\n' !in key
      && Trimmed(value) && '\n' !in value
    }
  }

  /** What a block of lines means: the last line for a key wins. */
  function MapOf(block: seq<Line>, current: KeyValueMap): KeyValueMap {
    if block == [] then current else MapOf(block[1..], current[block[0].key := block[0].value])
  }

  function LineTexts(block: seq<Line>): (r: seq<string>)
    ensures |r| == |block|
  {
    if block == [] then [] else [block[0].Text()] + LineTexts(block[1..])
  }

  /** All blocks, with an empty line after each. */
  function Document(blocks: seq<seq<Line>>): seq<string> {
    if blocks == [] then [] else LineTexts(blocks[0]) + [""] + Document(blocks[1..])
  }

  function Maps(blocks: seq<seq<Line>>): seq<KeyValueMap> {
    if blocks == [] then [] else [MapOf(blocks[0], map[])] + Maps(blocks[1..])
  }

  /** A line is read back as its key and value. */
  lemma LineReads(l: Line)
    requires l.Valid()
    ensures Trim(l.Text()) != "" && '\n' !in l.Text()
    ensures var colon := Find(l.Text(), ':', 0);
            && colon.Some?
            && Trim(l.Text()[..colon.value]) == l.key
            && Trim(l.Text()[colon.value + 1..]) == l.value
  {
    hide Trim, Find;
    var before, after := l.indent + l.key + l.left, l.right + l.value + l.trailing;
    assert [l.indent, l.left, l.right, l.trailing][0] == l.indent;
    assert [l.indent, l.left, l.right, l.trailing][1] == l.left;
    assert [l.indent, l.left, l.right, l.trailing][2] == l.right;
    assert [l.indent, l.left, l.right, l.trailing][3] == l.trailing;
    LineSplits(before, after, l);
    TrimPad(l.indent, l.key, l.left);
    TrimPad(l.right, l.value, l.trailing);
    NotBlank(l.Text(), |before|);
  }

  lemma LineSplits(before: string, after: string, l: Line)
    requires before == l.indent + l.key + l.left && after == l.right + l.value + l.trailing
    requires AllSpace(l.indent) && AllSpace(l.left) && ':' !in l.key
    ensures l.Text() == before + ":" + after && Find(l.Text(), ':', 0) == Some(|before|)
    ensures l.Text()[..|before|] == before && l.Text()[|before| + 1..] == after
  {
    assert l.Text() == before + [':'] + after;
    FindFirst(before, ':', after);
  }

  lemma NotBlank(s: string, i: nat)
    requires i < |s| && !IsSpace(s[i])
    ensures Trim(s) != ""
  {
    BlankIsSpace(s);
    assert s[i] in s;
  }

  lemma BlankIsSpace(s: string)
    ensures Trim(s) == "" ==> AllSpace(s)
  {
    hide Trim;
    var p, q := TrimSplits(s);
  }

  lemma LineStep(l: Line, rest: seq<string>, current: KeyValueMap)
    requires l.Valid()
    ensures BlocksOf([l.Text()] + rest, current) == BlocksOf(rest, current[l.key := l.value])
  {
    hide Trim, Find, Line.Text, Line.Valid;
    LineReads(l);
    assert ([l.Text()] + rest)[1..] == rest;
  }

  lemma {:induction false} BlockReads(block: seq<Line>, rest: seq<string>, current: KeyValueMap)
    requires forall l <- block :: l.Valid()
    ensures BlocksOf(LineTexts(block) + rest, current) == BlocksOf(rest, MapOf(block, current))
  {
    hide BlocksOf, Line.Text, Line.Valid;
    if block == [] {
      assert LineTexts(block) + rest == rest;
    } else {
      var l := block[0];
      var more := LineTexts(block[1..]) + rest;
      LineStep(l, more, current);
      BlockReads(block[1..], rest, current[l.key := l.value]);
      assert LineTexts(block) + rest == [l.Text()] + more;
    }
  }

  lemma {:induction false} LinesAreClean(block: seq<Line>)
    requires forall l <- block :: l.Valid()
    ensures forall t <- LineTexts(block) :: '\n' !in t
  {
    hide Trim, Find, Line.Text;
    if block != [] {
      LineReads(block[0]);
      LinesAreClean(block[1..]);
    }
  }

  lemma {:induction false} DocumentReads(blocks: seq<seq<Line>>)
    requires forall block <- blocks :: block != [] && forall l <- block :: l.Valid()
    ensures BlocksOf(Document(blocks), map[]) == Maps(blocks)
    ensures forall t <- Document(blocks) :: '\n' !in t
  {
    hide Trim, Find;
    if blocks != [] {
      var rest := [""] + Document(blocks[1..]);
      assert blocks[0] in blocks && forall block <- blocks[1..] :: block in blocks;
      DocumentReads(blocks[1..]);
      BlockReads(blocks[0], rest, map[]);
      LinesAreClean(blocks[0]);
      MapOfNotEmpty(blocks[0], map[]);
      Assoc(LineTexts(blocks[0]), [""], Document(blocks[1..]));
      assert rest[1..] == Document(blocks[1..]);
      assert Trim("") == "" by { TrimOfTrimmed(""); }
    }
  }

  lemma {:induction false} MapOfNotEmpty(block: seq<Line>, current: KeyValueMap)
    requires block != [] || current != map[]
    ensures MapOf(block, current) != map[]
  {
    if block != [] {
      assert block[0].key in current[block[0].key := block[0].value];
      MapOfNotEmpty(block[1..], current[block[0].key := block[0].value]);
    }
  }

  /** Rendering any list of non-empty blocks and parsing gives the same blocks in order. */
  lemma BlocksRoundTrip(blocks: seq<seq<Line>>)
    requires forall block <- blocks :: block != [] && forall l <- block :: l.Valid()
    ensures Blocks(Unlines(Document(blocks), '\n')) == Maps(blocks)
  {
    hide BlocksOf, Document, Unlines;
    DocumentReads(blocks);
    LinesUnlines(Document(blocks), '\n');
  }

  /** A block maps each of its keys to the value of the last line that has it, and leaves
      every other key alone. */
  lemma {:induction false} LastLineWins(block: seq<Line>, current: KeyValueMap)
    ensures forall key :: key in MapOf(block, current) <==> key in current || exists l <- block :: l.key == key
    ensures forall k | 0 <= k < |block| && LastLine(block, k) :: MapOf(block, current)[block[k].key] == block[k].value
    ensures forall key <- current | (forall l <- block :: l.key != key) :: MapOf(block, current)[key] == current[key]
  {
    if block != [] {
      var tail := block[1..];
      assert block == [block[0]] + tail;
      LastLineWins(tail, current[block[0].key := block[0].value]);
      assert forall k :: 0 < k < |block| && LastLine(block, k) ==> LastLine(tail, k - 1);
      if LastLine(block, 0) {
        forall l <- tail ensures l.key != block[0].key {
          var j :| 0 <= j < |tail| && tail[j] == l;
          assert block[j + 1] == l;
        }
      }
    }
  }

  ghost predicate LastLine(block: seq<Line>, k: nat)
    requires k < |block|
  {
    forall j :: k < j < |block| ==> block[j].key != block[k].key
  }

  /** With distinct keys, a block means exactly its pairs. */
  lemma DistinctKeys(block: seq<Line>)
    requires forall i, j :: 0 <= i < j < |block| ==> block[i].key != block[j].key
    ensures forall l <- block :: l.key in MapOf(block, map[]) && MapOf(block, map[])[l.key] == l.value
    ensures forall key :: key in MapOf(block, map[]) <==> exists l <- block :: l.key == key
  {
    LastLineWins(block, map[]);
    forall l <- block
      ensures l.key in MapOf(block, map[]) && MapOf(block, map[])[l.key] == l.value
    {
      var k :| 0 <= k < |block| && block[k] == l;
      assert LastLine(block, k);
    }
  }

  // os-release.

  /** The characters between double quotes: a backslash keeps the character after it. */
  function Unescaped(s: string): string {
    if s == "" then ""
    else if s[0] != '\\' then [s[0]] + Unescaped(s[1..])
    else if |s| == 1 then ""
    else [s[1]] + Unescaped(s[2..])
  }

  /** A value without its quotes: only equal quotes at both ends count. */
  function Unquoted(text: string): string {
    var value := Trim(text);
    if |value| < 2 || value[0] !in "\"'" || value[|value| - 1] != value[0] then value
    else if value[0] == '\'' then value[1..|value| - 1]
    else Unescaped(value[1..|value| - 1])
  }

  method UnquoteValue(text: string) returns (out: string)
    ensures out == Unquoted(text)
  {
    hide Trim, Unescaped, Pending;
    var value := Trim(text);
    if |value| < 2 {
      return value;
    }
    var quote := value[0];
    if (quote != '"' && quote != '\'') || value[|value| - 1] != quote {
      return value;
    }
    out := "";
    var escaped := false;
    ghost var inner := value[1..|value| - 1];
    assert inner[0..] == inner;
    PendingStarts(inner);
    for i := 1 to |value| - 1
      invariant escaped ==> quote == '"'
      invariant quote == '\'' ==> out == inner[..i - 1]
      invariant quote == '"' ==> out + Pending(inner[i - 1..], escaped) == Unescaped(inner)
    {
      var c := value[i];
      assert inner[i - 1..] == [c] + inner[i..];
      PendingStep(out, c, inner[i..], escaped);
      if escaped {
        out := out + [c];
        escaped := false;
      } else if quote == '"' && c == '\\' {
        escaped := true;
      } else {
        out := out + [c];
      }
    }
    PendingEnds(escaped);
    assert out + "" == out;
  }

  lemma PendingStarts(s: string)
    ensures "" + Pending(s, false) == Unescaped(s)
  {}

  lemma PendingEnds(escaped: bool)
    ensures Pending("", escaped) == ""
  {}

  /** One step of the escape automaton. */
  lemma PendingStep(out: string, c: char, rest: string, escaped: bool)
    ensures out + Pending([c] + rest, escaped) ==
            if !escaped && c == '\\' then out + Pending(rest, true) else (out + [c]) + Pending(rest, false)
  {
    assert ([c] + rest)[1..] == rest;
    Assoc(out, [c], Unescaped(rest));
  }

  /** What the rest of the text adds, after a backslash or not. */
  function Pending(rest: string, escaped: bool): string {
    if !escaped then Unescaped(rest) else if rest == "" then "" else [rest[0]] + Unescaped(rest[1..])
  }

  /** The assignments of a list of lines: comments, blank lines and lines without '=' are
      skipped, and a later assignment replaces an earlier one. */
  function Assigned(lines: seq<string>, values: KeyValueMap): KeyValueMap {
    if lines == [] then values
    else
      var line := Trim(lines[0]);
      if line == "" || line[0] == '#' then Assigned(lines[1..], values)
      else match Find(line, '=', 0)
        case None => Assigned(lines[1..], values)
        case Some(equals) =>
          Assigned(lines[1..], values[Trim(line[..equals]) := Unquoted(line[equals + 1..])])
  }

  method ParseOsRelease(text: string) returns (values: KeyValueMap)
    ensures values == Assigned(Lines(text, '\n'), map[])
  {
    hide Trim, Find, Unquoted, Lines;
    values := map[];
    var lines := Lines(text, '\n');
    assert lines[0..] == lines;
    for i := 0 to |lines|
      invariant Assigned(lines[i..], values) == Assigned(lines, map[])
    {
      assert lines[i..][1..] == lines[i + 1..];
      var line := Trim(lines[i]);
      if line == "" || line[0] == '#' {
        continue;
      }
      var equals := Find(line, '=', 0);
      if equals == None {
        continue;
      }
      var value := UnquoteValue(line[equals.value + 1..]);
      values := values[Trim(line[..equals.value]) := value];
    }
  }

  // Writing os-release.

  /** A backslash before every double quote and backslash. */
  function Backslashed(s: string): string {
    if s == "" then ""
    else (if s[0] in "\"\\" then ['\\', s[0]] else [s[0]]) + Backslashed(s[1..])
  }

  lemma {:induction false} UnescapedBackslashed(s: string)
    ensures Unescaped(Backslashed(s)) == s
    ensures forall c <- Backslashed(s) :: c == '\\' || c in s
  {
    if s != "" {
      UnescapedBackslashed(s[1..]);
      var t := Backslashed(s);
      if s[0] in "\"\\" {
        assert t[2..] == Backslashed(s[1..]);
      } else {
        assert t[1..] == Backslashed(s[1..]);
      }
      assert s == [s[0]] + s[1..];
    }
  }

  /** A text between two equal quotes. */
  predicate Delimited(t: string) {
    |t| >= 2 && t[0] in "\"'" && t[|t| - 1] == t[0]
  }

  /** Any other text is its own value, less white space around it. */
  lemma UnquotedPlain(text: string)
    requires !Delimited(Trim(text))
    ensures Unquoted(text) == Trim(text)
  {}

  /** A character between double quotes, with a backslash before it or not. */
  type Spelling = (char, bool)

  function Spelled(cs: seq<Spelling>): string {
    if cs == [] then "" else (if cs[0].1 then ['\\', cs[0].0] else [cs[0].0]) + Spelled(cs[1..])
  }

  function Spells(cs: seq<Spelling>): (r: string)
    ensures |r| == |cs| && forall i :: 0 <= i < |cs| ==> r[i] == cs[i].0
  {
    seq(|cs|, i requires 0 <= i < |cs| => cs[i].0)
  }

  /** A backslash keeps any character after it, and is dropped itself, also at the end. */
  lemma {:induction false} EscapesRead(cs: seq<Spelling>)
    requires forall c <- cs :: c.0 == '\\' ==> c.1
    ensures Unescaped(Spelled(cs)) == Spells(cs) == Unescaped(Spelled(cs) + "\\")
  {
    if cs != [] {
      EscapesRead(cs[1..]);
      var s, tail := Spelled(cs), Spelled(cs[1..]);
      assert cs[0] in cs;
      if cs[0].1 {
        assert s[2..] == tail && (s + "\\")[2..] == tail + "\\";
      } else {
        assert s[1..] == tail && (s + "\\")[1..] == tail + "\\";
      }
      assert Spells(cs) == [cs[0].0] + Spells(cs[1..]);
    }
  }

  /** Every text is spelled in this way, up to a backslash at its end. */
  lemma {:induction false} EverySpelling(s: string) returns (cs: seq<Spelling>, tail: string)
    ensures s == Spelled(cs) + tail && tail in {"", "\\"} && forall c <- cs :: c.0 == '\\' ==> c.1
  {
    if s == "" || s == "\\" {
      return [], s;
    }
    var n := if s[0] == '\\' then 2 else 1;
    var rest;
    rest, tail := EverySpelling(s[n..]);
    var c := (s[n - 1], n == 2);
    cs := [c] + rest;
    assert cs[1..] == rest && s == s[..n] + (Spelled(rest) + tail);
  }

  /** So this is the value of any text between double quotes. */
  lemma UnquotedSpelled(cs: seq<Spelling>, tail: string)
    requires tail in {"", "\\"} && forall c <- cs :: c.0 == '\\' ==> c.1
    ensures Unquoted("\"" + (Spelled(cs) + tail) + "\"") == Spells(cs)
  {
    hide Trim, Unescaped;
    var inner := Spelled(cs) + tail;
    var q := "\"" + inner + "\"";
    EscapesRead(cs);
    TrimOfTrimmed(q);
    assert q[1..|q| - 1] == inner;
    assert Spelled(cs) + "" == Spelled(cs);
  }

  datatype Style = Double | Single | Plain

  function QuotedValue(value: string, style: Style): string {
    match style
    case Double => "\"" + Backslashed(value) + "\""
    case Single => "'" + value + "'"
    case Plain => value
  }

  /** Either quoting is undone for every value, and a trimmed value without quotes around it
      needs none. */
  lemma UnquotedQuoted(value: string, style: Style)
    requires style == Plain ==> Trimmed(value) && !Delimited(value)
    ensures Trimmed(QuotedValue(value, style)) && Unquoted(QuotedValue(value, style)) == value
    ensures '\n' !in value ==> '\n' !in QuotedValue(value, style)
  {
    hide Trim, Unescaped;
    var q := QuotedValue(value, style);
    TrimOfTrimmed(q);
    UnescapedBackslashed(value);
    if style != Plain {
      assert q[1..|q| - 1] == if style == Single then value else Backslashed(value);
    }
  }

  /** The lines of a file: white space, comments, lines without '=', and assignments. */
  datatype Item =
    | Blank(spaces: string)
    | Comment(indent: string, text: string)
    | Bare(text: string)
    | Assignment(indent: string, key: string, value: string, style: Style, trailing: string)
  {
    function Text(): string {
      match this
      case Blank(spaces) => spaces
      case Comment(indent, text) => indent + "#" + text
      case Bare(text) => text
      case Assignment(indent, key, value, style, trailing) =>
        indent + (key + "=" + QuotedValue(value, style)) + trailing
    }

    ghost predicate Valid() {
      && '\n' !in Text()
      && match this
         case Blank(spaces) => AllSpace(spaces)
         case Comment(indent, _) => AllSpace(indent)
         case Bare(text) => '=' !in text
         case Assignment(indent, key, value, style, trailing) =>
           && AllSpace(indent) && AllSpace(trailing)
           && Trimmed(key) && '=' !in key && (key != "" ==> key[0] != '#')
           && (style == Plain ==> Trimmed(value) && !Delimited(value))
    }
  }

  function ItemTexts(items: seq<Item>): (r: seq<string>)
    ensures |r| == |items|
  {
    if items == [] then [] else [items[0].Text()] + ItemTexts(items[1..])
  }

  /** The last assignment to a key wins. */
  function Meaning(items: seq<Item>, values: KeyValueMap): KeyValueMap {
    if items == [] then values
    else if items[0].Assignment? then Meaning(items[1..], values[items[0].key := items[0].value])
    else Meaning(items[1..], values)
  }

  ghost predicate Assigns(item: Item, key: string) {
    item.Assignment? && item.key == key
  }

  ghost predicate AssignsAny(items: seq<Item>, key: string) {
    exists item <- items :: Assigns(item, key)
  }

  lemma AssignsCons(items: seq<Item>, key: string)
    requires items != []
    ensures AssignsAny(items, key) <==> Assigns(items[0], key) || AssignsAny(items[1..], key)
  {
    assert items == [items[0]] + items[1..];
  }

  /** What a file means for one key: the value of its last assignment, and what was there
      before when there is none. */
  lemma {:induction false} MeaningIs(items: seq<Item>, values: KeyValueMap, key: string)
    ensures key in Meaning(items, values) <==> key in values || AssignsAny(items, key)
    ensures key in values && !AssignsAny(items, key) ==> Meaning(items, values)[key] == values[key]
    ensures forall k | 0 <= k < |items| && Assigns(items[k], key) && !AssignsAny(items[k + 1..], key) ::
              key in Meaning(items, values) && Meaning(items, values)[key] == items[k].value
  {
    hide AssignsAny, Meaning;
    MeaningStep(items, values);
    if items == [] {
      NoAssigns(key);
    } else {
      var first, tail := items[0], items[1..];
      var next := if first.Assignment? then values[first.key := first.value] else values;
      AssignsCons(items, key);
      MeaningIs(tail, next, key);
      forall k | 0 <= k < |items| && Assigns(items[k], key) && !AssignsAny(items[k + 1..], key)
        ensures key in Meaning(tail, next) && Meaning(tail, next)[key] == items[k].value
      {
        if k > 0 {
          assert items[k] == tail[k - 1] && items[k + 1..] == tail[k..];
        }
      }
    }
  }

  lemma MeaningStep(items: seq<Item>, values: KeyValueMap)
    ensures items == [] ==> Meaning(items, values) == values
    ensures items != [] ==>
              Meaning(items, values) ==
              Meaning(items[1..], if items[0].Assignment? then values[items[0].key := items[0].value] else values)
  {}

  lemma NoAssigns(key: string)
    ensures !AssignsAny([], key)
  {}

  /** An assignment line is read back as its key and value. */
  lemma AssignmentReads(item: Item)
    requires item.Assignment? && item.Valid()
    ensures var line := Trim(item.Text());
            && line != "" && line[0] != '#'
            && var equals := Find(line, '=', 0);
            && equals == Some(|item.key|)
            && Trim(line[..equals.value]) == item.key
            && Unquoted(line[equals.value + 1..]) == item.value
  {
    hide Trim, Find, Unquoted;
    var q := QuotedValue(item.value, item.style);
    var core := item.key + ['='] + q;
    UnquotedQuoted(item.value, item.style);
    assert core[|core| - 1] == if q == "" then '=' else q[|q| - 1];
    assert core == item.key + "=" + q;
    TrimPad(item.indent, core, item.trailing);
    FindFirst(item.key, '=', q);
    assert core[..|item.key|] == item.key && core[|item.key| + 1..] == q;
    TrimOfTrimmed(item.key);
  }

  lemma SkippedReads(item: Item)
    requires !item.Assignment? && item.Valid()
    ensures var line := Trim(item.Text()); line == "" || line[0] == '#' || Find(line, '=', 0) == None
  {
    hide Trim;
    match item
    case Bare(text) => BareReads(text);
    case Blank(spaces) =>
      TrimPad(spaces, "", "");
      assert spaces + "" + "" == spaces;
    case Comment(indent, text) => CommentReads(indent, text);
  }

  lemma BareReads(text: string)
    requires '=' !in text
    ensures Find(Trim(text), '=', 0) == None
  {
    hide Trim, Find;
    var p, q := TrimSplits(text);
    assert forall c <- Trim(text) :: c in p + Trim(text) + q;
  }

  lemma CommentReads(indent: string, text: string)
    requires AllSpace(indent)
    ensures var line := Trim(indent + "#" + text); line != "" && line[0] == '#'
  {
    TrimLeftPad(indent, "#" + text);
    assert indent + "#" + text == indent + ("#" + text);
    var q := TrimRightSplits("#" + text);
    assert Trim(indent + "#" + text) + q == "#" + text;
  }

  lemma {:induction false} ItemsRead(items: seq<Item>, values: KeyValueMap)
    requires forall item <- items :: item.Valid()
    ensures Assigned(ItemTexts(items), values) == Meaning(items, values)
    ensures forall t <- ItemTexts(items) :: '\n' !in t
  {
    hide Trim, Find, Unquoted;
    if items != [] {
      var item := items[0];
      assert item in items && ItemTexts(items)[1..] == ItemTexts(items[1..]);
      if item.Assignment? {
        AssignmentReads(item);
        ItemsRead(items[1..], values[item.key := item.value]);
      } else {
        SkippedReads(item);
        ItemsRead(items[1..], values);
      }
    }
  }

  /** Any file of assignments, quoted in either way or not at all, and other lines parses to
      the last-assignment-wins map. */
  lemma OsReleaseRoundTrip(items: seq<Item>)
    requires forall item <- items :: item.Valid()
    ensures Assigned(Lines(Unlines(ItemTexts(items), '\n'), '\n'), map[]) == Meaning(items, map[])
  {
    hide Assigned, Unlines;
    ItemsRead(items, map[]);
    LinesUnlines(ItemTexts(items), '\n');
  }
}
