/** Category masks (include/aview.hh) and the two parsers of category lists: the command
    line's (tools/archspec-inspect.cc) and Python's (python/archspec_inspect/_native.cc). */
module Categories {
  import opened Text

  datatype Category =
    | Os | Cpu | Isa | Cache | Memory | Pci | Gpu | Perf | Block | Net | Thermal | Power
    | Virtualization | Platform

  /** A 64-bit mask is the set of its one bits; `|` and `&` are union and intersection. */
  type Mask = m: set<nat> | forall i <- m :: i < 64

  function Or(a: Mask, b: Mask): Mask {
    a + b
  }

  function And(a: Mask, b: Mask): Mask {
    a * b
  }

  const NONE: Mask := {}
  const ALL: Mask := set i: nat | i < 64
  /** The 14 bits that name a category. */
  const KNOWN: Mask := set i: nat | i < 14

  /** The table that the two parsers and the printer share, in its order. */
  const TABLE: seq<Category> := [
    Os, Cpu, Isa, Cache, Memory, Pci, Gpu, Perf, Block, Net, Thermal, Power, Virtualization, Platform
  ]

  /** The position of a category's bit. */
  function Index(c: Category): (i: nat)
    ensures i < 14 && TABLE[i] == c
  {
    match c
    case Os => 0
    case Cpu => 1
    case Isa => 2
    case Cache => 3
    case Memory => 4
    case Pci => 5
    case Gpu => 6
    case Perf => 7
    case Block => 8
    case Net => 9
    case Thermal => 10
    case Power => 11
    case Virtualization => 12
    case Platform => 13
  }

  function Bit(c: Category): Mask {
    {Index(c)}
  }

  function Name(c: Category): string {
    match c
    case Os => "os"
    case Cpu => "cpu"
    case Isa => "isa"
    case Cache => "cache"
    case Memory => "memory"
    case Pci => "pci"
    case Gpu => "gpu"
    case Perf => "perf"
    case Block => "block"
    case Net => "net"
    case Thermal => "thermal"
    case Power => "power"
    case Virtualization => "virtualization"
    case Platform => "platform"
  }

  predicate HasCategory(flags: Mask, c: Category) {
    And(flags, Bit(c)) != NONE
  }

  lemma NameInjective(c: Category, d: Category)
    requires Name(c) == Name(d)
    ensures c == d
  {
    assert |Name(c)| == |Name(d)| && Name(c)[0] == Name(d)[0] && Name(c)[1] == Name(d)[1];
  }

  ghost predicate IsName(name: string) {
    exists c: Category :: Name(c) == name
  }

  /** The category with a given name. */
  ghost function Named(name: string): (c: Category)
    requires IsName(name)
    ensures Name(c) == name
  {
    var c :| Name(c) == name;
    c
  }

  /** The words that mean something else, or nothing, are no names. */
  lemma NameFacts(c: Category)
    ensures Name(c) !in {"", "all", "none"} && ',' !in Name(c)
  {
    assert |Name(c)| > 1 && Name(c)[0] != 'a';
    assert Name(c)[0] == 'n' ==> c == Net;
  }

  lemma NoNames()
    ensures !IsName("") && !IsName("none") && !IsName("all")
  {
    forall c: Category ensures Name(c) !in {"", "all", "none"} {
      NameFacts(c);
    }
  }

  lemma HasIsMember(flags: Mask, c: Category)
    ensures HasCategory(flags, c) <==> Index(c) in flags
  {
    assert Index(c) in flags ==> Index(c) in And(flags, Bit(c));
  }

  /** The known part of a mask is determined by the categories it has. */
  lemma KnownBits(a: Mask, b: Mask)
    requires forall c :: HasCategory(a, c) <==> HasCategory(b, c)
    ensures And(a, KNOWN) == And(b, KNOWN)
  {
    forall i: nat | i < 14
      ensures i in a <==> i in b
    {
      assert Index(TABLE[i]) == i;
      HasIsMember(a, TABLE[i]);
      HasIsMember(b, TABLE[i]);
      assert HasCategory(a, TABLE[i]) <==> HasCategory(b, TABLE[i]);
    }
  }

  // What a list of names means.

  /** The first piece that no category has for its name, if any. */
  ghost function FirstUnknown(names: seq<string>): Option<string> {
    if names == [] then None
    else if !IsName(names[0]) then Some(names[0])
    else FirstUnknown(names[1..])
  }

  /** The OR of the bits of all names before the first unknown one. */
  ghost function BitsOf(names: seq<string>): Mask {
    if names == [] || !IsName(names[0]) then NONE
    else Or(Bit(Named(names[0])), BitsOf(names[1..]))
  }

  lemma {:induction false} UnknownIsFirst(names: seq<string>)
    ensures FirstUnknown(names).None? <==> forall name <- names :: IsName(name)
    ensures FirstUnknown(names).Some? ==> FirstUnknown(names).value in names && !IsName(FirstUnknown(names).value)
  {
    if names != [] {
      UnknownIsFirst(names[1..]);
      assert names == [names[0]] + names[1..];
    }
  }

  /** The unknown name is the first one, and the mask is that of the names before it. */
  lemma {:induction false} UnknownAt(names: seq<string>, k: nat)
    requires k < |names| && !IsName(names[k]) && forall j :: 0 <= j < k ==> IsName(names[j])
    ensures FirstUnknown(names) == Some(names[k]) && BitsOf(names) == BitsOf(names[..k])
  {
    hide IsName, Bit;
    if k == 0 {
      assert names[..0] == [];
    } else {
      assert forall j :: 0 <= j < k - 1 ==> names[1..][j] == names[j + 1];
      UnknownAt(names[1..], k - 1);
      assert names[..k][1..] == names[1..][..k - 1];
    }
  }

  /** The OR has exactly the named categories, in any order and repetition, and no other
      bit. */
  lemma {:induction false} BitsOfNames(names: seq<string>)
    requires forall name <- names :: IsName(name)
    ensures forall c :: HasCategory(BitsOf(names), c) <==> Name(c) in names
    ensures BitsOf(names) <= KNOWN
  {
    if names != [] {
      BitsOfNames(names[1..]);
      assert names == [names[0]] + names[1..] && names[0] in names;
      var first := Named(names[0]);
      forall c
        ensures HasCategory(BitsOf(names), c) <==> Name(c) in names
      {
        HasIsMember(BitsOf(names), c);
        HasIsMember(BitsOf(names[1..]), c);
        if Name(c) == names[0] {
          NameInjective(c, first);
        }
        assert Index(c) == Index(first) ==> TABLE[Index(c)] == TABLE[Index(first)];
      }
    }
  }

  /** The loop over the table that both parsers run for one name. */
  method FindEntry(table: seq<Category>, name: string) returns (r: Option<Category>)
    ensures r.Some? ==> Name(r.value) == name
    ensures r.None? ==> forall c <- table :: Name(c) != name
  {
    for i := 0 to |table|
      invariant forall k :: 0 <= k < i ==> Name(table[k]) != name
    {
      if name == Name(table[i]) {
        return Some(table[i]);
      }
    }
    return None;
  }

  /** `add_category` in _native.cc, and the body of the command line's loop. */
  method AddCategory(name: string, categories0: Mask) returns (found: bool, categories: Mask)
    ensures found <==> IsName(name)
    ensures categories == if found then Or(categories0, Bit(Named(name))) else categories0
  {
    var entry := FindEntry(TABLE, name);
    if entry == None {
      forall c: Category ensures Name(c) != name {
        assert TABLE[Index(c)] == c;
      }
      return false, categories0;
    }
    NameInjective(entry.value, Named(name));
    return true, Or(categories0, Bit(entry.value));
  }

  // The command line.

  /** `parse_categories` of tools/archspec-inspect.cc: on failure the mask keeps what was
      read before the bad name. */
  method ParseCategories(text: string, selected0: Mask, error0: string)
    returns (ok: bool, selected: Mask, error: string)
    ensures text == "all" ==> ok && selected == ALL
    ensures text == "none" || text == "" ==> !ok && selected == selected0 && error == EMPTY_LIST
    ensures text !in {"all", "none", ""} ==>
              var unknown := FirstUnknown(Lines(text, ','));
              && (ok <==> unknown == None)
              && selected == BitsOf(Lines(text, ','))
              && (!ok ==> error == "unknown category '" + unknown.value + "'")
    ensures ok ==> error == error0
  {
    ok, selected, error := true, selected0, error0;
    if text == "all" {
      selected := ALL;
      return;
    }
    if text == "none" || text == "" {
      return false, selected, EMPTY_LIST;
    }
    selected := NONE;
    var names := Lines(text, ',');
    assert names[0..] == names;
    for i := 0 to |names|
      invariant ok && error == error0
      invariant FirstUnknown(names[i..]) == FirstUnknown(names)
      invariant Or(selected, BitsOf(names[i..])) == BitsOf(names)
    {
      var found;
      found, selected := AddCategory(names[i], selected);
      if !found {
        return false, selected, "unknown category '" + names[i] + "'";
      }
    }
  }

  const EMPTY_LIST := "category list must contain at least one category"

  /** The mask that the command line accepts a text with. */
  ghost function CliMask(text: string): Option<Mask> {
    if text == "all" then Some(ALL)
    else if text == "none" || text == "" || FirstUnknown(Lines(text, ',')) != None then None
    else Some(BitsOf(Lines(text, ',')))
  }

  // Python.

  datatype PythonError = EmptyName | UnknownName(name: string)

  /** The errors of the string branch, at the first piece that is empty or unknown. */
  ghost function PythonErrorOf(names: seq<string>): Option<PythonError> {
    if names == [] then None
    else if names[0] == "" then Some(EmptyName)
    else if names[0] != "all" && !IsName(names[0]) then Some(UnknownName(names[0]))
    else PythonErrorOf(names[1..])
  }

  /** The error is that of the first bad piece, and there is none exactly when all pieces
      are good. */
  lemma {:induction false} PythonErrorAt(names: seq<string>, k: nat)
    requires k <= |names| && forall j :: 0 <= j < k ==> names[j] == "all" || IsName(names[j])
    ensures k == |names| ==> PythonErrorOf(names) == None
    ensures k < |names| && names[k] == "" ==> PythonErrorOf(names) == Some(EmptyName)
    ensures k < |names| && names[k] !in {"", "all"} && !IsName(names[k]) ==>
              PythonErrorOf(names) == Some(UnknownName(names[k]))
  {
    NoNames();
    if k > 0 {
      assert forall j :: 0 <= j < k - 1 ==> names[1..][j] == names[j + 1];
      PythonErrorAt(names[1..], k - 1);
    }
  }

  /** The mask after a list of good names, starting from `before`. */
  ghost function PythonBits(names: seq<string>, before: Mask): Mask {
    if names == [] || (names[0] != "all" && !IsName(names[0])) then before
    else if names[0] == "all" then PythonBits(names[1..], ALL)
    else PythonBits(names[1..], Or(before, Bit(Named(names[0]))))
  }

  method ParseCategoryName(name: string, categories0: Mask) returns (categories: Mask, error: Option<PythonError>)
    ensures PythonErrorOf([name]) == error
    ensures error == None ==> categories == PythonBits([name], categories0)
  {
    assert [name][1..] == [];
    if name == "" {
      return categories0, Some(EmptyName);
    }
    if name == "all" {
      return ALL, None;
    }
    var found, added := AddCategory(name, categories0);
    if !found {
      return added, Some(UnknownName(name));
    }
    return added, None;
  }

  lemma PythonNothing()
    ensures PythonErrorOf([]) == None && forall m: Mask :: PythonBits([], m) == m
  {}

  lemma PythonStep(name: string, rest: seq<string>, before: Mask)
    ensures PythonErrorOf([name] + rest) ==
            if PythonErrorOf([name]) != None then PythonErrorOf([name]) else PythonErrorOf(rest)
    ensures PythonErrorOf([name]) == None ==>
              PythonBits([name] + rest, before) == PythonBits(rest, PythonBits([name], before))
    ensures [name] + [] == [name]
  {
    assert ([name] + rest)[1..] == rest && [name][1..] == [];
  }

  /** The string branch of `parse_categories` in _native.cc. */
  method ParsePythonCategories(names: string) returns (categories: Mask, error: Option<PythonError>)
    ensures error == PythonErrorOf(Split(names, ','))
    ensures error == None ==> categories == PythonBits(Split(names, ','), NONE)
  {
    hide PythonErrorOf, PythonBits, Split, Find;
    categories, error := NONE, None;
    var start := 0;
    assert names[0..] == names;
    PythonNothing();
    while start <= |names|
      invariant start <= |names|
      invariant PythonErrorOf(Split(names[start..], ',')) == PythonErrorOf(Split(names, ','))
      invariant PythonBits(Split(names[start..], ','), categories) == PythonBits(Split(names, ','), NONE)
      decreases |names| - start
    {
      var comma := Find(names, ',', start);
      var name := if comma == None then names[start..] else names[start..comma.value];
      SplitStep(names, ',', start);
      ghost var tail := if comma == None then [] else Split(names[comma.value + 1..], ',');
      assert Split(names[start..], ',') == [name] + tail;
      PythonStep(name, tail, categories);
      categories, error := ParseCategoryName(name, categories);
      if error != None {
        return;
      }
      if comma == None {
        return;
      }
      start := comma.value + 1;
    }
  }

  /** The mask that Python accepts a text with. */
  ghost function PythonMask(text: string): Option<Mask> {
    if PythonErrorOf(Split(text, ',')) != None then None
    else Some(PythonBits(Split(text, ','), NONE))
  }

  // The two parsers agree.

  /** A text without one trailing comma: `getline` does not see that comma, and the
      Python loop reads an empty name after it. */
  function Chopped(text: string): string {
    if text != "" && text[|text| - 1] == ',' then text[..|text| - 1] else text
  }

  lemma LinesAreChopped(text: string)
    requires text != ""
    ensures Lines(text, ',') == Split(Chopped(text), ',')
  {
    LinesSplit(text, ',');
    SplitLast(text, ',');
    if text[|text| - 1] == ',' {
      SplitSnoc(Chopped(text), ',');
      assert Chopped(text) + "," == text;
    }
  }

  lemma {:induction false} PythonReads(names: seq<string>, before: Mask)
    requires "all" !in names
    ensures PythonErrorOf(names) == None <==> FirstUnknown(names) == None
    ensures FirstUnknown(names) == None ==> PythonBits(names, before) == Or(before, BitsOf(names))
  {
    if names != [] {
      NoNames();
      PythonReads(names[1..], if IsName(names[0]) then Or(before, Bit(Named(names[0]))) else before);
    }
  }

  /** Away from the token "all", the command line reads a text exactly as Python reads it
      less one trailing comma: same acceptance, same mask. */
  lemma ParsersAgree(text: string)
    requires "all" !in Split(text, ',')
    ensures CliMask(text) == PythonMask(Chopped(text))
  {
    if text == "" || text == "none" {
      NoSelection(text);
    } else {
      SplitNone("all", ',');
      LinesAreChopped(text);
      LinesSplit(text, ',');
      PythonReads(Lines(text, ','), NONE);
      OrNone(BitsOf(Lines(text, ',')));
    }
  }

  lemma OrNone(m: Mask)
    ensures Or(NONE, m) == m
  {}

  lemma NoSelection(text: string)
    requires text == "" || text == "none"
    ensures CliMask(text) == None && PythonMask(Chopped(text)) == None
  {
    NoNames();
    SplitNone(text, ',');
    assert Chopped(text) == text;
    assert PythonErrorOf([text]) != None;
  }

  /** So what Python accepts without "all", the command line accepts with the same mask. */
  lemma PythonImpliesCli(text: string)
    requires "all" !in Split(text, ',') && PythonMask(text).Some?
    ensures CliMask(text) == PythonMask(text)
  {
    ParsersAgree(text);
    SplitLast(text, ',');
    PythonReads(Split(text, ','), NONE);
    UnknownIsFirst(Split(text, ','));
    NoNames();
  }

  /** With the token "all", Python accepts any list of good names as the full mask, and
      the command line accepts only the text "all" itself. */
  lemma AllToken(text: string)
    requires "all" in Split(text, ',')
    ensures CliMask(text) == if text == "all" then Some(ALL) else None
    ensures PythonMask(text) == if forall name <- Split(text, ',') :: name == "all" || IsName(name)
                                then Some(ALL) else None
  {
    hide IsName, Split, Lines, FirstUnknown, BitsOf, PythonErrorOf, PythonBits, ALL;
    PythonAll(Split(text, ','), NONE);
    AllIsUnknown(text);
  }

  lemma AllIsUnknown(text: string)
    requires "all" in Split(text, ',')
    ensures FirstUnknown(Lines(text, ',')) != None
  {
    hide IsName, Split, Lines;
    var pieces := Split(text, ',');
    LinesSplit(text, ',');
    NoNames();
    var k :| 0 <= k < |pieces| && pieces[k] == "all";
    assert Lines(text, ',')[k] == "all";
    UnknownIsFirst(Lines(text, ','));
  }

  /** The two agree on a text exactly when it is "all", or some piece is no name, or a
      trailing comma and the token "all" come together or not at all. */
  lemma ParsersAgreeExactly(text: string)
    ensures CliMask(text) == PythonMask(text) <==>
            || text == "all"
            || (exists name <- Lines(text, ',') :: name != "all" && !IsName(name))
            || (Chopped(text) != text <==> "all" in Split(text, ','))
  {
    if "all" in Split(text, ',') {
      AllAgree(text);
    } else {
      PlainAgree(text);
      SplitNone("all", ',');
    }
  }

  lemma ChoppedIs(text: string)
    ensures Chopped(text) != text <==> text != "" && text[|text| - 1] == ','
  {
    assert Chopped(text) != text ==> |Chopped(text)| < |text|;
  }

  /** With the token "all", the lists that only Python takes are those of good names. */
  lemma AllAgree(text: string)
    requires "all" in Split(text, ',')
    ensures CliMask(text) == PythonMask(text) <==>
            || text == "all"
            || (exists name <- Lines(text, ',') :: name != "all" && !IsName(name))
            || Chopped(text) != text
  {
    hide IsName, Split, Lines, Chopped, CliMask, PythonMask, ALL;
    var pieces := Split(text, ',');
    AllToken(text);
    LinesSplit(text, ',');
    SplitLast(text, ',');
    ChoppedIs(text);
    GoodPieces(pieces);
    SplitNone("", ',');
    if text == "all" {
      SplitNone("all", ',');
    }
  }

  lemma GoodPieces(pieces: seq<string>)
    requires pieces != []
    ensures var front, last := pieces[..|pieces| - 1], pieces[|pieces| - 1];
            (forall name <- pieces :: name == "all" || IsName(name)) <==>
            last != "" && (last == "all" || IsName(last)) && forall name <- front :: name == "all" || IsName(name)
  {
    hide IsName;
    NoNames();
    var front, last := pieces[..|pieces| - 1], pieces[|pieces| - 1];
    assert pieces == front + [last];
  }

  /** Without the token "all", a trailing comma alone divides them. */
  lemma PlainAgree(text: string)
    requires "all" !in Split(text, ',')
    ensures CliMask(text) == PythonMask(text) <==>
            (exists name <- Lines(text, ',') :: name != "all" && !IsName(name)) || Chopped(text) == text
  {
    hide IsName, Split, Lines, BitsOf, PythonErrorOf, PythonBits, FirstUnknown;
    ParsersAgree(text);
    if Chopped(text) != text {
      LinesSplit(text, ',');
      SplitLast(text, ',');
      NoNames();
      SplitNone("all", ',');
      UnknownIsFirst(Split(text, ','));
      UnknownIsFirst(Lines(text, ','));
      PythonReads(Split(text, ','), NONE);
      assert Split(text, ',')[|Split(text, ',')| - 1] in Split(text, ',');
      CommaText(text);
    }
  }

  lemma CommaText(text: string)
    requires Chopped(text) != text
    ensures text !in {"", "all", "none"}
  {}

  /** The command line takes a trailing comma, and Python does not. */
  lemma TrailingComma()
    ensures CliMask("os,") == Some(Bit(Os)) && PythonMask("os,") == None
  {
    SplitNone("os", ',');
    SplitFirst("os", ',', "");
    LinesFirst("os", ',', "");
    assert "os" + "," + "" == "os,";
    SplitNone("", ',');
    NoNames();
    NamedOs();
    assert ["os"][1..] == [] && ["os", ""][1..] == [""];
    assert Lines("os,", ',') == ["os"] && Split("os,", ',') == ["os", ""];
    assert FirstUnknown(["os"]) == None && BitsOf(["os"]) == Bit(Os);
    assert PythonErrorOf([""]) == Some(EmptyName);
    assert PythonErrorOf(["os", ""]) == Some(EmptyName);
  }

  lemma NamedOs()
    ensures IsName("os") && Named("os") == Os
  {
    assert Name(Os) == "os";
    NameInjective(Named("os"), Os);
  }

  lemma {:induction false} PythonAll(names: seq<string>, before: Mask)
    ensures PythonErrorOf(names) == None <==> forall name <- names :: name == "all" || IsName(name)
    ensures PythonErrorOf(names) == None && ("all" in names || before == ALL) ==> PythonBits(names, before) == ALL
  {
    NoNames();
    if names != [] {
      var after := if names[0] == "all" then ALL
        else if IsName(names[0]) then Or(before, Bit(Named(names[0])))
        else before;
      PythonAll(names[1..], after);
      assert names == [names[0]] + names[1..];
    }
  }

  // Printing and re-reading.

  /** The categories of a mask in table order, which is the order of every report. */
  function Selected(mask: Mask, table: seq<Category>): (r: seq<Category>)
    ensures forall c :: c in r <==> c in table && HasCategory(mask, c)
  {
    if table == [] then []
    else if HasCategory(mask, table[0]) then [table[0]] + Selected(mask, table[1..])
    else Selected(mask, table[1..])
  }

  function Names(cs: seq<Category>): (r: seq<string>)
    ensures |r| == |cs| && forall i :: 0 <= i < |cs| ==> r[i] == Name(cs[i])
  {
    seq(|cs|, i requires 0 <= i < |cs| => Name(cs[i]))
  }

  /** Joining the names printed for a mask with a known bit and reading them again gives
      the mask cut to the known bits. */
  lemma NamesRoundTrip(mask: Mask)
    requires And(mask, KNOWN) != NONE
    ensures CliMask(Join(Names(Selected(mask, TABLE)), ",")) == Some(And(mask, KNOWN))
    ensures PythonMask(Join(Names(Selected(mask, TABLE)), ",")) == Some(And(mask, KNOWN))
  {
    var cs := Selected(mask, TABLE);
    var i :| i in And(mask, KNOWN);
    HasIsMember(mask, TABLE[i]);
    assert Index(TABLE[i]) == i && TABLE[i] in cs;
    NamesAreNames(cs);
    SplitJoin(Names(cs), ',');
    NamesMean(mask, cs);
    PythonReads(Names(cs), NONE);
    UnknownIsFirst(Names(cs));
    OrNone(And(mask, KNOWN));
    PythonImpliesCli(Join(Names(cs), ","));
  }

  lemma NamesAreNames(cs: seq<Category>)
    ensures forall name <- Names(cs) :: IsName(name) && ',' !in name && name != "all"
  {
    forall name <- Names(cs)
      ensures IsName(name) && ',' !in name && name != "all"
    {
      var k :| 0 <= k < |cs| && name == Name(cs[k]);
      NameFacts(cs[k]);
    }
  }

  lemma NamesMean(mask: Mask, cs: seq<Category>)
    requires cs == Selected(mask, TABLE)
    ensures BitsOf(Names(cs)) == And(mask, KNOWN)
  {
    var names := Names(cs);
    NamesAreNames(cs);
    BitsOfNames(names);
    forall c: Category
      ensures HasCategory(BitsOf(names), c) <==> HasCategory(mask, c)
    {
      assert TABLE[Index(c)] == c;
      if Name(c) in names {
        var k :| 0 <= k < |cs| && Name(c) == Name(cs[k]);
        NameInjective(c, cs[k]);
      }
      if c in cs {
        var k :| 0 <= k < |cs| && cs[k] == c;
        assert names[k] == Name(c);
      }
    }
    KnownBits(BitsOf(names), mask);
    assert And(BitsOf(names), KNOWN) == BitsOf(names);
  }

  /** The printed categories depend on the known bits alone, and none is repeated. */
  lemma {:induction false} SelectedKnown(a: Mask, b: Mask, table: seq<Category>)
    requires And(a, KNOWN) == And(b, KNOWN)
    ensures Selected(a, table) == Selected(b, table)
  {
    if table != [] {
      HasIsMember(a, table[0]);
      HasIsMember(b, table[0]);
      var i := Index(table[0]);
      assert i in a <==> i in And(a, KNOWN);
      assert i in b <==> i in And(b, KNOWN);
      SelectedKnown(a, b, table[1..]);
    }
  }

  lemma {:induction false} SelectedDistinct(mask: Mask, table: seq<Category>)
    requires Distinct(table)
    ensures Distinct(Selected(mask, table))
  {
    if table != [] {
      forall c <- table[1..] ensures c != table[0] {
        var k :| 0 <= k < |table[1..]| && table[1..][k] == c;
        assert table[k + 1] == c;
      }
      SelectedDistinct(mask, table[1..]);
      DistinctCons(table[0], Selected(mask, table[1..]));
    }
  }

  ghost predicate InBitOrder(cs: seq<Category>) {
    forall i, j :: 0 <= i < j < |cs| ==> Index(cs[i]) < Index(cs[j])
  }

  lemma OrderTail(cs: seq<Category>)
    requires cs != [] && InBitOrder(cs)
    ensures InBitOrder(cs[1..]) && forall c <- cs[1..] :: Index(cs[0]) < Index(c)
  {
    hide Index;
    var tail := cs[1..];
    assert forall i :: 0 <= i < |tail| ==> tail[i] == cs[i + 1];
    forall c <- tail ensures Index(cs[0]) < Index(c) {
      var k :| 0 <= k < |tail| && tail[k] == c;
      assert cs[k + 1] == c;
    }
  }

  lemma OrderCons(c: Category, cs: seq<Category>)
    requires InBitOrder(cs) && forall d <- cs :: Index(c) < Index(d)
    ensures InBitOrder([c] + cs)
  {
    hide Index;
    var all := [c] + cs;
    forall i, j | 0 <= i < j < |all| ensures Index(all[i]) < Index(all[j]) {
      assert all[j] == cs[j - 1] && cs[j - 1] in cs;
      assert i > 0 ==> all[i] == cs[i - 1];
    }
  }

  lemma {:induction false} SelectedOrdered(mask: Mask, table: seq<Category>)
    requires InBitOrder(table)
    ensures InBitOrder(Selected(mask, table))
  {
    hide HasCategory, Index, InBitOrder;
    if table != [] {
      OrderTail(table);
      SelectedOrdered(mask, table[1..]);
      if HasCategory(mask, table[0]) {
        OrderCons(table[0], Selected(mask, table[1..]));
      }
    }
  }

  /** Every report lists its categories in the order of their bits. */
  lemma SelectedInOrder(mask: Mask)
    ensures InBitOrder(Selected(mask, TABLE))
  {
    hide Selected;
    assert forall i :: 0 <= i < |TABLE| ==> Index(TABLE[i]) == i;
    SelectedOrdered(mask, TABLE);
  }

  lemma TableDistinct()
    ensures Distinct(TABLE) && forall c: Category :: c in TABLE
  {
    forall c: Category ensures c in TABLE {
      assert TABLE[Index(c)] == c;
    }
    forall i, j | 0 <= i < j < |TABLE| ensures TABLE[i] != TABLE[j] {
      assert Index(TABLE[i]) == i && Index(TABLE[j]) == j;
    }
  }
}
