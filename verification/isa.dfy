/** `riscv_has_extension` and `collect_isa` of src/isa.cc. */
module IsaCollector {
  import opened Text
  import opened Numbers
  import opened Fields
  import opened KeyValues
  import opened Readers
  import opened JsonGrammar
  import opened JsonPrinter

  /** `string::find` of a text: whether, and where first, it occurs. */
  predicate OccursAt(s: string, pattern: string, i: nat) {
    i + |pattern| <= |s| && s[i..i + |pattern|] == pattern
  }

  function FindText(s: string, pattern: string, start: nat): (r: Option<nat>)
    requires start <= |s|
    ensures r.Some? ==> start <= r.value <= r.value + |pattern| <= |s| && OccursAt(s, pattern, r.value)
    ensures r.Some? ==> forall i :: start <= i < r.value ==> !OccursAt(s, pattern, i)
    ensures r.None? ==> forall i :: start <= i ==> !OccursAt(s, pattern, i)
    decreases |s| - start
  {
    if OccursAt(s, pattern, start) then Some(start)
    else if start == |s| then None
    else FindText(s, pattern, start + 1)
  }

  function RiscvHasExtension(isa: string, extension: char): bool {
    var lower := Lower(isa);
    var found := if FindText(lower, "rv32", 0).Some? then FindText(lower, "rv32", 0) else FindText(lower, "rv64", 0);
    if found == None then false
    else
      var start := found.value + 4;
      var end := Find(lower, '_', start);
      var base := if end == None then lower[start..] else lower[start..end.value];
      ('g' in base && extension in "imafd") || extension in base || FindText(lower, "_" + [extension], 0).Some?
  }

  // RISC-V ISA strings.

  lemma LowerConcat(a: string, b: string)
    ensures Lower(a + b) == Lower(a) + Lower(b)
  {}

  lemma LowerHas(s: string, c: char)
    ensures c !in s && (c < 'A' || c > 'Z') && (c < 'a' || c > 'z') ==> c !in Lower(s)
  {
    forall k | 0 <= k < |s| ensures s[k] in s {}
  }

  function Lowers(parts: seq<string>): (r: seq<string>)
    ensures |r| == |parts| && forall i :: 0 <= i < |parts| ==> r[i] == Lower(parts[i])
  {
    seq(|parts|, i requires 0 <= i < |parts| => Lower(parts[i]))
  }

  lemma {:induction false} LowerJoin(parts: seq<string>)
    ensures Lower(Join(parts, "_")) == Join(Lowers(parts), "_")
  {
    if |parts| > 1 {
      LowerJoin(parts[1..]);
      LowerConcat(parts[0] + "_", Join(parts[1..], "_"));
      LowerConcat(parts[0], "_");
      assert Lowers(parts)[1..] == Lowers(parts[1..]);
    }
  }

  /** What follows the first occurrence of a pattern, up to the end of its piece. */
  function After(pieces: seq<string>, pattern: string): Option<string> {
    if pieces == [] then None
    else match FindText(pieces[0], pattern, 0)
      case Some(i) => Some(pieces[0][i + |pattern|..])
      case None => After(pieces[1..], pattern)
  }

  /** The text from a position up to the next separator. */
  function UpTo(s: string, start: nat): string
    requires start <= |s|
  {
    match Find(s, '_', start)
    case None => s[start..]
    case Some(end) => s[start..end]
  }

  lemma FindTextIs(s: string, pattern: string, i: nat)
    requires OccursAt(s, pattern, i) && forall k :: 0 <= k < i ==> !OccursAt(s, pattern, k)
    ensures FindText(s, pattern, 0) == Some(i)
  {
    assert FindText(s, pattern, 0).Some? ==> FindText(s, pattern, 0).value == i;
  }

  /** An occurrence in a joined text is one in the first piece or one in the rest. */
  lemma OccursInParts(p: string, rest: string, pattern: string, i: nat)
    requires pattern != "" && '_' !in pattern
    ensures OccursAt(p + "_" + rest, pattern, i) <==>
            if i <= |p| then OccursAt(p, pattern, i) else OccursAt(rest, pattern, i - |p| - 1)
  {
    var s, end := p + "_" + rest, i + |pattern|;
    if end <= |p| {
      assert s[i..end] == p[i..end];
    } else if end <= |s| {
      if i <= |p| {
        assert s[i..end][|p| - i] == '_' && pattern[|p| - i] in pattern;
      } else {
        assert s[i..end] == rest[i - |p| - 1..end - |p| - 1];
      }
    }
  }

  lemma FindInParts(p: string, rest: string, pattern: string)
    requires pattern != "" && '_' !in pattern
    ensures FindText(p + "_" + rest, pattern, 0) ==
            match FindText(p, pattern, 0)
            case Some(i) => Some(i)
            case None =>
              match FindText(rest, pattern, 0)
              case Some(i) => Some(|p| + 1 + i)
              case None => None
  {
    hide OccursAt;
    var s := p + "_" + rest;
    forall i: nat
      ensures OccursAt(s, pattern, i) <==>
              if i <= |p| then OccursAt(p, pattern, i) else OccursAt(rest, pattern, i - |p| - 1)
    {
      OccursInParts(p, rest, pattern, i);
    }
    match FindText(p, pattern, 0)
    case Some(i) =>
      FindTextIs(s, pattern, i);
    case None =>
      match FindText(rest, pattern, 0)
      case Some(i) => FindTextIs(s, pattern, |p| + 1 + i);
      case None => assert forall i: nat :: !OccursAt(s, pattern, i);
  }

  lemma FindIs(s: string, c: char, start: nat, end: nat)
    requires start <= end < |s| && s[end] == c && c !in s[start..end]
    ensures Find(s, c, start) == Some(end)
  {
    assert forall k :: start <= k < end ==> s[k] == s[start..end][k - start];
  }

  lemma UpToFirst(p: string, rest: string, start: nat)
    requires '_' !in p && start <= |p|
    ensures UpTo(p, start) == p[start..] == UpTo(p + "_" + rest, start)
  {
    hide Find;
    var s := p + "_" + rest;
    assert s[start..|p|] == p[start..];
    FindIs(s, '_', start, |p|);
    assert forall k :: start <= k < |p| ==> p[k] in p;
  }

  lemma UpToRest(p: string, rest: string, start: nat)
    requires start <= |rest|
    ensures UpTo(p + "_" + rest, |p| + 1 + start) == UpTo(rest, start)
  {
    hide Find;
    var s, at := p + "_" + rest, |p| + 1;
    assert s[at + start..] == rest[start..];
    match Find(rest, '_', start)
    case None =>
      assert forall k :: at + start <= k < |s| ==> s[k] == rest[k - at];
    case Some(end) =>
      assert s[at + start..at + end] == rest[start..end];
      FindIs(s, '_', at + start, at + end);
  }

  lemma JoinFirst(pieces: seq<string>)
    requires pieces != []
    ensures Join(pieces, "_") == if |pieces| == 1 then pieces[0] else pieces[0] + "_" + Join(pieces[1..], "_")
  {}

  /** Searching a joined text for a pattern without the separator is searching its pieces
      in order. */
  lemma {:induction false} FindInJoin(pieces: seq<string>, pattern: string)
    requires pattern != "" && '_' !in pattern && pieces != [] && forall p <- pieces :: '_' !in p
    ensures var s := Join(pieces, "_");
            match FindText(s, pattern, 0)
            case None => After(pieces, pattern) == None
            case Some(i) => i + |pattern| <= |s| && After(pieces, pattern) == Some(UpTo(s, i + |pattern|))
  {
    hide UpTo, FindText, OccursAt, Join;
    var p := pieces[0];
    assert p in pieces;
    var own := FindText(p, pattern, 0);
    JoinFirst(pieces);
    if |pieces| == 1 {
      if own.Some? {
        UpToFirst(p, "", own.value + |pattern|);
      }
    } else {
      var rest := Join(pieces[1..], "_");
      assert forall q <- pieces[1..] :: q in pieces;
      FindInJoin(pieces[1..], pattern);
      FindInParts(p, rest, pattern);
      var later := FindText(rest, pattern, 0);
      if own.Some? {
        UpToFirst(p, rest, own.value + |pattern|);
      } else if later.Some? {
        UpToRest(p, rest, later.value + |pattern|);
      }
    }
  }

  /** Whether some piece begins with a character. */
  ghost predicate Begins(pieces: seq<string>, e: char) {
    exists p <- pieces :: p != "" && p[0] == e
  }

  lemma SeparatorOccurs(p: string, rest: string, e: char, i: nat)
    requires '_' !in p && e != '_'
    ensures OccursAt(p + "_" + rest, "_" + [e], i) <==>
            (i == |p| && rest != "" && rest[0] == e) || (i > |p| && OccursAt(rest, "_" + [e], i - |p| - 1))
  {
    var s := p + "_" + rest;
    assert ("_" + [e])[0] == '_' && ("_" + [e])[1] == e;
    if i + 2 <= |s| {
      assert s[i..i + 2] == [s[i], s[i + 1]];
      if i < |p| {
        assert s[i] == p[i] && p[i] in p;
      } else if i > |p| {
        assert s[i..i + 2] == rest[i - |p| - 1..i - |p| + 1];
      }
    }
  }

  lemma JoinStarts(pieces: seq<string>, e: char)
    requires pieces != [] && e != '_'
    ensures var s := Join(pieces, "_"); (s != "" && s[0] == e) <==> pieces[0] != "" && pieces[0][0] == e
  {}

  /** A separator is followed by a character exactly when a later piece begins with it. */
  lemma {:induction false} SeparatorFollowed(pieces: seq<string>, e: char)
    requires pieces != [] && e != '_' && forall p <- pieces :: '_' !in p
    ensures FindText(Join(pieces, "_"), "_" + [e], 0).Some? <==> Begins(pieces[1..], e)
  {
    hide OccursAt, Join;
    var p, tail := pieces[0], pieces[1..];
    assert p in pieces && forall q <- tail :: q in pieces;
    JoinFirst(pieces);
    if tail == [] {
      forall i: nat ensures !OccursAt(p, "_" + [e], i) {
        NotWithout(p, "_" + [e], i);
      }
    } else {
      var rest := Join(tail, "_");
      SeparatorFollowed(tail, e);
      JoinStarts(tail, e);
      assert tail == [tail[0]] + tail[1..];
      forall i: nat
        ensures OccursAt(p + "_" + rest, "_" + [e], i) <==>
                (i == |p| && rest != "" && rest[0] == e) || (i > |p| && OccursAt(rest, "_" + [e], i - |p| - 1))
      {
        SeparatorOccurs(p, rest, e, i);
      }
      SeparatorFound(p, rest, e);
    }
  }

  lemma SeparatorFound(p: string, rest: string, e: char)
    requires '_' !in p && e != '_'
    ensures FindText(p + "_" + rest, "_" + [e], 0).Some? <==>
            (rest != "" && rest[0] == e) || FindText(rest, "_" + [e], 0).Some?
  {
    hide OccursAt;
    var s, pattern := p + "_" + rest, "_" + [e];
    match FindText(s, pattern, 0)
    case Some(i) => SeparatorOccurs(p, rest, e, i);
    case None =>
      SeparatorOccurs(p, rest, e, |p|);
      match FindText(rest, pattern, 0)
      case Some(i) => SeparatorOccurs(p, rest, e, |p| + 1 + i);
      case None =>
  }

  /** A pattern does not occur where its first character does not. */
  lemma NotWithout(s: string, pattern: string, i: nat)
    requires pattern != "" && pattern[0] !in s
    ensures !OccursAt(s, pattern, i)
  {
    if i + |pattern| <= |s| {
      assert s[i..i + |pattern|][0] == s[i] && s[i] in s;
    }
  }

  /** The letters that the code goes by: what follows the first "rv32", wherever it stands,
      and otherwise the first "rv64". */
  function Searched(pieces: seq<string>): Option<string> {
    if After(pieces, "rv32").Some? then After(pieces, "rv32") else After(pieces, "rv64")
  }

  /** Whether letters include an extension, or `g` where that stands for it. */
  predicate Includes(letters: string, e: char) {
    e in letters || ('g' in letters && e in "imafd")
  }

  /** Where the code starts to read. */
  function BaseAt(lower: string): Option<nat> {
    if FindText(lower, "rv32", 0).Some? then FindText(lower, "rv32", 0) else FindText(lower, "rv64", 0)
  }

  lemma SearchedFrom(pieces: seq<string>)
    requires pieces != [] && forall p <- pieces :: '_' !in p
    ensures var lower := Join(pieces, "_");
            match BaseAt(lower)
            case None => Searched(pieces) == None
            case Some(i) => i + 4 <= |lower| && Searched(pieces) == Some(UpTo(lower, i + 4))
  {
    hide FindText, Join, After, UpTo;
    FindInJoin(pieces, "rv32");
    FindInJoin(pieces, "rv64");
  }

  /** The letters after the base include the extension, or a later piece begins with it. */
  ghost predicate Spelled(isa: string, e: char) {
    var pieces := Split(Lower(isa), '_');
    Searched(pieces).Some? && (Includes(Searched(pieces).value, e) || Begins(pieces[1..], e))
  }

  /** For every text whatsoever, what the code answers. */
  lemma RiscvAnswer(isa: string, e: char)
    requires e != '_'
    ensures RiscvHasExtension(isa, e) <==> Spelled(isa, e)
  {
    hide Join, Lower, Begins, Split, FindText, UpTo, BaseAt, Searched, Includes, RiscvHasExtension;
    var pieces := Split(Lower(isa), '_');
    JoinSplit(Lower(isa), '_');
    SearchedFrom(pieces);
    SeparatorFollowed(pieces, e);
    CodeIs(isa, Lower(isa), e);
  }

  /** The code in terms of the text up to a separator. */
  lemma CodeIs(isa: string, lower: string, e: char)
    requires lower == Lower(isa)
    ensures BaseAt(lower).Some? ==> BaseAt(lower).value + 4 <= |lower|
    ensures RiscvHasExtension(isa, e) <==>
            && BaseAt(lower).Some?
            && (Includes(UpTo(lower, BaseAt(lower).value + 4), e) || FindText(lower, "_" + [e], 0).Some?)
  {
    hide Lower, OccursAt, Find;
  }

  // Well-formed strings: chapter 27 of the RISC-V Unprivileged ISA, 20191213.

  /** A base, and what follows it between underscores. */
  function IsaText(base: string, block: string, more: seq<string>): string {
    Join([base + block] + more, "_")
  }

  predicate IsBase(base: string) {
    Lower(base) == "rv32" || Lower(base) == "rv64"
  }

  lemma LowersCons(x: string, more: seq<string>)
    ensures Lowers([x] + more) == [Lower(x)] + Lowers(more)
  {
    hide Lower;
  }

  lemma LowerFirst(base: string, block: string)
    requires IsBase(base) && '_' !in block
    ensures Lower(base + block) == Lower(base) + Lower(block) && '_' !in Lower(base) + Lower(block)
  {
    hide Lower;
    LowerConcat(base, block);
    LowerHas(block, '_');
  }

  lemma IsaPieces(base: string, block: string, more: seq<string>)
    requires IsBase(base) && '_' !in block && forall p <- more :: '_' !in p
    ensures Split(Lower(IsaText(base, block, more)), '_') == [Lower(base) + Lower(block)] + Lowers(more)
  {
    hide Lower, Lowers, Split, Join, IsBase;
    var first, tail := Lower(base) + Lower(block), Lowers(more);
    LowerJoin([base + block] + more);
    LowersCons(base + block, more);
    LowerFirst(base, block);
    LowersHave(more, '_');
    assert forall p <- [first] + tail :: p == first || p in tail;
    SplitJoin([first] + tail, '_');
  }

  lemma LowersHave(parts: seq<string>, c: char)
    requires (c < 'A' || c > 'Z') && (c < 'a' || c > 'z') && forall p <- parts :: c !in p
    ensures forall p <- Lowers(parts) :: c !in p
  {
    hide Lower;
    forall p <- Lowers(parts)
      ensures c !in p
    {
      var k :| 0 <= k < |parts| && p == Lower(parts[k]);
      LowerHas(parts[k], c);
    }
  }

  /** A 64-bit string that spells the 32-bit base somewhere is read from there, and every
      other string from behind its base. */
  predicate SpellsRv32(base: string, block: string, more: seq<string>) {
    Lower(base) == "rv64" && After([Lower(base) + Lower(block)] + Lowers(more), "rv32").Some?
  }

  lemma SearchedIs(base: string, block: string, more: seq<string>)
    requires IsBase(base)
    ensures var pieces := [Lower(base) + Lower(block)] + Lowers(more);
            Searched(pieces) == if SpellsRv32(base, block, more) then After(pieces, "rv32") else Some(Lower(block))
  {
    hide FindText, Lower;
    var s := Lower(base) + Lower(block);
    assert s[0..4] == Lower(base) && s[4..] == Lower(block);
    FindTextIs(s, Lower(base), 0);
  }

  /** "rv32" is spelled by no text without the digit. */
  lemma {:induction false} NotSpelled(pieces: seq<string>)
    requires forall p <- pieces :: '3' !in p
    ensures After(pieces, "rv32") == None
  {
    if pieces != [] {
      var p := pieces[0];
      assert p in pieces;
      NotSpelled(pieces[1..]);
      forall i: nat
        ensures !OccursAt(p, "rv32", i)
      {
        if i + 4 <= |p| {
          assert p[i..i + 4][2] == p[i + 2] && p[i + 2] in p;
        }
      }
    }
  }

  // One block of single letters, then names.

  predicate IsLetter(c: char) {
    'a' <= c <= 'z' || 'A' <= c <= 'Z'
  }

  /** The name of a multi-letter extension, after z, s or x. */
  predicate IsExtensionName(name: string) {
    name != "" && LowerChar(name[0]) in "zsx" && '_' !in name
  }

  /** A base, one block of letters in either case, and names of extensions. */
  predicate IsIsa(base: string, block: string, names: seq<string>) {
    IsBase(base) && (forall c <- block :: IsLetter(c)) && forall name <- names :: IsExtensionName(name)
  }

  /** A letter is found exactly when the block has it, or has g and g stands for it, for
      every 32-bit string, and for every 64-bit string no name of which spells the 32-bit
      base; otherwise that name decides, and the answer is right exactly when its letters
      agree with the block. */
  lemma RiscvMembership(base: string, block: string, names: seq<string>, e: char)
    requires IsIsa(base, block, names) && e in "imafdcvh"
    ensures var right := RiscvHasExtension(IsaText(base, block, names), e) <==> Includes(Lower(block), e);
            && ((Lower(base) == "rv64" ==> After(Lowers(names), "rv32") == None) ==> right)
            && (Lower(base) == "rv64" && After(Lowers(names), "rv32").Some? ==>
                  (right <==> (Includes(After(Lowers(names), "rv32").value, e) <==> Includes(Lower(block), e))))
    ensures After(Lowers(names), "rv32") == None <==>
            forall name <- names, i: nat :: !OccursAt(Lower(name), "rv32", i)
  {
    hide RiscvHasExtension, IsaText, Lower, Lowers, After, Includes, IsExtensionName, IsLetter, OccursAt;
    BlockAndNames(block, names, e);
    var pieces := [Lower(base) + Lower(block)] + Lowers(names);
    RiscvAnswer(IsaText(base, block, names), e);
    IsaPieces(base, block, names);
    SearchedIs(base, block, names);
    if Lower(base) == "rv64" {
      BlockSpellsNothing(Lower(base), Lower(block), Lowers(names));
    }
    assert pieces[1..] == Lowers(names);
    AfterNone(names);
  }

  lemma BlockSpellsNothing(base: string, block: string, more: seq<string>)
    requires base == "rv64" && '3' !in block
    ensures After([base + block] + more, "rv32") == After(more, "rv32")
  {
    var pieces := [base + block] + more;
    assert pieces[1..] == more;
    assert '3' !in base + block;
    NotSpelled([base + block]);
    assert FindText(base + block, "rv32", 0) == None;
  }

  lemma BlockAndNames(block: string, names: seq<string>, e: char)
    requires (forall c <- block :: IsLetter(c)) && (forall name <- names :: IsExtensionName(name)) && e in "imafdcvh"
    ensures '_' !in block && '3' !in Lower(block) && forall name <- names :: '_' !in name
    ensures !Begins(Lowers(names), e)
  {
    LowerHas(block, '3');
    forall p <- Lowers(names)
      ensures p != "" && p[0] != e
    {
      var k :| 0 <= k < |names| && p == Lower(names[k]);
      assert IsExtensionName(names[k]);
    }
  }

  lemma {:induction false} AfterNone(names: seq<string>)
    ensures After(Lowers(names), "rv32") == None <==>
            forall name <- names, i: nat :: !OccursAt(Lower(name), "rv32", i)
  {
    hide OccursAt, Lower;
    if names != [] {
      AfterNone(names[1..]);
      assert Lowers(names)[1..] == Lowers(names[1..]);
      assert names == [names[0]] + names[1..];
    }
  }

  /** A 64-bit machine without I, as its string says, for which the code finds I. */
  lemma BaseInsideName()
    ensures IsIsa("rv64", "c", ["xrv32i"]) && !Includes(Lower("c"), 'i')
    ensures RiscvHasExtension(IsaText("rv64", "c", ["xrv32i"]), 'i')
  {
    hide Find, FindText, RiscvHasExtension, IsaText;
    var name := "xrv32i";
    assert name[1..5] == "rv32" && name[0..4] == "xrv3" && name[5..] == "i";
    assert Lower(name) == name && Lower("c") == "c" && Lower("rv64") == "rv64";
    FindTextIs(name, "rv32", 1);
    RiscvMembership("rv64", "c", [name], 'i');
  }

  // Groups of letters and names between underscores, with version numbers.

  predicate IsMark(c: char) {
    IsLetter(c) || '0' <= c <= '9'
  }

  /** What stands between underscores: single letters, and perhaps one name at their end.
      Letters and name may carry version numbers, such as "i2p0". */
  datatype Component = Component(letters: string, name: string) {
    function Text(): string {
      letters + name
    }

    /** The letters that open a name are no single letters, except an H that nothing but
        its version follows. */
    predicate Valid() {
      && (forall c <- Text() :: IsMark(c))
      && (forall c <- letters :: LowerChar(c) !in "zsx")
      && (forall k | 0 <= k < |letters| && LowerChar(letters[k]) == 'h' ::
            k + 1 < |Text()| ==> !IsLetter(Text()[k + 1]))
      && (name != "" ==> |name| > 1 && LowerChar(name[0]) in "zshx" && IsLetter(name[1]))
    }
  }

  predicate IsComponents(base: string, first: Component, more: seq<Component>) {
    IsBase(base) && first.Valid() && forall c <- more :: c.Valid() && c.Text() != ""
  }

  function ComponentTexts(cs: seq<Component>): (r: seq<string>)
    ensures |r| == |cs| && forall i :: 0 <= i < |cs| ==> r[i] == cs[i].Text()
  {
    seq(|cs|, i requires 0 <= i < |cs| => cs[i].Text())
  }

  function ComponentText(base: string, first: Component, more: seq<Component>): string {
    IsaText(base, first.Text(), ComponentTexts(more))
  }

  /** Whether a component has an extension among its single letters. */
  predicate Declares(c: Component, e: char) {
    Includes(Lower(c.letters), e)
  }

  /** A later group opens with the letter, which is all that the code looks at there. */
  predicate Opens(c: Component, e: char) {
    c.letters != "" && LowerChar(c.letters[0]) == e
  }

  /** A later name in h, which the code takes for the letter. */
  ghost predicate Mistaken(more: seq<Component>, e: char) {
    e == 'h' && exists c <- more :: NamedAfter(c, 'h')
  }

  predicate NamedAfter(c: Component, e: char) {
    c.letters == "" && c.name != "" && LowerChar(c.name[0]) == e
  }

  /** The text behind the base that the code reads. */
  function ReadLetters(base: string, first: Component, more: seq<Component>): string {
    if SpellsRv32(base, first.Text(), ComponentTexts(more))
    then After([Lower(base) + Lower(first.Text())] + Lowers(ComponentTexts(more)), "rv32").value
    else Lower(first.Text())
  }

  /** For every string of groups and names, what the code answers. */
  lemma RiscvReads(base: string, first: Component, more: seq<Component>, e: char)
    requires IsComponents(base, first, more) && e in "imafdcvh"
    ensures RiscvHasExtension(ComponentText(base, first, more), e) <==>
            || Includes(ReadLetters(base, first, more), e)
            || (exists c <- more :: Opens(c, e))
            || exists c <- more :: NamedAfter(c, e)
  {
    hide RiscvHasExtension, IsaText, Lower, Lowers, After, Includes, IsMark, Opens, NamedAfter, Searched, Begins;
    var texts := ComponentTexts(more);
    var pieces := [Lower(base) + Lower(first.Text())] + Lowers(texts);
    ComponentsPlain(first, more);
    RiscvAnswer(ComponentText(base, first, more), e);
    IsaPieces(base, first.Text(), texts);
    SearchedIs(base, first.Text(), texts);
    assert pieces[1..] == Lowers(texts);
    LaterBegins(more, e);
  }

  /** The answer is right exactly under a condition.  A declared letter must be in the text
      that is read behind the base, or open a later group, or a name be mistaken for it; an
      undeclared letter must not be in that text, nor a name be mistaken for it.  That text
      is the first group and the name attached to it, unless a 64-bit string spells
      "rv32". */
  lemma RiscvExact(base: string, first: Component, more: seq<Component>, e: char)
    requires IsComponents(base, first, more) && e in "imafdcvh"
    ensures var answer := RiscvHasExtension(ComponentText(base, first, more), e);
            var declared := Declares(first, e) || exists c <- more :: Declares(c, e);
            var read, mistaken := Includes(ReadLetters(base, first, more), e), Mistaken(more, e);
            (answer <==> declared) <==>
            if declared then read || (exists c <- more :: Opens(c, e)) || mistaken else !read && !mistaken
    ensures !SpellsRv32(base, first.Text(), ComponentTexts(more)) ==>
              (Includes(ReadLetters(base, first, more), e) <==> Declares(first, e) || Includes(Lower(first.name), e))
  {
    hide RiscvHasExtension, ComponentText, Lower, Includes, SpellsRv32, Mistaken, Declares, Opens, NamedAfter;
    RiscvReads(base, first, more, e);
    FirstIncludes(first, e);
    MistakenIs(more, e);
    OpensDeclares(more, e);
  }

  lemma MistakenIs(more: seq<Component>, e: char)
    requires e in "imafdcvh" && forall c <- more :: c.Valid()
    ensures Mistaken(more, e) <==> exists c <- more :: NamedAfter(c, e)
  {
    forall c <- more
      ensures NamedAfter(c, e) ==> e == 'h'
    {
      assert c.Valid();
    }
  }

  lemma OpensDeclares(more: seq<Component>, e: char)
    ensures (exists c <- more :: Opens(c, e)) ==> exists c <- more :: Declares(c, e)
  {
    forall c <- more
      ensures Opens(c, e) ==> Declares(c, e)
    {
      assert c.letters != "" ==> Lower(c.letters)[0] == LowerChar(c.letters[0]);
    }
  }

  lemma ComponentsPlain(first: Component, more: seq<Component>)
    requires first.Valid() && forall c <- more :: c.Valid()
    ensures '_' !in first.Text() && forall p <- ComponentTexts(more) :: '_' !in p
  {
    forall p <- ComponentTexts(more)
      ensures '_' !in p
    {
      var k :| 0 <= k < |more| && p == more[k].Text();
      assert more[k].Valid();
    }
  }

  lemma FirstIncludes(c: Component, e: char)
    ensures Includes(Lower(c.Text()), e) <==> Declares(c, e) || Includes(Lower(c.name), e)
  {
    hide Lower;
    LowerConcat(c.letters, c.name);
  }

  lemma LaterBegins(more: seq<Component>, e: char)
    requires forall c <- more :: c.Text() != ""
    ensures Begins(Lowers(ComponentTexts(more)), e) <==>
            (exists c <- more :: Opens(c, e)) || exists c <- more :: NamedAfter(c, e)
  {
    var pieces := Lowers(ComponentTexts(more));
    forall k | 0 <= k < |more|
      ensures pieces[k] != "" && (pieces[k][0] == e <==> Opens(more[k], e) || NamedAfter(more[k], e))
    {
      assert more[k] in more;
      assert pieces[k] == Lower(more[k].Text());
    }
    BeginsAt(pieces, e);
    assert (exists c <- more :: Opens(c, e) || NamedAfter(c, e)) <==>
           exists k :: 0 <= k < |more| && (Opens(more[k], e) || NamedAfter(more[k], e));
  }

  lemma BeginsAt(pieces: seq<string>, e: char)
    ensures Begins(pieces, e) <==> exists k :: 0 <= k < |pieces| && pieces[k] != "" && pieces[k][0] == e
  {}

  lemma TwoPieces(base: string, block: string, c: Component)
    ensures ComponentText(base, Component(block, ""), [c]) == base + block + "_" + c.Text()
  {
    var more := ComponentTexts([c]);
    assert more == [c.Text()] && Component(block, "").Text() == block;
    var parts := [base + block] + more;
    JoinFirst(parts);
    assert parts[1..] == more;
    JoinFirst(more);
  }

  lemma PlainTwo(block: string, c: Component)
    requires '3' !in block && '3' !in c.Text() && (forall x <- block + c.Text() :: LowerChar(x) == x)
    ensures ReadLetters("rv64", Component(block, ""), [c]) == block
    ensures Lower("rv64") == "rv64" && Lower(c.Text()) == c.Text() && Lower(block) == block && Lower("") == ""
  {
    hide After;
    var texts := ComponentTexts([c]);
    assert [c][0] == c && texts == [c.Text()];
    assert Component(block, "").Text() == block;
    forall k | 0 <= k < |block| ensures LowerChar(block[k]) == block[k] {
      assert (block + c.Text())[k] in block + c.Text();
    }
    forall k | 0 <= k < |c.Text()| ensures LowerChar(c.Text()[k]) == c.Text()[k] {
      assert (block + c.Text())[|block| + k] in block + c.Text();
    }
    assert Lower("rv64") == "rv64" && Lower(block) == block && Lower(c.Text()) == c.Text();
    assert Lowers(texts) == [c.Text()];
    NotSpelled(["rv64" + block] + [c.Text()]);
  }

  /** An extension that stands second in a later group is missed. */
  lemma LetterMissed()
    ensures var first, more := Component("i", ""), [Component("ma", "")];
            IsComponents("rv64", first, more) && Declares(more[0], 'a')
    ensures ComponentText("rv64", Component("i", ""), [Component("ma", "")]) == "rv64i_ma"
    ensures !RiscvHasExtension("rv64i_ma", 'a')
  {
    hide RiscvHasExtension, ComponentText, ReadLetters, Lower;
    var c := Component("ma", "");
    assert c.Text() == "ma" && "rv64" + "i" + "_" + "ma" == "rv64i_ma";
    PlainTwo("i", c);
    TwoPieces("rv64", "i", c);
    assert [c][0] == c;
    RiscvReads("rv64", Component("i", ""), [c], 'a');
  }

  lemma NameAlone(c: Component)
    requires c == Component("", "hxyz")
    ensures c.Valid() && c.Text() == "hxyz" && NamedAfter(c, 'h')
  {}

  lemma GroupAlone(c: Component)
    requires c == Component("gc", "")
    ensures c.Valid() && c.Text() == "gc"
  {}

  /** The name of a hypervisor-level extension is taken for H. */
  lemma NameMistaken()
    ensures var first, more := Component("gc", ""), [Component("", "hxyz")];
            IsComponents("rv64", first, more) && !Declares(first, 'h') && !Declares(more[0], 'h')
    ensures ComponentText("rv64", Component("gc", ""), [Component("", "hxyz")]) == "rv64gc_hxyz"
    ensures RiscvHasExtension("rv64gc_hxyz", 'h')
  {
    hide RiscvHasExtension, ComponentText, ReadLetters, Lower, Component.Valid, NamedAfter, Component.Text;
    var c := Component("", "hxyz");
    NameAlone(c);
    GroupAlone(Component("gc", ""));
    assert "rv64" + "gc" + "_" + "hxyz" == "rv64gc_hxyz";
    PlainTwo("gc", c);
    TwoPieces("rv64", "gc", c);
    assert [c][0] == c;
    RiscvReads("rv64", Component("gc", ""), [c], 'h');
  }

  // Collecting.

  datatype Family = X86 | Arm | Riscv

  /** A feature is a flag under any of its names, or an extension letter. */
  datatype Rule = Flags(names: seq<string>) | Letter(letter: char)

  /** One feature of the table that `collect_isa` writes out field by field. */
  datatype Row = Row(key: string, family: Family, rule: Rule)

  datatype IsaFeatures = IsaFeatures(features: seq<BoolField>, rawFlags: StringField)

  /** `find_feature_source`: the first non-empty flag line of a block, and whose it is. */
  function FeatureSource(block: KeyValueMap): Option<(string, Family)> {
    if MapValue(block, "flags").Some? then Some((MapValue(block, "flags").value, X86))
    else if MapValue(block, "Features").Some? then Some((MapValue(block, "Features").value, Arm))
    else if MapValue(block, "isa").Some? then Some((MapValue(block, "isa").value, Riscv))
    else None
  }

  function Feature(row: Row, raw: string, family: Family): BoolField {
    if row.family != family then Unavailable(Unsupported, false)
    else match row.rule
      case Flags(names) => Available(exists name <- names :: name in Words(raw))
      case Letter(letter) => Available(RiscvHasExtension(raw, letter))
  }

  function Marked(rows: seq<Row>, status: Status): IsaFeatures {
    IsaFeatures(seq(|rows|, _ => Unavailable(status, false)), Unavailable(status, ""))
  }

  function IsaOf(fs: FileSystem, procfsRoot: string, rows: seq<Row>): IsaFeatures {
    var cpuinfo := fs.read(JoinPath(procfsRoot, "/cpuinfo"));
    if cpuinfo.status != Ok then Marked(rows, cpuinfo.status)
    else
      var blocks := Blocks(cpuinfo.value);
      if blocks == [] then Marked(rows, ParseError)
      else match FeatureSource(blocks[0])
        case None => Marked(rows, NotFound)
        case Some((raw, family)) =>
          IsaFeatures(seq(|rows|, i requires 0 <= i < |rows| => Feature(rows[i], raw, family)), Available(raw))
  }

  method AnyFlag(flags: set<string>, names: seq<string>) returns (f: BoolField)
    ensures f == Available(exists name <- names :: name in flags)
  {
    for i := 0 to |names|
      invariant forall k :: 0 <= k < i ==> names[k] !in flags
    {
      if names[i] in flags {
        assert names[i] in names;
        return Available(true);
      }
    }
    return Available(false);
  }

  method CollectIsa(fs: FileSystem, procfsRoot: string, rows: seq<Row>) returns (r: IsaFeatures)
    ensures r == IsaOf(fs, procfsRoot, rows)
  {
    hide Blocks, Words, JoinPath, RiscvHasExtension, MapValue;
    var cpuinfo := fs.read(JoinPath(procfsRoot, "/cpuinfo"));
    if cpuinfo.status != Ok {
      return Marked(rows, cpuinfo.status);
    }
    var blocks := ParseColonBlocks(cpuinfo.value);
    if blocks == [] {
      return Marked(rows, ParseError);
    }
    var source := FeatureSource(blocks[0]);
    if source == None {
      return Marked(rows, NotFound);
    }
    var (raw, family) := source.value;
    var features := Marked(rows, Unsupported).features;
    var flags := set w <- Words(raw);
    for i := 0 to |rows|
      invariant |features| == |rows|
      invariant forall k :: 0 <= k < i ==> features[k] == Feature(rows[k], raw, family)
      invariant forall k :: i <= k < |rows| ==> features[k] == Unavailable(Unsupported, false)
    {
      if rows[i].family == family {
        match rows[i].rule {
          case Flags(names) =>
            var flag := AnyFlag(flags, names);
            features := features[i := flag];
          case Letter(letter) =>
            features := features[i := Available(RiscvHasExtension(raw, letter))];
        }
      }
    }
    r := IsaFeatures(features, Available(raw));
  }

  /** The flag line in use and the family that it belongs to. */
  function SourceOf(fs: FileSystem, procfsRoot: string): Option<(string, Family)> {
    var cpuinfo := fs.read(JoinPath(procfsRoot, "/cpuinfo"));
    if cpuinfo.status != Ok || Blocks(cpuinfo.value) == [] then None
    else FeatureSource(Blocks(cpuinfo.value)[0])
  }

  /** The key of a family's flag line. */
  function FlagKey(family: Family): string {
    match family
    case X86 => "flags"
    case Arm => "Features"
    case Riscv => "isa"
  }

  ghost predicate HasFlags(block: KeyValueMap, family: Family) {
    FlagKey(family) in block && block[FlagKey(family)] != ""
  }

  /** The line in use is the non-empty one of the first family that has one, in the order
      x86, Arm, RISC-V. */
  lemma FeatureSourceIs(block: KeyValueMap)
    ensures HasFlags(block, X86) ==> FeatureSource(block) == Some((block["flags"], X86))
    ensures !HasFlags(block, X86) && HasFlags(block, Arm) ==> FeatureSource(block) == Some((block["Features"], Arm))
    ensures !HasFlags(block, X86) && !HasFlags(block, Arm) && HasFlags(block, Riscv) ==>
              FeatureSource(block) == Some((block["isa"], Riscv))
    ensures FeatureSource(block) == None <==> forall family :: !HasFlags(block, family)
  {}

  /** What a rule asks of a flag line: one of the names among its words, or the letter. */
  ghost predicate Holds(rule: Rule, raw: string) {
    match rule
    case Flags(names) => exists name, i: nat :: name in names && WordAt(raw, name, i)
    case Letter(letter) => Spelled(raw, letter)
  }

  lemma FeatureHolds(row: Row, raw: string, family: Family)
    requires row.rule != Letter('_')
    ensures row.family == family ==> Feature(row, raw, family) == Available(Holds(row.rule, raw))
  {
    hide Words, WordAt, RiscvHasExtension, Spelled;
    match row.rule
    case Flags(names) =>
      forall name <- names
        ensures name in Words(raw) <==> exists i: nat :: WordAt(raw, name, i)
      {
        WordsAre(raw, name);
      }
    case Letter(letter) => RiscvAnswer(raw, letter);
  }

  /** For every file system, each feature of the family in use is true exactly when its rule
      holds of the flag line. */
  lemma FeaturesHold(fs: FileSystem, procfsRoot: string, rows: seq<Row>, i: nat)
    requires i < |rows| && rows[i].rule != Letter('_')
    ensures var r, source := IsaOf(fs, procfsRoot, rows), SourceOf(fs, procfsRoot);
            |r.features| == |rows| &&
            (source.Some? && rows[i].family == source.value.1 ==>
               r.features[i] == Available(Holds(rows[i].rule, source.value.0)))
  {
    hide Blocks, FeatureSource, Feature, Holds, JoinPath;
    var source := SourceOf(fs, procfsRoot);
    if source.Some? {
      FeatureHolds(rows[i], source.value.0, source.value.1);
    }
  }

  /** Without a flag line, every field says why: cpuinfo cannot be read, or holds no block,
      or its first block has no flags. */
  lemma NoSource(fs: FileSystem, procfsRoot: string, rows: seq<Row>, i: nat)
    requires i < |rows| && SourceOf(fs, procfsRoot) == None
    ensures var r, cpuinfo := IsaOf(fs, procfsRoot, rows), fs.read(JoinPath(procfsRoot, "/cpuinfo"));
            var status := if cpuinfo.status != Ok then cpuinfo.status
                          else if Blocks(cpuinfo.value) == [] then ParseError else NotFound;
            |r.features| == |rows| && r.features[i] == Unavailable(status, false)
            && r.rawFlags == Unavailable(status, "")
  {
    hide Blocks, FeatureSource, Feature, JoinPath;
  }

  /** For every file system, every feature field is honest; a feature is known exactly
      when its family's flag line is the one in use, and all others are unsupported.
      Without a flag line nothing is known. */
  lemma IsaIsHonest(fs: FileSystem, procfsRoot: string, rows: seq<Row>)
    ensures var r, source := IsaOf(fs, procfsRoot, rows), SourceOf(fs, procfsRoot);
            && |r.features| == |rows|
            && r.rawFlags.Honest() && (r.rawFlags.valid <==> source.Some?)
            && (source.Some? ==> r.rawFlags.content == source.value.0 && r.rawFlags.content != "")
            && forall i :: 0 <= i < |rows| ==>
                 && r.features[i].Honest()
                 && (r.features[i].valid <==> source.Some? && rows[i].family == source.value.1)
                 && (source.Some? && !r.features[i].valid ==> r.features[i].status == Unsupported)
                 && (source == None ==> r.features[i].status == r.rawFlags.status)
  {
    hide Blocks, Words, JoinPath, RiscvHasExtension;
  }

  function FeatureEntries(rows: seq<Row>, features: seq<BoolField>): (r: seq<Entry>)
    requires |rows| == |features|
    ensures |r| == |rows| && forall i :: 0 <= i < |rows| ==> r[i] == Entry(rows[i].key, BoolCell(features[i]))
  {
    seq(|rows|, i requires 0 <= i < |rows| => Entry(rows[i].key, BoolCell(features[i])))
  }

  /** `to_json(const IsaFeatures&)`. */
  function IsaRecord(rows: seq<Row>, r: IsaFeatures): Record
    requires |rows| == |r.features|
  {
    Record(FeatureEntries(rows, r.features) + [Entry("raw_flags", StringCell(r.rawFlags))])
  }

  /** A reader of the printed ISA section finds each feature and the raw flags under their
      keys. */
  lemma IsaShown(rows: seq<Row>, r: IsaFeatures)
    requires |rows| == |r.features|
    ensures var j := Tree(IsaRecord(rows, r));
            && (forall i :: 0 <= i < |rows| ==> Shown(j, rows[i].key, r.features[i], Bool(r.features[i].content)))
            && Shown(j, "raw_flags", r.rawFlags, String(r.rawFlags.content))
  {
    hide Shown, Tree;
    var record := IsaRecord(rows, r);
    forall i | 0 <= i < |rows|
      ensures Shown(Tree(record), rows[i].key, r.features[i], Bool(r.features[i].content))
    {
      EntryShown(record, record.entries[i]);
    }
    EntryShown(record, record.entries[|rows|]);
  }

  lemma IsaRecordIsHonest(fs: FileSystem, procfsRoot: string, rows: seq<Row>)
    ensures |IsaOf(fs, procfsRoot, rows).features| == |rows|
    ensures HonestRecord(IsaRecord(rows, IsaOf(fs, procfsRoot, rows)))
  {
    hide IsaOf;
    IsaIsHonest(fs, procfsRoot, rows);
    var entries := IsaRecord(rows, IsaOf(fs, procfsRoot, rows)).entries;
    forall e <- entries ensures HonestCell(e.cell) {
      var i :| 0 <= i < |entries| && entries[i] == e;
    }
  }
}
