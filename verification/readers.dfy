/** Files and the `read_*_field` functions of src/internal.hh, over an abstract file
    system. */
module Readers {
  import opened Text
  import opened Numerals
  import opened Numbers
  import opened Fields
  import opened CpuList

  datatype ReadResult = ReadResult(status: Status, value: string)

  /** What `read_file` returns for a path, and the sorted names that `list_dir` returns. */
  datatype FileSystem = FileSystem(read: string -> ReadResult, list: string -> seq<string>)

  function JoinPath(root: string, suffix: string): string {
    if suffix == "" then root
    else if root == "" || root == "/" then "/" + (if suffix[0] == '/' then suffix[1..] else suffix)
    else if suffix[0] == '/' then root + suffix
    else root + "/" + suffix
  }

  /** Root and name are separated by one slash, and a root of "/" counts as none. */
  lemma JoinPathIs(root: string, name: string)
    requires name != "" && name[0] != '/'
    ensures var path := if root == "/" then "/" + name else root + "/" + name;
            JoinPath(root, name) == path && JoinPath(root, "/" + name) == path
    ensures JoinPath(root, "") == root
  {
    assert ("/" + name)[1..] == name && root + ("/" + name) == root + "/" + name;
    assert "" + "/" + name == "/" + name;
  }

  /** One `getline`: the text before the first newline, or all of it. */
  function FirstLine(text: string): string {
    match Find(text, '\n', 0)
    case None => text
    case Some(i) => text[..i]
  }

  function ReadFirstLine(fs: FileSystem, path: string): ReadResult {
    var r := fs.read(path);
    if r.status != Ok then ReadResult(r.status, "") else ReadResult(Ok, FirstLine(r.value))
  }

  /** A field out of a first line: a failed read keeps its status, and a line that means
      nothing is a parse error. */
  function LineField<T>(fs: FileSystem, path: string, parse: string -> Option<T>, zero: T): (f: Field<T>)
    ensures f.Honest()
  {
    var r := ReadFirstLine(fs, path);
    if r.status != Ok then Unavailable(r.status, zero)
    else match parse(r.value)
      case None => Unavailable(ParseError, zero)
      case Some(v) => Available(v)
  }

  function TrimmedText(text: string): Option<string> {
    Some(Trim(text))
  }

  /** The exact product of a number and a multiplier, in unbounded arithmetic. */
  function Multiplied(text: string, multiplier: u64): Option<u64> {
    match U64Text(text)
    case None => None
    case Some(v) => if v * multiplier > U64_MAX then None else Some(v * multiplier)
  }

  function U32Text(text: string): Option<u32> {
    match U64Text(text)
    case None => None
    case Some(v) => if v > U32_MAX then None else Some(v)
  }

  method ReadStringField(fs: FileSystem, path: string) returns (f: StringField)
    ensures f == LineField(fs, path, TrimmedText, "")
  {
    var result := ReadFirstLine(fs, path);
    if result.status != Ok {
      return Unavailable(result.status, "");
    }
    return Available(Trim(result.value));
  }

  method ReadU64Field(fs: FileSystem, path: string, multiplier: u64) returns (f: U64Field)
    ensures f == LineField(fs, path, line => Multiplied(line, multiplier), 0)
  {
    hide U64Text, ReadFirstLine;
    var result := ReadFirstLine(fs, path);
    if result.status != Ok {
      return Unavailable(result.status, 0);
    }
    var value := ParseU64(result.value);
    if value == None {
      return Unavailable(ParseError, 0);
    }
    if multiplier > 0 {
      GuardExact(value.value, multiplier);
    }
    if multiplier != 0 && value.value > U64_MAX / multiplier {
      return Unavailable(ParseError, 0);
    }
    return Available(value.value * multiplier);
  }

  method ReadU32Field(fs: FileSystem, path: string) returns (f: U32Field)
    ensures f == LineField(fs, path, U32Text, 0)
  {
    hide U64Text, ReadFirstLine;
    var result := ReadFirstLine(fs, path);
    if result.status != Ok {
      return Unavailable(result.status, 0);
    }
    var value := ParseU64(result.value);
    if value == None || value.value > U32_MAX {
      return Unavailable(ParseError, 0);
    }
    return Available(value.value);
  }

  method ReadI64Field(fs: FileSystem, path: string) returns (f: I64Field)
    ensures f == LineField(fs, path, I64Text, 0)
  {
    hide I64Text, ReadFirstLine;
    var result := ReadFirstLine(fs, path);
    if result.status != Ok {
      return Unavailable(result.status, 0);
    }
    var value := ParseI64(result.value);
    if value == None {
      return Unavailable(ParseError, 0);
    }
    return Available(value.value);
  }

  method ReadCpuListCountField(fs: FileSystem, path: string) returns (f: U64Field)
    ensures f == LineField(fs, path, CountOf, 0)
  {
    hide CountOf, ReadFirstLine;
    var result := ReadFirstLine(fs, path);
    if result.status != Ok {
      return Unavailable(result.status, 0);
    }
    var count := CpuListCount(result.value);
    if count == None {
      return Unavailable(ParseError, 0);
    }
    return Available(count.value);
  }

  method ReadSizeBytesField(fs: FileSystem, path: string) returns (f: U64Field)
    ensures f == LineField(fs, path, SizeText, 0)
  {
    hide SizeText, ReadFirstLine;
    var result := ReadFirstLine(fs, path);
    if result.status != Ok {
      return Unavailable(result.status, 0);
    }
    var bytes := ParseSizeBytes(result.value);
    if bytes == None {
      return Unavailable(ParseError, 0);
    }
    return Available(bytes.value);
  }

  // What the readers make of files.

  lemma FirstLineIs(line: string, rest: string)
    requires '\n' !in line
    ensures FirstLine(line + "\n" + rest) == line && FirstLine(line) == line
  {
    FindFirst(line, '\n', rest);
    assert line + ['\n'] + rest == line + "\n" + rest;
    assert (line + "\n" + rest)[..|line|] == line;
    assert forall k | 0 <= k < |line| :: line[k] in line;
  }

  /** The file at a path starts with this line, terminated or not. */
  ghost predicate Shows(fs: FileSystem, path: string, line: string) {
    && fs.read(path).status == Ok
    && (fs.read(path).value == line || line + "\n" <= fs.read(path).value)
  }

  /** A file that cannot be read gives its status; otherwise its first line decides. */
  lemma FieldRead<T>(fs: FileSystem, path: string, line: string, parse: string -> Option<T>, zero: T)
    requires '\n' !in line
    ensures fs.read(path).status != Ok ==> LineField(fs, path, parse, zero) == Unavailable(fs.read(path).status, zero)
    ensures Shows(fs, path, line) ==>
              LineField(fs, path, parse, zero) ==
              if parse(line) == None then Unavailable(ParseError, zero) else Available(parse(line).value)
  {
    hide FirstLine;
    if Shows(fs, path, line) {
      var text := fs.read(path).value;
      FirstLineIs(line, text[|text|..]);
      if text != line {
        FirstLineIs(line, text[|line| + 1..]);
        assert text == line + "\n" + text[|line| + 1..];
      }
    }
  }

  lemma DecimalIsLine(n: int)
    ensures '\n' !in SignedDecimal(n)
  {
    assert forall c <- Decimal(if n < 0 then -n else n) :: IsDigit(c, 10);
  }

  /** A file with a number is read as that number, times the multiplier, when the product
      is a 64-bit number. */
  lemma NumberRead(fs: FileSystem, path: string, n: nat, multiplier: u64)
    requires Shows(fs, path, Decimal(n))
    ensures LineField(fs, path, line => Multiplied(line, multiplier), 0) ==
            if n <= U64_MAX && n * multiplier <= U64_MAX then Available(n * multiplier) else Unavailable(ParseError, 0)
  {
    hide LineField, U64Text, Shows;
    DecimalIsLine(n);
    FieldRead(fs, path, Decimal(n), line => Multiplied(line, multiplier), 0);
    U64OfDecimal("", n, "");
    assert "" + Decimal(n) + "" == Decimal(n);
  }

  lemma U32OfDecimal(n: nat)
    ensures U32Text(Decimal(n)) == if n <= 4294967295 then Some(n) else None
  {
    hide U64Text;
    U64OfDecimal("", n, "");
    assert "" + Decimal(n) + "" == Decimal(n);
  }

  lemma IdRead(fs: FileSystem, path: string, n: nat)
    requires Shows(fs, path, Decimal(n))
    ensures LineField(fs, path, U32Text, 0) ==
            if n <= 4294967295 then Available(n) else Unavailable(ParseError, 0)
  {
    hide LineField, Shows, U32Text;
    DecimalIsLine(n);
    FieldRead(fs, path, Decimal(n), U32Text, 0);
    U32OfDecimal(n);
  }

  lemma SignedRead(fs: FileSystem, path: string, n: int)
    requires Shows(fs, path, SignedDecimal(n))
    ensures LineField(fs, path, I64Text, 0) ==
            if I64_MIN <= n <= I64_MAX then Available(n) else Unavailable(ParseError, 0)
  {
    hide LineField, Shows, I64Text;
    DecimalIsLine(n);
    FieldRead(fs, path, SignedDecimal(n), I64Text, 0);
    I64OfDecimal(n);
  }

  /** A file that lists a set of CPUs is read as their number. */
  lemma CpuSetRead(fs: FileSystem, path: string, s: set<nat>)
    requires (forall i <- s :: i <= U64_MAX) && |s| <= U64_MAX && Shows(fs, path, ListText(Runs(s)))
    ensures LineField(fs, path, CountOf, 0) == Available(|s|)
  {
    hide LineField, Shows, CountOf, ListText, Runs;
    RunsAre(s);
    ListTextIsLine(Runs(s));
    FieldRead(fs, path, ListText(Runs(s)), CountOf, 0);
    SetRoundTrip(s);
  }

  /** Sizes as the kernel prints them, in units of 1024 bytes. */
  lemma SizeRead(fs: FileSystem, path: string, n: nat)
    requires Shows(fs, path, Decimal(n) + "" + "K")
    ensures LineField(fs, path, SizeText, 0) ==
            if n * 1024 <= U64_MAX then Available(n * 1024) else Unavailable(ParseError, 0)
  {
    hide LineField, Shows, SizeText;
    DecimalIsLine(n);
    FieldRead(fs, path, Decimal(n) + "" + "K", SizeText, 0);
    SizeOfDecimal(n, "", "K");
    assert Lower("K") == "k";
  }

  lemma TextRead(fs: FileSystem, path: string, line: string)
    requires '\n' !in line && Shows(fs, path, line)
    ensures LineField(fs, path, TrimmedText, "") == Available(Trim(line))
  {
    hide LineField, Shows, Trim;
    FieldRead(fs, path, line, TrimmedText, "");
  }

  // The per-CPU directories.

  type CpuDir = (u32, string)

  predicate StartsWith(s: string, prefix: string) {
    prefix <= s
  }

  /** `operator<` on strings and on the pairs that are sorted. */
  predicate TextBefore(s: string, t: string) {
    if t == "" then false
    else if s == "" then true
    else if s[0] == t[0] then TextBefore(s[1..], t[1..])
    else s[0] < t[0]
  }

  predicate DirBefore(a: CpuDir, b: CpuDir) {
    a.0 < b.0 || (a.0 == b.0 && TextBefore(a.1, b.1))
  }

  function Insert(d: CpuDir, sorted: seq<CpuDir>): seq<CpuDir> {
    if sorted == [] then [d]
    else if DirBefore(sorted[0], d) then [sorted[0]] + Insert(d, sorted[1..])
    else [d] + sorted
  }

  function Sort(dirs: seq<CpuDir>): seq<CpuDir> {
    if dirs == [] then [] else Insert(dirs[0], Sort(dirs[1..]))
  }

  /** The id in a directory name "cpu<id>", when it is one. */
  function DirId(name: string): Option<u32> {
    if !StartsWith(name, "cpu") || |name| == 3 then None else U32Text(name[3..])
  }

  function DirOf(root: string, name: string): seq<CpuDir> {
    match DirId(name)
    case None => []
    case Some(id) => [(id, JoinPath(root, name))]
  }

  function DirsOf(root: string, names: seq<string>): seq<CpuDir> {
    if names == [] then [] else DirOf(root, names[0]) + DirsOf(root, names[1..])
  }

  /** A directory of a CPU is named "cpu" and a 32-bit number. */
  lemma DirIdIs(name: string, id: u32)
    ensures DirId(name) == Some(id) <==> exists text | text != "" && name == "cpu" + text :: U32Text(text) == Some(id)
  {
    hide U32Text;
    assert "cpu" <= name ==> name == "cpu" + name[3..];
    forall text | name == "cpu" + text ensures name[3..] == text {}
  }

  function CpuNames(names: seq<string>): (r: seq<bool>)
    ensures |r| == |names| && forall i :: 0 <= i < |names| ==> r[i] == DirId(names[i]).Some?
  {
    seq(|names|, i requires 0 <= i < |names| => DirId(names[i]).Some?)
  }

  ghost predicate DirAt(d: CpuDir, root: string, name: string) {
    DirId(name) == Some(d.0) && d.1 == JoinPath(root, name)
  }

  lemma FirstDirAt(root: string, name: string)
    ensures |DirOf(root, name)| == if DirId(name).Some? then 1 else 0
    ensures forall d <- DirOf(root, name) :: DirAt(d, root, name)
  {
    hide DirId, JoinPath;
  }

  /** The directories are those of the CPU names, each once and in the listed order: `at`
      gives their positions in the listing. */
  lemma {:induction false} DirsAt(root: string, names: seq<string>) returns (at: seq<nat>)
    ensures Picks(at, CpuNames(names)) && |at| == |DirsOf(root, names)|
    ensures forall k :: 0 <= k < |at| ==> at[k] < |names| && DirAt(DirsOf(root, names)[k], root, names[at[k]])
  {
    hide DirId, JoinPath, Picks, DirAt, DirOf, DirsOf, CpuNames;
    DirsCons(root, names);
    if names == [] {
      at := [];
      NoPicks();
    } else {
      var later := DirsAt(root, names[1..]);
      at := PicksCons(DirId(names[0]).Some?, CpuNames(names[1..]), later);
      var head, tail := DirOf(root, names[0]), DirsOf(root, names[1..]);
      FirstDirAt(root, names[0]);
      forall k | 0 <= k < |at|
        ensures at[k] < |names| && DirAt((head + tail)[k], root, names[at[k]])
      {
        if k < |head| {
          assert head[k] in head;
        } else {
          var j := k - |head|;
          assert at[|head| + j] == later[j] + 1 && (head + tail)[k] == tail[j];
          assert names[1..][later[j]] == names[at[k]];
        }
      }
    }
  }

  lemma DirsCons(root: string, names: seq<string>)
    ensures names == [] ==> DirsOf(root, names) == [] && CpuNames(names) == []
    ensures names != [] ==>
              && DirsOf(root, names) == DirOf(root, names[0]) + DirsOf(root, names[1..])
              && CpuNames(names) == [DirId(names[0]).Some?] + CpuNames(names[1..])
  {
    hide DirOf, DirId;
  }

  lemma DirsStep(root: string, names: seq<string>, i: nat)
    requires i < |names|
    ensures DirsOf(root, names[i..]) == DirOf(root, names[i]) + DirsOf(root, names[i + 1..])
  {
    hide DirOf;
    assert names[i..][1..] == names[i + 1..];
  }

  function CpuRoot(sysfsRoot: string): string {
    JoinPath(sysfsRoot, "/devices/system/cpu")
  }

  function SortedDirs(fs: FileSystem, sysfsRoot: string): seq<CpuDir> {
    Sort(DirsOf(CpuRoot(sysfsRoot), fs.list(CpuRoot(sysfsRoot))))
  }

  /** The loop that picks the directories. */
  method FindCpuDirs(root: string, names: seq<string>) returns (cpus: seq<CpuDir>)
    ensures cpus == DirsOf(root, names)
  {
    hide U64Text, JoinPath, DirsOf;
    cpus := [];
    assert names[0..] == names;
    for i := 0 to |names|
      invariant cpus + DirsOf(root, names[i..]) == DirsOf(root, names)
    {
      var name := names[i];
      DirsStep(root, names, i);
      Assoc(cpus, DirOf(root, name), DirsOf(root, names[i + 1..]));
      if !StartsWith(name, "cpu") || |name| == 3 {
        assert cpus + [] == cpus;
        continue;
      }
      var id := ParseU64(name[3..]);
      if id == None || id.value > U32_MAX {
        assert cpus + [] == cpus;
        continue;
      }
      cpus := cpus + [(id.value, JoinPath(root, name))];
    }
    NoDirs(root);
    assert names[|names|..] == [] && cpus + [] == cpus;
  }

  lemma NoDirs(root: string)
    ensures DirsOf(root, []) == []
  {}

  method CpuDirs(fs: FileSystem, sysfsRoot: string) returns (cpus: seq<CpuDir>)
    ensures cpus == SortedDirs(fs, sysfsRoot)
  {
    hide JoinPath, Sort, DirsOf;
    var root := CpuRoot(sysfsRoot);
    cpus := FindCpuDirs(root, fs.list(root));
    cpus := Sort(cpus);
  }

  // The order of the sort.

  /** Byte by byte: the first difference decides, and a prefix comes first. */
  ghost predicate Lexicographic(s: string, t: string, k: nat) {
    k <= |s| && k < |t| && s[..k] == t[..k] && (k == |s| || s[k] < t[k])
  }

  lemma {:induction false} TextBeforeIs(s: string, t: string)
    ensures TextBefore(s, t) <==> exists k: nat :: Lexicographic(s, t, k)
  {
    if s != "" && t != "" && s[0] == t[0] {
      TextBeforeIs(s[1..], t[1..]);
      forall k: nat
        ensures Lexicographic(s, t, k + 1) <==> Lexicographic(s[1..], t[1..], k)
      {
        LexicographicTail(s, t, k);
      }
      assert !Lexicographic(s, t, 0);
      if exists k: nat :: Lexicographic(s, t, k) {
        var k: nat :| Lexicographic(s, t, k);
        assert Lexicographic(s[1..], t[1..], k - 1);
      }
    } else {
      assert t != "" && (s == "" || s[0] < t[0]) ==> Lexicographic(s, t, 0);
      forall k: nat
        ensures Lexicographic(s, t, k) ==> k == 0
      {
        if k > 0 && k <= |s| && k <= |t| {
          assert s[..k][0] == s[0] && t[..k][0] == t[0];
        }
      }
    }
  }

  lemma LexicographicTail(s: string, t: string, k: nat)
    requires s != "" && t != "" && s[0] == t[0]
    ensures Lexicographic(s, t, k + 1) <==> Lexicographic(s[1..], t[1..], k)
  {
    if k + 1 <= |s| && k + 1 <= |t| {
      assert s[..k + 1] == [s[0]] + s[1..][..k] && t[..k + 1] == [t[0]] + t[1..][..k];
      assert s[..k + 1] == t[..k + 1] ==> s[1..][..k] == s[..k + 1][1..] == t[1..][..k];
    }
  }

  lemma {:induction false} TextTotal(s: string, t: string)
    ensures s == t || TextBefore(s, t) || TextBefore(t, s)
    ensures !(TextBefore(s, t) && TextBefore(t, s))
  {
    if s != "" && t != "" && s[0] == t[0] {
      TextTotal(s[1..], t[1..]);
      assert s == [s[0]] + s[1..] && t == [t[0]] + t[1..];
    }
  }

  lemma {:induction false} TextTransitive(s: string, t: string, u: string)
    requires TextBefore(s, t) && TextBefore(t, u)
    ensures TextBefore(s, u)
  {
    if s != "" && s[0] == t[0] == u[0] {
      TextTransitive(s[1..], t[1..], u[1..]);
    }
  }

  predicate AtMost(a: CpuDir, b: CpuDir) {
    a == b || DirBefore(a, b)
  }

  lemma DirTotal(a: CpuDir, b: CpuDir)
    ensures AtMost(a, b) <==> !DirBefore(b, a)
  {
    TextTotal(a.1, b.1);
  }

  lemma DirTransitive(a: CpuDir, b: CpuDir, c: CpuDir)
    requires AtMost(a, b) && AtMost(b, c)
    ensures AtMost(a, c)
  {
    if TextBefore(a.1, b.1) && TextBefore(b.1, c.1) {
      TextTransitive(a.1, b.1, c.1);
    }
  }

  /** Every directory comes after those before it: by id, and by path where ids are
      equal. */
  predicate Ascending(dirs: seq<CpuDir>) {
    dirs == [] || ((forall d <- dirs[1..] :: AtMost(dirs[0], d)) && Ascending(dirs[1..]))
  }

  /** The sort orders the directories by id and path and loses none. */
  lemma {:induction false} SortOrders(dirs: seq<CpuDir>)
    ensures Ascending(Sort(dirs)) && multiset(Sort(dirs)) == multiset(dirs)
  {
    if dirs != [] {
      SortOrders(dirs[1..]);
      InsertOrders(dirs[0], Sort(dirs[1..]));
      assert dirs == [dirs[0]] + dirs[1..];
    }
  }

  /** So ids ascend, and paths do where ids are equal. */
  lemma SortedPairs(dirs: seq<CpuDir>, i: nat, j: nat)
    requires i < j < |Sort(dirs)|
    ensures var a, b := Sort(dirs)[i], Sort(dirs)[j];
            a.0 < b.0 || (a.0 == b.0 && (a.1 == b.1 || exists k: nat :: Lexicographic(a.1, b.1, k)))
  {
    hide Sort, TextBefore, Lexicographic;
    SortOrders(dirs);
    AscendingPairs(Sort(dirs), i, j);
    TextBeforeIs(Sort(dirs)[i].1, Sort(dirs)[j].1);
  }

  lemma {:induction false} AscendingPairs(dirs: seq<CpuDir>, i: nat, j: nat)
    requires Ascending(dirs) && i < j < |dirs|
    ensures AtMost(dirs[i], dirs[j])
  {
    if i == 0 {
      assert dirs[1..][j - 1] == dirs[j];
    } else {
      AscendingPairs(dirs[1..], i - 1, j - 1);
    }
  }

  lemma {:induction false} InsertOrders(d: CpuDir, sorted: seq<CpuDir>)
    requires Ascending(sorted)
    ensures Ascending(Insert(d, sorted)) && multiset(Insert(d, sorted)) == multiset(sorted) + multiset{d}
    ensures forall x :: x in Insert(d, sorted) <==> x == d || x in sorted
  {
    hide TextBefore, DirBefore;
    if sorted != [] {
      var first, tail := sorted[0], sorted[1..];
      assert sorted == [first] + tail;
      DirTotal(d, first);
      if DirBefore(first, d) {
        InsertOrders(d, tail);
        assert ([first] + Insert(d, tail))[1..] == Insert(d, tail);
        assert AtMost(first, d);
      } else {
        forall x <- sorted ensures AtMost(d, x) {
          if x != first {
            DirTransitive(d, first, x);
          }
        }
        assert ([d] + sorted)[1..] == sorted;
      }
    }
  }
}
