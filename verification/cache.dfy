/** `collect_cache` of src/cache.cc: one entry per cache, however many CPUs share it. */
module CacheCollector {
  import opened Text
  import opened Numerals
  import opened Numbers
  import opened Fields
  import opened Readers
  import opened JsonGrammar
  import opened JsonPrinter

  datatype CacheType = UnknownType | Data | Instruction | Unified

  datatype CacheInfo = CacheInfo(
    cpuId: U32Field, level: U32Field, kind: CacheType, size: U64Field, lineSize: U64Field,
    associativity: U64Field, sets: U64Field, sharedCpuList: StringField
  )

  function TypeName(t: CacheType): string {
    match t
    case UnknownType => "unknown"
    case Data => "data"
    case Instruction => "instruction"
    case Unified => "unified"
  }

  function TypeFromText(value: string): CacheType {
    var low := Lower(value);
    if low == "data" then Data
    else if low == "instruction" then Instruction
    else if low == "unified" then Unified
    else UnknownType
  }

  function NumberText(f: Field<nat>): string {
    if f.valid then Decimal(f.content) else "?"
  }

  /** `cache_key`. */
  function CacheKey(c: CacheInfo): string {
    NumberText(c.level) + "|" + TypeName(c.kind) + "|" + NumberText(c.size) + "|"
    + (if c.sharedCpuList.valid then c.sharedCpuList.content else "?")
    + if !c.sharedCpuList.valid && c.cpuId.valid then "|cpu=" + Decimal(c.cpuId.content) else ""
  }

  // Reading the candidates.

  /** What one index directory of one CPU says. */
  function CacheAt(fs: FileSystem, cpu: u32, path: string): CacheInfo {
    var kind := LineField(fs, JoinPath(path, "type"), TrimmedText, "");
    CacheInfo(
      Available(cpu),
      LineField(fs, JoinPath(path, "level"), U32Text, 0),
      if kind.valid then TypeFromText(kind.content) else UnknownType,
      LineField(fs, JoinPath(path, "size"), SizeText, 0),
      LineField(fs, JoinPath(path, "coherency_line_size"), line => Multiplied(line, 1), 0),
      LineField(fs, JoinPath(path, "ways_of_associativity"), line => Multiplied(line, 1), 0),
      LineField(fs, JoinPath(path, "number_of_sets"), line => Multiplied(line, 1), 0),
      LineField(fs, JoinPath(path, "shared_cpu_list"), TrimmedText, "")
    )
  }

  function CpuCaches(fs: FileSystem, cpu: u32, root: string, names: seq<string>): seq<CacheInfo> {
    if names == [] then [] else OneIndex(fs, cpu, root, names[0]) + CpuCaches(fs, cpu, root, names[1..])
  }

  function OneIndex(fs: FileSystem, cpu: u32, root: string, name: string): seq<CacheInfo> {
    if StartsWith(name, "index") then [CacheAt(fs, cpu, JoinPath(root, name))] else []
  }

  function CacheRoot(dir: CpuDir): string {
    JoinPath(dir.1, "cache")
  }

  /** Every cache that any CPU reports, in CPU order. */
  function Candidates(fs: FileSystem, dirs: seq<CpuDir>): seq<CacheInfo> {
    if dirs == [] then []
    else CpuCaches(fs, dirs[0].0, CacheRoot(dirs[0]), fs.list(CacheRoot(dirs[0]))) + Candidates(fs, dirs[1..])
  }

  method ReadCache(fs: FileSystem, cpu: u32, path: string) returns (cache: CacheInfo)
    ensures cache == CacheAt(fs, cpu, path)
  {
    hide LineField, JoinPath, TypeFromText;
    var level := ReadU32Field(fs, JoinPath(path, "level"));
    var size := ReadSizeBytesField(fs, JoinPath(path, "size"));
    var lineSize := ReadU64Field(fs, JoinPath(path, "coherency_line_size"), 1);
    var associativity := ReadU64Field(fs, JoinPath(path, "ways_of_associativity"), 1);
    var sets := ReadU64Field(fs, JoinPath(path, "number_of_sets"), 1);
    var sharedCpuList := ReadStringField(fs, JoinPath(path, "shared_cpu_list"));
    var kind := ReadStringField(fs, JoinPath(path, "type"));
    cache := CacheInfo(Available(cpu), level, if kind.valid then TypeFromText(kind.content) else UnknownType,
                       size, lineSize, associativity, sets, sharedCpuList);
  }

  // Where the candidates come from.

  /** The j-th name in the cache directory of the i-th CPU is an index. */
  predicate IsIndex(fs: FileSystem, dirs: seq<CpuDir>, at: (nat, nat)) {
    && at.0 < |dirs|
    && var names := fs.list(JoinPath(dirs[at.0].1, "cache"));
    && at.1 < |names| && StartsWith(names[at.1], "index")
  }

  function CacheIn(fs: FileSystem, dirs: seq<CpuDir>, at: (nat, nat)): CacheInfo
    requires IsIndex(fs, dirs, at)
  {
    var root := JoinPath(dirs[at.0].1, "cache");
    CacheAt(fs, dirs[at.0].0, JoinPath(root, fs.list(root)[at.1]))
  }

  /** In CPU order, and in the order of the listing for one CPU. */
  predicate Before(a: (nat, nat), b: (nat, nat)) {
    a.0 < b.0 || (a.0 == b.0 && a.1 < b.1)
  }

  ghost predicate Rising(at: seq<(nat, nat)>) {
    forall a, b :: 0 <= a < b < |at| ==> Before(at[a], at[b])
  }

  function IndexNames(names: seq<string>): (r: seq<bool>)
    ensures |r| == |names| && forall i :: 0 <= i < |names| ==> r[i] == StartsWith(names[i], "index")
  {
    seq(|names|, i requires 0 <= i < |names| => StartsWith(names[i], "index"))
  }

  /** The caches of one CPU are those of its index names, in order. */
  lemma {:induction false} CpuCachesAt(fs: FileSystem, cpu: u32, root: string, names: seq<string>)
    returns (at: seq<nat>)
    ensures Picks(at, IndexNames(names)) && |at| == |CpuCaches(fs, cpu, root, names)|
    ensures forall k :: 0 <= k < |at| ==>
              at[k] < |names| && CpuCaches(fs, cpu, root, names)[k] == CacheAt(fs, cpu, JoinPath(root, names[at[k]]))
  {
    hide CacheAt, JoinPath, Picks, CpuCaches, OneIndex, IndexNames, StartsWith;
    CpuCachesStep(fs, cpu, root, names);
    if names == [] {
      at := [];
      NoPicks();
    } else {
      var later := CpuCachesAt(fs, cpu, root, names[1..]);
      at := PicksCons(StartsWith(names[0], "index"), IndexNames(names[1..]), later);
      var head, tail := OneIndex(fs, cpu, root, names[0]), CpuCaches(fs, cpu, root, names[1..]);
      OneIndexIs(fs, cpu, root, names[0]);
      forall k | 0 <= k < |at|
        ensures at[k] < |names| && (head + tail)[k] == CacheAt(fs, cpu, JoinPath(root, names[at[k]]))
      {
        if k >= |head| {
          var j := k - |head|;
          assert at[|head| + j] == later[j] + 1 && (head + tail)[k] == tail[j];
          assert names[1..][later[j]] == names[at[k]];
        }
      }
    }
  }

  lemma OneIndexIs(fs: FileSystem, cpu: u32, root: string, name: string)
    ensures OneIndex(fs, cpu, root, name) ==
            if StartsWith(name, "index") then [CacheAt(fs, cpu, JoinPath(root, name))] else []
  {}

  lemma CpuCachesStep(fs: FileSystem, cpu: u32, root: string, names: seq<string>)
    ensures names == [] ==> CpuCaches(fs, cpu, root, names) == [] && IndexNames(names) == []
    ensures names != [] ==>
              && CpuCaches(fs, cpu, root, names) ==
                 OneIndex(fs, cpu, root, names[0]) + CpuCaches(fs, cpu, root, names[1..])
              && IndexNames(names) == [StartsWith(names[0], "index")] + IndexNames(names[1..])
  {
    hide OneIndex;
  }

  /** The places of all candidates, in order. */
  ghost predicate Places(at: seq<(nat, nat)>, fs: FileSystem, dirs: seq<CpuDir>, cs: seq<CacheInfo>) {
    && |at| == |cs| && Rising(at)
    && (forall k :: 0 <= k < |at| ==> IsIndex(fs, dirs, at[k]) && cs[k] == CacheIn(fs, dirs, at[k]))
    && (forall p: (nat, nat) | IsIndex(fs, dirs, p) :: p in at)
  }

  lemma FirstPlaces(fs: FileSystem, dirs: seq<CpuDir>) returns (at: seq<(nat, nat)>)
    requires dirs != []
    ensures var root := CacheRoot(dirs[0]);
            var cs := CpuCaches(fs, dirs[0].0, root, fs.list(root));
            && |at| == |cs| && Rising(at)
            && forall k :: 0 <= k < |at| ==>
                 at[k].0 == 0 && IsIndex(fs, dirs, at[k]) && cs[k] == CacheIn(fs, dirs, at[k])
    ensures forall p: (nat, nat) | p.0 == 0 && IsIndex(fs, dirs, p) :: p in at
  {
    hide CacheAt, JoinPath;
    var root := CacheRoot(dirs[0]);
    var js := CpuCachesAt(fs, dirs[0].0, root, fs.list(root));
    at := seq(|js|, k requires 0 <= k < |js| => (0, js[k]));
    forall p: (nat, nat) | p.0 == 0 && IsIndex(fs, dirs, p)
      ensures p in at
    {
      var k :| 0 <= k < |js| && js[k] == p.1;
      assert at[k] == p;
    }
  }

  lemma IndexShift(fs: FileSystem, dirs: seq<CpuDir>, p: (nat, nat))
    requires dirs != []
    ensures IsIndex(fs, dirs[1..], p) <==> IsIndex(fs, dirs, (p.0 + 1, p.1))
    ensures IsIndex(fs, dirs[1..], p) ==> CacheIn(fs, dirs[1..], p) == CacheIn(fs, dirs, (p.0 + 1, p.1))
  {
    hide CacheAt, JoinPath;
    assert p.0 + 1 < |dirs| ==> dirs[1..][p.0] == dirs[p.0 + 1];
  }

  lemma LaterPlaces(fs: FileSystem, dirs: seq<CpuDir>, cs: seq<CacheInfo>, later: seq<(nat, nat)>)
    returns (at: seq<(nat, nat)>)
    requires dirs != [] && Places(later, fs, dirs[1..], cs)
    ensures |at| == |cs| && Rising(at)
    ensures forall k :: 0 <= k < |at| ==>
              at[k].0 > 0 && IsIndex(fs, dirs, at[k]) && cs[k] == CacheIn(fs, dirs, at[k])
    ensures forall p: (nat, nat) | p.0 > 0 && IsIndex(fs, dirs, p) :: p in at
  {
    hide CacheIn, IsIndex;
    at := seq(|later|, k requires 0 <= k < |later| => (later[k].0 + 1, later[k].1));
    forall k | 0 <= k < |at|
      ensures at[k].0 > 0 && IsIndex(fs, dirs, at[k]) && cs[k] == CacheIn(fs, dirs, at[k])
    {
      IndexShift(fs, dirs, later[k]);
    }
    forall p: (nat, nat) | p.0 > 0 && IsIndex(fs, dirs, p)
      ensures p in at
    {
      IndexShift(fs, dirs, (p.0 - 1, p.1));
      var k :| 0 <= k < |later| && later[k] == (p.0 - 1, p.1);
      assert at[k] == p;
    }
  }

  lemma {:induction false} CandidatesAt(fs: FileSystem, dirs: seq<CpuDir>) returns (at: seq<(nat, nat)>)
    ensures Places(at, fs, dirs, Candidates(fs, dirs))
  {
    hide CacheIn, IsIndex, Places, CpuCaches, CacheRoot;
    if dirs == [] {
      at := [];
      NoPlaces(fs);
    } else {
      var root := CacheRoot(dirs[0]);
      var first := FirstPlaces(fs, dirs);
      var later := CandidatesAt(fs, dirs[1..]);
      var rest := LaterPlaces(fs, dirs, Candidates(fs, dirs[1..]), later);
      at := first + rest;
      PlacesConcat(fs, dirs, first, CpuCaches(fs, dirs[0].0, root, fs.list(root)), rest, Candidates(fs, dirs[1..]));
    }
  }

  lemma PlacesConcat(fs: FileSystem, dirs: seq<CpuDir>, first: seq<(nat, nat)>, a: seq<CacheInfo>,
                     rest: seq<(nat, nat)>, b: seq<CacheInfo>)
    requires |first| == |a| && Rising(first) && |rest| == |b| && Rising(rest)
    requires forall k :: 0 <= k < |first| ==>
               first[k].0 == 0 && IsIndex(fs, dirs, first[k]) && a[k] == CacheIn(fs, dirs, first[k])
    requires forall k :: 0 <= k < |rest| ==>
               rest[k].0 > 0 && IsIndex(fs, dirs, rest[k]) && b[k] == CacheIn(fs, dirs, rest[k])
    requires forall p: (nat, nat) | IsIndex(fs, dirs, p) :: p in if p.0 == 0 then first else rest
    ensures Places(first + rest, fs, dirs, a + b)
  {
    hide CacheIn, IsIndex;
  }

  lemma NoPlaces(fs: FileSystem)
    ensures Places([], fs, [], [])
  {}

  // What the files of an index directory say.

  function IndexPath(path: string, name: string): string {
    path + "/" + name
  }

  /** The kernel's names for the types, in any letter case, and no others. */
  lemma TypeFromTextIs(value: string)
    ensures TypeFromText(value) == Data <==> Lower(value) == TypeName(Data) == "data"
    ensures TypeFromText(value) == Instruction <==> Lower(value) == TypeName(Instruction) == "instruction"
    ensures TypeFromText(value) == Unified <==> Lower(value) == TypeName(Unified) == "unified"
  {
    hide Lower;
    assert |"data"| == 4 && |"instruction"| == 11 && |"unified"| == 7;
  }

  /** Each file is read into its own field. */
  lemma CacheFromFiles(fs: FileSystem, cpu: u32, path: string, n: u32, line: string)
    requires path !in {"", "/"} && '\n' !in line
    ensures var c := CacheAt(fs, cpu, path);
            && c.cpuId == Available(cpu)
            && (Shows(fs, IndexPath(path, "level"), Decimal(n)) ==> c.level == Available(n))
            && (Shows(fs, IndexPath(path, "size"), Decimal(n) + "" + "K") ==> c.size == Available(n * 1024))
            && (Shows(fs, IndexPath(path, "coherency_line_size"), Decimal(n)) ==> c.lineSize == Available(n))
            && (Shows(fs, IndexPath(path, "ways_of_associativity"), Decimal(n)) ==> c.associativity == Available(n))
            && (Shows(fs, IndexPath(path, "number_of_sets"), Decimal(n)) ==> c.sets == Available(n))
            && (Shows(fs, IndexPath(path, "shared_cpu_list"), line) ==> c.sharedCpuList == Available(Trim(line)))
            && (Shows(fs, IndexPath(path, "type"), line) ==> c.kind == TypeFromText(Trim(line)))
            && (fs.read(IndexPath(path, "type")).status != Ok ==> c.kind == UnknownType)
  {
    hide LineField, JoinPath, Shows, U32Text, Multiplied, SizeText, Trim, TypeFromText, IndexPath;
    IndexFiles(path);
    LevelRead(fs, path, n);
    SizesRead(fs, path, n);
    TextsRead(fs, path, line);
  }

  lemma IndexFiles(path: string)
    requires path !in {"", "/"}
    ensures forall name <- {"level", "size", "coherency_line_size", "ways_of_associativity", "number_of_sets",
                            "shared_cpu_list", "type"} :: JoinPath(path, name) == IndexPath(path, name)
  {
    hide JoinPath, IndexPath;
    JoinsPath(path, "level");
    JoinsPath(path, "size");
    JoinsPath(path, "coherency_line_size");
    JoinsPath(path, "ways_of_associativity");
    JoinsPath(path, "number_of_sets");
    JoinsPath(path, "shared_cpu_list");
    JoinsPath(path, "type");
  }

  lemma JoinsPath(path: string, name: string)
    requires path !in {"", "/"} && name != "" && name[0] != '/'
    ensures JoinPath(path, name) == IndexPath(path, name)
  {
    JoinPathIs(path, name);
  }

  lemma LevelRead(fs: FileSystem, path: string, n: u32)
    ensures Shows(fs, IndexPath(path, "level"), Decimal(n)) ==>
              LineField(fs, IndexPath(path, "level"), U32Text, 0) == Available(n)
  {
    hide LineField, Shows, U32Text, Decimal, IndexPath;
    if Shows(fs, IndexPath(path, "level"), Decimal(n)) {
      IdRead(fs, IndexPath(path, "level"), n);
    }
  }

  lemma SizesRead(fs: FileSystem, path: string, n: u32)
    ensures Shows(fs, IndexPath(path, "size"), Decimal(n) + "" + "K") ==>
              LineField(fs, IndexPath(path, "size"), SizeText, 0) == Available(n * 1024)
    ensures forall name :: Shows(fs, IndexPath(path, name), Decimal(n)) ==>
              LineField(fs, IndexPath(path, name), line => Multiplied(line, 1), 0) == Available(n)
  {
    hide LineField, Shows, SizeText, Multiplied, Decimal, IndexPath;
    if Shows(fs, IndexPath(path, "size"), Decimal(n) + "" + "K") {
      SizeRead(fs, IndexPath(path, "size"), n);
    }
    forall name | Shows(fs, IndexPath(path, name), Decimal(n))
      ensures LineField(fs, IndexPath(path, name), line => Multiplied(line, 1), 0) == Available(n)
    {
      NumberRead(fs, IndexPath(path, name), n, 1);
    }
  }

  lemma TextsRead(fs: FileSystem, path: string, line: string)
    requires '\n' !in line
    ensures forall name :: Shows(fs, IndexPath(path, name), line) ==>
              LineField(fs, IndexPath(path, name), TrimmedText, "") == Available(Trim(line))
    ensures forall name :: fs.read(IndexPath(path, name)).status != Ok ==>
              !LineField(fs, IndexPath(path, name), TrimmedText, "").valid
  {
    hide LineField, Shows, Trim, IndexPath;
    forall name
      ensures Shows(fs, IndexPath(path, name), line) ==>
                LineField(fs, IndexPath(path, name), TrimmedText, "") == Available(Trim(line))
      ensures fs.read(IndexPath(path, name)).status != Ok ==>
                !LineField(fs, IndexPath(path, name), TrimmedText, "").valid
    {
      FieldRead(fs, IndexPath(path, name), line, TrimmedText, "");
    }
  }

  // First occurrences.

  /** Whether the candidate at `i` is the first with its key. */
  ghost predicate IsFirst(cs: seq<CacheInfo>, i: nat)
    requires i < |cs|
  {
    forall j :: 0 <= j < i ==> CacheKey(cs[j]) != CacheKey(cs[i])
  }

  /** The candidates among the first n that are first with their key, in order. */
  ghost function Firsts(cs: seq<CacheInfo>, n: nat): seq<CacheInfo>
    requires n <= |cs|
  {
    if n == 0 then []
    else Firsts(cs, n - 1) + if IsFirst(cs, n - 1) then [cs[n - 1]] else []
  }

  ghost function Keys(cs: seq<CacheInfo>): set<string> {
    set c <- cs :: CacheKey(c)
  }

  lemma KeysSnoc(cs: seq<CacheInfo>, c: CacheInfo)
    ensures Keys(cs + [c]) == Keys(cs) + {CacheKey(c)}
  {
    hide CacheKey;
    assert forall x :: x in cs + [c] <==> x in cs || x == c;
  }

  lemma FirstsSnoc(cs: seq<CacheInfo>, c: CacheInfo)
    ensures Firsts(cs + [c], |cs| + 1) ==
            Firsts(cs, |cs|) + if CacheKey(c) in Keys(cs) then [] else [c]
  {
    hide CacheKey;
    FirstsPrefix(cs, [c], |cs|);
    var all := cs + [c];
    if IsFirst(all, |cs|) {
      forall x <- cs ensures CacheKey(x) != CacheKey(c) {
        var j :| 0 <= j < |cs| && cs[j] == x;
        assert all[j] == x;
      }
    } else {
      var j :| 0 <= j < |cs| && CacheKey(all[j]) == CacheKey(c);
      assert all[j] == cs[j] && cs[j] in cs;
    }
  }

  lemma {:induction false} FirstsPrefix(cs: seq<CacheInfo>, more: seq<CacheInfo>, n: nat)
    requires n <= |cs|
    ensures Firsts(cs + more, n) == Firsts(cs, n)
  {
    hide CacheKey;
    if n > 0 {
      FirstsPrefix(cs, more, n - 1);
      assert forall j :: 0 <= j < n ==> (cs + more)[j] == cs[j];
    }
  }

  method CollectCache(fs: FileSystem, sysfsRoot: string) returns (entries: seq<CacheInfo>)
    ensures var cs := Candidates(fs, SortedDirs(fs, sysfsRoot));
            entries == Firsts(cs, |cs|)
    ensures exists at :: FirstCaches(entries, at, fs, SortedDirs(fs, sysfsRoot))
  {
    hide FirstCaches, CacheKey, CacheAt, SortedDirs, JoinPath, Firsts, Keys;
    entries := [];
    var seen: set<string> := {};
    ghost var done: seq<CacheInfo> := [];
    NoFirsts();
    var cpus := CpuDirs(fs, sysfsRoot);
    assert cpus[0..] == cpus;
    for i := 0 to |cpus|
      invariant done + Candidates(fs, cpus[i..]) == Candidates(fs, cpus)
      invariant entries == Firsts(done, |done|) && seen == Keys(done)
    {
      var cpu := cpus[i];
      var cacheRoot := JoinPath(cpu.1, "cache");
      var names := fs.list(cacheRoot);
      ghost var before := done;
      assert names[0..] == names && cpus[i..][1..] == cpus[i + 1..];
      for j := 0 to |names|
        invariant done + CpuCaches(fs, cpu.0, cacheRoot, names[j..])
               == before + CpuCaches(fs, cpu.0, cacheRoot, names)
        invariant entries == Firsts(done, |done|) && seen == Keys(done)
      {
        assert names[j..][1..] == names[j + 1..];
        if !StartsWith(names[j], "index") {
          continue;
        }
        var cache := ReadCache(fs, cpu.0, JoinPath(cacheRoot, names[j]));
        var key := CacheKey(cache);
        FirstsSnoc(done, cache);
        KeysSnoc(done, cache);
        if key !in seen {
          entries := entries + [cache];
        }
        seen := seen + {key};
        Assoc(done, [cache], CpuCaches(fs, cpu.0, cacheRoot, names[j + 1..]));
        done := done + [cache];
      }
      assert done == before + CpuCaches(fs, cpu.0, cacheRoot, names);
      Assoc(before, CpuCaches(fs, cpu.0, cacheRoot, names), Candidates(fs, cpus[i + 1..]));
    }
    assert done == Candidates(fs, cpus);
    ghost var at := FirstsAreFirstCaches(fs, cpus);
  }

  lemma NoFirsts()
    ensures Firsts([], 0) == [] && Keys([]) == {}
  {}

  lemma {:induction false} FirstsAre(cs: seq<CacheInfo>, n: nat)
    requires n <= |cs|
    ensures forall c <- Firsts(cs, n) :: exists i :: 0 <= i < n && cs[i] == c && IsFirst(cs, i)
    ensures forall i :: 0 <= i < n && IsFirst(cs, i) ==> cs[i] in Firsts(cs, n)
  {
    hide IsFirst;
    if n > 0 {
      FirstsAre(cs, n - 1);
    }
  }

  /** No two with one key. */
  ghost predicate KeysDiffer(cs: seq<CacheInfo>) {
    forall a, b :: 0 <= a < b < |cs| ==> CacheKey(cs[a]) != CacheKey(cs[b])
  }

  lemma KeysDifferSnoc(cs: seq<CacheInfo>, c: CacheInfo)
    requires KeysDiffer(cs) && forall x <- cs :: CacheKey(x) != CacheKey(c)
    ensures KeysDiffer(cs + [c])
  {
    hide CacheKey;
    assert forall a :: 0 <= a < |cs| ==> cs[a] in cs;
  }

  lemma {:induction false} FirstsDiffer(cs: seq<CacheInfo>, n: nat)
    requires n <= |cs|
    ensures KeysDiffer(Firsts(cs, n))
  {
    hide CacheKey, IsFirst;
    if n > 0 {
      FirstsDiffer(cs, n - 1);
      FirstsAre(cs, n - 1);
      var before := Firsts(cs, n - 1);
      if IsFirst(cs, n - 1) {
        forall c <- before ensures CacheKey(c) != CacheKey(cs[n - 1]) {
          var i :| 0 <= i < n - 1 && cs[i] == c && IsFirst(cs, i);
          FirstDiffers(cs, i, n - 1);
        }
        KeysDifferSnoc(before, cs[n - 1]);
      }
    }
  }

  lemma FirstDiffers(cs: seq<CacheInfo>, i: nat, j: nat)
    requires i < j < |cs| && IsFirst(cs, j)
    ensures CacheKey(cs[i]) != CacheKey(cs[j])
  {}

  /** The entries are candidates in their order, no two with one key, and every candidate
      is represented by the first one that has its key. */
  lemma FirstsRepresent(cs: seq<CacheInfo>, n: nat)
    requires n <= |cs|
    ensures forall c <- Firsts(cs, n) :: exists i :: 0 <= i < n && cs[i] == c && IsFirst(cs, i)
    ensures forall i :: 0 <= i < n && IsFirst(cs, i) ==> cs[i] in Firsts(cs, n)
    ensures KeysDiffer(Firsts(cs, n))
  {
    hide Firsts, IsFirst, KeysDiffer;
    FirstsAre(cs, n);
    FirstsDiffer(cs, n);
  }

  /** The entries are, in CPU order, the caches that are the first with their key; every
      cache of every CPU has an entry with its key. */
  ghost predicate FirstCaches(es: seq<CacheInfo>, at: seq<(nat, nat)>, fs: FileSystem, dirs: seq<CpuDir>) {
    && |at| == |es| && Rising(at) && KeysDiffer(es)
    && (forall k :: 0 <= k < |at| ==>
          && IsIndex(fs, dirs, at[k]) && es[k] == CacheIn(fs, dirs, at[k])
          && forall p: (nat, nat) | IsIndex(fs, dirs, p) && Before(p, at[k]) ::
               CacheKey(CacheIn(fs, dirs, p)) != CacheKey(es[k]))
    && (forall p: (nat, nat) | IsIndex(fs, dirs, p) ::
          exists e <- es :: CacheKey(e) == CacheKey(CacheIn(fs, dirs, p)))
  }

  lemma RisingIndex(at: seq<(nat, nat)>, i: nat, j: nat)
    requires Rising(at) && i < |at| && j < |at| && Before(at[j], at[i])
    ensures j < i
  {}

  lemma FirstsAreFirstCaches(fs: FileSystem, dirs: seq<CpuDir>) returns (at: seq<(nat, nat)>)
    ensures var cs := Candidates(fs, dirs); FirstCaches(Firsts(cs, |cs|), at, fs, dirs)
  {
    hide CacheKey, CacheIn, IsIndex, Candidates, Firsts, KeysDiffer;
    var cs := Candidates(fs, dirs);
    var es := Firsts(cs, |cs|);
    var all := CandidatesAt(fs, dirs);
    var ks := FirstsInOrder(cs, |cs|);
    FirstsDiffer(cs, |cs|);
    at := seq(|ks|, k requires 0 <= k < |ks| => all[ks[k]]);
    forall k, p: (nat, nat) | 0 <= k < |at| && IsIndex(fs, dirs, p) && Before(p, at[k])
      ensures CacheKey(CacheIn(fs, dirs, p)) != CacheKey(es[k])
    {
      var q :| 0 <= q < |all| && all[q] == p;
      RisingIndex(all, ks[k], q);
      assert CacheKey(cs[q]) != CacheKey(cs[ks[k]]);
    }
    forall p: (nat, nat) | IsIndex(fs, dirs, p)
      ensures exists e <- es :: CacheKey(e) == CacheKey(CacheIn(fs, dirs, p))
    {
      var q :| 0 <= q < |all| && all[q] == p;
      EveryCandidateRepresented(cs, q);
    }
  }

  /** The entries keep the order of the candidates: `at` gives their positions. */
  lemma {:induction false} FirstsInOrder(cs: seq<CacheInfo>, n: nat) returns (at: seq<nat>)
    requires n <= |cs|
    ensures |at| == |Firsts(cs, n)|
    ensures forall k :: 0 <= k < |at| ==> at[k] < n && IsFirst(cs, at[k]) && Firsts(cs, n)[k] == cs[at[k]]
    ensures forall j, k :: 0 <= j < k < |at| ==> at[j] < at[k]
  {
    hide IsFirst;
    at := [];
    if n > 0 {
      at := FirstsInOrder(cs, n - 1);
      if IsFirst(cs, n - 1) {
        at := at + [n - 1];
      }
    }
  }

  /** The index of the first candidate with the key of the one at `i`. */
  ghost function FirstIndex(cs: seq<CacheInfo>, i: nat): (f: nat)
    requires i < |cs|
    ensures f <= i && CacheKey(cs[f]) == CacheKey(cs[i]) && IsFirst(cs, f)
  {
    if IsFirst(cs, i) then i
    else
      var j :| 0 <= j < i && CacheKey(cs[j]) == CacheKey(cs[i]);
      FirstIndex(cs, j)
  }

  lemma EveryCandidateRepresented(cs: seq<CacheInfo>, i: nat)
    requires i < |cs|
    ensures exists c <- Firsts(cs, |cs|) :: CacheKey(c) == CacheKey(cs[i])
  {
    hide CacheKey;
    FirstsRepresent(cs, |cs|);
    var f := FirstIndex(cs, i);
    assert cs[f] in Firsts(cs, |cs|);
  }

  // Keys identify caches.

  datatype Identity = Identity(
    level: Option<nat>, kind: CacheType, size: Option<nat>, sharedBy: Option<string>, cpu: Option<nat>
  )

  function Given<T>(f: Field<T>): Option<T> {
    if f.valid then Some(f.content) else None
  }

  /** What a key is meant to identify: level, type, size and sharing list, and the CPU when
      the list is not available. */
  function IdentityOf(c: CacheInfo): Identity {
    Identity(Given(c.level), c.kind, Given(c.size), Given(c.sharedCpuList),
             if c.sharedCpuList.valid then None else Given(c.cpuId))
  }

  /** What follows level, type and size in a key. */
  function KeyRest(c: CacheInfo): string {
    if c.sharedCpuList.valid then c.sharedCpuList.content
    else if c.cpuId.valid then "?|cpu=" + Decimal(c.cpuId.content)
    else "?"
  }

  lemma KeyShape(c: CacheInfo)
    ensures CacheKey(c) ==
            NumberText(c.level) + ['|'] + (TypeName(c.kind) + ['|'] + (NumberText(c.size) + ['|'] + KeyRest(c)))
    ensures '|' !in NumberText(c.level) && '|' !in TypeName(c.kind) && '|' !in NumberText(c.size)
  {
    hide Decimal;
    NumberTextReads(c.level);
    NumberTextReads(c.size);
    var l, t, s := NumberText(c.level), TypeName(c.kind), NumberText(c.size);
    var list := if c.sharedCpuList.valid then c.sharedCpuList.content else "?";
    var suffix := if !c.sharedCpuList.valid && c.cpuId.valid then "|cpu=" + Decimal(c.cpuId.content) else "";
    Reassociate(l, t, s, list, suffix);
    RestIs(c, list, suffix);
  }

  lemma RestIs(c: CacheInfo, list: string, suffix: string)
    requires list == if c.sharedCpuList.valid then c.sharedCpuList.content else "?"
    requires suffix == if !c.sharedCpuList.valid && c.cpuId.valid then "|cpu=" + Decimal(c.cpuId.content) else ""
    ensures list + suffix == KeyRest(c)
  {
    hide Decimal;
  }

  lemma Reassociate(l: string, t: string, s: string, list: string, suffix: string)
    ensures l + "|" + t + "|" + s + "|" + list + suffix == l + ['|'] + (t + ['|'] + (s + ['|'] + (list + suffix)))
  {}

  /** Texts that are cut at their first separator are equal piece by piece. */
  lemma CutEqual(a: string, x: string, b: string, y: string)
    requires '|' !in a && '|' !in b
    ensures a + ['|'] + x == b + ['|'] + y <==> a == b && x == y
  {
    FindFirst(a, '|', x);
    FindFirst(b, '|', y);
    assert (a + ['|'] + x)[..|a|] == a && (a + ['|'] + x)[|a| + 1..] == x;
    assert (b + ['|'] + y)[..|b|] == b && (b + ['|'] + y)[|b| + 1..] == y;
  }

  lemma NumberTextReads(f: Field<nat>)
    ensures '|' !in NumberText(f)
    ensures f.valid ==> '|' !in Decimal(f.content) && '?' !in NumberText(f)
  {
    assert forall c <- Decimal(f.content) :: IsDigit(c, 10);
  }

  lemma NumberTextInjective(a: Field<nat>, b: Field<nat>)
    ensures NumberText(a) == NumberText(b) <==> Given(a) == Given(b)
  {
    hide Decimal;
    NumberTextReads(a);
    NumberTextReads(b);
    DecimalValue(a.content);
    DecimalValue(b.content);
    assert '?' in "?" by { assert "?"[0] == '?'; }
  }

  lemma TypeNameInjective(a: CacheType, b: CacheType)
    ensures TypeName(a) == TypeName(b) <==> a == b
  {
    assert |TypeName(a)| == |TypeName(b)| && TypeName(a)[2] == TypeName(b)[2] <==> a == b;
  }

  /** The sharing list of `b` spells what the key of `a` says for want of a list. */
  predicate Mimics(a: CacheInfo, b: CacheInfo) {
    && !a.sharedCpuList.valid && b.sharedCpuList.valid && b.sharedCpuList.content == KeyRest(a)
    && Given(a.level) == Given(b.level) && a.kind == b.kind && Given(a.size) == Given(b.size)
  }

  /** With CPU ids that were read, two caches have one key exactly when they have one
      identity or a sharing list spells the suffix of an unreadable one. */
  lemma KeyIdentifies(a: CacheInfo, b: CacheInfo)
    requires a.cpuId.valid && b.cpuId.valid
    ensures CacheKey(a) == CacheKey(b) <==> IdentityOf(a) == IdentityOf(b) || Mimics(a, b) || Mimics(b, a)
  {
    hide CacheKey, NumberText, TypeName, Decimal, KeyRest;
    KeyShape(a);
    KeyShape(b);
    var x, y := NumberText(a.size) + ['|'] + KeyRest(a), NumberText(b.size) + ['|'] + KeyRest(b);
    CutEqual(NumberText(a.level), TypeName(a.kind) + ['|'] + x, NumberText(b.level), TypeName(b.kind) + ['|'] + y);
    CutEqual(TypeName(a.kind), x, TypeName(b.kind), y);
    CutEqual(NumberText(a.size), KeyRest(a), NumberText(b.size), KeyRest(b));
    NumberTextInjective(a.level, b.level);
    NumberTextInjective(a.size, b.size);
    TypeNameInjective(a.kind, b.kind);
    RestsIdentify(a, b);
  }

  lemma RestsIdentify(a: CacheInfo, b: CacheInfo)
    requires a.cpuId.valid && b.cpuId.valid
    ensures a.sharedCpuList.valid && b.sharedCpuList.valid ==>
              (KeyRest(a) == KeyRest(b) <==> a.sharedCpuList.content == b.sharedCpuList.content)
    ensures !a.sharedCpuList.valid && !b.sharedCpuList.valid ==>
              (KeyRest(a) == KeyRest(b) <==> a.cpuId.content == b.cpuId.content)
    ensures a.sharedCpuList.valid ==> KeyRest(a) == a.sharedCpuList.content
    ensures b.sharedCpuList.valid ==> KeyRest(b) == b.sharedCpuList.content
  {
    hide Decimal;
    DecimalValue(a.cpuId.content);
    DecimalValue(b.cpuId.content);
    var p, m, n := "?|cpu=", Decimal(a.cpuId.content), Decimal(b.cpuId.content);
    assert (p + m)[6..] == m && (p + n)[6..] == n;
  }

  /** So keys identify caches whenever no sharing list holds the separator. */
  lemma KeysDoNotCollide(a: CacheInfo, b: CacheInfo)
    requires a.cpuId.valid && b.cpuId.valid
    requires a.sharedCpuList.valid ==> '|' !in a.sharedCpuList.content
    requires b.sharedCpuList.valid ==> '|' !in b.sharedCpuList.content
    ensures CacheKey(a) == CacheKey(b) <==> IdentityOf(a) == IdentityOf(b)
  {
    hide CacheKey, Decimal;
    KeyIdentifies(a, b);
    assert !a.sharedCpuList.valid ==> KeyRest(a)[1] == '|';
    assert !b.sharedCpuList.valid ==> KeyRest(b)[1] == '|';
  }

  /** Without that condition they do collide. */
  lemma KeysCollide(c: CacheInfo)
    requires !c.sharedCpuList.valid && c.cpuId == Available(0)
    ensures var d := c.(sharedCpuList := Available("?|cpu=0"));
            CacheKey(c) == CacheKey(d) && IdentityOf(c) != IdentityOf(d)
  {
    hide CacheKey;
    assert Decimal(0) == "0";
    KeyIdentifies(c, c.(sharedCpuList := Available("?|cpu=0")));
  }

  // What the collector keeps.

  lemma {:induction false} CandidatesHaveCpus(fs: FileSystem, dirs: seq<CpuDir>)
    ensures forall c <- Candidates(fs, dirs) :: c.cpuId.valid
  {
    hide CacheAt, JoinPath;
    if dirs != [] {
      var root := CacheRoot(dirs[0]);
      CpuCachesHaveCpus(fs, dirs[0].0, root, fs.list(root));
      CandidatesHaveCpus(fs, dirs[1..]);
    }
  }

  lemma {:induction false} CpuCachesHaveCpus(fs: FileSystem, cpu: u32, root: string, names: seq<string>)
    ensures forall c <- CpuCaches(fs, cpu, root, names) :: c.cpuId.valid
  {
    hide JoinPath, LineField;
    if names != [] {
      CpuCachesHaveCpus(fs, cpu, root, names[1..]);
    }
  }

  ghost predicate IdentityKept(cs: seq<CacheInfo>, c: CacheInfo) {
    exists e <- Firsts(cs, |cs|) :: IdentityOf(e) == IdentityOf(c)
  }

  ghost predicate Masked(cs: seq<CacheInfo>, c: CacheInfo) {
    exists e <- Firsts(cs, |cs|) :: Mimics(e, c) || Mimics(c, e)
  }

  /** Of any candidates whose CPUs are known, no two entries have one identity, and the
      identity of a candidate is kept exactly when no entry mimics it or is mimicked by
      it. */
  lemma IdentitiesKept(cs: seq<CacheInfo>)
    requires forall c <- cs :: c.cpuId.valid
    ensures var es := Firsts(cs, |cs|);
            forall a, b :: 0 <= a < b < |es| ==> IdentityOf(es[a]) != IdentityOf(es[b])
    ensures forall c <- cs :: IdentityKept(cs, c) <==> !Masked(cs, c)
  {
    hide CacheKey, Firsts, IdentityOf, Mimics, IsFirst, KeysDiffer;
    var es := Firsts(cs, |cs|);
    FirstsRepresent(cs, |cs|);
    forall e <- es ensures e.cpuId.valid {
      var i :| 0 <= i < |cs| && cs[i] == e && IsFirst(cs, i);
      assert cs[i] in cs;
    }
    EntriesDiffer(es);
    forall c <- cs
      ensures IdentityKept(cs, c) <==> !Masked(cs, c)
    {
      var i :| 0 <= i < |cs| && cs[i] == c;
      EveryCandidateRepresented(cs, i);
      var e :| e in es && CacheKey(e) == CacheKey(c);
      OneEntry(es, e, c);
    }
  }

  lemma EntriesDiffer(es: seq<CacheInfo>)
    requires KeysDiffer(es) && forall e <- es :: e.cpuId.valid
    ensures forall a, b :: 0 <= a < b < |es| ==> IdentityOf(es[a]) != IdentityOf(es[b])
  {
    hide CacheKey, IdentityOf, Mimics;
    forall a, b | 0 <= a < b < |es|
      ensures IdentityOf(es[a]) != IdentityOf(es[b])
    {
      assert es[a] in es && es[b] in es;
      KeyIdentifies(es[a], es[b]);
    }
  }

  /** The entry with a candidate's key is the only one that can keep or mask it. */
  lemma OneEntry(es: seq<CacheInfo>, e: CacheInfo, c: CacheInfo)
    requires KeysDiffer(es) && e in es && c.cpuId.valid && forall x <- es :: x.cpuId.valid
    requires CacheKey(e) == CacheKey(c)
    ensures (exists x <- es :: IdentityOf(x) == IdentityOf(c)) <==> !exists x <- es :: Mimics(x, c) || Mimics(c, x)
  {
    hide CacheKey, IdentityOf, Mimics;
    forall x <- es
      ensures CacheKey(x) == CacheKey(c) <==> x == e
      ensures CacheKey(x) == CacheKey(c) <==> IdentityOf(x) == IdentityOf(c) || Mimics(x, c) || Mimics(c, x)
    {
      KeyIdentifies(x, c);
      var i :| 0 <= i < |es| && es[i] == x;
      var j :| 0 <= j < |es| && es[j] == e;
      assert i < j || j < i ==> CacheKey(es[i]) != CacheKey(es[j]);
    }
    MimicsDiffers(e, c);
  }

  lemma MimicsDiffers(a: CacheInfo, b: CacheInfo)
    ensures Mimics(a, b) || Mimics(b, a) ==> IdentityOf(a) != IdentityOf(b)
  {}

  /** For every file system: no two collected entries have one identity, and when no
      sharing list holds the separator, every cache that any CPU reports keeps its
      identity among them. */
  lemma CollectedIdentities(fs: FileSystem, sysfsRoot: string)
    ensures var cs := Candidates(fs, SortedDirs(fs, sysfsRoot));
            var es := Firsts(cs, |cs|);
            && (forall a, b :: 0 <= a < b < |es| ==> IdentityOf(es[a]) != IdentityOf(es[b]))
            && (forall c <- cs :: IdentityKept(cs, c) <==> !Masked(cs, c))
            && (NoSeparators(cs) ==> forall c <- cs :: IdentityKept(cs, c))
  {
    hide Candidates, SortedDirs, Firsts, IdentityOf, IdentityKept, Masked;
    var cs := Candidates(fs, SortedDirs(fs, sysfsRoot));
    CandidatesHaveCpus(fs, SortedDirs(fs, sysfsRoot));
    IdentitiesKept(cs);
    if NoSeparators(cs) {
      NothingMasked(cs);
    }
  }

  ghost predicate NoSeparators(cs: seq<CacheInfo>) {
    forall c <- cs :: c.sharedCpuList.valid ==> '|' !in c.sharedCpuList.content
  }

  lemma NothingMasked(cs: seq<CacheInfo>)
    requires NoSeparators(cs) && forall c <- cs :: c.cpuId.valid
    ensures forall c <- cs :: !Masked(cs, c)
  {
    hide Firsts, Mimics, IsFirst, KeysDiffer;
    FirstsRepresent(cs, |cs|);
    forall c <- cs, e <- Firsts(cs, |cs|)
      ensures !Mimics(e, c) && !Mimics(c, e)
    {
      var i :| 0 <= i < |cs| && cs[i] == e && IsFirst(cs, i);
      MimicsSeparator(e, c);
      MimicsSeparator(c, e);
    }
  }

  lemma MimicsSeparator(a: CacheInfo, b: CacheInfo)
    requires a.cpuId.valid
    ensures Mimics(a, b) ==> b.sharedCpuList.valid && '|' in b.sharedCpuList.content
  {
    hide Decimal;
    assert !a.sharedCpuList.valid ==> KeyRest(a)[1] == '|';
  }

  // A machine that loses a cache.

  const CPU0 := "/sys/devices/system/cpu/cpu0/cache"

  function IndexFile(index: string, name: string): string {
    CPU0 + "/" + index + "/" + name
  }

  /** One CPU with two caches of which nothing can be read but the second one's sharing
      list, and that spells the first one's suffix. */
  function LossyMachine(): FileSystem {
    FileSystem(
      path => if path == IndexFile("index1", "shared_cpu_list") then ReadResult(Ok, "?|cpu=0")
              else ReadResult(NotFound, ""),
      path => if path == "/sys/devices/system/cpu" then ["cpu0"]
              else if path == CPU0 then ["index0", "index1"]
              else [])
  }

  function Unreadable(sharedCpuList: StringField): CacheInfo {
    CacheInfo(Available(0), Unavailable(NotFound, 0), UnknownType, Unavailable(NotFound, 0), Unavailable(NotFound, 0),
              Unavailable(NotFound, 0), Unavailable(NotFound, 0), sharedCpuList)
  }

  /** The collector drops the second cache although it is another one. */
  lemma CacheLost()
    ensures var cs := Candidates(LossyMachine(), SortedDirs(LossyMachine(), "/sys"));
            && |cs| == 2 && Firsts(cs, |cs|) == [cs[0]]
            && IdentityOf(cs[0]) != IdentityOf(cs[1]) && !IdentityKept(cs, cs[1])
  {
    hide CacheKey, Candidates, SortedDirs, LossyMachine;
    var a, b := Unreadable(Unavailable(NotFound, "")), Unreadable(Available("?|cpu=0"));
    LossyCandidates();
    KeysCollide(a);
    assert b == a.(sharedCpuList := Available("?|cpu=0"));
    var cs := [a, b];
    assert CacheKey(cs[0]) == CacheKey(cs[1]);
    assert IsFirst(cs, 0) && !IsFirst(cs, 1);
    assert Firsts(cs, 0) == [] && Firsts(cs, 1) == [a] && Firsts(cs, 2) == [a];
  }

  lemma LossyDirs()
    ensures SortedDirs(LossyMachine(), "/sys") == [(0, "/sys/devices/system/cpu/cpu0")]
  {
    hide DirsOf, JoinPath, CpuRoot, U64Text;
    LossyPaths();
    OneCpu(CpuRoot("/sys"));
    var d: CpuDir := (0, "/sys/devices/system/cpu/cpu0");
    assert [d][1..] == [] && Sort([d]) == [d];
  }

  lemma LossyPaths()
    ensures CpuRoot("/sys") == "/sys/devices/system/cpu"
    ensures JoinPath("/sys/devices/system/cpu", "cpu0") == "/sys/devices/system/cpu/cpu0"
  {
    var suffix := "/devices/system/cpu";
    assert suffix[0] == '/' && "/sys" + suffix == "/sys/devices/system/cpu";
    var root := "/sys/devices/system/cpu";
    assert root + "/" + "cpu0" == "/sys/devices/system/cpu/cpu0";
  }

  lemma OneCpu(root: string)
    ensures DirsOf(root, ["cpu0"]) == [(0, JoinPath(root, "cpu0"))]
  {
    hide U64Text, JoinPath;
    U64OfDecimal("", 0, "");
    assert Decimal(0) == "0" && "" + "0" + "" == "0";
    assert "cpu0"[3..] == "0" && "cpu0"[..3] == "cpu";
    assert ["cpu0"][1..] == [];
  }

  lemma LossyCandidates()
    ensures Candidates(LossyMachine(), SortedDirs(LossyMachine(), "/sys")) ==
            [Unreadable(Unavailable(NotFound, "")), Unreadable(Available("?|cpu=0"))]
  {
    hide SortedDirs, CacheAt;
    LossyDirs();
    var dir: CpuDir := (0, "/sys/devices/system/cpu/cpu0");
    var names := ["index0", "index1"];
    assert CacheRoot(dir) == CPU0;
    LossyCache("index0");
    LossyCache("index1");
    assert "index0"[..5] == "index" && "index1"[..5] == "index";
    assert names[1..] == ["index1"] && names[1..][1..] == [];
    assert CpuCaches(LossyMachine(), 0, CPU0, names) ==
           [Unreadable(Unavailable(NotFound, "")), Unreadable(Available("?|cpu=0"))];
    assert [dir][1..] == [];
  }

  lemma LossyCache(index: string)
    requires index == "index0" || index == "index1"
    ensures CacheAt(LossyMachine(), 0, JoinPath(CPU0, index)) ==
            Unreadable(if index == "index1" then Available("?|cpu=0") else Unavailable(NotFound, ""))
  {
    hide LossyMachine, U32Text, SizeText, Multiplied, TypeFromText;
    var path := CPU0 + "/" + index;
    assert JoinPath(CPU0, index) == path;
    LossyRead(index, "type");
    LossyRead(index, "level");
    LossyRead(index, "size");
    LossyRead(index, "coherency_line_size");
    LossyRead(index, "ways_of_associativity");
    LossyRead(index, "number_of_sets");
    LossyRead(index, "shared_cpu_list");
    TrimOfTrimmed("?|cpu=0");
  }

  lemma LossyRead(index: string, name: string)
    requires |index| == 6 && name != "" && name[0] != '/'
    ensures JoinPath(CPU0 + "/" + index, name) == IndexFile(index, name)
    ensures ReadFirstLine(LossyMachine(), IndexFile(index, name)) ==
            if index == "index1" && name == "shared_cpu_list" then ReadResult(Ok, "?|cpu=0")
            else ReadResult(NotFound, "")
  {
    IndexFileParts(index, name);
    IndexFileParts("index1", "shared_cpu_list");
    assert Find("?|cpu=0", '\n', 0) == None;
  }

  lemma IndexFileParts(index: string, name: string)
    requires |index| == 6
    ensures var path, at := IndexFile(index, name), |CPU0| + 1;
            |path| >= at + 7 && path[at..at + 6] == index && path[at + 7..] == name
  {
    hide CPU0;
  }

  // Printing.

  /** `cache_info_to_json`. */
  function CacheRecord(c: CacheInfo): Record {
    Record([
      Entry("cpu_id", U32Cell(c.cpuId)),
      Entry("level", U32Cell(c.level)),
      Entry("type", TextCell(TypeName(c.kind))),
      Entry("size", U64Cell(c.size)),
      Entry("line_size", U64Cell(c.lineSize)),
      Entry("associativity", U64Cell(c.associativity)),
      Entry("sets", U64Cell(c.sets)),
      Entry("shared_cpu_list", StringCell(c.sharedCpuList))
    ])
  }

  /** A reader of a printed cache finds each field under its key. */
  lemma CacheShown(c: CacheInfo)
    ensures var j := Tree(CacheRecord(c));
            && Shown(j, "cpu_id", c.cpuId, Number(c.cpuId.content, 0))
            && Shown(j, "level", c.level, Number(c.level.content, 0))
            && Has(j, "type", String(TypeName(c.kind)))
            && Shown(j, "size", c.size, Number(c.size.content, 0))
            && Shown(j, "line_size", c.lineSize, Number(c.lineSize.content, 0))
            && Shown(j, "associativity", c.associativity, Number(c.associativity.content, 0))
            && Shown(j, "sets", c.sets, Number(c.sets.content, 0))
            && Shown(j, "shared_cpu_list", c.sharedCpuList, String(c.sharedCpuList.content))
  {
    hide Shown, Has, Tree, TypeName;
    var r := CacheRecord(c);
    EntryShown(r, r.entries[0]);
    EntryShown(r, r.entries[1]);
    EntryShown(r, r.entries[2]);
    EntryShown(r, r.entries[3]);
    EntryShown(r, r.entries[4]);
    EntryShown(r, r.entries[5]);
    EntryShown(r, r.entries[6]);
    EntryShown(r, r.entries[7]);
  }

  function CacheRecords(cs: seq<CacheInfo>): (r: seq<Record>)
    ensures |r| == |cs| && forall i :: 0 <= i < |cs| ==> r[i] == CacheRecord(cs[i])
  {
    seq(|cs|, i requires 0 <= i < |cs| => CacheRecord(cs[i]))
  }

  function CacheListRecord(cs: seq<CacheInfo>): Record {
    Record([Entry("entries", RowsCell(CacheRecords(cs)))])
  }

  /** Every field of every collected cache is honest, for every file system. */
  lemma CachesAreHonest(fs: FileSystem, sysfsRoot: string)
    ensures var cs := Candidates(fs, SortedDirs(fs, sysfsRoot));
            HonestRecord(CacheListRecord(Firsts(cs, |cs|)))
  {
    hide CacheKey, CacheAt, SortedDirs, CacheRecord, Candidates, HonestRecord, IsFirst;
    var dirs := SortedDirs(fs, sysfsRoot);
    var cs := Candidates(fs, dirs);
    CandidatesAreHonest(fs, dirs);
    FirstsRepresent(cs, |cs|);
    var rows := CacheRecords(Firsts(cs, |cs|));
    forall row <- rows ensures HonestRecord(row) {
      var i :| 0 <= i < |rows| && rows[i] == row;
      assert Firsts(cs, |cs|)[i] in Firsts(cs, |cs|);
    }
    RowsAreHonest(rows);
  }

  lemma RowsAreHonest(rows: seq<Record>)
    requires forall row <- rows :: HonestRecord(row)
    ensures HonestRecord(Record([Entry("entries", RowsCell(rows))]))
  {
    var entries := [Entry("entries", RowsCell(rows))];
    assert forall e <- entries :: e == entries[0];
  }

  lemma {:induction false} CandidatesAreHonest(fs: FileSystem, dirs: seq<CpuDir>)
    ensures forall c <- Candidates(fs, dirs) :: HonestRecord(CacheRecord(c))
  {
    hide CacheAt;
    if dirs != [] {
      var root := CacheRoot(dirs[0]);
      CpuCachesAreHonest(fs, dirs[0].0, root, fs.list(root));
      CandidatesAreHonest(fs, dirs[1..]);
    }
  }

  lemma {:induction false} CpuCachesAreHonest(fs: FileSystem, cpu: u32, root: string, names: seq<string>)
    ensures forall c <- CpuCaches(fs, cpu, root, names) :: HonestRecord(CacheRecord(c))
  {
    hide CacheAt, JoinPath;
    if names != [] {
      CacheIsHonest(fs, cpu, JoinPath(root, names[0]));
      CpuCachesAreHonest(fs, cpu, root, names[1..]);
    }
  }

  predicate HonestCache(c: CacheInfo) {
    && c.cpuId.Honest() && c.level.Honest() && c.size.Honest() && c.lineSize.Honest()
    && c.associativity.Honest() && c.sets.Honest() && c.sharedCpuList.Honest()
  }

  lemma CacheIsHonest(fs: FileSystem, cpu: u32, path: string)
    ensures HonestRecord(CacheRecord(CacheAt(fs, cpu, path)))
  {
    hide LineField, JoinPath, TypeFromText, CacheRecord, HonestRecord;
    assert HonestCache(CacheAt(fs, cpu, path));
    RecordIsHonest(CacheAt(fs, cpu, path));
  }

  lemma RecordIsHonest(c: CacheInfo)
    requires HonestCache(c)
    ensures HonestRecord(CacheRecord(c))
  {
    hide TypeName, HonestCell;
    LeafIsHonest();
  }
}
