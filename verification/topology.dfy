/** The topology fold of `Collector::collect_cpu` in src/cpu.cc: sockets, cores and threads
    out of per-CPU entries. */
module Topology {
  import opened Text
  import opened Numerals
  import opened Fields

  datatype CpuTopologyEntry = CpuTopologyEntry(
    logicalId: U32Field, coreId: U32Field, packageId: U32Field, numaNode: U32Field,
    threadSiblingsMask: StringField, coreSiblingsMask: StringField
  )

  /** A core's place: its package and its id in that package. */
  type Place = (u32, u32)

  predicate Placed(e: CpuTopologyEntry) {
    e.packageId.valid && e.coreId.valid
  }

  /** The places of the entries that have both ids. */
  function Places(entries: seq<CpuTopologyEntry>): seq<Place> {
    if entries == [] then [] else PlaceOf(entries[0]) + Places(entries[1..])
  }

  function PlaceOf(e: CpuTopologyEntry): seq<Place> {
    if Placed(e) then [(e.packageId.content, e.coreId.content)] else []
  }

  function Packages(ps: seq<Place>): set<u32> {
    set k <- ps :: k.0
  }

  function CoresOf(ps: seq<Place>, package: u32): set<u32> {
    set k <- ps | k.0 == package :: k.1
  }

  function Cores(ps: seq<Place>): set<Place> {
    set k <- ps
  }

  function ThreadsOf(ps: seq<Place>, place: Place): nat {
    multiset(ps)[place]
  }

  // What the places say of the entries.

  /** The packages of the entries with both ids. */
  ghost function PackageIds(entries: seq<CpuTopologyEntry>): set<u32> {
    set e <- entries | Placed(e) :: e.packageId.content
  }

  /** The cores that those entries give to a package. */
  ghost function CoreIds(entries: seq<CpuTopologyEntry>, package: u32): set<u32> {
    set e <- entries | Placed(e) && e.packageId.content == package :: e.coreId.content
  }

  predicate On(e: CpuTopologyEntry, package: u32, core: u32) {
    Placed(e) && e.packageId.content == package && e.coreId.content == core
  }

  /** The positions of the entries on a core of a package. */
  ghost function ThreadsOn(entries: seq<CpuTopologyEntry>, package: u32, core: u32): set<nat> {
    set i: nat | i < |entries| && On(entries[i], package, core)
  }

  ghost function PlacedOnes(entries: seq<CpuTopologyEntry>): set<nat> {
    set i: nat | i < |entries| && Placed(entries[i])
  }

  lemma {:induction false} PlacesSnoc(entries: seq<CpuTopologyEntry>, e: CpuTopologyEntry)
    ensures Places(entries + [e]) == Places(entries) + PlaceOf(e)
  {
    hide PlaceOf;
    if entries == [] {
      assert [e][1..] == [];
    } else {
      assert (entries + [e])[1..] == entries[1..] + [e];
      PlacesSnoc(entries[1..], e);
      Assoc(PlaceOf(entries[0]), Places(entries[1..]), PlaceOf(e));
    }
  }

  /** Packages, cores and threads are those of the entries themselves. */
  ghost predicate SameCounts(entries: seq<CpuTopologyEntry>, ps: seq<Place>) {
    && Packages(ps) == PackageIds(entries)
    && (forall p: u32 :: CoresOf(ps, p) == CoreIds(entries, p))
    && (forall p: u32, c: u32 :: ThreadsOf(ps, (p, c)) == |ThreadsOn(entries, p, c)|)
    && |ps| == |PlacedOnes(entries)|
  }

  lemma SameCountsSnoc(front: seq<CpuTopologyEntry>, e: CpuTopologyEntry, ps: seq<Place>)
    requires SameCounts(front, ps)
    ensures SameCounts(front + [e], ps + PlaceOf(e))
  {
    hide CoresOf, Packages, ThreadsOf, PackageIds, CoreIds, ThreadsOn, PlacedOnes;
    IdsSnoc(front, e);
    CountsSnoc(front, e);
    PlacedSnoc(front, e);
    if Placed(e) {
      PackagesSnoc(ps, e.packageId.content, e.coreId.content);
      CoresSnoc(ps, e.packageId.content, e.coreId.content);
      ThreadsSnoc(ps, e.packageId.content, e.coreId.content);
    } else {
      assert ps + [] == ps;
    }
  }

  lemma {:induction false} PlacesAre(entries: seq<CpuTopologyEntry>)
    ensures SameCounts(entries, Places(entries))
    decreases |entries|
  {
    if entries != [] {
      hide Places, SameCounts;
      var front, e := entries[..|entries| - 1], entries[|entries| - 1];
      assert entries == front + [e];
      PlacesAre(front);
      PlacesSnoc(front, e);
      SameCountsSnoc(front, e, Places(front));
    } else {
      NoCounts();
    }
  }

  lemma NoCounts()
    ensures SameCounts([], [])
  {}

  lemma IdsSnoc(front: seq<CpuTopologyEntry>, e: CpuTopologyEntry)
    ensures PackageIds(front + [e]) == PackageIds(front) + if Placed(e) then {e.packageId.content} else {}
    ensures forall p: u32 ::
              CoreIds(front + [e], p) ==
              CoreIds(front, p) + if Placed(e) && e.packageId.content == p then {e.coreId.content} else {}
  {
    var all := front + [e];
    assert forall x :: x in all <==> x in front || x == e;
  }

  lemma CountsSnoc(front: seq<CpuTopologyEntry>, e: CpuTopologyEntry)
    ensures forall p: u32, c: u32 ::
              |ThreadsOn(front + [e], p, c)| == |ThreadsOn(front, p, c)| + if On(e, p, c) then 1 else 0
  {
    hide On;
    var all := front + [e];
    forall p: u32, c: u32
      ensures |ThreadsOn(all, p, c)| == |ThreadsOn(front, p, c)| + if On(e, p, c) then 1 else 0
    {
      assert ThreadsOn(all, p, c) == ThreadsOn(front, p, c) + if On(e, p, c) then {|front|} else {};
    }
  }

  lemma PlacedSnoc(front: seq<CpuTopologyEntry>, e: CpuTopologyEntry)
    ensures |PlacedOnes(front + [e])| == |PlacedOnes(front)| + if Placed(e) then 1 else 0
  {
    hide Placed;
    assert PlacedOnes(front + [e]) == PlacedOnes(front) + if Placed(e) then {|front|} else {};
  }

  /** The three containers of the fold. */
  datatype Counts = Counts(
    packages: set<u32>,
    coresByPackage: map<u32, set<u32>>,
    threadsByCore: map<Place, nat>
  )

  ghost predicate Describes(counts: Counts, ps: seq<Place>) {
    && counts.packages == Packages(ps)
    && counts.coresByPackage.Keys == Packages(ps)
    && (forall p <- counts.coresByPackage :: counts.coresByPackage[p] == CoresOf(ps, p))
    && counts.threadsByCore.Keys == Cores(ps)
    && (forall k <- counts.threadsByCore :: counts.threadsByCore[k] == ThreadsOf(ps, k))
  }

  method FoldTopology(entries: seq<CpuTopologyEntry>) returns (counts: Counts)
    ensures Describes(counts, Places(entries))
  {
    hide Describes;
    DescribesNothing();
    var packages: set<u32> := {};
    var coresByPackage: map<u32, set<u32>> := map[];
    var threadsByCore: map<Place, nat> := map[];
    ghost var ps: seq<Place> := [];
    assert entries[0..] == entries;
    for i := 0 to |entries|
      invariant ps + Places(entries[i..]) == Places(entries)
      invariant Describes(Counts(packages, coresByPackage, threadsByCore), ps)
    {
      var entry := entries[i];
      assert entries[i..][1..] == entries[i + 1..];
      if !entry.packageId.valid || !entry.coreId.valid {
        continue;
      }
      var package, core := entry.packageId.content, entry.coreId.content;
      ghost var before := Counts(packages, coresByPackage, threadsByCore);
      packages := packages + {package};
      coresByPackage := coresByPackage[package :=
        (if package in coresByPackage then coresByPackage[package] else {}) + {core}];
      var place := (package, core);
      threadsByCore := threadsByCore[place := (if place in threadsByCore then threadsByCore[place] else 0) + 1];
      PlaceAdded(before, Counts(packages, coresByPackage, threadsByCore), ps, package, core);
      Assoc(ps, [place], Places(entries[i + 1..]));
      ps := ps + [place];
    }
    assert ps == Places(entries);
    counts := Counts(packages, coresByPackage, threadsByCore);
  }

  lemma DescribesNothing()
    ensures Describes(Counts({}, map[], map[]), [])
  {}

  lemma PlaceAdded(before: Counts, after: Counts, ps: seq<Place>, p: u32, c: u32)
    requires Describes(before, ps)
    requires after.packages == before.packages + {p}
    requires after.coresByPackage == before.coresByPackage[p :=
               (if p in before.coresByPackage then before.coresByPackage[p] else {}) + {c}]
    requires after.threadsByCore == before.threadsByCore[(p, c) :=
               (if (p, c) in before.threadsByCore then before.threadsByCore[(p, c)] else 0) + 1]
    ensures Describes(after, ps + [(p, c)])
  {
    hide CoresOf, Packages, Cores, ThreadsOf;
    PackagesSnoc(ps, p, c);
    CoresSnoc(ps, p, c);
    ThreadsSnoc(ps, p, c);
  }

  lemma PackagesSnoc(ps: seq<Place>, p: u32, c: u32)
    ensures Packages(ps + [(p, c)]) == Packages(ps) + {p}
  {
    var qs := ps + [(p, c)];
    assert (p, c) in qs && forall k <- ps :: k in qs;
  }

  lemma CoresSnoc(ps: seq<Place>, p: u32, c: u32)
    ensures forall q: u32 :: CoresOf(ps + [(p, c)], q) == CoresOf(ps, q) + if q == p then {c} else {}
    ensures p !in Packages(ps) ==> CoresOf(ps, p) == {}
  {
    var qs := ps + [(p, c)];
    forall q: u32
      ensures CoresOf(qs, q) == CoresOf(ps, q) + if q == p then {c} else {}
    {
      assert (p, c) in qs && forall k <- ps :: k in qs;
    }
  }

  lemma ThreadsSnoc(ps: seq<Place>, p: u32, c: u32)
    ensures Cores(ps + [(p, c)]) == Cores(ps) + {(p, c)}
    ensures forall k: Place :: ThreadsOf(ps + [(p, c)], k) == ThreadsOf(ps, k) + if k == (p, c) then 1 else 0
    ensures forall k: Place :: k in Cores(ps) <==> ThreadsOf(ps, k) > 0
  {
    assert forall k: Place :: k in ps <==> k in multiset(ps);
  }

  // Sums over finite sets.

  ghost function Sum<T(!new)>(s: set<T>, f: T -> nat): nat {
    if s == {} then 0
    else
      var x :| x in s;
      f(x) + Sum(s - {x}, f)
  }

  lemma {:induction false} SumRemove<T(!new)>(s: set<T>, x: T, f: T -> nat)
    requires x in s
    ensures Sum(s, f) == f(x) + Sum(s - {x}, f)
    decreases |s|
  {
    var y :| y in s && Sum(s, f) == f(y) + Sum(s - {y}, f);
    if y != x {
      SumRemove(s - {y}, x, f);
      SumRemove(s - {x}, y, f);
      assert s - {y} - {x} == s - {x} - {y};
    }
  }

  /** A sum is at most the size times a bound, and equal exactly when every term is. */
  lemma {:induction false} SumBound<T(!new)>(s: set<T>, f: T -> nat, m: nat)
    requires forall x <- s :: f(x) <= m
    ensures Sum(s, f) <= |s| * m
    ensures Sum(s, f) == |s| * m <==> forall x <- s :: f(x) == m
    decreases |s|
  {
    if s != {} {
      var x :| x in s;
      var rest := s - {x};
      SumRemove(s, x, f);
      SumBound(rest, f, m);
      Distribute(|rest|, 1, m);
      assert forall y <- s :: y == x || y in rest;
    }
  }

  lemma Distribute(a: nat, b: nat, m: nat)
    ensures (a + b) * m == a * m + b * m
    ensures b > 0 ==> b * m >= m
  {}

  // Conservation.

  /** The thread counts over all cores add up to the number of entries counted. */
  lemma ThreadsConserved(ps: seq<Place>)
    ensures Sum(Cores(ps), k => ThreadsOf(ps, k)) == |ps|
  {
    MultisetSum(multiset(ps), Cores(ps));
    SumAgrees(Cores(ps), k => ThreadsOf(ps, k), k => multiset(ps)[k]);
  }

  lemma {:induction false} SumAgrees<T(!new)>(s: set<T>, f: T -> nat, g: T -> nat)
    requires forall x <- s :: f(x) == g(x)
    ensures Sum(s, f) == Sum(s, g)
    decreases |s|
  {
    if s != {} {
      var x :| x in s;
      SumRemove(s, x, f);
      SumRemove(s, x, g);
      SumAgrees(s - {x}, f, g);
    }
  }

  lemma {:induction false} MultisetSum<T(!new)>(m: multiset<T>, s: set<T>)
    requires forall x <- m :: x in s
    ensures Sum(s, x => m[x]) == |m|
    decreases |s|
  {
    if s == {} {
      assert m == multiset{};
    } else {
      var x :| x in s;
      var rest := m[x := 0];
      MultisetSum(rest, s - {x});
      SumRemove(s, x, y => m[y]);
      SumAgrees(s - {x}, y => m[y], y => rest[y]);
      assert |m| == m[x] + |rest| by {
        var one := multiset{}[x := m[x]];
        assert m == rest + one;
      }
    }
  }

  /** The number of cores is the sum of the packages' core counts. */
  lemma CoresConserved(ps: seq<Place>)
    ensures |Cores(ps)| == Sum(Packages(ps), p => |CoresOf(ps, p)|)
  {
    CountByPackage(Cores(ps), Packages(ps));
    forall p <- Packages(ps)
      ensures |CoresOf(ps, p)| == |InPackage(Cores(ps), p)|
    {
      SameSize(CoresOf(ps, p), InPackage(Cores(ps), p), p);
    }
    SumAgrees(Packages(ps), p => |CoresOf(ps, p)|, p => |InPackage(Cores(ps), p)|);
  }

  function InPackage(cores: set<Place>, p: u32): set<Place> {
    set k <- cores | k.0 == p
  }

  lemma {:induction false} SameSize(ids: set<u32>, cores: set<Place>, p: u32)
    requires forall k <- cores :: k.0 == p && k.1 in ids
    requires forall c <- ids :: (p, c) in cores
    ensures |ids| == |cores|
    decreases |ids|
  {
    if ids == {} {
      assert cores == {};
    } else {
      var c :| c in ids;
      SameSize(ids - {c}, cores - {(p, c)}, p);
    }
  }

  lemma OtherPackages(cores: set<Place>, packages: set<u32>, p: u32) returns (others: set<Place>)
    requires p in packages && forall k <- cores :: k.0 in packages
    ensures forall k <- others :: k.0 in packages - {p}
    ensures forall q <- packages - {p} :: |InPackage(cores, q)| == |InPackage(others, q)|
    ensures |cores| == |InPackage(cores, p)| + |others|
  {
    others := cores - InPackage(cores, p);
    assert cores == InPackage(cores, p) + others;
    forall q <- packages - {p} ensures InPackage(cores, q) == InPackage(others, q) {}
  }

  lemma {:induction false} CountByPackage(cores: set<Place>, packages: set<u32>)
    requires forall k <- cores :: k.0 in packages
    ensures |cores| == Sum(packages, p => |InPackage(cores, p)|)
    decreases |packages|
  {
    hide InPackage, Sum;
    var f := (q: u32) => |InPackage(cores, q)|;
    if packages == {} {
      assert cores == {};
      SumNone(f);
    } else {
      var p :| p in packages;
      var others := OtherPackages(cores, packages, p);
      var g := (q: u32) => |InPackage(others, q)|;
      CountByPackage(others, packages - {p});
      SumRemove(packages, p, f);
      SumAgrees(packages - {p}, f, g);
    }
  }

  lemma SumNone<T(!new)>(f: T -> nat)
    ensures Sum({}, f) == 0
  {}

  // The derived numbers.

  /** `m` is the largest value of `f` on a non-empty set. */
  ghost predicate IsMax<T(!new)>(s: set<T>, f: T -> nat, m: nat) {
    (forall x <- s :: f(x) <= m) && exists x <- s :: f(x) == m
  }

  /** Sockets times the largest core count times the largest thread count is never below
      the number of placed CPUs, and meets it exactly when all packages have equally many
      cores and all cores equally many threads. */
  lemma ProductBound(ps: seq<Place>, maxCores: nat, maxThreads: nat)
    requires ps != []
    requires IsMax(Packages(ps), p => |CoresOf(ps, p)|, maxCores)
    requires IsMax(Cores(ps), k => ThreadsOf(ps, k), maxThreads)
    ensures |Packages(ps)| * maxCores * maxThreads >= |ps|
    ensures |Packages(ps)| * maxCores * maxThreads == |ps| <==>
              && (forall p <- Packages(ps) :: |CoresOf(ps, p)| == maxCores)
              && (forall k <- Cores(ps) :: ThreadsOf(ps, k) == maxThreads)
  {
    hide CoresOf, Cores, Packages, ThreadsOf;
    var f, g := (p: u32) => |CoresOf(ps, p)|, (k: Place) => ThreadsOf(ps, k);
    ThreadsConserved(ps);
    CoresConserved(ps);
    SumBound(Cores(ps), g, maxThreads);
    SumBound(Packages(ps), f, maxCores);
    var cores, packages := |Cores(ps)|, |Packages(ps)|;
    ThreadsPositive(ps);
    Chain(|ps|, cores, packages * maxCores, maxThreads);
    assert packages * maxCores * maxThreads == (packages * maxCores) * maxThreads;
  }

  lemma ThreadsPositive(ps: seq<Place>)
    ensures forall k <- Cores(ps) :: ThreadsOf(ps, k) > 0
  {}

  lemma Chain(n: nat, cores: nat, most: nat, m: nat)
    requires n <= cores * m && cores <= most && m > 0
    ensures most * m >= n
    ensures most * m == n <==> n == cores * m && cores == most
  {
    Distribute(cores, most - cores, m);
  }

  /** The loop that looks for the largest core set. */
  method MaxCores(coresByPackage: map<u32, set<u32>>) returns (maxCores: nat)
    ensures forall p <- coresByPackage :: |coresByPackage[p]| <= maxCores
    ensures coresByPackage != map[] ==> exists p <- coresByPackage :: |coresByPackage[p]| == maxCores
  {
    maxCores := 0;
    var keys := coresByPackage.Keys;
    while keys != {}
      invariant keys <= coresByPackage.Keys
      invariant forall p <- coresByPackage.Keys - keys :: |coresByPackage[p]| <= maxCores
      invariant (keys == coresByPackage.Keys && maxCores == 0) ||
                exists p <- coresByPackage :: |coresByPackage[p]| == maxCores
      decreases |keys|
    {
      var p :| p in keys;
      if maxCores < |coresByPackage[p]| {
        maxCores := |coresByPackage[p]|;
      }
      keys := keys - {p};
    }
  }

  /** The loop that looks for the largest thread count. */
  method MaxThreads(threadsByCore: map<Place, nat>) returns (maxThreads: nat)
    ensures forall k <- threadsByCore :: threadsByCore[k] <= maxThreads
    ensures threadsByCore != map[] ==> exists k <- threadsByCore :: threadsByCore[k] == maxThreads
  {
    maxThreads := 0;
    var keys := threadsByCore.Keys;
    while keys != {}
      invariant keys <= threadsByCore.Keys
      invariant forall k <- threadsByCore.Keys - keys :: threadsByCore[k] <= maxThreads
      invariant (keys == threadsByCore.Keys && maxThreads == 0) ||
                exists k <- threadsByCore :: threadsByCore[k] == maxThreads
      decreases |keys|
    {
      var k :| k in keys;
      if maxThreads < threadsByCore[k] {
        maxThreads := threadsByCore[k];
      }
      keys := keys - {k};
    }
  }

  /** Sockets, cores per socket and threads per core.  A valid "cpu cores" replaces the
      core maximum, and together with a valid "siblings" the thread maximum. */
  ghost predicate Derived(ps: seq<Place>, cpuCores: U64Field, siblings: U64Field,
                          sockets: U64Field, coresPerSocket: U64Field, threadsPerCore: U64Field)
  {
    && (ps == [] ==> sockets == Unavailable(NotFound, 0))
    && (ps != [] ==> sockets == Field(true, Ok, sockets.content) && sockets.content == |Packages(ps)|)
    && (cpuCores.valid ==> coresPerSocket == cpuCores)
    && (!cpuCores.valid && ps == [] ==> coresPerSocket == Unavailable(NotFound, 0))
    && (!cpuCores.valid && ps != [] ==>
          && coresPerSocket == Field(true, Ok, coresPerSocket.content)
          && IsMax(Packages(ps), p => |CoresOf(ps, p)|, coresPerSocket.content))
    && var divided := siblings.valid && cpuCores.valid && cpuCores.content != 0;
    && (divided ==> threadsPerCore == Available(siblings.content / cpuCores.content))
    && (!divided && ps == [] ==> threadsPerCore == Unavailable(NotFound, 0))
    && (!divided && ps != [] ==>
          && threadsPerCore == Field(true, Ok, threadsPerCore.content)
          && IsMax(Cores(ps), k => ThreadsOf(ps, k), threadsPerCore.content))
  }

  /** Without a valid "cpu cores", the three reported numbers multiply to at least the
      number of placed CPUs, and to exactly that number in a uniform machine only. */
  lemma ReportedProduct(ps: seq<Place>, cpuCores: U64Field, siblings: U64Field,
                        sockets: U64Field, coresPerSocket: U64Field, threadsPerCore: U64Field)
    requires Derived(ps, cpuCores, siblings, sockets, coresPerSocket, threadsPerCore)
    requires !cpuCores.valid && ps != []
    ensures var product := sockets.content * coresPerSocket.content * threadsPerCore.content;
            && product >= |ps|
            && (product == |ps| <==>
                  && (forall p <- Packages(ps) :: |CoresOf(ps, p)| == coresPerSocket.content)
                  && (forall k <- Cores(ps) :: ThreadsOf(ps, k) == threadsPerCore.content))
  {
    hide CoresOf, Cores, Packages, ThreadsOf;
    ProductBound(ps, coresPerSocket.content, threadsPerCore.content);
  }

  method DeriveCounts(entries: seq<CpuTopologyEntry>, cpuCores: U64Field, siblings: U64Field)
    returns (sockets: U64Field, coresPerSocket: U64Field, threadsPerCore: U64Field)
    requires |entries| <= U64_MAX
    ensures Derived(Places(entries), cpuCores, siblings, sockets, coresPerSocket, threadsPerCore)
    ensures Counted(entries, cpuCores, siblings, sockets, coresPerSocket, threadsPerCore)
  {
    hide CoresOf, Cores, Packages, ThreadsOf, Places;
    var counts := FoldTopology(entries);
    ghost var ps := Places(entries);
    CountsFit(entries);
    EmptyCounts(counts, ps);
    sockets := if counts.packages != {} then Available(|counts.packages|) else Unavailable(NotFound, 0);
    if cpuCores.valid {
      coresPerSocket := cpuCores;
    } else if counts.coresByPackage != map[] {
      var maxCores := MaxCores(counts.coresByPackage);
      assert IsMax(Packages(ps), p => |CoresOf(ps, p)|, maxCores);
      coresPerSocket := Available(maxCores);
    } else {
      coresPerSocket := Unavailable(NotFound, 0);
    }
    if siblings.valid && cpuCores.valid && cpuCores.content != 0 {
      threadsPerCore := Available(siblings.content / cpuCores.content);
    } else if counts.threadsByCore != map[] {
      var maxThreads := MaxThreads(counts.threadsByCore);
      assert IsMax(Cores(ps), k => ThreadsOf(ps, k), maxThreads);
      threadsPerCore := Available(maxThreads);
    } else {
      threadsPerCore := Unavailable(NotFound, 0);
    }
    DerivedIsCounted(entries, cpuCores, siblings, sockets, coresPerSocket, threadsPerCore);
  }

  /** What the derived numbers say of the entries: sockets are their packages, the core
      number is that of the largest package, the thread number that of the fullest core. */
  ghost predicate Counted(entries: seq<CpuTopologyEntry>, cpuCores: U64Field, siblings: U64Field,
                          sockets: U64Field, coresPerSocket: U64Field, threadsPerCore: U64Field)
  {
    var packages := PackageIds(entries);
    && (sockets.valid <==> packages != {})
    && (packages != {} ==>
          && sockets.content == |packages|
          && (!cpuCores.valid ==>
                && coresPerSocket.valid
                && (forall p <- packages :: |CoreIds(entries, p)| <= coresPerSocket.content)
                && exists p <- packages :: |CoreIds(entries, p)| == coresPerSocket.content)
          && (!cpuCores.valid || !siblings.valid || cpuCores.content == 0 ==>
                && threadsPerCore.valid
                && (forall p: u32, c: u32 :: |ThreadsOn(entries, p, c)| <= threadsPerCore.content)
                && exists p: u32, c: u32 :: |ThreadsOn(entries, p, c)| == threadsPerCore.content))
  }

  lemma DerivedIsCounted(entries: seq<CpuTopologyEntry>, cpuCores: U64Field, siblings: U64Field,
                         sockets: U64Field, coresPerSocket: U64Field, threadsPerCore: U64Field)
    requires Derived(Places(entries), cpuCores, siblings, sockets, coresPerSocket, threadsPerCore)
    ensures Counted(entries, cpuCores, siblings, sockets, coresPerSocket, threadsPerCore)
  {
    hide CoresOf, Cores, Packages, ThreadsOf, Places, ThreadsOn, CoreIds, PackageIds, PlacedOnes;
    var ps := Places(entries);
    PlacesAre(entries);
    SomePackage(ps);
    ThreadsElsewhere(ps);
    assert forall p: u32, c: u32 :: |ThreadsOn(entries, p, c)| == ThreadsOf(ps, (p, c));
    if ps != [] && exists k <- Cores(ps) :: ThreadsOf(ps, k) == threadsPerCore.content {
      var k :| k in Cores(ps) && ThreadsOf(ps, k) == threadsPerCore.content;
      assert |ThreadsOn(entries, k.0, k.1)| == ThreadsOf(ps, (k.0, k.1)) == threadsPerCore.content;
    }
  }

  /** The bound in terms of the entries. */
  lemma ProductOfEntries(entries: seq<CpuTopologyEntry>, cpuCores: U64Field, siblings: U64Field,
                         sockets: U64Field, coresPerSocket: U64Field, threadsPerCore: U64Field)
    requires Derived(Places(entries), cpuCores, siblings, sockets, coresPerSocket, threadsPerCore)
    requires !cpuCores.valid && PlacedOnes(entries) != {}
    ensures var placed := |PlacedOnes(entries)|;
            var product := sockets.content * coresPerSocket.content * threadsPerCore.content;
            && product >= placed
            && (product == placed <==>
                  && (forall p <- PackageIds(entries) :: |CoreIds(entries, p)| == coresPerSocket.content)
                  && (forall p: u32, c: u32 :: ThreadsOn(entries, p, c) != {} ==>
                        |ThreadsOn(entries, p, c)| == threadsPerCore.content))
  {
    hide CoresOf, Cores, Packages, ThreadsOf, Places, ThreadsOn, CoreIds, PackageIds, PlacedOnes, Derived;
    var ps := Places(entries);
    PlacesAre(entries);
    ReportedProduct(ps, cpuCores, siblings, sockets, coresPerSocket, threadsPerCore);
    CoresHaveThreads(ps);
    forall p: u32, c: u32
      ensures ThreadsOn(entries, p, c) != {} <==> (p, c) in Cores(ps)
      ensures |ThreadsOn(entries, p, c)| == ThreadsOf(ps, (p, c))
    {
    }
    assert forall k <- Cores(ps) :: k == (k.0, k.1) && ThreadsOf(ps, k) == |ThreadsOn(entries, k.0, k.1)|;
  }

  lemma CoresHaveThreads(ps: seq<Place>)
    ensures forall k: Place :: k in Cores(ps) <==> ThreadsOf(ps, k) > 0
  {
    assert forall k: Place :: k in ps <==> k in multiset(ps);
  }

  lemma SomePackage(ps: seq<Place>)
    ensures Packages(ps) == {} <==> ps == []
  {
    if ps != [] {
      assert ps[0] in ps && ps[0].0 in Packages(ps);
    }
  }

  lemma ThreadsElsewhere(ps: seq<Place>)
    ensures forall k: Place :: k !in Cores(ps) ==> ThreadsOf(ps, k) == 0
  {}

  lemma EmptyCounts(counts: Counts, ps: seq<Place>)
    requires Describes(counts, ps)
    ensures counts.packages == {} <==> ps == []
    ensures counts.coresByPackage == map[] <==> ps == []
    ensures counts.threadsByCore == map[] <==> ps == []
  {
    if ps != [] {
      assert ps[0] in ps && ps[0].0 in Packages(ps) && ps[0] in Cores(ps);
    }
  }

  /** No count exceeds the number of entries. */
  lemma CountsFit(entries: seq<CpuTopologyEntry>)
    ensures var ps := Places(entries);
            && |Packages(ps)| <= |entries|
            && (forall p <- Packages(ps) :: |CoresOf(ps, p)| <= |entries|)
            && (forall k <- Cores(ps) :: ThreadsOf(ps, k) <= |entries|)
  {
    hide CoresOf, Cores, Packages, ThreadsOf;
    PlacesShorter(entries);
    SizesFit(Places(entries));
  }

  lemma {:induction false} SizesFit(ps: seq<Place>)
    ensures |Packages(ps)| <= |ps|
    ensures forall p: u32 :: |CoresOf(ps, p)| <= |ps|
    ensures forall k: Place :: ThreadsOf(ps, k) <= |ps|
    decreases |ps|
  {
    if ps != [] {
      hide CoresOf, Cores, Packages, ThreadsOf;
      var front, last := ps[..|ps| - 1], ps[|ps| - 1];
      assert ps == front + [(last.0, last.1)];
      SizesFit(front);
      PackagesSnoc(front, last.0, last.1);
      CoresSnoc(front, last.0, last.1);
      ThreadsSnoc(front, last.0, last.1);
    }
  }

  lemma {:induction false} PlacesShorter(entries: seq<CpuTopologyEntry>)
    ensures |Places(entries)| <= |entries|
  {
    if entries != [] {
      PlacesShorter(entries[1..]);
    }
  }
}
