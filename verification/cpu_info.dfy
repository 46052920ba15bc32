/** `Collector::collect_cpu` of src/cpu.cc. */
module CpuInfoCollector {
  import opened Text
  import opened Numerals
  import opened Numbers
  import opened Fields
  import opened CpuList
  import opened KeyValues
  import opened Readers
  import opened Topology
  import opened CpuCollector
  import opened JsonGrammar
  import opened JsonPrinter

  datatype CpuInfo = CpuInfo(
    arch: string, archName: StringField, vendor: StringField, brand: StringField, modelName: StringField,
    presentCpuCount: U64Field, onlineCpuCount: U64Field, possibleCpuCount: U64Field, sockets: U64Field,
    coresPerSocket: U64Field, threadsPerCore: U64Field,
    family: U64Field, model: U64Field, stepping: U64Field, microcode: StringField,
    physicalAddressBits: U64Field, virtualAddressBits: U64Field,
    isVirtualized: BoolField, hypervisorVendor: StringField,
    topology: seq<CpuTopologyEntry>
  )

  /** What the system calls say: the machine name of `uname`, and the thread count of
      `hardware_concurrency`. */
  datatype Host = Host(machine: Option<string>, hardwareThreads: u32)

  /** Contents and listings have a length that is a `size_t`. */
  ghost predicate Addressable(fs: FileSystem) {
    forall path :: |fs.read(path).value| <= U64_MAX && |fs.list(path)| <= U64_MAX
  }

  function ArchFromMachine(machine: string): string {
    if machine == "x86_64" || machine == "amd64" then "x86_64"
    else if machine == "i386" || machine == "i486" || machine == "i586" || machine == "i686" then "x86"
    else if StartsWith(machine, "armv") then "arm"
    else if machine == "aarch64" || machine == "arm64" then "aarch64"
    else if machine == "riscv32" then "riscv32"
    else if machine == "riscv64" then "riscv64"
    else if machine == "ppc64" || machine == "ppc64le" then "ppc64"
    else if machine == "s390x" then "s390x"
    else "unknown"
  }

  /** Which machine names stand for which architecture. */
  lemma ArchFromMachineIs(machine: string)
    ensures ArchFromMachine(machine) == "x86_64" <==> machine in {"x86_64", "amd64"}
    ensures ArchFromMachine(machine) == "x86" <==> machine in {"i386", "i486", "i586", "i686"}
    ensures ArchFromMachine(machine) == "arm" <==> "armv" <= machine
    ensures ArchFromMachine(machine) == "aarch64" <==> machine in {"aarch64", "arm64"}
    ensures ArchFromMachine(machine) in {"riscv32", "riscv64", "s390x"} ==> ArchFromMachine(machine) == machine
    ensures machine in {"riscv32", "riscv64", "s390x"} ==> ArchFromMachine(machine) == machine
    ensures ArchFromMachine(machine) == "ppc64" <==> machine in {"ppc64", "ppc64le"}
    ensures ArchFromMachine(machine) in {"x86_64", "x86", "arm", "aarch64", "riscv32", "riscv64", "ppc64", "s390x",
                                         "unknown"}
  {
    if "armv" <= machine {
      assert machine[0] == 'a' && machine[1] == 'r' && machine[3] == 'v';
    }
  }

  // Fields out of a block.

  /** The first non-empty value under any of the keys. */
  function FirstGiven(values: KeyValueMap, keys: seq<string>): Option<string> {
    if keys == [] then None
    else if MapValue(values, keys[0]).Some? then MapValue(values, keys[0])
    else FirstGiven(values, keys[1..])
  }

  ghost predicate Given(values: KeyValueMap, key: string) {
    key in values && values[key] != ""
  }

  /** The first key that is given decides, and there is none exactly when no key is. */
  lemma {:induction false} FirstGivenIs(values: KeyValueMap, keys: seq<string>)
    ensures FirstGiven(values, keys) == None <==> forall key <- keys :: !Given(values, key)
    ensures forall i | 0 <= i < |keys| && Given(values, keys[i]) &&
                       (forall j :: 0 <= j < i ==> !Given(values, keys[j])) ::
              FirstGiven(values, keys) == Some(values[keys[i]])
  {
    if keys != [] {
      FirstGivenIs(values, keys[1..]);
      assert keys == [keys[0]] + keys[1..];
      assert forall i :: 0 < i < |keys| ==> keys[i] == keys[1..][i - 1];
      if !Given(values, keys[0]) {
        forall i | 0 < i < |keys| && Given(values, keys[i]) && (forall j :: 0 <= j < i ==> !Given(values, keys[j]))
          ensures FirstGiven(values, keys) == Some(values[keys[i]])
        {
          assert forall j :: 0 <= j < i - 1 ==> !Given(values, keys[1..][j]) by {
            assert forall j :: 0 <= j < i - 1 ==> keys[1..][j] == keys[j + 1];
          }
        }
      }
    }
  }

  /** The two kinds of field out of the first given text: the text itself, and its number or
      a parse error. */
  lemma GivenFields(values: KeyValueMap, keys: seq<string>, i: nat)
    requires i < |keys| && Given(values, keys[i]) && forall j :: 0 <= j < i ==> !Given(values, keys[j])
    ensures StringFromMap(values, keys) == Available(values[keys[i]])
    ensures U64FromMap(values, keys) ==
            match U64Text(values[keys[i]])
            case None => Unavailable(ParseError, 0)
            case Some(n) => Available(n)
  {
    hide U64Text, FirstGiven;
    FirstGivenIs(values, keys);
  }

  lemma NotGiven(values: KeyValueMap, keys: seq<string>)
    requires forall key <- keys :: !Given(values, key)
    ensures StringFromMap(values, keys) == Unavailable(NotFound, "")
    ensures U64FromMap(values, keys) == Unavailable(NotFound, 0)
  {
    hide FirstGiven;
    FirstGivenIs(values, keys);
  }

  function StringFromMap(values: KeyValueMap, keys: seq<string>): (f: StringField)
    ensures f.Honest()
  {
    match FirstGiven(values, keys)
    case None => Unavailable(NotFound, "")
    case Some(text) => Available(text)
  }

  /** The first given value decides: it is a number, or a parse error. */
  function U64FromMap(values: KeyValueMap, keys: seq<string>): (f: U64Field)
    ensures f.Honest()
  {
    match FirstGiven(values, keys)
    case None => Unavailable(NotFound, 0)
    case Some(text) =>
      match U64Text(text)
      case None => Unavailable(ParseError, 0)
      case Some(n) => Available(n)
  }

  method ReadU64FromMap(values: KeyValueMap, keys: seq<string>) returns (f: U64Field)
    ensures f == U64FromMap(values, keys)
  {
    hide U64Text;
    assert keys[0..] == keys;
    for i := 0 to |keys|
      invariant FirstGiven(values, keys[i..]) == FirstGiven(values, keys)
    {
      var text := MapValue(values, keys[i]);
      if text == None {
        continue;
      }
      var value := ParseU64(text.value);
      return if value == None then Unavailable(ParseError, 0) else Available(value.value);
    }
    return Unavailable(NotFound, 0);
  }

  method ReadStringFromMap(values: KeyValueMap, keys: seq<string>) returns (f: StringField)
    ensures f == StringFromMap(values, keys)
  {
    assert keys[0..] == keys;
    for i := 0 to |keys|
      invariant FirstGiven(values, keys[i..]) == FirstGiven(values, keys)
    {
      var value := MapValue(values, keys[i]);
      if value.Some? {
        return Available(value.value);
      }
    }
    return Unavailable(NotFound, "");
  }

  function U32FromMap(block: KeyValueMap, key: string): Option<u32> {
    match MapValue(block, key)
    case None => None
    case Some(text) => U32Text(text)
  }

  lemma U32FromMapIs(block: KeyValueMap, key: string, n: nat)
    ensures U32FromMap(block, key) == Some(n) <==>
            key in block && block[key] != "" && U64Text(block[key]) == Some(n) && n <= 4294967295
  {
    hide U64Text;
  }

  lemma ProcessorOfIs(block: KeyValueMap, n: nat)
    ensures ProcessorOf(block) == Some(n) <==>
            "processor" in block && block["processor"] != "" && U64Text(block["processor"]) == Some(n)
  {
    hide U64Text;
  }

  // Topology entries.

  type BlockTable = map<u64, KeyValueMap>

  function ProcessorOf(block: KeyValueMap): Option<u64> {
    var processor := MapValue(block, "processor");
    if processor == None then None else U64Text(processor.value)
  }

  /** The blocks by their processor number; the last block for a number wins. */
  function ByProcessor(blocks: seq<KeyValueMap>, table: BlockTable): BlockTable {
    if blocks == [] then table
    else
      var id := ProcessorOf(blocks[0]);
      ByProcessor(blocks[1..], if id == None then table else table[id.value := blocks[0]])
  }

  /** The numbers in the table are those of the blocks, and each stands for its last
      block. */
  lemma {:induction false} ByProcessorIs(blocks: seq<KeyValueMap>, table: BlockTable)
    ensures forall id :: id in ByProcessor(blocks, table) <==>
              id in table || exists b <- blocks :: ProcessorOf(b) == Some(id)
    ensures forall k, id | 0 <= k < |blocks| && LastFor(blocks, k, id) ::
              id in ByProcessor(blocks, table) && ByProcessor(blocks, table)[id] == blocks[k]
    ensures forall id <- table | (forall b <- blocks :: ProcessorOf(b) != Some(id)) ::
              ByProcessor(blocks, table)[id] == table[id]
  {
    hide ProcessorOf;
    if blocks != [] {
      var tail := blocks[1..];
      var id := ProcessorOf(blocks[0]);
      assert blocks == [blocks[0]] + tail;
      ByProcessorIs(tail, if id == None then table else table[id.value := blocks[0]]);
      assert forall k, i: u64 :: 0 < k < |blocks| && LastFor(blocks, k, i) ==> LastFor(tail, k - 1, i);
    }
  }

  /** The block at k is the last one with that number. */
  ghost predicate LastFor(blocks: seq<KeyValueMap>, k: nat, id: u64)
    requires k < |blocks|
  {
    ProcessorOf(blocks[k]) == Some(id) && forall j :: k < j < |blocks| ==> ProcessorOf(blocks[j]) != Some(id)
  }

  method BlocksByProcessor(blocks: seq<KeyValueMap>) returns (table: BlockTable)
    ensures table == ByProcessor(blocks, map[])
  {
    hide U64Text;
    table := map[];
    assert blocks[0..] == blocks;
    for i := 0 to |blocks|
      invariant ByProcessor(blocks[i..], table) == ByProcessor(blocks, map[])
    {
      assert blocks[i..][1..] == blocks[i + 1..];
      var processor := MapValue(blocks[i], "processor");
      if processor.Some? {
        var id := ParseU64(processor.value);
        if id.Some? {
          table := table[id.value := blocks[i]];
        }
      }
    }
  }

  /** The first "node<id>" child of a CPU directory. */
  function NumaNode(names: seq<string>): (f: U32Field)
    ensures f.Honest()
  {
    if names == [] then Missing(0)
    else if StartsWith(names[0], "node") && U32Text(names[0][4..]).Some?
      then Available(U32Text(names[0][4..]).value)
    else NumaNode(names[1..])
  }

  /** The node is the first child that is named "node" and a 32-bit number. */
  lemma {:induction false} NumaNodeIs(names: seq<string>)
    ensures NumaNode(names) == Missing(0) <==> forall name <- names :: !IsNode(name)
    ensures forall i | 0 <= i < |names| && IsNode(names[i]) && (forall j :: 0 <= j < i ==> !IsNode(names[j])) ::
              NumaNode(names) == Available(U32Text(names[i][4..]).value)
  {
    hide U32Text;
    if names != [] {
      NumaNodeIs(names[1..]);
      assert names == [names[0]] + names[1..];
      if !IsNode(names[0]) {
        forall i | 0 < i < |names| && IsNode(names[i]) && (forall j :: 0 <= j < i ==> !IsNode(names[j]))
          ensures NumaNode(names) == Available(U32Text(names[i][4..]).value)
        {
          assert names[1..][i - 1] == names[i];
          assert forall j :: 0 <= j < i - 1 ==> names[1..][j] == names[j + 1];
        }
      }
    }
  }

  predicate IsNode(name: string) {
    "node" <= name && U32Text(name[4..]).Some?
  }

  /** A field that sysfs gives, or else the block of that processor. */
  function OrFromBlock(f: U32Field, table: BlockTable, id: u32, key: string): (r: U32Field)
    ensures f.Honest() ==> r.Honest()
    ensures f.valid ==> r == f
  {
    if f.valid || id !in table || U32FromMap(table[id], key) == None then f
    else Available(U32FromMap(table[id], key).value)
  }

  function EntryAt(fs: FileSystem, table: BlockTable, dir: CpuDir): CpuTopologyEntry {
    var at := JoinPath(dir.1, "topology");
    CpuTopologyEntry(
      Available(dir.0),
      OrFromBlock(LineField(fs, JoinPath(at, "core_id"), U32Text, 0), table, dir.0, "core id"),
      OrFromBlock(LineField(fs, JoinPath(at, "physical_package_id"), U32Text, 0), table, dir.0, "physical id"),
      NumaNode(fs.list(dir.1)),
      LineField(fs, JoinPath(at, "thread_siblings"), TrimmedText, ""),
      LineField(fs, JoinPath(at, "core_siblings"), TrimmedText, "")
    )
  }

  function EntriesAt(fs: FileSystem, table: BlockTable, dirs: seq<CpuDir>): (r: seq<CpuTopologyEntry>)
    ensures |r| == |dirs| && forall i :: 0 <= i < |dirs| ==> r[i] == EntryAt(fs, table, dirs[i])
  {
    seq(|dirs|, i requires 0 <= i < |dirs| => EntryAt(fs, table, dirs[i]))
  }

  function OptionField(n: Option<u32>): (f: U32Field)
    ensures f.Honest()
  {
    if n == None then Missing(0) else Available(n.value)
  }

  function OneEntry(block: KeyValueMap): (r: seq<CpuTopologyEntry>)
    ensures |r| <= 1
  {
    var processor := U32FromMap(block, "processor");
    if processor == None then []
    else [CpuTopologyEntry(Available(processor.value), OptionField(U32FromMap(block, "core id")),
                           OptionField(U32FromMap(block, "physical id")), Missing(0), Missing(""), Missing(""))]
  }

  /** `add_cpuinfo_topology`: one entry for each block with a 32-bit processor number. */
  function BlockEntries(blocks: seq<KeyValueMap>): (r: seq<CpuTopologyEntry>)
    ensures |r| <= |blocks|
  {
    if blocks == [] then [] else OneEntry(blocks[0]) + BlockEntries(blocks[1..])
  }

  function TopologyFile(path: string, name: string): string {
    path + "/topology" + "/" + name
  }

  /** What the files of a CPU directory say is what the entry holds. */
  lemma EntryFromFiles(fs: FileSystem, table: BlockTable, dir: CpuDir, n: u32, line: string)
    requires dir.1 !in {"", "/"} && '\n' !in line
    ensures EntryAt(fs, table, dir).logicalId == Available(dir.0)
    ensures Shows(fs, TopologyFile(dir.1, "core_id"), Decimal(n)) ==> EntryAt(fs, table, dir).coreId == Available(n)
    ensures Shows(fs, TopologyFile(dir.1, "physical_package_id"), Decimal(n)) ==>
              EntryAt(fs, table, dir).packageId == Available(n)
    ensures Shows(fs, TopologyFile(dir.1, "thread_siblings"), line) ==>
              EntryAt(fs, table, dir).threadSiblingsMask == Available(Trim(line))
    ensures Shows(fs, TopologyFile(dir.1, "core_siblings"), line) ==>
              EntryAt(fs, table, dir).coreSiblingsMask == Available(Trim(line))
    ensures EntryAt(fs, table, dir).numaNode == NumaNode(fs.list(dir.1))
  {
    hide LineField, JoinPath, Shows, U32Text, Trim, U32FromMap, TopologyFile;
    TopologyPath(dir.1, "core_id");
    TopologyPath(dir.1, "physical_package_id");
    TopologyPath(dir.1, "thread_siblings");
    TopologyPath(dir.1, "core_siblings");
    if Shows(fs, TopologyFile(dir.1, "core_id"), Decimal(n)) {
      IdRead(fs, TopologyFile(dir.1, "core_id"), n);
    }
    if Shows(fs, TopologyFile(dir.1, "physical_package_id"), Decimal(n)) {
      IdRead(fs, TopologyFile(dir.1, "physical_package_id"), n);
    }
    if Shows(fs, TopologyFile(dir.1, "thread_siblings"), line) {
      TextRead(fs, TopologyFile(dir.1, "thread_siblings"), line);
    }
    if Shows(fs, TopologyFile(dir.1, "core_siblings"), line) {
      TextRead(fs, TopologyFile(dir.1, "core_siblings"), line);
    }
  }

  lemma TopologyPath(path: string, name: string)
    requires path !in {"", "/"} && name != "" && name[0] != '/'
    ensures JoinPath(JoinPath(path, "topology"), name) == TopologyFile(path, name)
  {
    hide JoinPath;
    JoinPathIs(path, "topology");
    JoinPathIs(path + "/topology", name);
    assert path + "/" + "topology" == path + "/topology";
  }

  /** An id without a valid file, unreadable or not a number, comes from the block of that
      processor when it is given there, and otherwise stays as it is. */
  lemma EntryFallsBack(fs: FileSystem, table: BlockTable, dir: CpuDir)
    requires dir.1 !in {"", "/"}
    ensures var f, block := LineField(fs, TopologyFile(dir.1, "core_id"), U32Text, 0), dir.0;
            EntryAt(fs, table, dir).coreId ==
            if !f.valid && block in table && U32FromMap(table[block], "core id").Some?
            then Available(U32FromMap(table[block], "core id").value) else f
    ensures var f, block := LineField(fs, TopologyFile(dir.1, "physical_package_id"), U32Text, 0), dir.0;
            EntryAt(fs, table, dir).packageId ==
            if !f.valid && block in table && U32FromMap(table[block], "physical id").Some?
            then Available(U32FromMap(table[block], "physical id").value) else f
  {
    hide LineField, JoinPath, U32Text, U32FromMap, TopologyFile;
    TopologyPath(dir.1, "core_id");
    TopologyPath(dir.1, "physical_package_id");
  }

  /** The entry that a block gives. */
  ghost predicate EntryOf(e: CpuTopologyEntry, block: KeyValueMap) {
    && U32FromMap(block, "processor").Some? && e.logicalId == Available(U32FromMap(block, "processor").value)
    && e.coreId == OptionField(U32FromMap(block, "core id"))
    && e.packageId == OptionField(U32FromMap(block, "physical id"))
    && e.numaNode == Missing(0) && e.threadSiblingsMask == Missing("") && e.coreSiblingsMask == Missing("")
  }

  function Numbered(blocks: seq<KeyValueMap>): (r: seq<bool>)
    ensures |r| == |blocks| && forall i :: 0 <= i < |blocks| ==> r[i] == U32FromMap(blocks[i], "processor").Some?
  {
    seq(|blocks|, i requires 0 <= i < |blocks| => U32FromMap(blocks[i], "processor").Some?)
  }

  /** The entries are those of the blocks with a 32-bit processor number, each once and in
      order. */
  lemma {:induction false} BlockEntriesAt(blocks: seq<KeyValueMap>) returns (at: seq<nat>)
    ensures Picks(at, Numbered(blocks)) && |at| == |BlockEntries(blocks)|
    ensures forall k :: 0 <= k < |at| ==> at[k] < |blocks| && EntryOf(BlockEntries(blocks)[k], blocks[at[k]])
  {
    hide U32FromMap, Picks, EntryOf, BlockEntries, OneEntry, Numbered;
    EntriesStep(blocks);
    if blocks == [] {
      at := [];
      NoPicks();
    } else {
      var first := U32FromMap(blocks[0], "processor").Some?;
      var later := BlockEntriesAt(blocks[1..]);
      at := PicksCons(first, Numbered(blocks[1..]), later);
      var head, tail := OneEntry(blocks[0]), BlockEntries(blocks[1..]);
      OneEntryIs(blocks[0]);
      forall k | 0 <= k < |at|
        ensures at[k] < |blocks| && EntryOf((head + tail)[k], blocks[at[k]])
      {
        if k < |head| {
          assert head[k] in head;
        } else {
          var j := k - |head|;
          assert at[|head| + j] == later[j] + 1 && (head + tail)[k] == tail[j];
          assert blocks[1..][later[j]] == blocks[at[k]];
        }
      }
    }
  }

  lemma EntriesStep(blocks: seq<KeyValueMap>)
    ensures blocks == [] ==> BlockEntries(blocks) == [] && Numbered(blocks) == []
    ensures blocks != [] ==>
              && BlockEntries(blocks) == OneEntry(blocks[0]) + BlockEntries(blocks[1..])
              && Numbered(blocks) == [U32FromMap(blocks[0], "processor").Some?] + Numbered(blocks[1..])
  {
    hide U32FromMap, OneEntry;
  }

  lemma OneEntryIs(block: KeyValueMap)
    ensures |OneEntry(block)| == if U32FromMap(block, "processor").Some? then 1 else 0
    ensures forall e <- OneEntry(block) :: EntryOf(e, block)
  {
    hide U32FromMap;
  }

  /** sysfs entries when there are any, and cpuinfo entries otherwise. */
  function TopologyOf(fs: FileSystem, sysfsRoot: string, blocks: seq<KeyValueMap>): seq<CpuTopologyEntry> {
    var entries := EntriesAt(fs, ByProcessor(blocks, map[]), SortedDirs(fs, sysfsRoot));
    if entries == [] then BlockEntries(blocks) else entries
  }

  /** One entry for each CPU directory, in their order, when there are any. */
  lemma TopologyIs(fs: FileSystem, sysfsRoot: string, blocks: seq<KeyValueMap>)
    ensures var dirs, es := SortedDirs(fs, sysfsRoot), TopologyOf(fs, sysfsRoot, blocks);
            && (dirs != [] ==>
                  && |es| == |dirs|
                  && forall i :: 0 <= i < |dirs| ==> es[i] == EntryAt(fs, ByProcessor(blocks, map[]), dirs[i]))
            && (dirs == [] ==> es == BlockEntries(blocks))
  {
    hide EntryAt, SortedDirs, ByProcessor, BlockEntries;
  }

  method ReadU32FromMap(block: KeyValueMap, key: string) returns (r: Option<u32>)
    ensures r == U32FromMap(block, key)
  {
    hide U64Text;
    var value := MapValue(block, key);
    if value == None {
      return None;
    }
    var n := ParseU64(value.value);
    return if n == None || n.value > U32_MAX then None else Some(n.value);
  }

  method ReadEntry(fs: FileSystem, table: BlockTable, dir: CpuDir) returns (entry: CpuTopologyEntry)
    ensures entry == EntryAt(fs, table, dir)
  {
    hide LineField, JoinPath, U32FromMap, U64Text;
    var at := JoinPath(dir.1, "topology");
    var coreId := ReadU32Field(fs, JoinPath(at, "core_id"));
    var packageId := ReadU32Field(fs, JoinPath(at, "physical_package_id"));
    var threadSiblings := ReadStringField(fs, JoinPath(at, "thread_siblings"));
    var coreSiblings := ReadStringField(fs, JoinPath(at, "core_siblings"));
    var numaNode: U32Field := Missing(0);
    var names := fs.list(dir.1);
    assert names[0..] == names;
    for i := 0 to |names|
      invariant numaNode == Missing(0) && NumaNode(names[i..]) == NumaNode(names)
    {
      assert names[i..][1..] == names[i + 1..];
      if !StartsWith(names[i], "node") {
        continue;
      }
      var node := ParseU64(names[i][4..]);
      if node.Some? && node.value <= U32_MAX {
        numaNode := Available(node.value);
        break;
      }
    }
    if dir.0 in table {
      if !coreId.valid {
        var core := ReadU32FromMap(table[dir.0], "core id");
        if core.Some? {
          coreId := Available(core.value);
        }
      }
      if !packageId.valid {
        var package := ReadU32FromMap(table[dir.0], "physical id");
        if package.Some? {
          packageId := Available(package.value);
        }
      }
    }
    entry := CpuTopologyEntry(Available(dir.0), coreId, packageId, numaNode, threadSiblings, coreSiblings);
  }

  method AddCpuinfoTopology(blocks: seq<KeyValueMap>) returns (entries: seq<CpuTopologyEntry>)
    ensures entries == BlockEntries(blocks)
  {
    hide U32FromMap;
    entries := [];
    assert blocks[0..] == blocks;
    for i := 0 to |blocks|
      invariant entries + BlockEntries(blocks[i..]) == BlockEntries(blocks)
    {
      assert blocks[i..][1..] == blocks[i + 1..];
      var processor := ReadU32FromMap(blocks[i], "processor");
      if processor == None {
        continue;
      }
      var core := ReadU32FromMap(blocks[i], "core id");
      var package := ReadU32FromMap(blocks[i], "physical id");
      var entry := CpuTopologyEntry(Available(processor.value), OptionField(core), OptionField(package),
                                    Missing(0), Missing(""), Missing(""));
      Assoc(entries, [entry], BlockEntries(blocks[i + 1..]));
      entries := entries + [entry];
    }
  }

  method ReadTopology(fs: FileSystem, sysfsRoot: string, blocks: seq<KeyValueMap>)
    returns (entries: seq<CpuTopologyEntry>)
    ensures entries == TopologyOf(fs, sysfsRoot, blocks)
  {
    hide EntryAt, SortedDirs, ByProcessor, BlockEntries;
    var table := BlocksByProcessor(blocks);
    var dirs := CpuDirs(fs, sysfsRoot);
    entries := [];
    for i := 0 to |dirs|
      invariant |entries| == i && forall k :: 0 <= k < i ==> entries[k] == EntryAt(fs, table, dirs[k])
    {
      var entry := ReadEntry(fs, table, dirs[i]);
      entries := entries + [entry];
    }
    assert entries == EntriesAt(fs, table, dirs);
    if entries == [] {
      entries := AddCpuinfoTopology(blocks);
    }
  }

  // The collector.

  /** A count from a CPU list, else the number of blocks, else the hardware threads. */
  function CountField(fs: FileSystem, path: string, blocks: nat, hardwareThreads: u32): (f: U64Field)
    requires blocks <= U64_MAX
    ensures f.Honest()
  {
    var f := LineField(fs, path, CountOf, 0);
    if f.valid then f
    else if blocks > 0 then Available(blocks)
    else if hardwareThreads != 0 then Available(hardwareThreads)
    else f
  }

  /** The first non-empty text among the files. */
  function VendorOf(fs: FileSystem, paths: seq<string>): (f: StringField)
    ensures f.Honest()
  {
    if paths == [] then Unavailable(NotFound, "")
    else
      var field := LineField(fs, paths[0], TrimmedText, "");
      if field.valid && field.content != "" then field else VendorOf(fs, paths[1..])
  }

  function VendorPaths(sysfsRoot: string): seq<string> {
    [JoinPath(sysfsRoot, "/hypervisor/type"), JoinPath(sysfsRoot, "/class/dmi/id/product_name"),
     JoinPath(sysfsRoot, "/class/dmi/id/sys_vendor")]
  }

  function FlagWords(first: KeyValueMap): set<string> {
    match FirstGiven(first, ["flags", "Features", "isa"])
    case None => {}
    case Some(text) => set w <- Words(text)
  }

  function Virtualized(first: KeyValueMap, read: Status): (f: BoolField)
    ensures f.Honest()
  {
    if FlagWords(first) != {} then Available("hypervisor" in FlagWords(first))
    else Unknown(read)
  }

  function HypervisorVendor(fs: FileSystem, sysfsRoot: string, first: KeyValueMap, virtualized: BoolField)
    : (f: StringField)
    ensures f.Honest()
  {
    var given := StringFromMap(first, ["Hypervisor vendor"]);
    if given.valid then given
    else if virtualized.valid && virtualized.content then VendorOf(fs, VendorPaths(sysfsRoot))
    else Unavailable(NotFound, "")
  }

  function BlocksIn(cpuinfo: ReadResult): seq<KeyValueMap> {
    if cpuinfo.status == Ok then Blocks(cpuinfo.value) else []
  }

  function FirstBlock(blocks: seq<KeyValueMap>): KeyValueMap {
    if blocks == [] then map[] else blocks[0]
  }

  function SysfsCpu(sysfsRoot: string, name: string): string {
    JoinPath(sysfsRoot, "/devices/system/cpu/" + name)
  }

  /** What every field of the result means. */
  ghost predicate Describes(info: CpuInfo, fs: FileSystem, sysfsRoot: string, host: Host, cpuinfo: ReadResult) {
    var blocks := BlocksIn(cpuinfo);
    var first := FirstBlock(blocks);
    && |blocks| <= U64_MAX
    && info.archName == (if host.machine == None then Unavailable(InternalError, "") else Available(host.machine.value))
    && info.arch == (if host.machine == None then "unknown" else ArchFromMachine(host.machine.value))
    && info.vendor == StringFromMap(first, ["vendor_id", "CPU implementer", "uarch"])
    && info.modelName == StringFromMap(first, ["model name", "Processor", "cpu"])
    && info.brand == info.modelName
    && info.family == U64FromMap(first, ["cpu family", "CPU architecture"])
    && info.model == U64FromMap(first, ["model", "CPU part"])
    && info.stepping == U64FromMap(first, ["stepping", "CPU revision"])
    && info.microcode == StringFromMap(first, ["microcode"])
    && info.physicalAddressBits == AddressField(first, "physical")
    && info.virtualAddressBits == AddressField(first, "virtual")
    && info.presentCpuCount == CountField(fs, SysfsCpu(sysfsRoot, "present"), |blocks|, host.hardwareThreads)
    && info.onlineCpuCount == CountField(fs, SysfsCpu(sysfsRoot, "online"), |blocks|, host.hardwareThreads)
    && info.possibleCpuCount == CountField(fs, SysfsCpu(sysfsRoot, "possible"), |blocks|, host.hardwareThreads)
    && info.topology == TopologyOf(fs, sysfsRoot, blocks)
    && Derived(Places(info.topology), U64FromMap(first, ["cpu cores"]), U64FromMap(first, ["siblings"]),
               info.sockets, info.coresPerSocket, info.threadsPerCore)
    && info.isVirtualized == Virtualized(first, cpuinfo.status)
    && info.hypervisorVendor == HypervisorVendor(fs, sysfsRoot, first, info.isVirtualized)
  }

  /** A listed set of CPUs counts; a file that cannot be read leaves the blocks, then the
      threads, then the reason. */
  lemma CountFieldIs(fs: FileSystem, path: string, s: set<nat>, blocks: u64, hardwareThreads: u32)
    requires (forall i <- s :: i <= U64_MAX) && |s| <= U64_MAX
    ensures Shows(fs, path, ListText(Runs(s))) ==> CountField(fs, path, blocks, hardwareThreads) == Available(|s|)
    ensures var status := fs.read(path).status;
            status != Ok ==>
              CountField(fs, path, blocks, hardwareThreads) ==
              if blocks > 0 then Available(blocks)
              else if hardwareThreads > 0 then Available(hardwareThreads)
              else Unavailable(status, 0)
  {
    hide LineField, CountOf, Shows, ListText, Runs;
    if Shows(fs, path, ListText(Runs(s))) {
      CpuSetRead(fs, path, s);
    }
    FieldRead(fs, path, "", CountOf, 0);
  }

  /** A file that cannot be read, or starts with a blank line, names no vendor. */
  ghost predicate Silent(fs: FileSystem, path: string) {
    fs.read(path).status != Ok || exists line :: AllSpace(line) && '\n' !in line && Shows(fs, path, line)
  }

  /** The first file that names a vendor decides. */
  lemma {:induction false} VendorOfIs(fs: FileSystem, paths: seq<string>, i: nat, line: string)
    requires i <= |paths| && forall j :: 0 <= j < i ==> Silent(fs, paths[j])
    ensures i == |paths| ==> VendorOf(fs, paths) == Unavailable(NotFound, "")
    ensures i < |paths| && '\n' !in line && !AllSpace(line) && Shows(fs, paths[i], line) ==>
              VendorOf(fs, paths) == Available(Trim(line))
  {
    hide LineField, Shows, Trim, AllSpace;
    if i == 0 {
      if paths != [] && '\n' !in line && !AllSpace(line) && Shows(fs, paths[0], line) {
        TextRead(fs, paths[0], line);
        BlankIsSpace(line);
      }
    } else {
      SilentField(fs, paths[0]);
      assert forall j :: 0 <= j < i - 1 ==> paths[1..][j] == paths[j + 1];
      VendorOfIs(fs, paths[1..], i - 1, line);
    }
  }

  lemma SilentField(fs: FileSystem, path: string)
    requires Silent(fs, path)
    ensures var f := LineField(fs, path, TrimmedText, ""); !f.valid || f.content == ""
  {
    hide LineField, Shows, Trim;
    if fs.read(path).status != Ok {
      FieldRead(fs, path, "", TrimmedText, "");
    } else {
      var line :| AllSpace(line) && '\n' !in line && Shows(fs, path, line);
      TextRead(fs, path, line);
      TrimPad(line, "", "");
      assert line + "" + "" == line;
    }
  }

  /** A machine is virtualized when a flag line says so; without flags that is unknown. */
  lemma VirtualizedIs(first: KeyValueMap, read: Status)
    ensures var keys := ["flags", "Features", "isa"];
            forall i | 0 <= i < 3 && Given(first, keys[i]) && (forall j :: 0 <= j < i ==> !Given(first, keys[j])) ::
              && (AllSpace(first[keys[i]]) ==> Virtualized(first, read) == Unknown(read))
              && (!AllSpace(first[keys[i]]) ==>
                    Virtualized(first, read) == Available(exists k: nat :: WordAt(first[keys[i]], "hypervisor", k)))
    ensures (forall key <- ["flags", "Features", "isa"] :: !Given(first, key)) ==>
              Virtualized(first, read) == Unknown(read)
  {
    hide Words, WordAt, FirstGiven, AllSpace;
    var keys := ["flags", "Features", "isa"];
    FirstGivenIs(first, keys);
    forall i | 0 <= i < 3 && Given(first, keys[i]) && (forall j :: 0 <= j < i ==> !Given(first, keys[j]))
      ensures (AllSpace(first[keys[i]]) ==> Virtualized(first, read) == Unknown(read))
      ensures !AllSpace(first[keys[i]]) ==>
                Virtualized(first, read) == Available(exists k: nat :: WordAt(first[keys[i]], "hypervisor", k))
    {
      var text := first[keys[i]];
      assert FirstGiven(first, keys) == Some(text);
      assert FlagWords(first) == set w <- Words(text);
      WordsAre(text, "hypervisor");
      if AllSpace(text) {
        NoWords(text);
      } else {
        var p, v, rest := WordsStep(text);
        assert v in FlagWords(first);
      }
    }
  }

  /** Not known for want of flags, or for the reason that cpuinfo cannot be read. */
  function Unknown(read: Status): BoolField {
    Unavailable(if read == Ok then NotFound else read, false)
  }

  /** The vendor is what cpuinfo says; otherwise a virtual machine's files are asked. */
  lemma HypervisorVendorIs(fs: FileSystem, sysfsRoot: string, first: KeyValueMap, virtualized: BoolField)
    requires sysfsRoot !in {"", "/"}
    ensures var vendor := HypervisorVendor(fs, sysfsRoot, first, virtualized);
            && (Given(first, "Hypervisor vendor") ==> vendor == Available(first["Hypervisor vendor"]))
            && (!Given(first, "Hypervisor vendor") && virtualized == Available(true) ==>
                  vendor == VendorOf(fs, [sysfsRoot + "/" + "hypervisor/type",
                                          sysfsRoot + "/" + "class/dmi/id/product_name",
                                          sysfsRoot + "/" + "class/dmi/id/sys_vendor"]))
            && (!Given(first, "Hypervisor vendor") && virtualized != Available(true) && virtualized.Honest() ==>
                  vendor == Unavailable(NotFound, ""))
  {
    hide VendorOf, FirstGiven, JoinPath, StringFromMap;
    VendorPathsAre(sysfsRoot);
    if Given(first, "Hypervisor vendor") {
      GivenFields(first, ["Hypervisor vendor"], 0);
    } else {
      NotGiven(first, ["Hypervisor vendor"]);
    }
  }

  lemma VendorPathsAre(sysfsRoot: string)
    requires sysfsRoot !in {"", "/"}
    ensures VendorPaths(sysfsRoot) ==
            [sysfsRoot + "/" + "hypervisor/type", sysfsRoot + "/" + "class/dmi/id/product_name",
             sysfsRoot + "/" + "class/dmi/id/sys_vendor"]
  {
    hide JoinPath;
    SlashPath(sysfsRoot, "hypervisor/type", "/hypervisor/type");
    SlashPath(sysfsRoot, "class/dmi/id/product_name", "/class/dmi/id/product_name");
    SlashPath(sysfsRoot, "class/dmi/id/sys_vendor", "/class/dmi/id/sys_vendor");
  }

  lemma SlashPath(root: string, name: string, suffix: string)
    requires root !in {"", "/"} && name != "" && name[0] != '/' && suffix == "/" + name
    ensures JoinPath(root, suffix) == root + "/" + name
  {
    hide JoinPath;
    JoinPathIs(root, name);
  }

  method ReadCountField(fs: FileSystem, path: string, blocks: nat, hardwareThreads: u32) returns (f: U64Field)
    requires blocks <= U64_MAX
    ensures f == CountField(fs, path, blocks, hardwareThreads)
  {
    hide LineField, CountOf;
    f := ReadCpuListCountField(fs, path);
    if !f.valid && blocks > 0 {
      f := Available(blocks);
    }
    if !f.valid && hardwareThreads != 0 {
      f := Available(hardwareThreads);
    }
  }

  method FirstExistingHypervisorVendor(fs: FileSystem, paths: seq<string>) returns (f: StringField)
    ensures f == VendorOf(fs, paths)
  {
    hide LineField;
    assert paths[0..] == paths;
    for i := 0 to |paths|
      invariant VendorOf(fs, paths[i..]) == VendorOf(fs, paths)
    {
      var field := ReadStringField(fs, paths[i]);
      if field.valid && field.content != "" {
        return field;
      }
    }
    return Unavailable(NotFound, "");
  }

  method CollectCpu(fs: FileSystem, procfsRoot: string, sysfsRoot: string, host: Host) returns (info: CpuInfo)
    requires Addressable(fs)
    ensures Describes(info, fs, sysfsRoot, host, fs.read(JoinPath(procfsRoot, "/cpuinfo")))
  {
    hide Blocks, Words, JoinPath, TopologyOf, CountField, AddressField, U64FromMap, StringFromMap, Derived, Places,
         VendorOf, ArchFromMachine, FirstBlock, SysfsCpu, VendorPaths, Virtualized, Addressable;
    var cpuinfo := fs.read(JoinPath(procfsRoot, "/cpuinfo"));
    var blocks: seq<KeyValueMap> := [];
    if cpuinfo.status == Ok {
      blocks := ParseColonBlocks(cpuinfo.value);
    }
    LengthsFit(fs, sysfsRoot, cpuinfo, JoinPath(procfsRoot, "/cpuinfo"));
    var first := FirstBlock(blocks);
    var vendor := ReadStringFromMap(first, ["vendor_id", "CPU implementer", "uarch"]);
    var modelName := ReadStringFromMap(first, ["model name", "Processor", "cpu"]);
    var family := ReadU64FromMap(first, ["cpu family", "CPU architecture"]);
    var model := ReadU64FromMap(first, ["model", "CPU part"]);
    var stepping := ReadU64FromMap(first, ["stepping", "CPU revision"]);
    var microcode := ReadStringFromMap(first, ["microcode"]);
    var physical, virtualBits := ParseAddressSizes(first, Missing(0), Missing(0));
    var present := ReadCountField(fs, SysfsCpu(sysfsRoot, "present"), |blocks|, host.hardwareThreads);
    var online := ReadCountField(fs, SysfsCpu(sysfsRoot, "online"), |blocks|, host.hardwareThreads);
    var possible := ReadCountField(fs, SysfsCpu(sysfsRoot, "possible"), |blocks|, host.hardwareThreads);
    var topology := ReadTopology(fs, sysfsRoot, blocks);
    var cpuCores := ReadU64FromMap(first, ["cpu cores"]);
    var siblings := ReadU64FromMap(first, ["siblings"]);
    var sockets, coresPerSocket, threadsPerCore := DeriveCounts(topology, cpuCores, siblings);
    var isVirtualized := Virtualized(first, cpuinfo.status);
    var hypervisorVendor := ReadStringFromMap(first, ["Hypervisor vendor"]);
    if !hypervisorVendor.valid {
      if isVirtualized.valid && isVirtualized.content {
        hypervisorVendor := FirstExistingHypervisorVendor(fs, VendorPaths(sysfsRoot));
      } else {
        hypervisorVendor := Unavailable(NotFound, "");
      }
    }
    info := CpuInfo(
      if host.machine == None then "unknown" else ArchFromMachine(host.machine.value),
      if host.machine == None then Unavailable(InternalError, "") else Available(host.machine.value),
      vendor, modelName, modelName, present, online, possible, sockets, coresPerSocket, threadsPerCore,
      family, model, stepping, microcode, physical, virtualBits, isVirtualized, hypervisorVendor, topology);
  }

  lemma LengthsFit(fs: FileSystem, sysfsRoot: string, cpuinfo: ReadResult, path: string)
    requires Addressable(fs) && cpuinfo == fs.read(path)
    ensures |BlocksIn(cpuinfo)| <= U64_MAX
    ensures |TopologyOf(fs, sysfsRoot, BlocksIn(cpuinfo))| <= U64_MAX
  {
    hide JoinPath, Blocks, EntryAt, ByProcessor, U32FromMap;
    BlocksFit(cpuinfo.value);
    var root := CpuRoot(sysfsRoot);
    DirsFit(root, fs.list(root));
    SortOrders(DirsOf(root, fs.list(root)));
    assert |Sort(DirsOf(root, fs.list(root)))| == |multiset(Sort(DirsOf(root, fs.list(root))))|;
  }

  lemma {:induction false} DirsFit(root: string, names: seq<string>)
    ensures |DirsOf(root, names)| <= |names|
  {
    hide DirId, JoinPath;
    if names != [] {
      DirsFit(root, names[1..]);
    }
  }

  lemma BlocksFit(text: string)
    ensures |Blocks(text)| <= |text|
  {
    hide BlocksOf, Lines;
    LinesFit(text);
    BlocksOfFit(Lines(text, '\n'), map[]);
  }

  lemma {:induction false} BlocksOfFit(lines: seq<string>, current: KeyValueMap)
    ensures |BlocksOf(lines, current)| <= |lines| + if current == map[] then 0 else 1
  {
    hide Trim, Find;
    if lines != [] {
      if Trim(lines[0]) == "" {
        BlocksOfFit(lines[1..], map[]);
      } else {
        match Find(lines[0], ':', 0)
        case None => BlocksOfFit(lines[1..], current);
        case Some(colon) =>
          BlocksOfFit(lines[1..], current[Trim(lines[0][..colon]) := Trim(lines[0][colon + 1..])]);
      }
    }
  }

  lemma {:induction false} LinesFit(text: string)
    ensures |Lines(text, '\n')| <= |text|
    decreases |text|
  {
    hide Find;
    if text != "" {
      match Find(text, '\n', 0)
      case None =>
      case Some(i) => LinesFit(text[i + 1..]);
    }
  }

  // From the text of cpuinfo to the fields.

  /** The first of the keys that a block has stands for this value. */
  ghost predicate Says(block: seq<Line>, keys: seq<string>, value: string) {
    value != "" && exists i :: 0 <= i < |keys| && SaysAt(block, keys, i, value)
  }

  ghost predicate SaysAt(block: seq<Line>, keys: seq<string>, i: nat, value: string)
    requires i < |keys|
  {
    && (exists l <- block :: l.key == keys[i] && l.value == value)
    && forall j, l | 0 <= j < i && l in block :: l.key != keys[j]
  }

  lemma SaysGiven(block: seq<Line>, keys: seq<string>, value: string)
    requires (forall i, j :: 0 <= i < j < |block| ==> block[i].key != block[j].key) && Says(block, keys, value)
    ensures StringFromMap(MapOf(block, map[]), keys) == Available(value)
    ensures U64FromMap(MapOf(block, map[]), keys) ==
            match U64Text(value)
            case None => Unavailable(ParseError, 0)
            case Some(n) => Available(n)
  {
    hide StringFromMap, U64FromMap, U64Text, MapOf;
    DistinctKeys(block);
    var i :| 0 <= i < |keys| && SaysAt(block, keys, i, value);
    GivenFields(MapOf(block, map[]), keys, i);
  }

  lemma RenderedBlocks(blocks: seq<seq<Line>>)
    requires blocks != [] && forall block <- blocks :: block != [] && forall l <- block :: l.Valid()
    ensures Blocks(Unlines(Document(blocks), '\n')) != []
    ensures FirstBlock(Blocks(Unlines(Document(blocks), '\n'))) == MapOf(blocks[0], map[])
  {
    hide Blocks, MapOf, Unlines, Document;
    BlocksRoundTrip(blocks);
  }

  /** What the first block of a rendered cpuinfo says is what the fields hold: texts as they
      are, and numbers by their value. */
  lemma CpuFromText(info: CpuInfo, fs: FileSystem, sysfsRoot: string, host: Host, blocks: seq<seq<Line>>,
                    text: string, n: u64)
    requires blocks != [] && forall block <- blocks :: block != [] && forall l <- block :: l.Valid()
    requires forall i, j :: 0 <= i < j < |blocks[0]| ==> blocks[0][i].key != blocks[0][j].key
    requires Describes(info, fs, sysfsRoot, host, ReadResult(Ok, Unlines(Document(blocks), '\n')))
    ensures var b := blocks[0];
            && (Says(b, ["vendor_id", "CPU implementer", "uarch"], text) ==> info.vendor == Available(text))
            && (Says(b, ["model name", "Processor", "cpu"], text) ==> info.modelName == info.brand == Available(text))
            && (Says(b, ["microcode"], text) ==> info.microcode == Available(text))
            && (Says(b, ["cpu family", "CPU architecture"], Decimal(n)) ==> info.family == Available(n))
            && (Says(b, ["model", "CPU part"], Decimal(n)) ==> info.model == Available(n))
            && (Says(b, ["stepping", "CPU revision"], Decimal(n)) ==> info.stepping == Available(n))
  {
    hide Blocks, MapOf, Unlines, Document, Says, StringFromMap, U64FromMap, U64Text, Decimal, TopologyOf, CountField,
         AddressField, Derived, Places, Virtualized, HypervisorVendor, JoinPath, ArchFromMachine, FirstBlock;
    RenderedBlocks(blocks);
    SaidText(blocks[0], ["vendor_id", "CPU implementer", "uarch"], text);
    SaidText(blocks[0], ["model name", "Processor", "cpu"], text);
    SaidText(blocks[0], ["microcode"], text);
    SaidNumber(blocks[0], ["cpu family", "CPU architecture"], n);
    SaidNumber(blocks[0], ["model", "CPU part"], n);
    SaidNumber(blocks[0], ["stepping", "CPU revision"], n);
  }

  lemma SaidText(b: seq<Line>, keys: seq<string>, text: string)
    requires forall i, j :: 0 <= i < j < |b| ==> b[i].key != b[j].key
    ensures Says(b, keys, text) ==> StringFromMap(MapOf(b, map[]), keys) == Available(text)
  {
    hide StringFromMap, U64FromMap, U64Text, MapOf, Says;
    if Says(b, keys, text) {
      SaysGiven(b, keys, text);
    }
  }

  lemma SaidNumber(b: seq<Line>, keys: seq<string>, n: u64)
    requires forall i, j :: 0 <= i < j < |b| ==> b[i].key != b[j].key
    ensures Says(b, keys, Decimal(n)) ==> U64FromMap(MapOf(b, map[]), keys) == Available(n)
  {
    hide StringFromMap, U64FromMap, U64Text, MapOf, Says, Decimal;
    U64OfDecimal("", n, "");
    assert "" + Decimal(n) + "" == Decimal(n);
    if Says(b, keys, Decimal(n)) {
      SaysGiven(b, keys, Decimal(n));
    }
  }

  /** The clause of address sizes gives both numbers. */
  lemma SizesFromText(info: CpuInfo, fs: FileSystem, sysfsRoot: string, host: Host, blocks: seq<seq<Line>>,
                      p: u64, v: u64)
    requires blocks != [] && forall block <- blocks :: block != [] && forall l <- block :: l.Valid()
    requires forall i, j :: 0 <= i < j < |blocks[0]| ==> blocks[0][i].key != blocks[0][j].key
    requires Describes(info, fs, sysfsRoot, host, ReadResult(Ok, Unlines(Document(blocks), '\n')))
    requires exists l <- blocks[0] ::
               l.key == "address sizes" && l.value == Clause(p, "physical") + ", " + Clause(v, "virtual")
    ensures info.physicalAddressBits == Available(p) && info.virtualAddressBits == Available(v)
  {
    hide Blocks, MapOf, Unlines, Document, StringFromMap, U64FromMap, U64Text, Decimal, TopologyOf, CountField,
         AddressField, Derived, Places, Virtualized, HypervisorVendor, JoinPath, ArchFromMachine, FirstBlock;
    RenderedBlocks(blocks);
    DistinctKeys(blocks[0]);
    AddressSizesRoundTrip(MapOf(blocks[0], map[]), p, v, true);
  }

  function CpuFile(sysfsRoot: string, name: string): string {
    sysfsRoot + "/" + ("devices/system/cpu/" + name)
  }

  /** The three sets that sysfs lists are counted into their own fields. */
  lemma CountsFromFiles(info: CpuInfo, fs: FileSystem, sysfsRoot: string, host: Host, cpuinfo: ReadResult, s: set<nat>)
    requires Describes(info, fs, sysfsRoot, host, cpuinfo) && sysfsRoot !in {"", "/"}
    requires (forall i <- s :: i <= U64_MAX) && |s| <= U64_MAX
    ensures Shows(fs, CpuFile(sysfsRoot, "present"), ListText(Runs(s))) ==> info.presentCpuCount == Available(|s|)
    ensures Shows(fs, CpuFile(sysfsRoot, "online"), ListText(Runs(s))) ==> info.onlineCpuCount == Available(|s|)
    ensures Shows(fs, CpuFile(sysfsRoot, "possible"), ListText(Runs(s))) ==> info.possibleCpuCount == Available(|s|)
  {
    hide Blocks, StringFromMap, U64FromMap, TopologyOf, CountField, AddressField, Derived, Places, Virtualized,
         HypervisorVendor, JoinPath, ArchFromMachine, FirstBlock, Shows, ListText, Runs, SysfsCpu, CpuFile;
    SysfsCpuIs(sysfsRoot, "present");
    SysfsCpuIs(sysfsRoot, "online");
    SysfsCpuIs(sysfsRoot, "possible");
    var blocks := |BlocksIn(cpuinfo)|;
    CountFieldIs(fs, CpuFile(sysfsRoot, "present"), s, blocks, host.hardwareThreads);
    CountFieldIs(fs, CpuFile(sysfsRoot, "online"), s, blocks, host.hardwareThreads);
    CountFieldIs(fs, CpuFile(sysfsRoot, "possible"), s, blocks, host.hardwareThreads);
  }

  lemma SysfsCpuIs(sysfsRoot: string, name: string)
    requires sysfsRoot !in {"", "/"}
    ensures SysfsCpu(sysfsRoot, name) == CpuFile(sysfsRoot, name)
  {
    hide JoinPath;
    JoinPathIs(sysfsRoot, "devices/system/cpu/" + name);
    assert "/" + ("devices/system/cpu/" + name) == "/devices/system/cpu/" + name;
  }

  // Printing.

  /** `cpu_topology_to_json`. */
  function EntryRecord(e: CpuTopologyEntry): Record {
    Record([
      Entry("logical_id", U32Cell(e.logicalId)),
      Entry("core_id", U32Cell(e.coreId)),
      Entry("package_id", U32Cell(e.packageId)),
      Entry("numa_node", U32Cell(e.numaNode)),
      Entry("thread_siblings_mask", StringCell(e.threadSiblingsMask)),
      Entry("core_siblings_mask", StringCell(e.coreSiblingsMask))
    ])
  }

  /** A reader of a printed topology entry finds each field under its key. */
  lemma EntryIsShown(e: CpuTopologyEntry)
    ensures var j := Tree(EntryRecord(e));
            && Shown(j, "logical_id", e.logicalId, Number(e.logicalId.content, 0))
            && Shown(j, "core_id", e.coreId, Number(e.coreId.content, 0))
            && Shown(j, "package_id", e.packageId, Number(e.packageId.content, 0))
            && Shown(j, "numa_node", e.numaNode, Number(e.numaNode.content, 0))
            && Shown(j, "thread_siblings_mask", e.threadSiblingsMask, String(e.threadSiblingsMask.content))
            && Shown(j, "core_siblings_mask", e.coreSiblingsMask, String(e.coreSiblingsMask.content))
  {
    hide Shown, Has, Tree;
    var r := EntryRecord(e);
    EntryShown(r, r.entries[0]);
    EntryShown(r, r.entries[1]);
    EntryShown(r, r.entries[2]);
    EntryShown(r, r.entries[3]);
    EntryShown(r, r.entries[4]);
    EntryShown(r, r.entries[5]);
  }

  function EntryRecords(es: seq<CpuTopologyEntry>): (r: seq<Record>)
    ensures |r| == |es| && forall i :: 0 <= i < |es| ==> r[i] == EntryRecord(es[i])
  {
    seq(|es|, i requires 0 <= i < |es| => EntryRecord(es[i]))
  }

  function NameEntries(info: CpuInfo): seq<Entry> {
    [
      Entry("arch", TextCell(info.arch)),
      Entry("arch_name", StringCell(info.archName)),
      Entry("vendor", StringCell(info.vendor)),
      Entry("brand", StringCell(info.brand)),
      Entry("model_name", StringCell(info.modelName))
    ]
  }

  function CountEntries(info: CpuInfo): seq<Entry> {
    [
      Entry("present_cpu_count", U64Cell(info.presentCpuCount)),
      Entry("online_cpu_count", U64Cell(info.onlineCpuCount)),
      Entry("possible_cpu_count", U64Cell(info.possibleCpuCount)),
      Entry("sockets", U64Cell(info.sockets)),
      Entry("cores_per_socket", U64Cell(info.coresPerSocket)),
      Entry("threads_per_core", U64Cell(info.threadsPerCore))
    ]
  }

  function ModelEntries(info: CpuInfo): seq<Entry> {
    [
      Entry("family", U64Cell(info.family)),
      Entry("model", U64Cell(info.model)),
      Entry("stepping", U64Cell(info.stepping)),
      Entry("microcode", StringCell(info.microcode)),
      Entry("physical_address_bits", U64Cell(info.physicalAddressBits)),
      Entry("virtual_address_bits", U64Cell(info.virtualAddressBits))
    ]
  }

  function HostEntries(info: CpuInfo): seq<Entry> {
    [
      Entry("is_virtualized", BoolCell(info.isVirtualized)),
      Entry("hypervisor_vendor", StringCell(info.hypervisorVendor)),
      Entry("topology", RowsCell(EntryRecords(info.topology)))
    ]
  }

  /** `to_json(const CpuInfo&)`. */
  function CpuRecord(info: CpuInfo): Record {
    Record(NameEntries(info) + CountEntries(info) + ModelEntries(info) + HostEntries(info))
  }

  // What a reader of the printed CPU section finds under each key.

  lemma NamesAreShown(info: CpuInfo, r: Record)
    requires forall e <- NameEntries(info) :: e in r.entries
    ensures var j := Tree(r);
            && Has(j, "arch", String(info.arch))
            && Shown(j, "arch_name", info.archName, String(info.archName.content))
            && Shown(j, "vendor", info.vendor, String(info.vendor.content))
            && Shown(j, "brand", info.brand, String(info.brand.content))
            && Shown(j, "model_name", info.modelName, String(info.modelName.content))
  {
    hide Shown, Has, Tree, EntryRecords;
    var part := NameEntries(info);
    EntryShown(r, part[0]);
    EntryShown(r, part[1]);
    EntryShown(r, part[2]);
    EntryShown(r, part[3]);
    EntryShown(r, part[4]);
  }

  lemma CountsAreShown(info: CpuInfo, r: Record)
    requires forall e <- CountEntries(info) :: e in r.entries
    ensures var j := Tree(r);
            && Shown(j, "present_cpu_count", info.presentCpuCount, Number(info.presentCpuCount.content, 0))
            && Shown(j, "online_cpu_count", info.onlineCpuCount, Number(info.onlineCpuCount.content, 0))
            && Shown(j, "possible_cpu_count", info.possibleCpuCount, Number(info.possibleCpuCount.content, 0))
            && Shown(j, "sockets", info.sockets, Number(info.sockets.content, 0))
            && Shown(j, "cores_per_socket", info.coresPerSocket, Number(info.coresPerSocket.content, 0))
            && Shown(j, "threads_per_core", info.threadsPerCore, Number(info.threadsPerCore.content, 0))
  {
    hide Shown, Has, Tree, EntryRecords;
    var part := CountEntries(info);
    EntryShown(r, part[0]);
    EntryShown(r, part[1]);
    EntryShown(r, part[2]);
    EntryShown(r, part[3]);
    EntryShown(r, part[4]);
    EntryShown(r, part[5]);
  }

  lemma ModelIsShown(info: CpuInfo, r: Record)
    requires forall e <- ModelEntries(info) :: e in r.entries
    ensures var j := Tree(r);
            && Shown(j, "family", info.family, Number(info.family.content, 0))
            && Shown(j, "model", info.model, Number(info.model.content, 0))
            && Shown(j, "stepping", info.stepping, Number(info.stepping.content, 0))
            && Shown(j, "microcode", info.microcode, String(info.microcode.content))
            && Shown(j, "physical_address_bits", info.physicalAddressBits, Number(info.physicalAddressBits.content, 0))
            && Shown(j, "virtual_address_bits", info.virtualAddressBits, Number(info.virtualAddressBits.content, 0))
  {
    hide Shown, Has, Tree, EntryRecords;
    var part := ModelEntries(info);
    EntryShown(r, part[0]);
    EntryShown(r, part[1]);
    EntryShown(r, part[2]);
    EntryShown(r, part[3]);
    EntryShown(r, part[4]);
    EntryShown(r, part[5]);
  }

  lemma HostIsShown(info: CpuInfo, r: Record)
    requires forall e <- HostEntries(info) :: e in r.entries
    ensures var j := Tree(r);
            && Shown(j, "is_virtualized", info.isVirtualized, Bool(info.isVirtualized.content))
            && Shown(j, "hypervisor_vendor", info.hypervisorVendor, String(info.hypervisorVendor.content))
            && Has(j, "topology", Array(Trees(EntryRecords(info.topology))))
  {
    hide Shown, Has, Tree, EntryRecords;
    var part := HostEntries(info);
    EntryShown(r, part[0]);
    EntryShown(r, part[1]);
    EntryShown(r, part[2]);
  }

  /** Every part of the table is in the section, so all of the above holds of it. */
  lemma CpuIsShown(info: CpuInfo)
    ensures forall part <- {NameEntries(info), CountEntries(info), ModelEntries(info), HostEntries(info)}, e <- part ::
              e in CpuRecord(info).entries
    ensures |Tree(CpuRecord(info)).members| == 20
  {
    RecordReads(CpuRecord(info));
  }

  predicate HonestEntry(e: CpuTopologyEntry) {
    && e.logicalId.Honest() && e.coreId.Honest() && e.packageId.Honest() && e.numaNode.Honest()
    && e.threadSiblingsMask.Honest() && e.coreSiblingsMask.Honest()
  }

  lemma EntryRecordIsHonest(e: CpuTopologyEntry)
    requires HonestEntry(e)
    ensures HonestRecord(EntryRecord(e))
  {
    hide HonestCell;
    LeafIsHonest();
  }

  lemma {:induction false} BlockEntriesAreHonest(blocks: seq<KeyValueMap>)
    ensures forall e <- BlockEntries(blocks) :: HonestEntry(e)
  {
    hide U32FromMap;
    if blocks != [] {
      BlockEntriesAreHonest(blocks[1..]);
    }
  }

  lemma TopologyIsHonest(fs: FileSystem, sysfsRoot: string, blocks: seq<KeyValueMap>)
    ensures forall e <- TopologyOf(fs, sysfsRoot, blocks) :: HonestEntry(e)
  {
    hide LineField, JoinPath, SortedDirs, ByProcessor, BlockEntries;
    BlockEntriesAreHonest(blocks);
  }

  lemma TopologyCellIsHonest(es: seq<CpuTopologyEntry>)
    requires forall e <- es :: HonestEntry(e)
    ensures HonestCell(RowsCell(EntryRecords(es)))
  {
    hide EntryRecord;
    var rows := EntryRecords(es);
    forall row <- rows ensures HonestRecord(row) {
      var i :| 0 <= i < |rows| && rows[i] == row;
      assert es[i] in es;
      EntryRecordIsHonest(es[i]);
    }
  }

  ghost predicate HonestEntries(entries: seq<Entry>) {
    forall e <- entries :: HonestCell(e.cell)
  }

  lemma DerivedIsHonest(ps: seq<Place>, cpuCores: U64Field, siblings: U64Field,
                        sockets: U64Field, coresPerSocket: U64Field, threadsPerCore: U64Field)
    requires Derived(ps, cpuCores, siblings, sockets, coresPerSocket, threadsPerCore) && cpuCores.Honest()
    ensures sockets.Honest() && coresPerSocket.Honest() && threadsPerCore.Honest()
  {
    hide CoresOf, Cores, Packages, ThreadsOf;
  }

  lemma NamesAreHonest(info: CpuInfo)
    requires info.archName.Honest() && info.vendor.Honest() && info.brand.Honest() && info.modelName.Honest()
    ensures HonestEntries(NameEntries(info))
  {
    hide HonestCell;
    LeafIsHonest();
  }

  lemma CountsAreHonest(info: CpuInfo)
    requires info.presentCpuCount.Honest() && info.onlineCpuCount.Honest() && info.possibleCpuCount.Honest()
    requires info.sockets.Honest() && info.coresPerSocket.Honest() && info.threadsPerCore.Honest()
    ensures HonestEntries(CountEntries(info))
  {
    hide HonestCell;
    LeafIsHonest();
  }

  lemma ModelIsHonest(info: CpuInfo)
    requires info.family.Honest() && info.model.Honest() && info.stepping.Honest() && info.microcode.Honest()
    requires info.physicalAddressBits.Honest() && info.virtualAddressBits.Honest()
    ensures HonestEntries(ModelEntries(info))
  {
    hide HonestCell;
    LeafIsHonest();
  }

  lemma HostIsHonest(info: CpuInfo)
    requires info.isVirtualized.Honest() && info.hypervisorVendor.Honest()
    requires HonestCell(RowsCell(EntryRecords(info.topology)))
    ensures HonestEntries(HostEntries(info))
  {
    hide EntryRecords, HonestCell;
    LeafIsHonest();
  }

  /** For every file system and host, every field of the CPU section, down to the topology
      entries, is valid exactly when its status is `Ok`. */
  lemma CpuIsHonest(info: CpuInfo, fs: FileSystem, sysfsRoot: string, host: Host, cpuinfo: ReadResult)
    requires Describes(info, fs, sysfsRoot, host, cpuinfo)
    ensures HonestRecord(CpuRecord(info))
  {
    hide Blocks, JoinPath, TopologyOf, CountField, AddressField, U64FromMap, StringFromMap, Derived, Places,
         Virtualized, HypervisorVendor, NameEntries, CountEntries, ModelEntries, HostEntries, HonestCell;
    var first := FirstBlock(BlocksIn(cpuinfo));
    DerivedIsHonest(Places(info.topology), U64FromMap(first, ["cpu cores"]), U64FromMap(first, ["siblings"]),
                    info.sockets, info.coresPerSocket, info.threadsPerCore);
    TopologyIsHonest(fs, sysfsRoot, BlocksIn(cpuinfo));
    TopologyCellIsHonest(info.topology);
    NamesAreHonest(info);
    CountsAreHonest(info);
    ModelIsHonest(info);
    HostIsHonest(info);
  }

  /** The bound on the reported product, for whole machines. */
  lemma ProductCoversPlacedCpus(info: CpuInfo, fs: FileSystem, sysfsRoot: string, host: Host, cpuinfo: ReadResult)
    requires Describes(info, fs, sysfsRoot, host, cpuinfo)
    requires !U64FromMap(FirstBlock(BlocksIn(cpuinfo)), ["cpu cores"]).valid
    requires PlacedOnes(info.topology) != {}
    ensures var es, placed := info.topology, |PlacedOnes(info.topology)|;
            var product := info.sockets.content * info.coresPerSocket.content * info.threadsPerCore.content;
            && product >= placed
            && (product == placed <==>
                  && (forall p <- PackageIds(es) :: |CoreIds(es, p)| == info.coresPerSocket.content)
                  && (forall p: u32, c: u32 :: ThreadsOn(es, p, c) != {} ==>
                        |ThreadsOn(es, p, c)| == info.threadsPerCore.content))
  {
    hide Blocks, JoinPath, TopologyOf, CountField, AddressField, U64FromMap, StringFromMap, Derived, Places,
         Virtualized, HypervisorVendor, PackageIds, CoreIds, ThreadsOn, PlacedOnes;
    var first := FirstBlock(BlocksIn(cpuinfo));
    ProductOfEntries(info.topology, U64FromMap(first, ["cpu cores"]), U64FromMap(first, ["siblings"]),
                     info.sockets, info.coresPerSocket, info.threadsPerCore);
  }
}
