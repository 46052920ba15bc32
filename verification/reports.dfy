/** What a report is, its intended tree, and how `to_json(const Report&)` of src/json.cc
    prints it. */
module Reports {
  import opened Text
  import opened Categories
  import opened JsonGrammar
  import opened JsonText
  import opened JsonPrinter

  /** The fixed texts of a report. */
  datatype Labels = Labels(
    schemaKey: string, schemaVersion: string,
    producerKey: string, nameKey: string, name: string, versionKey: string, version: string,
    categoriesKey: string, dataKey: string
  )

  const LABELS := Labels(
    "schema_version", "1.0.0",
    "producer", "name", "archspec-inspect", "version", "0.2.0",
    "collected_categories", "data"
  )

  /** The options that collectors read. */
  datatype Settings = Settings(
    procfsRoot: string,
    sysfsRoot: string,
    etcRoot: string,
    devRoot: string,
    allowSlowProbes: bool,
    allowVendorLibraries: bool,
    allowPerfOpen: bool,
    includeSensitive: bool
  )

  datatype CollectOptions = CollectOptions(categories: Mask, settings: Settings)

  /** One table per category. */
  datatype SystemInfo = SystemInfo(
    os: Record, cpu: Record, isa: Record, cache: Record, memory: Record, pci: Record, gpu: Record,
    perf: Record, block: Record, net: Record, thermal: Record, power: Record,
    virtualization: Record, platform: Record
  )

  datatype Report = Report(categories: Mask, system: SystemInfo)

  function Section(info: SystemInfo, c: Category): Record {
    match c
    case Os => info.os
    case Cpu => info.cpu
    case Isa => info.isa
    case Cache => info.cache
    case Memory => info.memory
    case Pci => info.pci
    case Gpu => info.gpu
    case Perf => info.perf
    case Block => info.block
    case Net => info.net
    case Thermal => info.thermal
    case Power => info.power
    case Virtualization => info.virtualization
    case Platform => info.platform
  }

  // The intended tree.

  function NameTrees(cs: seq<Category>): (r: seq<Json>)
    ensures |r| == |cs| && forall i :: 0 <= i < |cs| ==> r[i] == String(Name(cs[i]))
  {
    if cs == [] then [] else [String(Name(cs[0]))] + NameTrees(cs[1..])
  }

  function DataPairs(cs: seq<Category>, data: Category -> Record): (r: seq<Pair>)
    ensures |r| == |cs| && forall i :: 0 <= i < |cs| ==> r[i] == Pair(Name(cs[i]), Tree(data(cs[i])))
  {
    if cs == [] then [] else [Pair(Name(cs[0]), Tree(data(cs[0])))] + DataPairs(cs[1..], data)
  }

  function ProducerTree(l: Labels): Json {
    Object([Pair(l.nameKey, String(l.name)), Pair(l.versionKey, String(l.version))])
  }

  function RootTree(l: Labels, categories: Json, data: Json): Json {
    Object([
      Pair(l.schemaKey, String(l.schemaVersion)),
      Pair(l.producerKey, ProducerTree(l)),
      Pair(l.categoriesKey, categories),
      Pair(l.dataKey, data)])
  }

  /** Version, producer, the names of the selected categories, and their data under the
      same names in the same order. */
  function TreeOf(l: Labels, mask: Mask, data: Category -> Record): Json {
    var cs := Selected(mask, TABLE);
    RootTree(l, Array(NameTrees(cs)), Object(DataPairs(cs, data)))
  }

  function Sections(info: SystemInfo): Category -> Record {
    c => Section(info, c)
  }

  function ReportTree(report: Report): Json {
    TreeOf(LABELS, report.categories, Sections(report.system))
  }

  // Printing.

  lemma {:induction false} SelectedSnoc(mask: Mask, table: seq<Category>, c: Category)
    ensures Selected(mask, table + [c]) == Selected(mask, table) + if HasCategory(mask, c) then [c] else []
  {
    if table == [] {
      assert [c][1..] == [];
    } else {
      assert (table + [c])[1..] == table[1..] + [c];
      SelectedSnoc(mask, table[1..], c);
    }
  }

  function NamesText(cs: seq<Category>): string {
    Join(RenderItems(NameTrees(cs)), ",")
  }

  lemma {:induction false} NameTextsSnoc(cs: seq<Category>, c: Category)
    ensures RenderItems(NameTrees(cs + [c])) == RenderItems(NameTrees(cs)) + [Quoted(Name(c))]
  {
    if cs == [] {
      assert [c][1..] == [];
    } else {
      assert (cs + [c])[1..] == cs[1..] + [c];
      NameTextsSnoc(cs[1..], c);
    }
  }

  lemma NamesTextSnoc(cs: seq<Category>, c: Category)
    ensures NamesText(cs + [c]) == (if cs == [] then "" else NamesText(cs) + ",") + Quoted(Name(c))
  {
    NameTextsSnoc(cs, c);
    JoinSnoc(RenderItems(NameTrees(cs)), ",", Quoted(Name(c)));
    assert "" + Quoted(Name(c)) == Quoted(Name(c));
  }

  lemma {:induction false} DataPairsSnoc(cs: seq<Category>, c: Category, data: Category -> Record)
    ensures DataPairs(cs + [c], data) == DataPairs(cs, data) + [Pair(Name(c), Tree(data(c)))]
  {
    if cs == [] {
      assert [c][1..] == [];
    } else {
      assert (cs + [c])[1..] == cs[1..] + [c];
      DataPairsSnoc(cs[1..], c, data);
    }
  }

  /** The loop that prints the selected names. */
  method SelectedToJson(mask: Mask, table: seq<Category>) returns (selected: string)
    ensures selected == Render(Array(NameTrees(Selected(mask, table))))
  {
    hide Selected, NamesText, Render, HasCategory;
    NothingSelected(mask);
    selected := "[";
    var first := true;
    for i := 0 to |table|
      invariant first <==> Selected(mask, table[..i]) == []
      invariant selected == "[" + NamesText(Selected(mask, table[..i]))
    {
      ghost var done := Selected(mask, table[..i]);
      SelectedSnoc(mask, table[..i], table[i]);
      assert table[..i + 1] == table[..i] + [table[i]];
      if !HasCategory(mask, table[i]) {
        assert done + [] == done;
        continue;
      }
      NamesTextSnoc(done, table[i]);
      if !first {
        selected := selected + ",";
      }
      var name := JsonString(Name(table[i]));
      selected := selected + name;
      first := false;
    }
    assert table[..|table|] == table;
    selected := selected + "]";
    ListText(Selected(mask, table));
  }

  lemma NothingSelected(mask: Mask)
    ensures Selected(mask, []) == [] && "[" + NamesText([]) == "["
  {}

  lemma ListText(cs: seq<Category>)
    ensures Render(Array(NameTrees(cs))) == "[" + NamesText(cs) + "]"
  {}

  function SectionTexts(report: Report, c: Category): seq<string> {
    if HasCategory(report.categories, c)
    then [MemberText(Name(c), Render(Tree(Section(report.system, c))))]
    else []
  }

  function Texts(report: Report): Category -> seq<string> {
    c => SectionTexts(report, c)
  }

  function Flat(f: Category -> seq<string>, table: seq<Category>): seq<string> {
    if table == [] then [] else f(table[0]) + Flat(f, table[1..])
  }

  /** The same from the left: what the statements for the first k entries add. */
  function Added(f: Category -> seq<string>, table: seq<Category>, k: nat): seq<string>
    requires k <= |table|
  {
    if k == 0 then [] else Added(f, table, k - 1) + f(table[k - 1])
  }

  lemma {:induction false} AddedRest(f: Category -> seq<string>, table: seq<Category>, k: nat)
    requires k <= |table|
    ensures Added(f, table, k) + Flat(f, table[k..]) == Flat(f, table)
  {
    if k == 0 {
      assert table[0..] == table;
    } else {
      AddedRest(f, table, k - 1);
      assert table[k - 1..][1..] == table[k..];
      Assoc(Added(f, table, k - 1), f(table[k - 1]), Flat(f, table[k..]));
    }
  }

  lemma AddedStart(f: Category -> seq<string>, table: seq<Category>)
    ensures Added(f, table, 0) == []
  {}

  lemma AddedEnd(f: Category -> seq<string>, table: seq<Category>)
    ensures Added(f, table, |table|) == Flat(f, table)
  {
    AddedRest(f, table, |table|);
    assert Added(f, table, |table|) + [] == Added(f, table, |table|);
  }

  lemma {:induction false} DataTextsAre(report: Report, table: seq<Category>)
    ensures Flat(Texts(report), table) ==
            RenderMembers(DataPairs(Selected(report.categories, table), Sections(report.system)))
  {
    if table != [] {
      DataTextsAre(report, table[1..]);
      var data := Sections(report.system);
      var cs := Selected(report.categories, table[1..]);
      if HasCategory(report.categories, table[0]) {
        assert ([table[0]] + cs)[1..] == cs;
        RenderMembersAppend([Pair(Name(table[0]), Tree(data(table[0])))], DataPairs(cs, data));
        RenderOne(Pair(Name(table[0]), Tree(data(table[0]))));
      }
    }
  }

  function DataTree(report: Report, table: seq<Category>): Json {
    Object(DataPairs(Selected(report.categories, table), Sections(report.system)))
  }

  lemma DataTextIs(report: Report, table: seq<Category>)
    ensures Render(DataTree(report, table)) == "{" + Join(Flat(Texts(report), table), ",") + "}"
  {
    DataTextsAre(report, table);
  }

  /** One `if (has_category(...)) data.add_raw(...)`, at its place in the table. */
  method AddSection(data: JsonObject, report: Report, c: Category)
    requires data.Valid() && data.members == Added(Texts(report), TABLE, Index(c))
    modifies data
    ensures data.Valid() && data.members == Added(Texts(report), TABLE, Index(c) + 1)
  {
    hide HasCategory, Render, MemberText;
    if HasCategory(report.categories, c) {
      var raw := RecordToJson(Section(report.system, c));
      data.AddRaw(Name(c), raw);
    }
    assert data.members == old(data.members) + SectionTexts(report, c);
  }

  method DataToJson(report: Report) returns (s: string)
    ensures s == Render(DataTree(report, TABLE))
  {
    hide Added, Texts, DataTree, Render, Flat, JsonObject.Valid;
    var data := new JsonObject();
    AddedStart(Texts(report), TABLE);
    AddSection(data, report, Os);
    AddSection(data, report, Cpu);
    AddSection(data, report, Isa);
    AddSection(data, report, Cache);
    AddSection(data, report, Memory);
    AddSection(data, report, Pci);
    AddSection(data, report, Gpu);
    AddSection(data, report, Perf);
    AddSection(data, report, Block);
    AddSection(data, report, Net);
    AddSection(data, report, Thermal);
    AddSection(data, report, Power);
    AddSection(data, report, Virtualization);
    AddSection(data, report, Platform);
    AddedEnd(Texts(report), TABLE);
    s := data.Str();
    DataTextIs(report, TABLE);
  }

  lemma RenderTwo(a: Pair, b: Pair)
    ensures RenderMembers([a, b]) == [MemberText(a.name, Render(a.value)), MemberText(b.name, Render(b.value))]
  {
    RenderOne(a);
    RenderOne(b);
    RenderMembersAppend([a], [b]);
    assert [a] + [b] == [a, b];
  }

  lemma RenderFour(a: Pair, b: Pair, c: Pair, d: Pair)
    ensures RenderMembers([a, b, c, d]) ==
            [MemberText(a.name, Render(a.value)), MemberText(b.name, Render(b.value)),
             MemberText(c.name, Render(c.value)), MemberText(d.name, Render(d.value))]
  {
    RenderTwo(a, b);
    RenderTwo(c, d);
    RenderMembersAppend([a, b], [c, d]);
    assert [a, b] + [c, d] == [a, b, c, d];
  }

  method ProducerToJson(l: Labels) returns (s: string)
    ensures s == Render(ProducerTree(l))
  {
    var producer := new JsonObject();
    producer.AddString(l.nameKey, l.name);
    producer.AddString(l.versionKey, l.version);
    s := producer.Str();
    RenderTwo(Pair(l.nameKey, String(l.name)), Pair(l.versionKey, String(l.version)));
  }

  lemma RootText(texts: seq<string>, a: Pair, b: Pair, c: Pair, d: Pair)
    requires |texts| == 4
    requires texts[0] == MemberText(a.name, Render(a.value)) && texts[1] == MemberText(b.name, Render(b.value))
    requires texts[2] == MemberText(c.name, Render(c.value)) && texts[3] == MemberText(d.name, Render(d.value))
    ensures "{" + Join(texts, ",") + "}" == Render(Object([a, b, c, d]))
  {
    RenderFour(a, b, c, d);
    assert texts == RenderMembers([a, b, c, d]);
  }

  /** The four members of the root; `c` and `d` are what the two given texts mean. */
  method RootToJson(l: Labels, selected: string, data: string, ghost c: Json, ghost d: Json) returns (s: string)
    requires selected == Render(c) && data == Render(d)
    ensures s == Render(RootTree(l, c, d))
  {
    var root := new JsonObject();
    root.AddString(l.schemaKey, l.schemaVersion);
    var producer := ProducerToJson(l);
    root.AddRaw(l.producerKey, producer);
    root.AddRaw(l.categoriesKey, selected);
    root.AddRaw(l.dataKey, data);
    s := root.Str();
    RootText(root.members, Pair(l.schemaKey, String(l.schemaVersion)), Pair(l.producerKey, ProducerTree(l)),
             Pair(l.categoriesKey, c), Pair(l.dataKey, d));
  }

  /** Every report prints as its intended tree, and the parser of JsonGrammar gets that tree
      back from the whole text. */
  method ReportToJson(report: Report) returns (s: string)
    ensures s == Render(ReportTree(report))
    ensures ParseText(s) == Some(ReportTree(report))
  {
    var selected := SelectedToJson(report.categories, TABLE);
    var data := DataToJson(report);
    s := RootToJson(LABELS, selected, data,
                    Array(NameTrees(Selected(report.categories, TABLE))), DataTree(report, TABLE));
    TextRoundTrip(ReportTree(report));
  }
}
