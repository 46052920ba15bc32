/** `Collector` and `collect_report` of src/core.cc, and what a report says about its
    options.  What each collector returns is a parameter, `probe`. */
module Collection {
  import opened Text
  import opened Categories
  import opened JsonGrammar
  import opened JsonText
  import opened JsonPrinter
  import opened Reports

  type Probe = (Settings, Category) -> Record

  class Collector {
    var options: CollectOptions

    constructor (options: CollectOptions)
      ensures this.options == options
    {
      this.options := options;
    }

    method SetOptions(options: CollectOptions)
      modifies this
      ensures this.options == options
    {
      this.options := options;
    }

    /** One guarded assignment: without its category, a member stays as it was. */
    method CollectOne(c: Category, probe: Probe, before: Record) returns (section: Record)
      ensures section == Guarded(options, probe, c, before)
    {
      section := before;
      if HasCategory(options.categories, c) {
        section := probe(options.settings, c);
      }
    }

    /** Fourteen guarded assignments into a value-initialised `blank`. */
    method Collect(probe: Probe, blank: SystemInfo) returns (info: SystemInfo)
      ensures info == CollectedInfo(options, probe, blank)
    {
      hide Guarded;
      var os := CollectOne(Os, probe, blank.os);
      var cpu := CollectOne(Cpu, probe, blank.cpu);
      var isa := CollectOne(Isa, probe, blank.isa);
      var cache := CollectOne(Cache, probe, blank.cache);
      var memory := CollectOne(Memory, probe, blank.memory);
      var pci := CollectOne(Pci, probe, blank.pci);
      var gpu := CollectOne(Gpu, probe, blank.gpu);
      var perf := CollectOne(Perf, probe, blank.perf);
      var block := CollectOne(Block, probe, blank.block);
      var net := CollectOne(Net, probe, blank.net);
      var thermal := CollectOne(Thermal, probe, blank.thermal);
      var power := CollectOne(Power, probe, blank.power);
      var virtualization := CollectOne(Virtualization, probe, blank.virtualization);
      var platform := CollectOne(Platform, probe, blank.platform);
      info := SystemInfo(os, cpu, isa, cache, memory, pci, gpu, perf,
                         block, net, thermal, power, virtualization, platform);
    }
  }

  function Guarded(options: CollectOptions, probe: Probe, c: Category, before: Record): Record {
    if HasCategory(options.categories, c) then probe(options.settings, c) else before
  }

  /** A section holds its collector's result exactly when its category is selected. */
  function Collected(options: CollectOptions, probe: Probe, blank: SystemInfo, c: Category): Record {
    Guarded(options, probe, c, Section(blank, c))
  }

  function CollectedInfo(options: CollectOptions, probe: Probe, blank: SystemInfo): SystemInfo {
    SystemInfo(
      Collected(options, probe, blank, Os),
      Collected(options, probe, blank, Cpu),
      Collected(options, probe, blank, Isa),
      Collected(options, probe, blank, Cache),
      Collected(options, probe, blank, Memory),
      Collected(options, probe, blank, Pci),
      Collected(options, probe, blank, Gpu),
      Collected(options, probe, blank, Perf),
      Collected(options, probe, blank, Block),
      Collected(options, probe, blank, Net),
      Collected(options, probe, blank, Thermal),
      Collected(options, probe, blank, Power),
      Collected(options, probe, blank, Virtualization),
      Collected(options, probe, blank, Platform)
    )
  }

  lemma SectionIsCollected(options: CollectOptions, probe: Probe, blank: SystemInfo, c: Category)
    ensures Section(CollectedInfo(options, probe, blank), c) == Collected(options, probe, blank, c)
  {
    hide Collected;
  }

  /** A selected section is what its collector returned; any other is left blank. */
  lemma SelectedIsCollected(options: CollectOptions, probe: Probe, blank: SystemInfo, c: Category)
    ensures var section := Section(CollectedInfo(options, probe, blank), c);
            && (HasCategory(options.categories, c) ==> section == probe(options.settings, c))
            && (!HasCategory(options.categories, c) ==> section == Section(blank, c))
  {
    hide HasCategory, CollectedInfo;
    SectionIsCollected(options, probe, blank, c);
  }

  function CollectedReport(options: CollectOptions, probe: Probe, blank: SystemInfo): Report {
    Report(options.categories, CollectedInfo(options, probe, blank))
  }

  method CollectReport(options: CollectOptions, probe: Probe, blank: SystemInfo) returns (report: Report)
    ensures report == CollectedReport(options, probe, blank)
  {
    var collector := new Collector(options);
    var info := collector.Collect(probe, blank);
    report := Report(options.categories, info);
  }

  // What is serialized.

  lemma {:induction false} DataPairsAgree(cs: seq<Category>, f: Category -> Record, g: Category -> Record)
    requires forall c <- cs :: f(c) == g(c)
    ensures DataPairs(cs, f) == DataPairs(cs, g)
  {
    if cs != [] {
      DataPairsAgree(cs[1..], f, g);
    }
  }

  /** Every serialized section is its collector's result: nothing of the blank is
      printed. */
  lemma SerializedIsCollected(options: CollectOptions, probe: Probe, blank: SystemInfo)
    ensures ReportTree(CollectedReport(options, probe, blank)) ==
            TreeOf(LABELS, options.categories, c => probe(options.settings, c))
  {
    var info := CollectedInfo(options, probe, blank);
    forall c <- Selected(options.categories, TABLE)
      ensures Sections(info)(c) == probe(options.settings, c)
    {
      SectionIsCollected(options, probe, blank, c);
    }
    DataPairsAgree(Selected(options.categories, TABLE), Sections(info), c => probe(options.settings, c));
  }

  /** The same for any table of results that agrees with the collectors. */
  lemma CollectedTree(options: CollectOptions, probe: Probe, blank: SystemInfo, data: Category -> Record)
    requires forall c :: probe(options.settings, c) == data(c)
    ensures ReportTree(CollectedReport(options, probe, blank)) == TreeOf(LABELS, options.categories, data)
  {
    hide ReportTree, CollectedReport, RootTree, Selected;
    SerializedIsCollected(options, probe, blank);
    DataPairsAgree(Selected(options.categories, TABLE), c => probe(options.settings, c), data);
  }

  /** The last two members of a report list the same names in the same order, the first
      as strings and the second as keys, and no name twice. */
  lemma KeysAreCategories(l: Labels, mask: Mask, data: Category -> Record)
    ensures var members := TreeOf(l, mask, data).members;
            && |members| == 4
            && members[2].name == l.categoriesKey && members[2].value.Array?
            && members[3].name == l.dataKey && members[3].value.Object?
            && var listed, keyed := members[2].value.items, members[3].value.members;
            && |listed| == |keyed|
            && (forall i :: 0 <= i < |listed| ==> listed[i] == String(keyed[i].name))
            && Distinct(listed)
            && (forall c :: HasCategory(mask, c) <==> String(Name(c)) in listed)
  {
    TableDistinct();
    SelectedDistinct(mask, TABLE);
    NamesDistinct(Selected(mask, TABLE));
  }

  lemma NamesDistinct(cs: seq<Category>)
    requires Distinct(cs)
    ensures Distinct(NameTrees(cs))
    ensures forall c: Category :: c in cs <==> String(Name(c)) in NameTrees(cs)
  {
    var listed := NameTrees(cs);
    forall i, j | 0 <= i < j < |cs| ensures listed[i] != listed[j] {
      if Name(cs[i]) == Name(cs[j]) {
        NameInjective(cs[i], cs[j]);
      }
    }
    forall c: Category
      ensures c in cs <==> String(Name(c)) in listed
    {
      if c in cs {
        var i :| 0 <= i < |cs| && cs[i] == c;
        assert listed[i] == String(Name(c));
      }
      if String(Name(c)) in listed {
        var i :| 0 <= i < |cs| && listed[i] == String(Name(c));
        NameInjective(cs[i], c);
      }
    }
  }

  /** Two option values that differ only in unknown mask bits give the same text. */
  lemma UnknownBitsDoNotMatter(a: CollectOptions, b: CollectOptions, probe: Probe,
                               blankA: SystemInfo, blankB: SystemInfo)
    requires a.settings == b.settings && And(a.categories, KNOWN) == And(b.categories, KNOWN)
    ensures Render(ReportTree(CollectedReport(a, probe, blankA))) ==
            Render(ReportTree(CollectedReport(b, probe, blankB)))
  {
    SerializedIsCollected(a, probe, blankA);
    SerializedIsCollected(b, probe, blankB);
    SelectedKnown(a.categories, b.categories, TABLE);
    DataPairsAgree(Selected(a.categories, TABLE), c => probe(a.settings, c), c => probe(b.settings, c));
  }

  /** If the selected collectors return honest fields, no object of the printed report
      claims "ok" without a value or carries a value without "ok". */
  lemma ReportIsHonest(l: Labels, mask: Mask, data: Category -> Record)
    requires forall c | HasCategory(mask, c) :: HonestRecord(data(c))
    ensures HonestTree(TreeOf(l, mask, data))
  {
    hide HonestRecord, HonestTree, Selected, HasCategory, DataPairs;
    var cs := Selected(mask, TABLE);
    DataHonest(cs, data);
    RootHonest(l, cs, Object(DataPairs(cs, data)));
  }

  lemma RootHonest(l: Labels, cs: seq<Category>, data: Json)
    requires HonestTree(data) && !data.Bool?
    ensures HonestTree(RootTree(l, Array(NameTrees(cs)), data))
  {
    var members := RootTree(l, Array(NameTrees(cs)), data).members;
    assert HonestTree(members[1].value) by {
      assert forall m <- members[1].value.members :: m.value.String?;
    }
    assert HonestTree(members[2].value) by {
      assert forall item <- members[2].value.items :: item.String?;
    }
    assert forall m <- members :: !m.value.Bool? && HonestTree(m.value);
  }

  lemma DataHonest(cs: seq<Category>, data: Category -> Record)
    requires forall c <- cs :: HonestRecord(data(c))
    ensures HonestTree(Object(DataPairs(cs, data)))
  {
    var pairs := DataPairs(cs, data);
    forall m <- pairs ensures HonestTree(m.value) && m.value.Object? {
      var i :| 0 <= i < |pairs| && pairs[i] == m;
      assert cs[i] in cs;
      TreeHonest(data(cs[i]));
    }
  }
}
