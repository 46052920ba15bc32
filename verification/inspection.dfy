/** The three modelled collectors inside a whole report. */
module Inspection {
  import opened Text
  import opened Categories
  import opened JsonGrammar
  import opened JsonText
  import opened JsonPrinter
  import opened Readers
  import opened Reports
  import opened Collection
  import opened ReportSchema
  import CacheCollector
  import IsaCollector
  import CpuInfoCollector

  /** The sections of the three modelled collectors next to those of the others. */
  function SectionData(cpu: Record, isa: Record, cache: Record, others: Category -> Record): Category -> Record {
    (c: Category) =>
      match c
      case Cpu => cpu
      case Isa => isa
      case Cache => cache
      case _ => others(c)
  }

  /** What a report of these settings should say: under each selected name, that
      collector's table. */
  ghost function ExpectedTree(options: CollectOptions, fs: FileSystem, rows: seq<IsaCollector.Row>,
                              cpu: CpuInfoCollector.CpuInfo, others: Category -> Record): Json
  {
    hide *;
    var caches := CacheCollector.Candidates(fs, SortedDirs(fs, options.settings.sysfsRoot));
    IsaCollector.IsaRecordIsHonest(fs, options.settings.procfsRoot, rows);
    TreeOf(LABELS, options.categories,
           SectionData(CpuInfoCollector.CpuRecord(cpu),
                       IsaCollector.IsaRecord(rows, IsaCollector.IsaOf(fs, options.settings.procfsRoot, rows)),
                       CacheCollector.CacheListRecord(CacheCollector.Firsts(caches, |caches|)),
                       others))
  }

  ghost predicate DescribesCpu(cpu: CpuInfoCollector.CpuInfo, settings: Settings, fs: FileSystem,
                               host: CpuInfoCollector.Host)
  {
    CpuInfoCollector.Describes(cpu, fs, settings.sysfsRoot, host, fs.read(JoinPath(settings.procfsRoot, "/cpuinfo")))
  }

  ghost predicate DescribesIsa(isa: Record, settings: Settings, fs: FileSystem, rows: seq<IsaCollector.Row>) {
    var features := IsaCollector.IsaOf(fs, settings.procfsRoot, rows);
    |features.features| == |rows| && isa == IsaCollector.IsaRecord(rows, features)
  }

  ghost predicate DescribesCaches(caches: Record, settings: Settings, fs: FileSystem) {
    exists es, at ::
      && CacheCollector.FirstCaches(es, at, fs, SortedDirs(fs, settings.sysfsRoot))
      && caches == CacheCollector.CacheListRecord(es)
  }

  ghost predicate HonestOthers(mask: Mask, others: Category -> Record) {
    forall c | HasCategory(mask, c) && c !in {Cpu, Isa, Cache} :: HonestRecord(others(c))
  }

  /** Under the keys of the three modelled categories, no object claims "ok" without a value
      or carries a value without "ok". */
  ghost predicate HonestSections(tree: Json) {
    && tree.Object? && |tree.members| == 4 && tree.members[3].value.Object?
    && forall m <- tree.members[3].value.members, c <- {Cpu, Isa, Cache} | m.name == Name(c) :: HonestTree(m.value)
  }

  lemma SectionsAreHonest(l: Labels, mask: Mask, data: Category -> Record)
    requires forall c <- {Cpu, Isa, Cache} :: HonestRecord(data(c))
    ensures HonestSections(TreeOf(l, mask, data))
  {
    hide HonestRecord, HonestTree, Name, Tree, TABLE;
    var cs := Selected(mask, TABLE);
    var pairs := DataPairs(cs, data);
    forall m <- pairs, c <- {Cpu, Isa, Cache} | m.name == Name(c)
      ensures HonestTree(m.value)
    {
      var i :| 0 <= i < |pairs| && pairs[i] == m;
      NameInjective(cs[i], c);
      TreeHonest(data(c));
    }
  }

  /** Under each of the three names, when it is selected, stands that collector's table. */
  ghost predicate SectionsAre(tree: Json, mask: Mask, cpu: Record, isa: Record, cache: Record) {
    && tree.Object? && |tree.members| == 4 && tree.members[3].name == "data"
    && (HasCategory(mask, Cpu) ==> Has(tree.members[3].value, "cpu", Tree(cpu)))
    && (HasCategory(mask, Isa) ==> Has(tree.members[3].value, "isa", Tree(isa)))
    && (HasCategory(mask, Cache) ==> Has(tree.members[3].value, "cache", Tree(cache)))
  }

  lemma SectionsFound(mask: Mask, cpu: Record, isa: Record, cache: Record, others: Category -> Record)
    ensures SectionsAre(TreeOf(LABELS, mask, SectionData(cpu, isa, cache, others)), mask, cpu, isa, cache)
  {
    hide Tree, HasCategory, Has, DataPairs;
    SectionsShown(LABELS, mask, SectionData(cpu, isa, cache, others));
    assert Name(Cpu) == "cpu" && Name(Isa) == "isa" && Name(Cache) == "cache";
  }

  /** `to_json(collect_report(options))`, which is what both front ends print.  For every
      file system, host and mask, the parser of JsonGrammar gets the tree of what was
      collected out of the whole text.  In it no object of the cpu, isa and cache sections
      claims "ok" without a value or carries a value without "ok", and no object at all
      does if the other collectors are honest. */
  method CollectJson(options: CollectOptions, fs: FileSystem, host: CpuInfoCollector.Host,
                     rows: seq<IsaCollector.Row>, others: Category -> Record, blank: SystemInfo)
    returns (s: string)
    requires CpuInfoCollector.Addressable(fs)
    ensures exists cpu ::
              && DescribesCpu(cpu, options.settings, fs, host)
              && var tree := ExpectedTree(options, fs, rows, cpu, others);
              && ParseText(s) == Some(tree) && Conforms(tree)
              && (exists isa, caches ::
                    && DescribesIsa(isa, options.settings, fs, rows) && DescribesCaches(caches, options.settings, fs)
                    && SectionsAre(tree, options.categories, CpuInfoCollector.CpuRecord(cpu), isa, caches))
              && HonestSections(tree)
              && (HonestOthers(options.categories, others) ==> HonestTree(tree))
  {
    hide CpuInfoCollector.Describes, HonestTree, HonestRecord, TreeOf, Render, ParseText, IsaCollector.IsaOf,
         ReportTree, CollectedReport, CpuInfoCollector.CpuRecord, IsaCollector.IsaRecord,
         CacheCollector.CacheListRecord, CacheCollector.Firsts, HasCategory, HonestSections, Conforms, SectionsAre,
         CacheCollector.FirstCaches, SortedDirs;
    var settings := options.settings;
    var cpu := CpuInfoCollector.CollectCpu(fs, settings.procfsRoot, settings.sysfsRoot, host);
    var isa := IsaCollector.CollectIsa(fs, settings.procfsRoot, rows);
    var caches := CacheCollector.CollectCache(fs, settings.sysfsRoot);
    IsaCollector.IsaRecordIsHonest(fs, settings.procfsRoot, rows);
    CacheCollector.CachesAreHonest(fs, settings.sysfsRoot);
    CpuInfoCollector.CpuIsHonest(cpu, fs, settings.sysfsRoot, host, fs.read(JoinPath(settings.procfsRoot, "/cpuinfo")));
    var data := SectionData(CpuInfoCollector.CpuRecord(cpu), IsaCollector.IsaRecord(rows, isa),
                            CacheCollector.CacheListRecord(caches), others);
    var probe: Probe := (_, c) => data(c);
    var report := CollectReport(options, probe, blank);
    s := ReportToJson(report);
    CollectedTree(options, probe, blank, data);
    assert DescribesCpu(cpu, settings, fs, host);
    SectionsAreHonest(LABELS, options.categories, data);
    SectionsFound(options.categories, CpuInfoCollector.CpuRecord(cpu), IsaCollector.IsaRecord(rows, isa),
                  CacheCollector.CacheListRecord(caches), others);
    TreeOfConforms(options.categories, data);
    assert DescribesIsa(IsaCollector.IsaRecord(rows, isa), settings, fs, rows);
    assert DescribesCaches(CacheCollector.CacheListRecord(caches), settings, fs);
    if HonestOthers(options.categories, others) {
      ReportIsHonest(LABELS, options.categories, data);
    }
  }
}
