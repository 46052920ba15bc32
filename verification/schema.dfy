/** The published schema of a report (schema/archspec-report-v1.schema.json), and the proof
    that every report conforms to it. */
module ReportSchema {
  import opened Text
  import opened Fields
  import opened Categories
  import opened JsonGrammar
  import opened JsonPrinter
  import opened Reports
  import opened Collection

  const CATEGORY_NAMES: set<string> := {
    "os", "cpu", "isa", "cache", "memory", "pci", "gpu", "perf",
    "block", "net", "thermal", "power", "virtualization", "platform"
  }

  const STATUSES: set<string> := {
    "ok", "unsupported", "perm_denied", "not_found", "parse_error",
    "invalid_arg", "redacted", "internal_error"
  }

  /** An object with exactly these properties. */
  ghost predicate HasOnly(j: Json, names: set<string>) {
    && j.Object?
    && |j.members| == |names|
    && (set m <- j.members :: m.name) == names
  }

  ghost predicate ProducerConforms(j: Json) {
    && HasOnly(j, {"name", "version"})
    && forall m <- j.members ::
         && (m.name == "name" ==> m.value == String("archspec-inspect"))
         && (m.name == "version" ==> m.value.String?)
  }

  ghost predicate CategoriesConform(j: Json) {
    j.Array? && Distinct(j.items) && forall item <- j.items :: item.String? && item.s in CATEGORY_NAMES
  }

  ghost predicate DataConforms(j: Json) {
    j.Object? && forall m <- j.members :: m.name in CATEGORY_NAMES && m.value.Object? && FieldsConform(m.value)
  }

  ghost predicate Conforms(j: Json) {
    && HasOnly(j, {"schema_version", "producer", "collected_categories", "data"})
    && forall m <- j.members ::
         && (m.name == "schema_version" ==> m.value == String("1.0.0"))
         && (m.name == "producer" ==> ProducerConforms(m.value))
         && (m.name == "collected_categories" ==> CategoriesConform(m.value))
         && (m.name == "data" ==> DataConforms(m.value))
  }

  /** An object with a boolean "valid" is a field: it has a status of the list, and a value,
      if any, that is a string, a number or a boolean. */
  ghost predicate IsField(members: seq<Pair>) {
    && (exists m <- members :: m.name == "status")
    && forall m <- members ::
         && m.name in {"valid", "status", "value"}
         && (m.name == "valid" ==> m.value.Bool?)
         && (m.name == "status" ==> m.value.String? && m.value.s in STATUSES)
         && (m.name == "value" ==> m.value.String? || m.value.Number? || m.value.Bool?)
  }

  /** Every field at any depth conforms. */
  ghost predicate FieldsConform(j: Json) {
    match j
    case Object(members) =>
      && ((exists m <- members :: m.name == "valid" && m.value.Bool?) ==> IsField(members))
      && forall m <- members :: FieldsConform(m.value)
    case Array(items) => forall item <- items :: FieldsConform(item)
    case _ => true
  }

  // Fields.

  lemma StatusListed(s: Status)
    ensures StatusCode(s) in STATUSES
  {}

  lemma EnvelopeConforms<T>(f: Field<T>, value: Json)
    requires value.String? || value.Number? || value.Bool?
    ensures FieldsConform(Envelope(f, value))
  {
    hide IsField;
    EnvelopeIsField(f, value);
    assert !value.Object? && !value.Array?;
  }

  lemma EnvelopeIsField<T>(f: Field<T>, value: Json)
    requires value.String? || value.Number? || value.Bool?
    ensures IsField(Envelope(f, value).members)
  {
    hide STATUSES, StatusCode;
    StatusListed(f.status);
    var members := Envelope(f, value).members;
    assert members[1].name == "status" && members[1] in members;
  }

  lemma {:induction false} TreeConforms(r: Record)
    ensures FieldsConform(Tree(r))
    decreases r
  {
    EntriesConform(r.entries);
  }

  lemma {:induction false} EntriesConform(entries: seq<Entry>)
    ensures forall m <- EntryPairs(entries) :: FieldsConform(m.value) && !m.value.Bool?
    decreases entries
  {
    hide FieldsConform;
    if entries != [] {
      CellConforms(entries[0].cell);
      EntriesConform(entries[1..]);
    }
  }

  lemma {:induction false} RowsConform(rows: seq<Record>)
    ensures forall item <- Trees(rows) :: FieldsConform(item)
    decreases rows
  {
    hide FieldsConform;
    if rows != [] {
      TreeConforms(rows[0]);
      RowsConform(rows[1..]);
    }
  }

  lemma {:induction false} CellConforms(cell: Cell)
    ensures FieldsConform(CellTree(cell)) && !CellTree(cell).Bool?
    decreases cell
  {
    match cell
    case StringCell(f) => EnvelopeConforms(f, String(f.content));
    case BoolCell(f) => EnvelopeConforms(f, Bool(f.content));
    case U32Cell(f) => EnvelopeConforms(f, Number(f.content, 0));
    case U64Cell(f) => EnvelopeConforms(f, Number(f.content, 0));
    case I64Cell(f) => EnvelopeConforms(f, Number(f.content, 0));
    case TextCell(_) =>
    case RowsCell(rows) => RowsConform(rows);
    case GroupCell(group) => TreeConforms(group);
  }

  // The report.

  lemma NameListed(c: Category)
    ensures Name(c) in CATEGORY_NAMES
  {}

  lemma NamesConform(cs: seq<Category>)
    requires Distinct(cs)
    ensures CategoriesConform(Array(NameTrees(cs)))
  {
    hide CATEGORY_NAMES, Name;
    NamesDistinct(cs);
    forall c: Category ensures Name(c) in CATEGORY_NAMES {
      NameListed(c);
    }
  }

  lemma SectionsConform(cs: seq<Category>, data: Category -> Record)
    ensures DataConforms(Object(DataPairs(cs, data)))
  {
    hide CATEGORY_NAMES, Name, FieldsConform;
    forall c: Category ensures Name(c) in CATEGORY_NAMES && FieldsConform(Tree(data(c))) {
      NameListed(c);
      TreeConforms(data(c));
    }
  }

  lemma ProducerIs()
    ensures ProducerConforms(ProducerTree(LABELS))
  {
    var j := ProducerTree(LABELS);
    assert j.members[0] in j.members && j.members[1] in j.members;
    assert (set m <- j.members :: m.name) == {"name", "version"};
  }

  lemma RootNames(j: Json, a: Json, b: Json, c: Json, d: Json)
    requires j == Object([Pair("schema_version", a), Pair("producer", b), Pair("collected_categories", c),
                          Pair("data", d)])
    ensures HasOnly(j, {"schema_version", "producer", "collected_categories", "data"})
    ensures forall m <- j.members ::
              && (m.name == "schema_version" ==> m.value == a) && (m.name == "producer" ==> m.value == b)
              && (m.name == "collected_categories" ==> m.value == c) && (m.name == "data" ==> m.value == d)
  {
    var members := j.members;
    assert |"schema_version"| == 14 && |"producer"| == 8 && |"collected_categories"| == 20 && |"data"| == 4;
    assert members[0] in members && members[1] in members && members[2] in members && members[3] in members;
    assert forall m <- members :: m in {members[0], members[1], members[2], members[3]};
  }

  lemma RootConforms(categories: Json, data: Json)
    requires CategoriesConform(categories) && DataConforms(data)
    ensures Conforms(RootTree(LABELS, categories, data))
  {
    hide CategoriesConform, DataConforms, ProducerConforms, ProducerTree, HasOnly;
    ProducerIs();
    RootNames(RootTree(LABELS, categories, data), String("1.0.0"), ProducerTree(LABELS), categories, data);
  }

  /** Every report conforms to its published schema. */
  lemma ReportConforms(report: Report)
    ensures Conforms(ReportTree(report))
  {
    hide Conforms, TreeOf;
    TreeOfConforms(report.categories, Sections(report.system));
  }

  lemma TreeOfConforms(mask: Mask, data: Category -> Record)
    ensures Conforms(TreeOf(LABELS, mask, data))
  {
    hide Conforms, CategoriesConform, DataConforms, RootTree, Selected, TABLE;
    var cs := Selected(mask, TABLE);
    TableDistinct();
    SelectedDistinct(mask, TABLE);
    NamesConform(cs);
    SectionsConform(cs, data);
    RootConforms(Array(NameTrees(cs)), Object(DataPairs(cs, data)));
  }

  /** A reader of the data finds each selected section under its name, and nothing under
      the names of the others. */
  lemma SectionsShown(l: Labels, mask: Mask, data: Category -> Record)
    ensures var members := TreeOf(l, mask, data).members;
            && |members| == 4 && members[3].name == l.dataKey && members[3].value.Object?
            && forall c: Category, value: Json ::
                 Has(members[3].value, Name(c), value) <==> HasCategory(mask, c) && value == Tree(data(c))
  {
    hide TABLE, Name, Tree, HasCategory;
    var cs := Selected(mask, TABLE);
    TableDistinct();
    var pairs := DataPairs(cs, data);
    forall c: Category, value: Json
      ensures Pair(Name(c), value) in pairs <==> c in cs && value == Tree(data(c))
    {
      if Pair(Name(c), value) in pairs {
        var i :| 0 <= i < |pairs| && pairs[i] == Pair(Name(c), value);
        NameInjective(cs[i], c);
      }
      if c in cs {
        var i :| 0 <= i < |cs| && cs[i] == c;
        assert pairs[i] == Pair(Name(c), Tree(data(c)));
      }
    }
  }
}
