/** The printer of src/json.cc: the escaper, the comma-tracking object builder, fields,
    arrays and ordered tables of members. */
module JsonPrinter {
  import opened Text
  import opened Numerals
  import opened Fields
  import opened JsonGrammar
  import opened JsonText

  /** `std::setfill('0') << std::setw(width)`. */
  function Padded(s: string, width: nat): string
    decreases width - |s|
  {
    if |s| >= width then s else Padded("0" + s, width)
  }

  method EscapeJson(input: string) returns (out: string)
    ensures out == Escaped(input)
  {
    out := "";
    assert input[0..] == input;
    for i := 0 to |input|
      invariant out + Escaped(input[i..]) == Escaped(input)
    {
      ghost var before := out;
      var c := input[i];
      if c == '"' {
        out := out + "\\\"";
      } else if c == '\\' {
        out := out + "\\\\";
      } else if c == 8 as char {
        out := out + "\\b";
      } else if c == 12 as char {
        out := out + "\\f";
      } else if c == '\n' {
        out := out + "\\n";
      } else if c == '\r' {
        out := out + "\\r";
      } else if c == '\t' {
        out := out + "\\t";
      } else if c as int < 0x20 {
        ControlHex(c as nat);
        out := out + "\\u" + Padded(Numeral(c as nat, 16), 4);
        assert out == before + ("\\u" + Padded(Numeral(c as nat, 16), 4));
      } else {
        out := out + [c];
      }
      assert out == before + EscapedChar(c);
      Assoc(before, EscapedChar(c), Escaped(input[i + 1..]));
    }
    assert out + "" == out;
  }

  lemma ControlHex(n: nat)
    requires n < 0x20
    ensures Padded(Numeral(n, 16), 4) == "00" + [HexChar(n / 16), HexChar(n % 16)]
  {
    if n < 16 {
      var s := [HexChar(n)];
      assert Padded(s, 4) == Padded("0" + s, 4) == Padded("0" + ("0" + s), 4) == Padded("0" + ("0" + ("0" + s)), 4);
    } else {
      var s := [HexChar(n / 16), HexChar(n % 16)];
      assert Numeral(n / 16, 16) == [HexChar(n / 16)];
      assert Numeral(n, 16) == s;
      assert Padded(s, 4) == Padded("0" + s, 4) == Padded("0" + ("0" + s), 4);
    }
  }

  method JsonString(value: string) returns (s: string)
    ensures s == Quoted(value)
  {
    var body := EscapeJson(value);
    s := "\"" + body + "\"";
  }

  class JsonObject {
    var first: bool
    var out: string
    ghost var members: seq<string>

    /** The text so far is the members added so far, joined by single commas. */
    ghost predicate Valid()
      reads this
    {
      && first == (members == [])
      && out == Join(members, ",")
    }

    constructor ()
      ensures Valid() && members == []
    {
      first, out, members := true, "", [];
    }

    method AddComma()
      requires Valid()
      modifies this
      ensures members == old(members) && !first
      ensures out == if members == [] then "" else Join(members, ",") + ","
    {
      if !first {
        out := out + ",";
      } else {
        first := false;
      }
    }

    /** Every `add_` method ends here: after the comma, one member. */
    method Append(key: string, raw: string)
      requires Valid()
      modifies this
      ensures Valid() && members == old(members) + [MemberText(key, raw)]
    {
      AddComma();
      var name := JsonString(key);
      ghost var before := out;
      out := out + name + ":" + raw;
      assert out == before + MemberText(key, raw);
      JoinSnoc(members, ",", MemberText(key, raw));
      members := members + [MemberText(key, raw)];
    }

    method AddRaw(key: string, raw: string)
      requires Valid()
      modifies this
      ensures Valid() && members == old(members) + [MemberText(key, raw)]
    {
      Append(key, raw);
    }

    method AddString(key: string, value: string)
      requires Valid()
      modifies this
      ensures Valid() && members == old(members) + [MemberText(key, Render(String(value)))]
    {
      var quoted := JsonString(value);
      AddRaw(key, quoted);
    }

    method AddU64(key: string, value: u64)
      requires Valid()
      modifies this
      ensures Valid() && members == old(members) + [MemberText(key, Render(Number(value, 0)))]
    {
      Append(key, Decimal(value));
      assert Decimal(value) + "" == Decimal(value);
    }

    method AddI64(key: string, value: i64)
      requires Valid()
      modifies this
      ensures Valid() && members == old(members) + [MemberText(key, Render(Number(value, 0)))]
    {
      Append(key, SignedDecimal(value));
      assert SignedDecimal(value) + "" == SignedDecimal(value);
    }

    method AddBool(key: string, value: bool)
      requires Valid()
      modifies this
      ensures Valid() && members == old(members) + [MemberText(key, Render(Bool(value)))]
    {
      AddRaw(key, if value then "true" else "false");
    }

    method Str() returns (s: string)
      requires Valid()
      ensures s == "{" + Join(members, ",") + "}"
    {
      s := "{" + out + "}";
    }
  }

  // Fields.

  /** The envelope of a field: "value" is there exactly when "valid" is true. */
  function Envelope<T>(f: Field<T>, value: Json): Json {
    Object([Pair("valid", Bool(f.valid)), Pair("status", String(StatusCode(f.status)))]
           + if f.valid then [Pair("value", value)] else [])
  }

  lemma EnvelopeText<T>(f: Field<T>, value: Json)
    ensures Render(Envelope(f, value)) ==
            "{" + Join([MemberText("valid", Render(Bool(f.valid))),
                        MemberText("status", Render(String(StatusCode(f.status))))]
                       + (if f.valid then [MemberText("value", Render(value))] else []), ",") + "}"
  {
    var a, b, c := Pair("valid", Bool(f.valid)), Pair("status", String(StatusCode(f.status))), Pair("value", value);
    RenderOne(a);
    RenderOne(b);
    RenderOne(c);
    RenderMembersAppend([a], [b]);
    RenderMembersAppend([a, b], [c]);
    assert [a] + [b] == [a, b] && [a, b] + [] == [a, b];
    var texts := [MemberText(a.name, Render(a.value)), MemberText(b.name, Render(b.value))];
    assert RenderMembers([a, b]) == texts && texts + [] == texts;
  }

  lemma {:induction false} RenderMembersAppend(a: seq<Pair>, b: seq<Pair>)
    ensures RenderMembers(a + b) == RenderMembers(a) + RenderMembers(b)
  {
    if a == [] {
      assert a + b == b;
    } else {
      assert (a + b)[1..] == a[1..] + b;
      RenderMembersAppend(a[1..], b);
    }
  }

  lemma RenderOne(m: Pair)
    ensures RenderMembers([m]) == [MemberText(m.name, Render(m.value))]
  {
    assert [m][1..] == [];
  }

  /** The two members that every field starts with. */
  method FieldHead(valid: bool, status: Status) returns (obj: JsonObject)
    ensures fresh(obj) && obj.Valid()
    ensures obj.members == [MemberText("valid", Render(Bool(valid))),
                            MemberText("status", Render(String(StatusCode(status))))]
  {
    obj := new JsonObject();
    obj.AddBool("valid", valid);
    obj.AddString("status", StatusCode(status));
  }

  method StringFieldToJson(f: StringField) returns (s: string)
    ensures s == Render(Envelope(f, String(f.content)))
  {
    var obj := FieldHead(f.valid, f.status);
    if f.valid {
      obj.AddString("value", f.content);
    }
    s := obj.Str();
    EnvelopeText(f, String(f.content));
  }

  method BoolFieldToJson(f: BoolField) returns (s: string)
    ensures s == Render(Envelope(f, Bool(f.content)))
  {
    var obj := FieldHead(f.valid, f.status);
    if f.valid {
      obj.AddBool("value", f.content);
    }
    s := obj.Str();
    EnvelopeText(f, Bool(f.content));
  }

  method U32FieldToJson(f: U32Field) returns (s: string)
    ensures s == Render(Envelope(f, Number(f.content, 0)))
  {
    var obj := FieldHead(f.valid, f.status);
    if f.valid {
      obj.AddU64("value", f.content);
    }
    s := obj.Str();
    EnvelopeText(f, Number(f.content, 0));
  }

  method U64FieldToJson(f: U64Field) returns (s: string)
    ensures s == Render(Envelope(f, Number(f.content, 0)))
  {
    var obj := FieldHead(f.valid, f.status);
    if f.valid {
      obj.AddU64("value", f.content);
    }
    s := obj.Str();
    EnvelopeText(f, Number(f.content, 0));
  }

  method I64FieldToJson(f: I64Field) returns (s: string)
    ensures s == Render(Envelope(f, Number(f.content, 0)))
  {
    var obj := FieldHead(f.valid, f.status);
    if f.valid {
      obj.AddI64("value", f.content);
    }
    s := obj.Str();
    EnvelopeText(f, Number(f.content, 0));
  }

  // Ordered tables.

  /** A category's struct is printed as an ordered table: fields, plain strings, arrays of
      component structs and one nested struct. */
  datatype Record = Record(entries: seq<Entry>)

  datatype Entry = Entry(key: string, cell: Cell)

  datatype Cell =
    | StringCell(stringField: StringField)
    | BoolCell(boolField: BoolField)
    | U32Cell(u32Field: U32Field)
    | U64Cell(u64Field: U64Field)
    | I64Cell(i64Field: I64Field)
    | TextCell(text: string)
    | RowsCell(rows: seq<Record>)
    | GroupCell(group: Record)

  /** The intended tree of a table: its entries, in order. */
  function Tree(r: Record): Json {
    Object(EntryPairs(r.entries))
  }

  function EntryPairs(entries: seq<Entry>): (r: seq<Pair>)
    ensures |r| == |entries|
    ensures forall i :: 0 <= i < |entries| ==> r[i] == Pair(entries[i].key, CellTree(entries[i].cell))
  {
    if entries == [] then []
    else [Pair(entries[0].key, CellTree(entries[0].cell))] + EntryPairs(entries[1..])
  }

  function CellTree(cell: Cell): Json {
    match cell
    case StringCell(f) => Envelope(f, String(f.content))
    case BoolCell(f) => Envelope(f, Bool(f.content))
    case U32Cell(f) => Envelope(f, Number(f.content, 0))
    case U64Cell(f) => Envelope(f, Number(f.content, 0))
    case I64Cell(f) => Envelope(f, Number(f.content, 0))
    case TextCell(t) => String(t)
    case RowsCell(rows) => Array(Trees(rows))
    case GroupCell(group) => Tree(group)
  }

  function Trees(rows: seq<Record>): (r: seq<Json>)
    ensures |r| == |rows| && forall i :: 0 <= i < |rows| ==> r[i] == Tree(rows[i])
  {
    if rows == [] then [] else [Tree(rows[0])] + Trees(rows[1..])
  }

  // What a reader finds in a tree.

  ghost predicate Has(j: Json, name: string, value: Json) {
    j.Object? && Pair(name, value) in j.members
  }

  /** The members of a field object: always the flag and the status, and the value exactly
      when the flag is true. */
  ghost predicate ReadsAs(j: Json, valid: bool, status: Status, value: Json) {
    && j.Object? && |j.members| == (if valid then 3 else 2)
    && Has(j, "valid", Bool(valid)) && Has(j, "status", String(StatusCode(status)))
    && (valid ==> Has(j, "value", value))
  }

  /** A reader of a printed field gets its flag, its status and its content. */
  lemma CellReads(cell: Cell)
    ensures forall f :: cell == StringCell(f) ==> ReadsAs(CellTree(cell), f.valid, f.status, String(f.content))
    ensures forall f :: cell == BoolCell(f) ==> ReadsAs(CellTree(cell), f.valid, f.status, Bool(f.content))
    ensures forall f :: cell == U32Cell(f) ==> ReadsAs(CellTree(cell), f.valid, f.status, Number(f.content, 0))
    ensures forall f :: cell == U64Cell(f) ==> ReadsAs(CellTree(cell), f.valid, f.status, Number(f.content, 0))
    ensures forall f :: cell == I64Cell(f) ==> ReadsAs(CellTree(cell), f.valid, f.status, Number(f.content, 0))
    ensures forall text :: cell == TextCell(text) ==> CellTree(cell) == String(text)
  {
    hide ReadsAs, Envelope;
    match cell
    case StringCell(f) => EnvelopeReads(f, String(f.content));
    case BoolCell(f) => EnvelopeReads(f, Bool(f.content));
    case U32Cell(f) => EnvelopeReads(f, Number(f.content, 0));
    case U64Cell(f) => EnvelopeReads(f, Number(f.content, 0));
    case I64Cell(f) => EnvelopeReads(f, Number(f.content, 0));
    case _ =>
  }

  lemma EnvelopeReads<T>(f: Field<T>, value: Json)
    ensures ReadsAs(Envelope(f, value), f.valid, f.status, value)
  {
    var members := Envelope(f, value).members;
    assert members[0] in members && members[1] in members;
    assert f.valid ==> members[2] in members;
  }

  /** A reader of a printed struct finds each entry under its key, in order, and each row of
      an array in its place. */
  lemma RecordReads(r: Record)
    ensures Tree(r).Object? && |Tree(r).members| == |r.entries|
    ensures forall i :: 0 <= i < |r.entries| ==>
              Tree(r).members[i].name == r.entries[i].key && Tree(r).members[i].value == CellTree(r.entries[i].cell)
    ensures forall i, rows | 0 <= i < |r.entries| && r.entries[i].cell == RowsCell(rows) ::
              var value := Tree(r).members[i].value;
              value.Array? && |value.items| == |rows| && forall k :: 0 <= k < |rows| ==> value.items[k] == Tree(rows[k])
  {}

  /** Under this key a reader finds this field. */
  ghost predicate Shown<T>(j: Json, key: string, f: Field<T>, value: Json) {
    j.Object? && exists m <- j.members :: m.name == key && ReadsAs(m.value, f.valid, f.status, value)
  }

  lemma EntryShown(r: Record, e: Entry)
    requires e in r.entries
    ensures forall f :: e.cell == StringCell(f) ==> Shown(Tree(r), e.key, f, String(f.content))
    ensures forall f :: e.cell == BoolCell(f) ==> Shown(Tree(r), e.key, f, Bool(f.content))
    ensures forall f :: e.cell == U32Cell(f) ==> Shown(Tree(r), e.key, f, Number(f.content, 0))
    ensures forall f :: e.cell == U64Cell(f) ==> Shown(Tree(r), e.key, f, Number(f.content, 0))
    ensures forall f :: e.cell == I64Cell(f) ==> Shown(Tree(r), e.key, f, Number(f.content, 0))
    ensures forall text :: e.cell == TextCell(text) ==> Has(Tree(r), e.key, String(text))
    ensures Has(Tree(r), e.key, CellTree(e.cell))
  {
    hide ReadsAs, CellTree;
    CellReads(e.cell);
    RecordReads(r);
    var i :| 0 <= i < |r.entries| && r.entries[i] == e;
    assert Tree(r).members[i] in Tree(r).members;
  }

  lemma {:induction false} EntryPairsSnoc(entries: seq<Entry>, e: Entry)
    ensures EntryPairs(entries + [e]) == EntryPairs(entries) + [Pair(e.key, CellTree(e.cell))]
  {
    if entries == [] {
      assert [e][1..] == [];
    } else {
      assert (entries + [e])[1..] == entries[1..] + [e];
      EntryPairsSnoc(entries[1..], e);
    }
  }

  lemma {:induction false} TreesTextSnoc(rows: seq<Record>, row: Record)
    ensures RenderItems(Trees(rows + [row])) == RenderItems(Trees(rows)) + [Render(Tree(row))]
  {
    if rows == [] {
      assert [row][1..] == [];
    } else {
      assert (rows + [row])[1..] == rows[1..] + [row];
      TreesTextSnoc(rows[1..], row);
    }
  }

  /** The overloads of `add_field`, `add_string` and the array and nested members. */
  method AddCell(obj: JsonObject, key: string, cell: Cell)
    requires obj.Valid()
    modifies obj
    ensures obj.Valid() && obj.members == old(obj.members) + [MemberText(key, Render(CellTree(cell)))]
    decreases cell
  {
    var raw;
    match cell {
      case StringCell(f) => raw := StringFieldToJson(f);
      case BoolCell(f) => raw := BoolFieldToJson(f);
      case U32Cell(f) => raw := U32FieldToJson(f);
      case U64Cell(f) => raw := U64FieldToJson(f);
      case I64Cell(f) => raw := I64FieldToJson(f);
      case RowsCell(rows) => raw := VectorToJson(rows);
      case GroupCell(group) => raw := RecordToJson(group);
      case TextCell(text) =>
        obj.AddString(key, text);
        return;
    }
    obj.AddRaw(key, raw);
  }

  /** One struct: a fresh object, its members in order, its text. */
  method RecordToJson(r: Record) returns (s: string)
    ensures s == Render(Tree(r))
    decreases r
  {
    hide CellTree, MemberText, JsonObject.Valid, RenderMembers, EntryPairs, Render, Tree;
    RecordText(r);
    var obj := new JsonObject();
    for i := 0 to |r.entries|
      invariant obj.Valid() && fresh(obj)
      invariant obj.members == RenderMembers(EntryPairs(r.entries[..i]))
    {
      var e := r.entries[i];
      AddCell(obj, e.key, e.cell);
      EntryPairsSnoc(r.entries[..i], e);
      RenderMembersAppend(EntryPairs(r.entries[..i]), [Pair(e.key, CellTree(e.cell))]);
      RenderOne(Pair(e.key, CellTree(e.cell)));
      assert r.entries[..i + 1] == r.entries[..i] + [e];
    }
    assert r.entries[..|r.entries|] == r.entries;
    s := obj.Str();
  }

  lemma RecordText(r: Record)
    ensures Render(Tree(r)) == "{" + Join(RenderMembers(EntryPairs(r.entries)), ",") + "}"
    ensures RenderMembers(EntryPairs(r.entries[..0])) == []
  {}

  lemma ArrayText(values: seq<Record>)
    ensures Render(Array(Trees(values))) == "[" + Join(RenderItems(Trees(values)), ",") + "]"
    ensures RenderItems(Trees(values[..0])) == [] && Join([], ",") == ""
  {}

  /** `vector_to_json`: brackets around the elements, a comma before all but the first. */
  method VectorToJson(values: seq<Record>) returns (out: string)
    ensures out == Render(Array(Trees(values)))
    decreases values
  {
    hide Join, Trees, RenderItems, Render;
    ArrayText(values);
    out := "[";
    var first := true;
    for i := 0 to |values|
      invariant first <==> i == 0
      invariant out == "[" + Join(RenderItems(Trees(values[..i])), ",")
    {
      ghost var done := RenderItems(Trees(values[..i]));
      if !first {
        out := out + ",";
      }
      var element := RecordToJson(values[i]);
      out := out + element;
      first := false;
      JoinSnoc(done, ",", element);
      TreesTextSnoc(values[..i], values[i]);
      assert values[..i + 1] == values[..i] + [values[i]];
    }
    assert values[..|values|] == values;
    out := out + "]";
  }

  // Fields that say what they are.

  /** Every field in the table, at any depth, is valid exactly when its status is `Ok`. */
  predicate HonestRecord(r: Record) {
    forall e <- r.entries :: HonestCell(e.cell)
  }

  predicate HonestCell(cell: Cell) {
    match cell
    case StringCell(f) => f.Honest()
    case BoolCell(f) => f.Honest()
    case U32Cell(f) => f.Honest()
    case U64Cell(f) => f.Honest()
    case I64Cell(f) => f.Honest()
    case TextCell(_) => true
    case RowsCell(rows) => forall row <- rows :: HonestRecord(row)
    case GroupCell(group) => HonestRecord(group)
  }

  lemma LeafIsHonest()
    ensures forall f: StringField :: HonestCell(StringCell(f)) <==> f.Honest()
    ensures forall f: BoolField :: HonestCell(BoolCell(f)) <==> f.Honest()
    ensures forall f: U32Field :: HonestCell(U32Cell(f)) <==> f.Honest()
    ensures forall f: U64Field :: HonestCell(U64Cell(f)) <==> f.Honest()
    ensures forall s: string :: HonestCell(TextCell(s))
  {}

  /** In a printed tree: an object with a "valid" flag claims "ok" exactly when the flag
      is true, and carries "value" exactly then. */
  predicate HonestTree(j: Json) {
    match j
    case Object(members) => HonestEnvelope(members) && forall m <- members :: HonestTree(m.value)
    case Array(items) => forall item <- items :: HonestTree(item)
    case _ => true
  }

  predicate HonestEnvelope(members: seq<Pair>) {
    forall m <- members | m.name == "valid" && m.value.Bool? ::
      && (m.value.b <==> Pair("status", String("ok")) in members)
      && (m.value.b <==> exists v <- members :: v.name == "value")
  }

  lemma EnvelopeHonest<T>(f: Field<T>, value: Json)
    requires !value.Object? && !value.Array?
    ensures HonestTree(Envelope(f, value)) <==> f.Honest()
  {
    var members := Envelope(f, value).members;
    var a, b := Pair("valid", Bool(f.valid)), Pair("status", String(StatusCode(f.status)));
    assert members[0] == a && members[1] == b;
    assert f.valid ==> members[2] == Pair("value", value);
    assert forall m <- members :: m == a || m == b || m == Pair("value", value);
    assert (exists v <- members :: v.name == "value") <==> f.valid;
    if StatusCode(f.status) == StatusCode(Ok) {
      StatusCodeInjective(f.status, Ok);
    }
    assert Pair("status", String("ok")) in members <==> f.status == Ok;
  }

  /** The printed tree of a table is honest exactly when the table is. */
  lemma {:induction false} TreeHonest(r: Record)
    ensures HonestTree(Tree(r)) <==> HonestRecord(r)
    decreases r
  {
    EntriesHonest(r.entries);
  }

  lemma {:induction false} EntriesHonest(entries: seq<Entry>)
    ensures (forall m <- EntryPairs(entries) :: HonestTree(m.value)) <==> forall e <- entries :: HonestCell(e.cell)
    ensures forall m <- EntryPairs(entries) :: !m.value.Bool?
    decreases entries
  {
    if entries != [] {
      CellHonest(entries[0].cell);
      EntriesHonest(entries[1..]);
      assert entries == [entries[0]] + entries[1..];
    }
  }

  lemma {:induction false} RowsHonest(rows: seq<Record>)
    ensures (forall item <- Trees(rows) :: HonestTree(item)) <==> forall row <- rows :: HonestRecord(row)
    decreases rows
  {
    hide HonestTree, HonestRecord;
    if rows != [] {
      TreeHonest(rows[0]);
      RowsHonest(rows[1..]);
      assert rows == [rows[0]] + rows[1..];
    }
  }

  lemma {:induction false} CellHonest(cell: Cell)
    ensures HonestTree(CellTree(cell)) <==> HonestCell(cell)
    ensures !CellTree(cell).Bool?
    decreases cell
  {
    match cell
    case StringCell(f) => EnvelopeHonest(f, String(f.content));
    case BoolCell(f) => EnvelopeHonest(f, Bool(f.content));
    case U32Cell(f) => EnvelopeHonest(f, Number(f.content, 0));
    case U64Cell(f) => EnvelopeHonest(f, Number(f.content, 0));
    case I64Cell(f) => EnvelopeHonest(f, Number(f.content, 0));
    case TextCell(_) =>
    case RowsCell(rows) => RowsHonest(rows);
    case GroupCell(group) => TreeHonest(group);
  }
}
