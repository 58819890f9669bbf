/**
 * The research-product record schema (model version 2024-01) and the
 * validation pydantic performs when a decoded JSON document is parsed into
 * a `ResearchProduct`.
 */
module Schema {
  import opened Wrappers
  import opened PyValues

  /** The declared type of a field, with the `Optional[...]` wrapper taken off. */
  datatype Shape =
    | Text              // str
    | Integer           // int
    | TextList          // List[str]
    | NullableTextList  // List[Union[str, None]]
    | Object            // a sub-model
    | ObjectList        // List[sub-model]

  datatype FieldDecl = FieldDecl(name: string, required: bool, shape: Shape)

  /** The fields of `ResearchProduct`, in declaration order. */
  const ResearchProduct: seq<FieldDecl> := [
    FieldDecl("affiliation", false, ObjectList),
    FieldDecl("author", false, ObjectList),
    FieldDecl("bestaccessright", false, Object),
    FieldDecl("codeRepositoryUrl", false, Text),
    FieldDecl("collectedfrom", false, ObjectList),
    FieldDecl("contactgroup", false, TextList),
    FieldDecl("contactperson", false, TextList),
    FieldDecl("container", false, Object),
    FieldDecl("context", false, ObjectList),
    FieldDecl("contributor", false, TextList),
    FieldDecl("country", false, ObjectList),
    FieldDecl("coverage", false, TextList),
    FieldDecl("dateofcollection", false, Text),
    FieldDecl("description", false, TextList),
    FieldDecl("documentationUrl", false, TextList),
    FieldDecl("embargoenddate", false, Text),
    FieldDecl("eoscif", false, ObjectList),
    FieldDecl("format", false, TextList),
    FieldDecl("fulltext", false, TextList),
    FieldDecl("geolocation", false, ObjectList),
    FieldDecl("id", true, Text),
    FieldDecl("indicator", false, Object),
    FieldDecl("instance", false, ObjectList),
    FieldDecl("keywords", false, TextList),
    FieldDecl("language", false, Object),
    FieldDecl("lastupdatetimestamp", false, Integer),
    FieldDecl("maintitle", false, Text),
    FieldDecl("originalid", false, TextList),
    FieldDecl("pid", false, ObjectList),
    FieldDecl("programminglanguage", false, Text),
    FieldDecl("projects", false, ObjectList),
    FieldDecl("publicationdate", false, Text),
    FieldDecl("publisher", false, Text),
    FieldDecl("relations", false, ObjectList),
    FieldDecl("size", false, Text),
    FieldDecl("source", false, NullableTextList),
    FieldDecl("subject", false, Object),
    FieldDecl("subtitle", false, Text),
    FieldDecl("tool", false, TextList),
    FieldDecl("type", false, Text),
    FieldDecl("version", false, Text)
  ]

  function Names(schema: seq<FieldDecl>): (ns: seq<string>)
    ensures |ns| == |schema|
    ensures forall i :: 0 <= i < |schema| ==> ns[i] == schema[i].name
  {
    seq(|schema|, i requires 0 <= i < |schema| => schema[i].name)
  }

  /** The declaration of the field called `name`, if the schema has one. */
  function DeclOf(schema: seq<FieldDecl>, name: string): (r: Option<FieldDecl>)
    ensures r.Some? ==> r.value in schema && r.value.name == name
    ensures r.None? ==> name !in Names(schema)
  {
    if schema == [] then None
    else if schema[0].name == name then Some(schema[0])
    else DeclOf(schema[1..], name)
  }

  /** A validated, non-null value of the given shape. */
  predicate HasShape(shape: Shape, v: Value) {
    match shape
    case Text => v.Str?
    case Integer => v.Int?
    case TextList => v.List? && forall i :: 0 <= i < |v.items| ==> v.items[i].Str?
    case NullableTextList =>
      v.List? && forall i :: 0 <= i < |v.items| ==> v.items[i].Str? || v.items[i].Null?
    case Object => v.Model?
    case ObjectList => v.List? && forall i :: 0 <= i < |v.items| ==> v.items[i].Model?
  }

  /**
   * A JSON object met where a sub-model is declared becomes a model carrying
   * the keys it has, and so does every object nested inside it.
   */
  function AsModel(v: Value): (r: Value)
    ensures v.Dict? ==> r.Model? && Keys(r.fields) == Keys(v.entries)
    ensures v.List? ==> r.List? && |r.items| == |v.items|
    ensures v.List? ==> forall i :: 0 <= i < |v.items| ==> v.items[i].Dict? ==> r.items[i].Model?
    ensures !v.Dict? && !v.List? ==> r == v
    decreases v
  {
    match v
    case Dict(es) => Model(AsModelEntries(es))
    case List(xs) => List(seq(|xs|, i requires 0 <= i < |xs| => AsModel(xs[i])))
    case _ => v
  }

  function AsModelEntries(es: seq<Entry>): (r: seq<Entry>)
    ensures |r| == |es| && Keys(r) == Keys(es)
    decreases es
  {
    if es == [] then []
    else
      var tail := AsModelEntries(es[1..]);
      KeysCons(Entry(es[0].key, AsModel(es[0].val)), tail);
      KeysCons(es[0], es[1..]);
      assert es == [es[0]] + es[1..];
      [Entry(es[0].key, AsModel(es[0].val))] + tail
  }

  /** Validation of one non-null field value against its declared shape. */
  function Conform(shape: Shape, x: Value): (r: Option<Value>)
    ensures r.Some? ==> HasShape(shape, r.value)
  {
    match shape
    case Text => if x.Str? then Some(x) else None
    case Integer => if x.Int? then Some(x) else None
    case TextList =>
      if x.List? && forall i :: 0 <= i < |x.items| ==> x.items[i].Str? then Some(x) else None
    case NullableTextList =>
      if x.List? && forall i :: 0 <= i < |x.items| ==> x.items[i].Str? || x.items[i].Null?
      then Some(x) else None
    case Object => if x.Dict? then Some(AsModel(x)) else None
    case ObjectList =>
      if x.List? && forall i :: 0 <= i < |x.items| ==> x.items[i].Dict? then Some(AsModel(x)) else None
  }

  /** The value a document gives for a field; an absent key reads as None. */
  function Raw(doc: seq<Entry>, name: string): Value {
    Get(doc, name).GetOr(Null)
  }

  /** Validation of one field: None for a required field that is null or absent. */
  function ValidateField(d: FieldDecl, doc: seq<Entry>): (r: Option<Value>)
    ensures r.Some? ==> (r.value == Null && !d.required) || HasShape(d.shape, r.value)
  {
    var raw := Raw(doc, d.name);
    if raw == Null then (if d.required then None else Some(Null))
    else Conform(d.shape, raw)
  }

  /** The fields of the model built from `doc`, one per declaration, in order. */
  function ValidateFields(schema: seq<FieldDecl>, doc: seq<Entry>): (r: Option<seq<Entry>>)
    ensures r.Some? ==> Keys(r.value) == Names(schema)
    ensures r.Some? ==> forall i :: 0 <= i < |schema| ==>
      ValidateField(schema[i], doc) == Some(r.value[i].val)
  {
    if schema == [] then Some([])
    else
      match ValidateField(schema[0], doc)
      case None => None
      case Some(v) =>
        match ValidateFields(schema[1..], doc)
        case None => None
        case Some(rest) =>
          KeysCons(Entry(schema[0].name, v), rest);
          assert Names(schema) == [schema[0].name] + Names(schema[1..]);
          Some([Entry(schema[0].name, v)] + rest)
  }

  /** `model.parse_obj(doc)`: None when pydantic raises a validation error. */
  function Validate(schema: seq<FieldDecl>, doc: Value): (r: Option<Value>)
    ensures r.Some? ==> r.value.Model? && Keys(r.value.fields) == Names(schema)
    ensures r.Some? ==> forall i :: 0 <= i < |schema| ==>
      var v := r.value.fields[i].val;
      (v == Null && !schema[i].required) || HasShape(schema[i].shape, v)
  {
    if !doc.Dict? then None
    else
      match ValidateFields(schema, doc.entries)
      case None => None
      case Some(fs) => Some(Model(fs))
  }

  /** A document that lacks a required field, or holds null there, is rejected. */
  lemma {:induction false} MissingRequiredFails(schema: seq<FieldDecl>, doc: seq<Entry>, i: nat)
    requires i < |schema| && schema[i].required && Raw(doc, schema[i].name) == Null
    ensures ValidateFields(schema, doc) == None
  {
    if i > 0 {
      MissingRequiredFails(schema[1..], doc, i - 1);
    }
  }

  /**
   * A document carrying a string for every required text field and no key
   * for any other field validates, with every other field None.
   */
  lemma {:induction false} OnlyRequiredPresent(schema: seq<FieldDecl>, doc: seq<Entry>)
    requires forall i :: 0 <= i < |schema| ==>
      if schema[i].required then schema[i].shape == Text && Raw(doc, schema[i].name).Str?
      else Raw(doc, schema[i].name) == Null
    ensures ValidateFields(schema, doc).Some?
    ensures forall i :: 0 <= i < |schema| ==>
      ValidateFields(schema, doc).value[i].val == (if schema[i].required then Raw(doc, schema[i].name) else Null)
  {
    if schema != [] {
      OnlyRequiredPresent(schema[1..], doc);
    }
  }

  /** In `ResearchProduct`, `id` is the one required field. */
  lemma OnlyIdRequired()
    ensures ResearchProduct[20] == FieldDecl("id", true, Text)
    ensures forall i :: 0 <= i < |ResearchProduct| ==> (ResearchProduct[i].required <==> i == 20)
    ensures forall i :: 0 <= i < |ResearchProduct| ==>
      (ResearchProduct[i].required <==> ResearchProduct[i].name == "id")
  {
  }

  /** A record without an `id` (absent or null) fails validation. */
  lemma MissingIdFails(doc: Value)
    requires doc.Dict? && Raw(doc.entries, "id") == Null
    ensures Validate(ResearchProduct, doc) == None
  {
    OnlyIdRequired();
    MissingRequiredFails(ResearchProduct, doc.entries, 20);
  }

  /**
   * When the text field k is the only required field, the document holding
   * just that field validates, with every other field None.
   */
  lemma SoleRequiredField(schema: seq<FieldDecl>, k: nat, s: string)
    requires k < |schema| && schema[k].required && schema[k].shape == Text
    requires forall i :: 0 <= i < |schema| && i != k ==> !schema[i].required && schema[i].name != schema[k].name
    ensures var r := Validate(schema, Dict([Entry(schema[k].name, Str(s))]));
      r.Some? && forall i :: 0 <= i < |schema| ==>
        r.value.fields[i] == Entry(schema[i].name, if i == k then Str(s) else Null)
  {
    var doc := [Entry(schema[k].name, Str(s))];
    assert forall n :: Raw(doc, n) == if n == schema[k].name then Str(s) else Null;
    OnlyRequiredPresent(schema, doc);
    var fs := ValidateFields(schema, doc).value;
    forall i | 0 <= i < |schema|
      ensures fs[i] == Entry(schema[i].name, if i == k then Str(s) else Null)
    {
      KeysAt(fs, i);
    }
  }

  /** `{"id": s}` is a valid record whose every other field is None. */
  lemma IdOnlyDocumentValidates(s: string)
    ensures var r := Validate(ResearchProduct, Dict([Entry("id", Str(s))]));
      r.Some? && forall i :: 0 <= i < |ResearchProduct| ==>
        r.value.fields[i] == Entry(ResearchProduct[i].name, if i == 20 then Str(s) else Null)
  {
    OnlyIdRequired();
    SoleRequiredField(ResearchProduct, 20, s);
  }

  /** `ResearchProduct[i]` is the optional field `name` of the given shape. */
  predicate OptionalAt(i: nat, name: string, shape: Shape) {
    i < |ResearchProduct| && ResearchProduct[i] == FieldDecl(name, false, shape)
  }

  /** The single-object fields. */
  lemma ObjectFields()
    ensures forall i :: 0 <= i < |ResearchProduct| ==>
      (ResearchProduct[i].shape == Object <==> i in {2, 7, 21, 24, 36})
  {
  }

  /** The names of the single-object fields. */
  lemma ObjectFieldNames()
    ensures OptionalAt(2, "bestaccessright", Object) && OptionalAt(7, "container", Object)
    ensures OptionalAt(21, "indicator", Object) && OptionalAt(24, "language", Object)
    ensures OptionalAt(36, "subject", Object)
  {
  }

  /** The list-of-objects fields. */
  lemma ObjectListFields()
    ensures forall i :: 0 <= i < |ResearchProduct| ==>
      (ResearchProduct[i].shape == ObjectList <==> i in {0, 1, 4, 8, 10, 16, 19, 22, 28, 30, 33})
  {
  }

  /** The names of the list-of-objects fields from `affiliation` to `country`. */
  lemma ObjectListNamesAtoC()
    ensures OptionalAt(0, "affiliation", ObjectList) && OptionalAt(1, "author", ObjectList)
    ensures OptionalAt(4, "collectedfrom", ObjectList) && OptionalAt(8, "context", ObjectList)
    ensures OptionalAt(10, "country", ObjectList)
  {
  }

  /** The names of the list-of-objects fields from `eoscif` to `relations`. */
  lemma ObjectListNamesEtoR()
    ensures OptionalAt(16, "eoscif", ObjectList) && OptionalAt(19, "geolocation", ObjectList)
    ensures OptionalAt(22, "instance", ObjectList) && OptionalAt(28, "pid", ObjectList)
    ensures OptionalAt(30, "projects", ObjectList) && OptionalAt(33, "relations", ObjectList)
  {
  }

  /** The one integer field and the one list of nullable strings. */
  lemma ScalarFields()
    ensures forall i :: 0 <= i < |ResearchProduct| ==> (ResearchProduct[i].shape == Integer <==> i == 25)
    ensures forall i :: 0 <= i < |ResearchProduct| ==> (ResearchProduct[i].shape == NullableTextList <==> i == 35)
  {
  }

  /** `lastupdatetimestamp` and `source` are those two fields; `publisher` and `type` are optional strings. */
  lemma ScalarFieldNames()
    ensures OptionalAt(25, "lastupdatetimestamp", Integer)
    ensures OptionalAt(35, "source", NullableTextList)
    ensures OptionalAt(32, "publisher", Text) && OptionalAt(39, "type", Text)
  {
  }
}
