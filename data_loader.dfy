/**
 * The pure parts of the dump loader: collection-name normalisation, reading
 * one line-delimited JSON file into validated records, and the conversion of
 * a record's field value into plain dicts, lists and scalars.
 */
module DataLoader {
  import opened Wrappers
  import opened PyValues
  import Schema

  /** The collection key a directory name stands for; unknown names pass through. */
  function NormalizeDirectoryName(name: string): (r: string)
    ensures r != "organization" && r != "otherresearchproduct"
    ensures r == name || name in {"organization", "otherresearchproduct"}
  {
    if name == "organization" then "organisation"
    else if name == "otherresearchproduct" then "other_rp"
    else name
  }

  /** The normalisation table: two renamings, everything else unchanged. */
  lemma NormalizeTable(name: string)
    ensures NormalizeDirectoryName("organization") == "organisation"
    ensures NormalizeDirectoryName("otherresearchproduct") == "other_rp"
    ensures name != "organization" && name != "otherresearchproduct" ==> NormalizeDirectoryName(name) == name
  {
  }

  /** Normalising an already normalised name changes nothing. */
  lemma NormalizeIdempotent(name: string)
    ensures NormalizeDirectoryName(NormalizeDirectoryName(name)) == NormalizeDirectoryName(name)
  {
  }

  /** `path` with every trailing separator removed (`str.rstrip(os.sep)`). */
  function RStripSeparators(path: string): (r: string)
    ensures r <= path
    ensures r == [] || r[|r| - 1] != '/'
    ensures forall i :: |r| <= i < |path| ==> path[i] == '/'
  {
    if path != [] && path[|path| - 1] == '/' then RStripSeparators(path[..|path| - 1]) else path
  }

  /** `os.path.basename`: the text after the last separator. */
  function BaseName(path: string): (r: string)
    ensures '/' !in r
    ensures |r| <= |path| && r == path[|path| - |r|..]
    ensures |r| < |path| ==> path[|path| - |r| - 1] == '/'
  {
    if path == [] then []
    else if path[|path| - 1] == '/' then []
    else
      var init := BaseName(path[..|path| - 1]);
      init + [path[|path| - 1]]
  }

  /** The collection directory name of an input root: `basename(path.rstrip(os.sep))`. */
  function CollectionDirectory(path: string): string {
    BaseName(RStripSeparators(path))
  }

  /**
   * One line of a dump file: JSON decoding (an oracle, None when `json.loads`
   * raises) followed by `model.parse_obj`.  Any failure makes the line a
   * logged error.
   */
  function ParseLine(schema: seq<Schema.FieldDecl>, decode: string -> Option<Value>, line: string): Option<Value> {
    match decode(line)
    case None => None
    case Some(doc) => Schema.Validate(schema, doc)
  }

  /** The records `process_file` yields for the given lines, in order. */
  function ParsedRecords(schema: seq<Schema.FieldDecl>, decode: string -> Option<Value>, lines: seq<string>): (rs: seq<Value>)
    ensures |rs| <= |lines|
    ensures forall i :: 0 <= i < |rs| ==> rs[i].Model? && Keys(rs[i].fields) == Schema.Names(schema)
  {
    if lines == [] then []
    else
      var init := ParsedRecords(schema, decode, lines[..|lines| - 1]);
      match ParseLine(schema, decode, lines[|lines| - 1])
      case None => init
      case Some(r) => init + [r]
  }

  /** The lines `process_file` logs as errors, in order. */
  function FailedLines(schema: seq<Schema.FieldDecl>, decode: string -> Option<Value>, lines: seq<string>): seq<string> {
    if lines == [] then []
    else
      var init := FailedLines(schema, decode, lines[..|lines| - 1]);
      if ParseLine(schema, decode, lines[|lines| - 1]).None? then init + [lines[|lines| - 1]] else init
  }

  /** Every line is either yielded as a record or logged as an error, never both, never neither. */
  lemma {:induction false} EveryLineAccounted(schema: seq<Schema.FieldDecl>, decode: string -> Option<Value>, lines: seq<string>)
    ensures |ParsedRecords(schema, decode, lines)| + |FailedLines(schema, decode, lines)| == |lines|
  {
    if lines != [] {
      EveryLineAccounted(schema, decode, lines[..|lines| - 1]);
    }
  }

  /** A failing line does not stop the file: the records of `a + b` are those of `a` then those of `b`. */
  lemma {:induction false} ParsedRecordsAppend(schema: seq<Schema.FieldDecl>, decode: string -> Option<Value>, a: seq<string>, b: seq<string>)
    ensures ParsedRecords(schema, decode, a + b) == ParsedRecords(schema, decode, a) + ParsedRecords(schema, decode, b)
    decreases |b|
  {
    if b == [] {
      assert a + b == a;
    } else {
      assert (a + b)[..|a + b| - 1] == a + b[..|b| - 1];
      ParsedRecordsAppend(schema, decode, a, b[..|b| - 1]);
    }
  }

  /** A line that JSON decoding rejects (a blank line, say) is logged and yields nothing. */
  lemma UndecodableLineSkipped(schema: seq<Schema.FieldDecl>, decode: string -> Option<Value>, lines: seq<string>, line: string)
    requires decode(line) == None
    ensures ParsedRecords(schema, decode, lines + [line]) == ParsedRecords(schema, decode, lines)
    ensures FailedLines(schema, decode, lines + [line]) == FailedLines(schema, decode, lines) + [line]
  {
    assert (lines + [line])[..|lines|] == lines;
  }

  /** `process_file`: yield every record that parses, log every line that does not. */
  method ProcessFile(schema: seq<Schema.FieldDecl>, decode: string -> Option<Value>, lines: seq<string>)
    returns (records: seq<Value>, errors: seq<string>)
    ensures records == ParsedRecords(schema, decode, lines)
    ensures errors == FailedLines(schema, decode, lines)
    ensures |records| + |errors| == |lines|
  {
    records, errors := [], [];
    for i := 0 to |lines|
      invariant records == ParsedRecords(schema, decode, lines[..i])
      invariant errors == FailedLines(schema, decode, lines[..i])
    {
      assert lines[..i + 1][..i] == lines[..i];
      var parsed := ParseLine(schema, decode, lines[i]);
      match parsed {
        case Some(rp) => records := records + [rp];
        case None => errors := errors + [lines[i]];
      }
    }
    assert lines[..|lines|] == lines;
    EveryLineAccounted(schema, decode, lines);
  }

  /** The column name of child `k` under `parentKey`; an empty or absent parent key adds no prefix. */
  function PrefixedKey(parentKey: string, k: string): string {
    if parentKey != "" then parentKey + "_" + k else k
  }

  /**
   * `convert_model_to_dict(value, parent_key)`, with None written as "".
   * A model becomes a dict keyed by its prefixed field names whose values are
   * converted from `.dict()` (so nested models arrive as plain dicts and stay
   * as they are); an Enum member becomes its value; a list is converted
   * element by element under the same parent key; anything else is returned
   * unchanged.
   */
  function ConvertModelToDict(v: Value, parentKey: string): (r: Value)
    ensures !r.Model? && !r.Enum?
    ensures v.Model? ==> r.Dict? && |r.entries| == |v.fields|
    ensures v.List? ==> r.List? && |r.items| == |v.items|
    ensures v.Enum? ==> r == Str(v.code)
    ensures !v.Model? && !v.Enum? && !v.List? ==> r == v
    decreases if IsPlain(v) then 0 else 1, v
  {
    match v
    case Model(fs) => Dict(ConvertFields(fs, parentKey))
    case Enum(code) => Str(code)
    case List(xs) => List(seq(|xs|, i requires 0 <= i < |xs| => ConvertModelToDict(xs[i], parentKey)))
    case _ => v
  }

  /** The entries of a converted model, field by field. */
  function ConvertFields(fs: seq<Entry>, parentKey: string): (r: seq<Entry>)
    ensures |r| == |fs|
    ensures forall i :: 0 <= i < |fs| ==>
      r[i] == Entry(PrefixedKey(parentKey, fs[i].key), ConvertModelToDict(ToPlain(fs[i].val), fs[i].key))
    decreases 1, fs
  {
    if fs == [] then []
    else
      [Entry(PrefixedKey(parentKey, fs[0].key), ConvertModelToDict(ToPlain(fs[0].val), fs[0].key))]
      + ConvertFields(fs[1..], parentKey)
  }

  /** A list converts item by item, in order, every item under the list's own parent key. */
  lemma ConvertListPointwise(v: Value, parentKey: string)
    requires v.List?
    ensures var r := ConvertModelToDict(v, parentKey);
      r.List? && |r.items| == |v.items|
      && forall i :: 0 <= i < |v.items| ==> r.items[i] == ConvertModelToDict(v.items[i], parentKey)
  {
  }

  /**
   * A model inside a list converts to a dict whose keys are the model's field
   * names prefixed with the list's parent key (an `author` item's `fullname`
   * becomes `author_fullname`), in field order, each value converted from
   * `.dict()` under its bare field name.
   */
  lemma ListOfModelsPrefixed(v: Value, parentKey: string, i: nat)
    requires v.List? && i < |v.items| && v.items[i].Model?
    ensures var d := ConvertModelToDict(v, parentKey).items[i];
      var fs := v.items[i].fields;
      d.Dict? && |d.entries| == |fs|
      && forall j :: 0 <= j < |fs| ==>
           && d.entries[j].key == PrefixedKey(parentKey, fs[j].key)
           && d.entries[j].val == ConvertModelToDict(ToPlain(fs[j].val), fs[j].key)
  {
  }

  /** Converting a converted value again, under any parent key, changes nothing. */
  lemma {:induction false} ConvertIdempotent(v: Value, p: string, q: string)
    ensures ConvertModelToDict(ConvertModelToDict(v, p), q) == ConvertModelToDict(v, p)
    decreases v
  {
    match v
    case List(xs) =>
      var once := ConvertModelToDict(v, p);
      forall i | 0 <= i < |xs|
        ensures ConvertModelToDict(once.items[i], q) == once.items[i]
      {
        ConvertIdempotent(xs[i], p, q);
      }
    case _ =>
  }

  /**
   * Prefixing happens at one level only: a field of a model that is itself a
   * model, or a list of models, converts to exactly what `.dict()` made of
   * it, plain dicts keyed by the sub-model's own, unprefixed field names.
   */
  lemma OneLevelPrefixing(fs: seq<Entry>, parentKey: string, i: nat)
    requires i < |fs|
    requires fs[i].val.Model? || (fs[i].val.List? && forall j :: 0 <= j < |fs[i].val.items| ==> fs[i].val.items[j].Model?)
    ensures var r := ConvertModelToDict(Model(fs), parentKey);
      r.entries[i] == Entry(PrefixedKey(parentKey, fs[i].key), ToPlain(fs[i].val))
    ensures fs[i].val.Model? ==> ToPlain(fs[i].val).Dict? && Keys(ToPlain(fs[i].val).entries) == Keys(fs[i].val.fields)
  {
    var x := fs[i].val;
    var k := fs[i].key;
    if x.List? {
      var plain := ToPlain(x);
      forall j | 0 <= j < |x.items|
        ensures ConvertModelToDict(plain.items[j], k) == plain.items[j]
      {
        assert plain.items[j] == ToPlain(x.items[j]);
      }
    }
  }
}
