/** The whole run over one collection directory, as `process_and_save_data` does it. */
module Collection {
  import opened Wrappers
  import opened PyValues
  import DataLoader
  import Schema
  import opened FlattenRows
  import opened Flatten

  /** A file `os.walk` yields under the collection directory: its name and its lines. */
  datatype SourceFile = SourceFile(name: string, lines: seq<string>)

  predicate IsJsonFile(file: SourceFile) {
    |file.name| >= 5 && file.name[|file.name| - 5..] == ".json"
  }

  /** The records of every `.json` file, file after file, line after line. */
  function AllRecords(schema: seq<Schema.FieldDecl>, decode: string -> Option<Value>, files: seq<SourceFile>): (rs: seq<Value>)
    ensures forall i :: 0 <= i < |rs| ==> rs[i].Model? && Keys(rs[i].fields) == Schema.Names(schema)
  {
    if files == [] then []
    else
      var init := AllRecords(schema, decode, files[..|files| - 1]);
      var last := files[|files| - 1];
      if IsJsonFile(last) then init + DataLoader.ParsedRecords(schema, decode, last.lines) else init
  }

  /** The lines of every `.json` file that were logged as errors. */
  function AllFailedLines(schema: seq<Schema.FieldDecl>, decode: string -> Option<Value>, files: seq<SourceFile>): seq<string> {
    if files == [] then []
    else
      var init := AllFailedLines(schema, decode, files[..|files| - 1]);
      var last := files[|files| - 1];
      if IsJsonFile(last) then init + DataLoader.FailedLines(schema, decode, last.lines) else init
  }

  /** The number of lines in `.json` files. */
  function JsonLineCount(files: seq<SourceFile>): nat {
    if files == [] then 0
    else JsonLineCount(files[..|files| - 1]) + (if IsJsonFile(files[|files| - 1]) then |files[|files| - 1].lines| else 0)
  }

  /** Every line of every `.json` file becomes either a record or a logged error; other files are not read. */
  lemma {:induction false} EveryJsonLineAccounted(schema: seq<Schema.FieldDecl>, decode: string -> Option<Value>, files: seq<SourceFile>)
    ensures |AllRecords(schema, decode, files)| + |AllFailedLines(schema, decode, files)| == JsonLineCount(files)
  {
    if files != [] {
      EveryJsonLineAccounted(schema, decode, files[..|files| - 1]);
      DataLoader.EveryLineAccounted(schema, decode, files[|files| - 1].lines);
    }
  }

  /** `dataframes` after the given records. */
  function TablesAfter(fieldNames: seq<string>, nested: set<string>, rs: seq<Value>): map<string, seq<Value>> {
    map f | f in fieldNames && f in nested :: NestedTable(rs, f)
  }

  /** `one_lvl_data` after the given records. */
  function ColumnsAfter(fieldNames: seq<string>, nested: set<string>, rs: seq<Value>): map<string, seq<Value>> {
    map f | f in fieldNames && f !in nested :: OneLevelColumn(rs, f)
  }

  /** What the run writes for the given records: the non-empty nested tables, then the one-level table. */
  function Artifacts(directory: string, collection: string, fieldNames: seq<string>, nested: set<string>, rs: seq<Value>): seq<Artifact> {
    NestedArtifacts(directory, collection, NestedFieldOrder(fieldNames, nested), TablesAfter(fieldNames, nested, rs))
    + [Artifact(directory, OneLevelFileName(collection),
                ColumnTable(Columns(OneLevelFieldOrder(fieldNames, nested), ColumnsAfter(fieldNames, nested, rs))))]
  }

  /**
   * `process_and_save_data(path, model)`: parse every `.json` file under the
   * collection directory, flatten every record into the tables, then choose
   * and name the parquet files.  `files` is the `os.walk` listing in walk
   * order; `collections` maps each configured collection to its metadata
   * directory.
   */
  method ProcessAndSaveData(path: string, files: seq<SourceFile>, schema: seq<Schema.FieldDecl>,
                            decode: string -> Option<Value>, nested: set<string>, collections: map<string, string>)
    returns (r: Result<seq<Artifact>, SaveError>, errors: seq<string>)
    requires NoDuplicates(Schema.Names(schema))
    ensures errors == AllFailedLines(schema, decode, files)
    ensures var name := DataLoader.NormalizeDirectoryName(DataLoader.CollectionDirectory(path));
      && (r.Failure? <==> name !in collections)
      && (r.Failure? ==> r.error == UnknownCollection(name))
      && (r.Success? ==>
            r.value == Artifacts(collections[name], name, Schema.Names(schema), nested, AllRecords(schema, decode, files)))
  {
    var fieldNames := Schema.Names(schema);
    var flattener := new Flattener(fieldNames, nested);
    errors := [];
    for i := 0 to |files|
      invariant flattener.Valid()
      invariant flattener.fieldNames == fieldNames && flattener.nested == nested
      invariant flattener.records == AllRecords(schema, decode, files[..i])
      invariant errors == AllFailedLines(schema, decode, files[..i])
    {
      assert files[..i + 1][..i] == files[..i];
      if IsJsonFile(files[i]) {
        var records, failed := DataLoader.ProcessFile(schema, decode, files[i].lines);
        errors := errors + failed;
        flattener.AddRecords(records);
      }
    }
    assert files[..|files|] == files;
    var rs := flattener.records;
    assert flattener.dataframes == TablesAfter(fieldNames, nested, rs);
    assert flattener.oneLvlData == ColumnsAfter(fieldNames, nested, rs);
    r := flattener.SaveArtifacts(DataLoader.CollectionDirectory(path), collections);
  }

  /** With no tables to write, only the one-level file remains. */
  lemma {:induction false} NoNestedWritten(directory: string, collection: string, names: seq<string>, tables: map<string, seq<Value>>)
    requires forall f :: f in names ==> f in tables && tables[f] == []
    ensures NestedArtifacts(directory, collection, names, tables) == []
  {
    if names != [] {
      NoNestedWritten(directory, collection, names[..|names| - 1], tables);
    }
  }

  /**
   * What a run writes: the one-level file always, last, with one cell per
   * record in every column; a nested file for every nested field exactly
   * when at least one record was read, since every record contributes at
   * least one row to every nested table.
   */
  lemma FilesWritten(directory: string, collection: string, fieldNames: seq<string>, nested: set<string>, rs: seq<Value>)
    ensures var arts := Artifacts(directory, collection, fieldNames, nested, rs);
      && |arts| >= 1
      && arts[|arts| - 1].fileName == OneLevelFileName(collection)
      && arts[|arts| - 1].table.ColumnTable?
      && (forall c :: c in arts[|arts| - 1].table.columns ==> |c.cells| == |rs|)
      && (rs == [] ==> |arts| == 1)
      && (rs != [] ==> |arts| == |NestedFieldOrder(fieldNames, nested)| + 1)
    ensures rs != [] ==> forall f :: f in fieldNames && f in nested ==>
      Artifact(directory, NestedFileName(collection, f), RowTable(NestedTable(rs, f)))
        in Artifacts(directory, collection, fieldNames, nested, rs)
  {
    var order := NestedFieldOrder(fieldNames, nested);
    var tables := TablesAfter(fieldNames, nested, rs);
    var columns := Columns(OneLevelFieldOrder(fieldNames, nested), ColumnsAfter(fieldNames, nested, rs));
    assert forall c :: c in columns ==> |c.cells| == |rs|;
    if rs == [] {
      NoNestedWritten(directory, collection, order, tables);
    } else {
      forall f | f in order ensures tables[f] != [] {
        NestedTableCoversRecords(rs, f);
      }
      AllNestedWritten(directory, collection, order, tables);
      NestedArtifactsExact(directory, collection, order, tables);
    }
  }

  /**
   * Every row of every nested file was cut from one of the records read and
   * carries that record's id, type and publisher, as long as the field holds
   * a sub-model, a list of sub-models or nothing.
   */
  lemma WrittenRowsLinkToRecords(directory: string, collection: string, fieldNames: seq<string>, nested: set<string>,
                                 rs: seq<Value>, a: Artifact, i: nat)
    requires a in NestedArtifacts(directory, collection, NestedFieldOrder(fieldNames, nested), TablesAfter(fieldNames, nested, rs))
    requires forall f, j :: f in nested && 0 <= j < |rs| ==> var x := Attr(rs[j], f);
      x.Null? || x.Model? || (x.List? && forall k :: 0 <= k < |x.items| ==> x.items[k].Model?)
    requires a.table.RowTable? && i < |a.table.rows|
    ensures exists j :: 0 <= j < |rs| && CarriesTriad(a.table.rows[i], rs[j])
  {
    NestedArtifactsExact(directory, collection, NestedFieldOrder(fieldNames, nested), TablesAfter(fieldNames, nested, rs));
    var f :| f in NestedFieldOrder(fieldNames, nested) && a.table == RowTable(NestedTable(rs, f));
    RowsLinkToRecords(rs, f, i);
  }
}
