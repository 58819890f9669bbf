/**
 * `process_and_save_data`: the in-memory tables of one collection run, the
 * record-by-record updates that fill them, and the choice and naming of the
 * artifacts written at the end.
 */
module Flatten {
  import opened Wrappers
  import opened PyValues
  import DataLoader
  import Schema
  import opened FlattenRows

  /** The keys of `dataframes`: the model's fields listed as nested, in field order. */
  function NestedFieldOrder(fieldNames: seq<string>, nested: set<string>): (r: seq<string>)
    ensures forall f :: f in r <==> f in fieldNames && f in nested
    ensures NoDuplicates(fieldNames) ==> NoDuplicates(r)
  {
    if fieldNames == [] then []
    else
      var init := NestedFieldOrder(fieldNames[..|fieldNames| - 1], nested);
      var last := fieldNames[|fieldNames| - 1];
      assert forall f :: f in fieldNames <==> f in fieldNames[..|fieldNames| - 1] || f == last;
      if last in nested then init + [last] else init
  }

  /** The keys of `one_lvl_data`: the model's other fields, in field order. */
  function OneLevelFieldOrder(fieldNames: seq<string>, nested: set<string>): (r: seq<string>)
    ensures forall f :: f in r <==> f in fieldNames && f !in nested
  {
    if fieldNames == [] then []
    else
      var init := OneLevelFieldOrder(fieldNames[..|fieldNames| - 1], nested);
      var last := fieldNames[|fieldNames| - 1];
      assert forall f :: f in fieldNames <==> f in fieldNames[..|fieldNames| - 1] || f == last;
      if last !in nested then init + [last] else init
  }

  datatype Column = Column(name: string, cells: seq<Value>)

  /** A table handed to `pd.DataFrame`: a list of row dicts, or a dict of columns. */
  datatype Table = RowTable(rows: seq<Value>) | ColumnTable(columns: seq<Column>)

  /** One parquet file: the metadata directory of the collection, the file name, the table. */
  datatype Artifact = Artifact(directory: string, fileName: string, table: Table)

  /** `settings.COLLECTIONS[name]` raises KeyError for a collection that is not configured. */
  datatype SaveError = UnknownCollection(name: string)

  function NestedFileName(collection: string, field: string): string {
    collection + "_" + field + ".parquet"
  }

  function OneLevelFileName(collection: string): string {
    collection + "_one_level_data.parquet"
  }

  /** The artifacts written for the nested tables, in order: one per non-empty table. */
  function NestedArtifacts(directory: string, collection: string, names: seq<string>, tables: map<string, seq<Value>>): seq<Artifact>
    requires forall f :: f in names ==> f in tables
  {
    if names == [] then []
    else
      var init := NestedArtifacts(directory, collection, names[..|names| - 1], tables);
      var f := names[|names| - 1];
      if tables[f] != [] then init + [Artifact(directory, NestedFileName(collection, f), RowTable(tables[f]))]
      else init
  }

  /**
   * A nested table is written if and only if it has rows, under the name
   * `{collection}_{field}.parquet`, and nothing else is written for it.
   */
  lemma {:induction false} NestedArtifactsExact(directory: string, collection: string, names: seq<string>, tables: map<string, seq<Value>>)
    requires forall f :: f in names ==> f in tables
    ensures forall f :: f in names && tables[f] != [] ==>
      Artifact(directory, NestedFileName(collection, f), RowTable(tables[f])) in NestedArtifacts(directory, collection, names, tables)
    ensures forall a :: a in NestedArtifacts(directory, collection, names, tables) ==>
      exists f :: f in names && tables[f] != [] && a == Artifact(directory, NestedFileName(collection, f), RowTable(tables[f]))
    ensures |NestedArtifacts(directory, collection, names, tables)| <= |names|
  {
    if names != [] {
      var init := names[..|names| - 1];
      NestedArtifactsExact(directory, collection, init, tables);
      assert forall f :: f in names ==> f in init || f == names[|names| - 1];
    }
  }

  /** When every table has rows, every one of them is written. */
  lemma {:induction false} AllNestedWritten(directory: string, collection: string, names: seq<string>, tables: map<string, seq<Value>>)
    requires forall f :: f in names ==> f in tables && tables[f] != []
    ensures |NestedArtifacts(directory, collection, names, tables)| == |names|
  {
    if names != [] {
      AllNestedWritten(directory, collection, names[..|names| - 1], tables);
    }
  }

  /** The tables of one collection run. */
  class Flattener {
    const fieldNames: seq<string>
    const nested: set<string>
    /** `dataframes`: the rows of each nested field's table. */
    var dataframes: map<string, seq<Value>>
    /** `one_lvl_data`: the column of each other field. */
    var oneLvlData: map<string, seq<Value>>
    /** The records added so far, in order. */
    ghost var records: seq<Value>

    ghost predicate Valid()
      reads this
    {
      && NoDuplicates(fieldNames)
      && (forall f :: f in dataframes <==> f in fieldNames && f in nested)
      && (forall f :: f in oneLvlData <==> f in fieldNames && f !in nested)
      && (forall f :: f in dataframes ==> dataframes[f] == NestedTable(records, f))
      && (forall f :: f in oneLvlData ==> oneLvlData[f] == OneLevelColumn(records, f))
    }

    /** Empty tables: one per nested field and one column per other field. */
    constructor (fieldNames: seq<string>, nested: set<string>)
      requires NoDuplicates(fieldNames)
      ensures Valid() && records == []
      ensures this.fieldNames == fieldNames && this.nested == nested
      ensures forall f :: f in dataframes ==> dataframes[f] == []
      ensures forall f :: f in oneLvlData ==> oneLvlData[f] == []
    {
      this.fieldNames := fieldNames;
      this.nested := nested;
      dataframes := map f | f in fieldNames && f in nested :: [];
      oneLvlData := map f | f in fieldNames && f !in nested :: [];
      records := [];
    }

    /**
     * The body of the per-record loop: every nested table gains the record's
     * rows, every one-level column gains its cell, nothing else changes.
     */
    method AddRecord(rp: Value)
      requires Valid()
      modifies this
      ensures Valid()
      ensures records == old(records) + [rp]
      ensures dataframes.Keys == old(dataframes).Keys && oneLvlData.Keys == old(oneLvlData).Keys
      ensures forall f :: f in dataframes ==> dataframes[f] == old(dataframes)[f] + NestedRows(rp, f)
      ensures forall f :: f in oneLvlData ==> oneLvlData[f] == old(oneLvlData)[f] + [OneLevelCell(rp, f)]
    {
      dataframes, oneLvlData := AddToTables(fieldNames, nested, dataframes, oneLvlData, rp);
      ghost var before := records;
      records := records + [rp];
      forall f | f in dataframes ensures dataframes[f] == NestedTable(records, f) {
        RecordAdded(before, rp, f);
      }
      forall f | f in oneLvlData ensures oneLvlData[f] == OneLevelColumn(records, f) {
        RecordAdded(before, rp, f);
      }
    }

    /** The loop over the records of one file, in order. */
    method AddRecords(rs: seq<Value>)
      requires Valid()
      modifies this
      ensures Valid()
      ensures records == old(records) + rs
    {
      for k := 0 to |rs|
        invariant Valid()
        invariant records == old(records) + rs[..k]
      {
        assert rs[..k + 1] == rs[..k] + [rs[k]];
        AddRecord(rs[k]);
      }
      assert rs[..|rs|] == rs;
    }

    /** The one-level table as `pd.DataFrame(one_lvl_data)` receives it, columns in field order. */
    function OneLevelTable(): (t: Table)
      reads this
      requires Valid()
      ensures t.ColumnTable?
      ensures |t.columns| == |OneLevelFieldOrder(fieldNames, nested)|
      ensures forall i :: 0 <= i < |t.columns| ==> |t.columns[i].cells| == |records|
    {
      ColumnTable(Columns(OneLevelFieldOrder(fieldNames, nested), oneLvlData))
    }

    /**
     * The saving loop: the non-empty nested tables in field order, then the
     * one-level table, all under the collection's metadata directory.  The
     * directory lookup fails for a collection that is not configured.
     */
    method SaveArtifacts(collectionDir: string, collections: map<string, string>)
      returns (r: Result<seq<Artifact>, SaveError>)
      requires Valid()
      ensures var name := DataLoader.NormalizeDirectoryName(collectionDir);
        && (r.Failure? <==> name !in collections)
        && (r.Failure? ==> r.error == UnknownCollection(name))
        && (r.Success? ==>
              r.value == NestedArtifacts(collections[name], name, NestedFieldOrder(fieldNames, nested), dataframes)
                         + [Artifact(collections[name], OneLevelFileName(name), OneLevelTable())])
    {
      var name := DataLoader.NormalizeDirectoryName(collectionDir);
      var order := NestedFieldOrder(fieldNames, nested);
      var written := WriteNested(name, collections, order, dataframes);
      if written.Failure? {
        return written;
      }
      if name !in collections {
        return Failure(UnknownCollection(name));
      }
      r := Success(written.value + [Artifact(collections[name], OneLevelFileName(name), OneLevelTable())]);
    }
  }

  /**
   * The loop over `dataframes`: each non-empty table is written in order. The
   * first write looks the collection up, so an unknown collection fails there,
   * and the loop succeeds with nothing written when every table is empty.
   */
  method WriteNested(name: string, collections: map<string, string>, order: seq<string>, tables: map<string, seq<Value>>)
    returns (r: Result<seq<Artifact>, SaveError>)
    requires forall f :: f in order ==> f in tables
    ensures name in collections ==> r == Success(NestedArtifacts(collections[name], name, order, tables))
    ensures name !in collections ==>
      && (r.Success? <==> forall f :: f in order ==> tables[f] == [])
      && (r.Success? ==> r.value == [])
      && (r.Failure? ==> r.error == UnknownCollection(name))
  {
    var written: seq<Artifact> := [];
    for i := 0 to |order|
      invariant name in collections ==> written == NestedArtifacts(collections[name], name, order[..i], tables)
      invariant name !in collections ==> written == [] && forall j :: 0 <= j < i ==> tables[order[j]] == []
    {
      assert order[..i + 1][..i] == order[..i];
      var data := tables[order[i]];
      if data != [] {
        if name !in collections {
          return Failure(UnknownCollection(name));
        }
        written := written + [Artifact(collections[name], NestedFileName(name, order[i]), RowTable(data))];
      }
    }
    assert order[..|order|] == order;
    r := Success(written);
  }

  /**
   * The loop over the model's fields for one record: a nested field's rows go
   * to its table, any other field's cell to its column.
   */
  method AddToTables(fieldNames: seq<string>, nested: set<string>, tables: map<string, seq<Value>>,
                     columns: map<string, seq<Value>>, rp: Value)
    returns (tables': map<string, seq<Value>>, columns': map<string, seq<Value>>)
    requires NoDuplicates(fieldNames)
    requires forall f :: f in tables <==> f in fieldNames && f in nested
    requires forall f :: f in columns <==> f in fieldNames && f !in nested
    ensures tables'.Keys == tables.Keys && columns'.Keys == columns.Keys
    ensures forall f :: f in tables ==> tables'[f] == tables[f] + NestedRows(rp, f)
    ensures forall f :: f in columns ==> columns'[f] == columns[f] + [OneLevelCell(rp, f)]
  {
    var triad := Triad(rp);
    tables', columns' := tables, columns;
    for i := 0 to |fieldNames|
      invariant tables' == Grown(tables, fieldNames[..i], rp)
      invariant columns' == Extended(columns, fieldNames[..i], rp)
    {
      tables', columns' := AddField(fieldNames, nested, tables, columns, rp, triad, i, tables', columns');
    }
    assert fieldNames[..|fieldNames|] == fieldNames;
    AllFieldsDone(fieldNames, nested, tables, columns, rp);
  }

  /** Once every field is done, each table and each column has grown by its part of the record. */
  lemma AllFieldsDone(fieldNames: seq<string>, nested: set<string>, tables: map<string, seq<Value>>,
                      columns: map<string, seq<Value>>, rp: Value)
    requires forall f :: f in tables <==> f in fieldNames && f in nested
    requires forall f :: f in columns <==> f in fieldNames && f !in nested
    ensures Grown(tables, fieldNames, rp).Keys == tables.Keys && Extended(columns, fieldNames, rp).Keys == columns.Keys
    ensures forall f :: f in tables ==> Grown(tables, fieldNames, rp)[f] == tables[f] + NestedRows(rp, f)
    ensures forall f :: f in columns ==> Extended(columns, fieldNames, rp)[f] == columns[f] + [OneLevelCell(rp, f)]
  {
  }

  /**
   * One iteration of the field loop: field i's rows join its table, or its
   * cell joins its column, and no other table or column changes.
   */
  method AddField(fieldNames: seq<string>, nested: set<string>, tables: map<string, seq<Value>>,
                  columns: map<string, seq<Value>>, rp: Value, triad: seq<Entry>, i: nat,
                  current: map<string, seq<Value>>, currentColumns: map<string, seq<Value>>)
    returns (next: map<string, seq<Value>>, nextColumns: map<string, seq<Value>>)
    requires NoDuplicates(fieldNames) && i < |fieldNames| && triad == Triad(rp)
    requires forall f :: f in tables <==> f in fieldNames && f in nested
    requires forall f :: f in columns <==> f in fieldNames && f !in nested
    requires current == Grown(tables, fieldNames[..i], rp)
    requires currentColumns == Extended(columns, fieldNames[..i], rp)
    ensures next == Grown(tables, fieldNames[..i + 1], rp)
    ensures nextColumns == Extended(columns, fieldNames[..i + 1], rp)
  {
    var f := fieldNames[i];
    next, nextColumns := current, currentColumns;
    if f in nested {
      GrownStep(tables, fieldNames, i, rp);
      ExtendedOther(columns, fieldNames, i, rp);
      var rows := FieldRows(rp, f, triad);
      next := current[f := current[f] + rows];
    } else {
      GrownOther(tables, fieldNames, i, rp);
      ExtendedStep(columns, fieldNames, i, rp);
      var cell := FieldCell(rp, f, triad);
      nextColumns := currentColumns[f := currentColumns[f] + [cell]];
    }
  }

  /** The nested tables once the fields in `done` have received the record's rows. */
  ghost function Grown(tables: map<string, seq<Value>>, done: seq<string>, rp: Value): map<string, seq<Value>> {
    map g | g in tables :: if g in done then tables[g] + NestedRows(rp, g) else tables[g]
  }

  /** The one-level columns once the fields in `done` have received the record's cell. */
  ghost function Extended(columns: map<string, seq<Value>>, done: seq<string>, rp: Value): map<string, seq<Value>> {
    map g | g in columns :: if g in done then columns[g] + [OneLevelCell(rp, g)] else columns[g]
  }

  /** Field i is not among the fields before it, and the next prefix adds exactly it. */
  lemma NextField(fieldNames: seq<string>, i: nat)
    requires NoDuplicates(fieldNames) && i < |fieldNames|
    ensures fieldNames[i] !in fieldNames[..i]
    ensures forall g :: g in fieldNames[..i + 1] <==> g in fieldNames[..i] || g == fieldNames[i]
  {
    assert fieldNames[..i + 1] == fieldNames[..i] + [fieldNames[i]];
  }

  lemma GrownStep(tables: map<string, seq<Value>>, fieldNames: seq<string>, i: nat, rp: Value)
    requires NoDuplicates(fieldNames) && i < |fieldNames| && fieldNames[i] in tables
    ensures var f := fieldNames[i];
      Grown(tables, fieldNames[..i + 1], rp) == Grown(tables, fieldNames[..i], rp)[f := Grown(tables, fieldNames[..i], rp)[f] + NestedRows(rp, f)]
  {
    NextField(fieldNames, i);
  }

  lemma GrownOther(tables: map<string, seq<Value>>, fieldNames: seq<string>, i: nat, rp: Value)
    requires NoDuplicates(fieldNames) && i < |fieldNames| && fieldNames[i] !in tables
    ensures Grown(tables, fieldNames[..i + 1], rp) == Grown(tables, fieldNames[..i], rp)
  {
    NextField(fieldNames, i);
  }

  lemma ExtendedStep(columns: map<string, seq<Value>>, fieldNames: seq<string>, i: nat, rp: Value)
    requires NoDuplicates(fieldNames) && i < |fieldNames| && fieldNames[i] in columns
    ensures var f := fieldNames[i];
      Extended(columns, fieldNames[..i + 1], rp) == Extended(columns, fieldNames[..i], rp)[f := Extended(columns, fieldNames[..i], rp)[f] + [OneLevelCell(rp, f)]]
  {
    NextField(fieldNames, i);
  }

  lemma ExtendedOther(columns: map<string, seq<Value>>, fieldNames: seq<string>, i: nat, rp: Value)
    requires NoDuplicates(fieldNames) && i < |fieldNames| && fieldNames[i] !in columns
    ensures Extended(columns, fieldNames[..i + 1], rp) == Extended(columns, fieldNames[..i], rp)
  {
    NextField(fieldNames, i);
  }

  /** The rows one nested field of a record contributes to its table. */
  method FieldRows(rp: Value, f: string, triad: seq<Entry>) returns (rows: seq<Value>)
    requires triad == Triad(rp)
    ensures rows == NestedRows(rp, f)
  {
    var converted := DataLoader.ConvertModelToDict(Attr(rp, f), f);
    if Truthy(converted) {
      if converted.List? {
        rows := StampItems(converted.items, triad);
      } else if converted.Dict? {
        rows := [Dict(Update(converted.entries, triad))];
      } else {
        rows := [Dict(Update([Entry(f, converted)], triad))];
      }
    } else {
      rows := [Dict(triad)];
    }
  }

  /** The cell one non-nested field of a record contributes to its column. */
  method FieldCell(rp: Value, f: string, triad: seq<Entry>) returns (cell: Value)
    requires triad == Triad(rp)
    ensures cell == OneLevelCell(rp, f)
  {
    cell := DataLoader.ConvertModelToDict(Attr(rp, f), "");
    if cell.Dict? {
      cell := Dict(Update(cell.entries, triad));
    }
  }

  /** The named columns of `data`, in the order of `names`. */
  function Columns(names: seq<string>, data: map<string, seq<Value>>): (cs: seq<Column>)
    requires forall f :: f in names ==> f in data
    ensures |cs| == |names|
    ensures forall i :: 0 <= i < |cs| ==> cs[i] == Column(names[i], data[names[i]])
  {
    if names == [] then [] else [Column(names[0], data[names[0]])] + Columns(names[1..], data)
  }

  /** StampItems' loop: `item.update(triad)` for every dict item of a converted list. */
  method StampItems(items: seq<Value>, triad: seq<Entry>) returns (stamped: seq<Value>)
    requires UniqueKeys(triad)
    ensures |stamped| == |items|
    ensures forall i :: 0 <= i < |items| ==> stamped[i] == Stamp(items[i], triad)
  {
    stamped := items;
    for j := 0 to |items|
      invariant |stamped| == |items|
      invariant forall i :: 0 <= i < j ==> stamped[i] == Stamp(items[i], triad)
      invariant forall i :: j <= i < |items| ==> stamped[i] == items[i]
    {
      if stamped[j].Dict? {
        stamped := stamped[j := Dict(Update(stamped[j].entries, triad))];
      }
    }
  }
}
