/**
 * What one record contributes to the tables of `process_and_save_data`, and
 * the tables a sequence of records builds, as functions.  The `Flattener`
 * class (module Flatten) is proved to keep its tables equal to these.
 */
module FlattenRows {
  import opened Wrappers
  import opened PyValues
  import DataLoader

  /** `getattr(rp, name, None)`. */
  function Attr(rp: Value, name: string): Value {
    if rp.Model? then Get(rp.fields, name).GetOr(Null) else Null
  }

  /** `rp_id_type_data`: the foreign-key triad linking a row to its record. */
  function Triad(rp: Value): (t: seq<Entry>)
    ensures UniqueKeys(t)
    ensures Keys(t) == ["rp_id", "rp_type", "rp_publisher"]
  {
    var t := [Entry("rp_id", Attr(rp, "id")), Entry("rp_type", Attr(rp, "type")), Entry("rp_publisher", Attr(rp, "publisher"))];
    KeysCons(t[0], t[1..]);
    KeysCons(t[1], t[2..]);
    KeysCons(t[2], []);
    assert t[1..] == [t[1]] + t[2..] && t[2..] == [t[2]] + [];
    t
  }

  /** The triad's three columns, read back. */
  lemma TriadValues(rp: Value)
    ensures Get(Triad(rp), "rp_id") == Some(Attr(rp, "id"))
    ensures Get(Triad(rp), "rp_type") == Some(Attr(rp, "type"))
    ensures Get(Triad(rp), "rp_publisher") == Some(Attr(rp, "publisher"))
  {
    var t := Triad(rp);
    KeysCons(t[0], t[1..]);
    KeysCons(t[1], t[2..]);
    KeysCons(t[2], []);
    assert t == [t[0]] + t[1..] && t[1..] == [t[1]] + t[2..] && t[2..] == [t[2]] + [];
  }

  /** A dict row whose triad columns hold the record's `id`, `type` and `publisher`. */
  predicate CarriesTriad(row: Value, rp: Value) {
    && row.Dict?
    && Get(row.entries, "rp_id") == Some(Attr(rp, "id"))
    && Get(row.entries, "rp_type") == Some(Attr(rp, "type"))
    && Get(row.entries, "rp_publisher") == Some(Attr(rp, "publisher"))
  }

  predicate IsTriadKey(k: string) {
    k == "rp_id" || k == "rp_type" || k == "rp_publisher"
  }

  /** `item.update(triad)` on a dict item; any other item is left alone. */
  function Stamp(item: Value, triad: seq<Entry>): Value
    requires UniqueKeys(triad)
  {
    if item.Dict? then Dict(Update(item.entries, triad)) else item
  }

  /**
   * A stamped dict carries the record's triad, overwriting same-named keys,
   * and keeps every other key with its value.
   */
  lemma StampMeaning(item: Value, rp: Value)
    requires item.Dict?
    ensures CarriesTriad(Stamp(item, Triad(rp)), rp)
    ensures forall k :: !IsTriadKey(k) ==> Get(Stamp(item, Triad(rp)).entries, k) == Get(item.entries, k)
  {
    TriadValues(rp);
  }

  /** The rows one record adds to the table of nested field `field`. */
  function NestedRows(rp: Value, field: string): (rows: seq<Value>)
    ensures |rows| >= 1
  {
    var c := DataLoader.ConvertModelToDict(Attr(rp, field), field);
    var t := Triad(rp);
    if Truthy(c) then
      if c.List? then seq(|c.items|, i requires 0 <= i < |c.items| => Stamp(c.items[i], t))
      else if c.Dict? then [Stamp(c, t)]
      else [Dict(Update([Entry(field, c)], t))]
    else
      [Dict(t)]
  }

  /**
   * The emission rule for a nested field, by the shape of the converted
   * value: a non-empty list gives one row per element, dict elements stamped
   * with the triad and other elements unchanged; a non-empty dict gives one
   * stamped row; any other truthy value v gives one row `{field: v}` plus the
   * triad; a falsy value (absent, None, empty, 0, "", False) gives exactly
   * one row holding the triad alone.
   */
  lemma NestedRowsRule(rp: Value, field: string)
    ensures var c := DataLoader.ConvertModelToDict(Attr(rp, field), field);
      var rows := NestedRows(rp, field);
      && (c.List? && c.items != [] ==>
            |rows| == |c.items| &&
            forall i :: 0 <= i < |rows| ==>
              if c.items[i].Dict? then CarriesTriad(rows[i], rp) &&
                (forall k :: !IsTriadKey(k) ==> Get(rows[i].entries, k) == Get(c.items[i].entries, k))
              else rows[i] == c.items[i])
      && (c.Dict? && c.entries != [] ==>
            |rows| == 1 && CarriesTriad(rows[0], rp) &&
            forall k :: !IsTriadKey(k) ==> Get(rows[0].entries, k) == Get(c.entries, k))
      && (Truthy(c) && !c.List? && !c.Dict? ==>
            |rows| == 1 && CarriesTriad(rows[0], rp) &&
            (!IsTriadKey(field) ==> Get(rows[0].entries, field) == Some(c)))
      && (!Truthy(c) ==>
            rows == [Dict(Triad(rp))] && CarriesTriad(rows[0], rp) &&
            Keys(rows[0].entries) == ["rp_id", "rp_type", "rp_publisher"])
  {
    var c := DataLoader.ConvertModelToDict(Attr(rp, field), field);
    var rows := NestedRows(rp, field);
    TriadValues(rp);
    if Truthy(c) && c.List? {
      forall i | 0 <= i < |rows| && c.items[i].Dict?
        ensures CarriesTriad(rows[i], rp)
        ensures forall k :: !IsTriadKey(k) ==> Get(rows[i].entries, k) == Get(c.items[i].entries, k)
      {
        StampMeaning(c.items[i], rp);
      }
    } else if Truthy(c) && c.Dict? {
      StampMeaning(c, rp);
    } else if Truthy(c) {
      assert Get([Entry(field, c)], field) == Some(c);
    }
  }

  /**
   * A validated nested field (absent, one sub-model, or a list of them)
   * yields only dict rows, each carrying the record's triad.
   */
  lemma StructuredFieldRowsCarryTriad(rp: Value, field: string)
    requires var x := Attr(rp, field);
      x.Null? || x.Model? || (x.List? && forall j :: 0 <= j < |x.items| ==> x.items[j].Model?)
    ensures forall i :: 0 <= i < |NestedRows(rp, field)| ==> CarriesTriad(NestedRows(rp, field)[i], rp)
  {
    NestedRowsRule(rp, field);
    var x := Attr(rp, field);
    var c := DataLoader.ConvertModelToDict(x, field);
    if x.List? {
      forall j | 0 <= j < |c.items| ensures c.items[j].Dict? {
        assert c.items[j] == DataLoader.ConvertModelToDict(x.items[j], field);
      }
    }
  }

  /** The cell one record adds to the one-level column `field`; a dict cell gets the triad merged in. */
  function OneLevelCell(rp: Value, field: string): (cell: Value)
    ensures !cell.Model? && !cell.Enum?
  {
    var c := DataLoader.ConvertModelToDict(Attr(rp, field), "");
    if c.Dict? then Dict(Update(c.entries, Triad(rp))) else c
  }

  /**
   * The one-level emission rule: the cell is the field's value converted with
   * no parent key; when that is a dict (empty or not) it gets the record's
   * triad merged in and keeps every other key, and otherwise it is stored as
   * it is.
   */
  lemma OneLevelCellRule(rp: Value, field: string)
    ensures var c := DataLoader.ConvertModelToDict(Attr(rp, field), "");
      var cell := OneLevelCell(rp, field);
      && (c.Dict? ==> CarriesTriad(cell, rp) && forall k :: !IsTriadKey(k) ==> Get(cell.entries, k) == Get(c.entries, k))
      && (!c.Dict? ==> cell == c)
  {
    var c := DataLoader.ConvertModelToDict(Attr(rp, field), "");
    if c.Dict? {
      StampMeaning(c, rp);
    }
  }

  /**
   * A one-level field holding a sub-model gives a dict cell keyed by the
   * sub-model's own field names, unprefixed, besides the triad.
   */
  lemma OneLevelModelKeys(rp: Value, field: string)
    requires Attr(rp, field).Model?
    ensures var cell := OneLevelCell(rp, field);
      cell.Dict? && forall k :: !IsTriadKey(k) ==>
        (Get(cell.entries, k).Some? <==> k in Keys(Attr(rp, field).fields))
  {
    OneLevelCellRule(rp, field);
    UnprefixedKeys(Attr(rp, field).fields);
  }

  /** With no parent key, a model's converted entries keep its field names. */
  lemma {:induction false} UnprefixedKeys(fs: seq<Entry>)
    ensures Keys(DataLoader.ConvertFields(fs, "")) == Keys(fs)
  {
    if fs != [] {
      UnprefixedKeys(fs[1..]);
      var r := DataLoader.ConvertFields(fs, "");
      assert r == [r[0]] + DataLoader.ConvertFields(fs[1..], "");
      KeysCons(r[0], DataLoader.ConvertFields(fs[1..], ""));
      KeysCons(fs[0], fs[1..]);
      assert fs == [fs[0]] + fs[1..];
    }
  }

  /** The blocks `rows(r)` of the records in order, one after another. */
  function FlatMap(rs: seq<Value>, rows: Value -> seq<Value>): seq<Value> {
    if rs == [] then []
    else FlatMap(rs[..|rs| - 1], rows) + rows(rs[|rs| - 1])
  }

  /** The rows the table of nested field `field` holds after the given records. */
  function NestedTable(rs: seq<Value>, field: string): seq<Value> {
    FlatMap(rs, rp => NestedRows(rp, field))
  }

  /** The values the one-level column `field` holds after the given records. */
  function OneLevelColumn(rs: seq<Value>, field: string): (col: seq<Value>)
    ensures |col| == |rs|
  {
    if rs == [] then []
    else OneLevelColumn(rs[..|rs| - 1], field) + [OneLevelCell(rs[|rs| - 1], field)]
  }

  lemma {:induction false} FlatMapAppend(a: seq<Value>, b: seq<Value>, rows: Value -> seq<Value>)
    ensures FlatMap(a + b, rows) == FlatMap(a, rows) + FlatMap(b, rows)
    decreases |b|
  {
    if b == [] {
      assert a + b == a;
    } else {
      var s := a + b;
      var init := b[..|b| - 1];
      assert s[..|s| - 1] == a + init;
      assert s[|s| - 1] == b[|b| - 1];
      FlatMapAppend(a, init, rows);
    }
  }

  /** Records are processed one after another: the table of `a + b` is the table of `a` followed by that of `b`. */
  lemma NestedTableAppend(a: seq<Value>, b: seq<Value>, field: string)
    ensures NestedTable(a + b, field) == NestedTable(a, field) + NestedTable(b, field)
  {
    FlatMapAppend(a, b, rp => NestedRows(rp, field));
  }

  /** Adding one record extends every table by that record's rows and every column by its cell. */
  lemma RecordAdded(rs: seq<Value>, rp: Value, field: string)
    ensures NestedTable(rs + [rp], field) == NestedTable(rs, field) + NestedRows(rp, field)
    ensures OneLevelColumn(rs + [rp], field) == OneLevelColumn(rs, field) + [OneLevelCell(rp, field)]
  {
    assert (rs + [rp])[..|rs|] == rs;
  }

  lemma {:induction false} FlatMapCovers(rs: seq<Value>, rows: Value -> seq<Value>)
    requires forall r :: |rows(r)| >= 1
    ensures |FlatMap(rs, rows)| >= |rs|
  {
    if rs != [] {
      FlatMapCovers(rs[..|rs| - 1], rows);
    }
  }

  /** Every nested table has at least one row per record processed. */
  lemma NestedTableCoversRecords(rs: seq<Value>, field: string)
    ensures |NestedTable(rs, field)| >= |rs|
  {
    FlatMapCovers(rs, rp => NestedRows(rp, field));
  }

  lemma {:induction false} FlatMapBlock(rs: seq<Value>, rows: Value -> seq<Value>, j: nat)
    requires j < |rs|
    ensures FlatMap(rs, rows) == FlatMap(rs[..j], rows) + rows(rs[j]) + FlatMap(rs[j + 1..], rows)
  {
    var rest := [rs[j]] + rs[j + 1..];
    assert rs == rs[..j] + rest;
    FlatMapAppend(rs[..j], rest, rows);
    FlatMapAppend([rs[j]], rs[j + 1..], rows);
    FlatMapSingle(rs[j], rows);
  }

  lemma {:induction false} FlatMapSingle(r: Value, rows: Value -> seq<Value>)
    ensures FlatMap([r], rows) == rows(r)
  {
    assert [r][..0] == [];
  }

  /** Each record's rows form one contiguous block of the nested table. */
  lemma {:induction false} RecordBlock(rs: seq<Value>, field: string, j: nat)
    requires j < |rs|
    ensures NestedTable(rs, field) ==
      NestedTable(rs[..j], field) + NestedRows(rs[j], field) + NestedTable(rs[j + 1..], field)
  {
    FlatMapBlock(rs, rp => NestedRows(rp, field), j);
  }

  /**
   * No-omission law: when the field is absent, a sub-model or a list of
   * sub-models in every record, each record is linked by its triad to at
   * least one row of the field's table.
   */
  lemma NoOmission(rs: seq<Value>, field: string, j: nat)
    requires j < |rs|
    requires var x := Attr(rs[j], field);
      x.Null? || x.Model? || (x.List? && forall k :: 0 <= k < |x.items| ==> x.items[k].Model?)
    ensures exists i :: 0 <= i < |NestedTable(rs, field)| && CarriesTriad(NestedTable(rs, field)[i], rs[j])
  {
    RecordBlock(rs, field, j);
    StructuredFieldRowsCarryTriad(rs[j], field);
    var i := |NestedTable(rs[..j], field)|;
    assert NestedTable(rs, field)[i] == NestedRows(rs[j], field)[0];
  }

  /** Every dict row of a nested table that carries a triad at all carries the triad of some processed record. */
  lemma {:induction false} RowsLinkToRecords(rs: seq<Value>, field: string, i: nat)
    requires i < |NestedTable(rs, field)|
    requires forall j :: 0 <= j < |rs| ==> var x := Attr(rs[j], field);
      x.Null? || x.Model? || (x.List? && forall k :: 0 <= k < |x.items| ==> x.items[k].Model?)
    ensures exists j :: 0 <= j < |rs| && CarriesTriad(NestedTable(rs, field)[i], rs[j])
  {
    var init := rs[..|rs| - 1];
    var last := rs[|rs| - 1];
    assert NestedTable(rs, field) == NestedTable(init, field) + NestedRows(last, field);
    if i < |NestedTable(init, field)| {
      RowsLinkToRecords(init, field, i);
      var j :| 0 <= j < |init| && CarriesTriad(NestedTable(init, field)[i], init[j]);
      assert rs[j] == init[j];
    } else {
      StructuredFieldRowsCarryTriad(last, field);
      assert NestedTable(rs, field)[i] == NestedRows(last, field)[i - |NestedTable(init, field)|];
    }
  }
}
