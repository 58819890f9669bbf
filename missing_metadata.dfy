/**
 * `analyze_missing_values`: for every column of a table read back from a
 * parquet file, how many rows there are, how many hold a value and how many
 * are missing — null, or (outside numeric columns) of length zero.
 */
module MissingMetadata {
  import opened Wrappers
  import opened PyValues

  /** The column dtypes the analysis tells apart: pandas float, pandas integer, anything else. */
  datatype DType = FloatDType | IntegerDType | OtherDType

  datatype Column = Column(name: string, dtype: DType, cells: seq<Value>)

  /** A DataFrame: `len(df)` rows and its columns in order. */
  datatype Frame = Frame(height: nat, columns: seq<Column>)

  predicate WellFormed(df: Frame) {
    forall i :: 0 <= i < |df.columns| ==> |df.columns[i].cells| == df.height
  }

  /** One row of the report; `missing_percentage` is not part of this model. */
  datatype ReportRow = ReportRow(fileName: string, columnName: string, totalCount: int, existingCount: int, missingCount: int)

  /** `len()` applied to a value without a length raises TypeError, naming the column being analysed. */
  datatype LenError = TypeError(column: string)

  predicate IsNumeric(t: DType) {
    t == FloatDType || t == IntegerDType
  }

  /** `isna()`: None, and NaN, which the model writes as Null. */
  predicate IsNa(v: Value) {
    v.Null?
  }

  /** `df[col].isna().sum()`. */
  function NaCount(cells: seq<Value>): (n: nat)
    ensures n <= |cells|
  {
    if cells == [] then 0 else (if IsNa(cells[0]) then 1 else 0) + NaCount(cells[1..])
  }

  /** `(filtered_df[col].apply(len) == 0).sum()`: None when a non-null value has no length. */
  function EmptyCount(cells: seq<Value>): Option<nat> {
    if cells == [] then Some(0)
    else
      var rest := EmptyCount(cells[1..]);
      if IsNa(cells[0]) then rest
      else if Len(cells[0]).None? then None
      else if rest.None? then None
      else Some((if Len(cells[0]).value == 0 then 1 else 0) + rest.value)
  }

  /** The missing count of one column, or None when `len` fails on it. */
  function MissingCount(c: Column): Option<nat> {
    if IsNumeric(c.dtype) then Some(NaCount(c.cells))
    else
      var empty := EmptyCount(c.cells);
      if empty.None? then None else Some(NaCount(c.cells) + empty.value)
  }

  /** The report row of one column. */
  function ColumnRow(file: string, height: nat, c: Column): Result<ReportRow, LenError> {
    var missing := MissingCount(c);
    if missing.None? then Failure(TypeError(c.name))
    else Success(ReportRow(file, c.name, height, height - missing.value, missing.value))
  }

  /** The report of the given columns, in order; the first column whose `len` fails ends it. */
  function Report(file: string, height: nat, columns: seq<Column>): Result<seq<ReportRow>, LenError> {
    if columns == [] then Success([])
    else
      var init := Report(file, height, columns[..|columns| - 1]);
      if init.Failure? then init
      else
        var row := ColumnRow(file, height, columns[|columns| - 1]);
        if row.Failure? then Failure(row.error) else Success(init.value + [row.value])
  }

  /** The analysis loop: one row per column, in column order. */
  method AnalyzeMissingValues(df: Frame, file: string) returns (r: Result<seq<ReportRow>, LenError>)
    ensures r == Report(file, df.height, df.columns)
  {
    var rows: seq<ReportRow> := [];
    for i := 0 to |df.columns|
      invariant Report(file, df.height, df.columns[..i]) == Success(rows)
    {
      assert df.columns[..i + 1][..i] == df.columns[..i];
      var col := df.columns[i];
      var totalCount: int := df.height;
      var noneCount := NaCount(col.cells);
      var lenZeroCount := 0;
      if !IsNumeric(col.dtype) {
        var empty := EmptyCount(col.cells);
        if empty.None? {
          assert Report(file, df.height, df.columns[..i + 1]) == Failure(TypeError(col.name));
          FirstFailureEndsReport(file, df.height, df.columns, i + 1);
          return Failure(TypeError(col.name));
        }
        lenZeroCount := empty.value;
      }
      var missingCount := noneCount + lenZeroCount;
      rows := rows + [ReportRow(file, col.name, totalCount, totalCount - missingCount, missingCount)];
    }
    assert df.columns[..|df.columns|] == df.columns;
    r := Success(rows);
  }

  /** Once a prefix of the columns fails, the whole report fails the same way. */
  lemma {:induction false} FirstFailureEndsReport(file: string, height: nat, columns: seq<Column>, k: nat)
    requires k <= |columns|
    requires Report(file, height, columns[..k]).Failure?
    ensures Report(file, height, columns) == Report(file, height, columns[..k])
    decreases |columns| - k
  {
    if k < |columns| {
      assert columns[..k + 1][..k] == columns[..k];
      FirstFailureEndsReport(file, height, columns, k + 1);
    } else {
      assert columns[..k] == columns;
    }
  }

  /** A zero-length value is counted only among the non-null ones. */
  lemma {:induction false} MissingAtMostCells(cells: seq<Value>)
    requires EmptyCount(cells).Some?
    ensures NaCount(cells) + EmptyCount(cells).value <= |cells|
  {
    if cells != [] {
      MissingAtMostCells(cells[1..]);
    }
  }

  /** `len` fails on a column exactly when some non-null value in it has no length. */
  lemma {:induction false} EmptyCountFails(cells: seq<Value>)
    ensures EmptyCount(cells).None? <==> exists j :: 0 <= j < |cells| && !IsNa(cells[j]) && Len(cells[j]).None?
  {
    if cells != [] {
      EmptyCountFails(cells[1..]);
      assert forall j :: 1 <= j < |cells| ==> cells[j] == cells[1..][j - 1];
      if EmptyCount(cells[1..]).None? {
        var j :| 0 <= j < |cells[1..]| && !IsNa(cells[1..][j]) && Len(cells[1..][j]).None?;
        assert cells[j + 1] == cells[1..][j];
      }
    }
  }

  /**
   * Every row of a report names its column, in order, carries the file name,
   * and has `total_count` the number of rows, `existing + missing == total`
   * and `0 <= missing <= total`; in a float or integer column only the nulls
   * are missing, in any other column the nulls and the zero-length values.
   */
  lemma {:induction false} ReportRows(file: string, df: Frame)
    requires WellFormed(df)
    requires Report(file, df.height, df.columns).Success?
    ensures var rows := Report(file, df.height, df.columns).value;
      && |rows| == |df.columns|
      && forall i :: 0 <= i < |rows| ==>
           && rows[i].fileName == file
           && rows[i].columnName == df.columns[i].name
           && rows[i].totalCount == df.height
           && rows[i].existingCount + rows[i].missingCount == rows[i].totalCount
           && 0 <= rows[i].missingCount <= rows[i].totalCount
           && (IsNumeric(df.columns[i].dtype) ==> rows[i].missingCount == NaCount(df.columns[i].cells))
           && (!IsNumeric(df.columns[i].dtype) ==>
                 EmptyCount(df.columns[i].cells).Some?
                 && rows[i].missingCount == NaCount(df.columns[i].cells) + EmptyCount(df.columns[i].cells).value)
    decreases |df.columns|
  {
    if df.columns != [] {
      var init := Frame(df.height, df.columns[..|df.columns| - 1]);
      ReportRows(file, init);
      var c := df.columns[|df.columns| - 1];
      if !IsNumeric(c.dtype) {
        MissingAtMostCells(c.cells);
      }
    }
  }

  /**
   * The analysis fails exactly when some column that is neither float nor
   * integer holds a non-null value without a length (a bool, a number).
   */
  lemma {:induction false} ReportFailsIff(file: string, height: nat, columns: seq<Column>)
    ensures Report(file, height, columns).Failure? <==>
      exists i, j :: 0 <= i < |columns| && !IsNumeric(columns[i].dtype) && 0 <= j < |columns[i].cells|
        && !IsNa(columns[i].cells[j]) && Len(columns[i].cells[j]).None?
  {
    if columns != [] {
      var init := columns[..|columns| - 1];
      var c := columns[|columns| - 1];
      ReportFailsIff(file, height, init);
      EmptyCountFails(c.cells);
      assert forall i :: 0 <= i < |init| ==> init[i] == columns[i];
    }
  }
}
