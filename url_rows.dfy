/**
 * `process_object` and `compute_row_values`, which `urls_checker` and
 * `urls_response_codes` share line for line: the lines of one S3 object
 * become rows of the selected fields, and every row becomes its URL counts.
 */
module UrlRows {
  import opened Wrappers
  import opened PyValues
  import ResponseRegex

  /** `s.split("\n")`. */
  function Split(s: string): (parts: seq<string>)
    ensures |parts| >= 1
    ensures forall i :: 0 <= i < |parts| ==> '\n' !in parts[i]
  {
    if s == [] then [""]
    else
      var init := Split(s[..|s| - 1]);
      var c := s[|s| - 1];
      if c == '\n' then init + [""]
      else init[..|init| - 1] + [init[|init| - 1] + [c]]
  }

  /** `"\n".join(parts)`. */
  function Join(parts: seq<string>): string
    requires |parts| >= 1
  {
    if |parts| == 1 then parts[0] else Join(parts[..|parts| - 1]) + "\n" + parts[|parts| - 1]
  }

  /** Extending the last piece by a character extends the joined text by it. */
  lemma JoinExtendLast(ps: seq<string>, c: char)
    requires |ps| >= 1
    ensures Join(ps[..|ps| - 1] + [ps[|ps| - 1] + [c]]) == Join(ps) + [c]
  {
    var qs := ps[..|ps| - 1] + [ps[|ps| - 1] + [c]];
    if |ps| > 1 {
      assert qs[..|qs| - 1] == ps[..|ps| - 1];
    }
  }

  /** Splitting loses nothing: joining the pieces gives the text back. */
  lemma {:induction false} SplitJoin(s: string)
    ensures Join(Split(s)) == s
  {
    if s != [] {
      var init := s[..|s| - 1];
      SplitJoin(init);
      var ps := Split(init);
      if s[|s| - 1] == '\n' {
        assert (ps + [""])[..|ps|] == ps;
      } else {
        JoinExtendLast(ps, s[|s| - 1]);
      }
      assert init + [s[|s| - 1]] == s;
    }
  }

  /** The end of the run of whitespace starting at `i`. */
  function SpaceRunEnd(s: string, i: nat): (j: nat)
    requires i <= |s|
    ensures i <= j <= |s|
    ensures forall k :: i <= k < j ==> ResponseRegex.IsSpace(s[k])
    ensures j == |s| || !ResponseRegex.IsSpace(s[j])
    decreases |s| - i
  {
    if i == |s| || !ResponseRegex.IsSpace(s[i]) then i else SpaceRunEnd(s, i + 1)
  }

  /** The start of the run of whitespace ending at `j`, not going below `lo`. */
  function SpaceRunStart(s: string, lo: nat, j: nat): (b: nat)
    requires lo <= j <= |s|
    ensures lo <= b <= j
    ensures forall k :: b <= k < j ==> ResponseRegex.IsSpace(s[k])
    ensures b == lo || !ResponseRegex.IsSpace(s[b - 1])
    decreases j
  {
    if j == lo || !ResponseRegex.IsSpace(s[j - 1]) then j else SpaceRunStart(s, lo, j - 1)
  }

  /** `str.strip()`: whitespace removed from both ends. */
  function Strip(s: string): string {
    var a := SpaceRunEnd(s, 0);
    s[a..SpaceRunStart(s, a, |s|)]
  }

  /**
   * The stripped line is the text between a whitespace prefix and a
   * whitespace suffix, and neither of its ends is whitespace.
   */
  lemma StripMeaning(s: string)
    ensures exists a, b ::
      && 0 <= a <= b <= |s| && Strip(s) == s[a..b]
      && (forall k :: 0 <= k < a ==> ResponseRegex.IsSpace(s[k]))
      && (forall k :: b <= k < |s| ==> ResponseRegex.IsSpace(s[k]))
    ensures Strip(s) != [] ==> !ResponseRegex.IsSpace(Strip(s)[0]) && !ResponseRegex.IsSpace(Strip(s)[|Strip(s)| - 1])
  {
    var a := SpaceRunEnd(s, 0);
    var b := SpaceRunStart(s, a, |s|);
    assert Strip(s) == s[a..b];
  }

  /** Stripping twice is stripping once. */
  lemma StripIdempotent(s: string)
    ensures Strip(Strip(s)) == Strip(s)
  {
    var t := Strip(s);
    StripMeaning(s);
    if t != [] {
      assert SpaceRunEnd(t, 0) == 0;
      assert SpaceRunStart(t, 0, |t|) == |t|;
      assert t[0..|t|] == t;
    }
  }

  /** What makes `process_object` or `compute_row_values` raise. */
  datatype RowError =
    | NotAnObject            // `doc.get` on a JSON value that is not an object: AttributeError
    | MissingColumn(name: string)  // `row[name]` for a column the frame lacks: KeyError
    | NoLength               // `len(row["url"])` on a value without a length: TypeError
    | NotText                // `url.lower()` on an element that is not a string: AttributeError

  /** `{field: doc.get(field) for field in selected_fields}`. */
  function SelectFields(doc: seq<Entry>, fields: seq<string>): (row: seq<Entry>)
    ensures forall f :: f in fields ==> Get(row, f) == Some(Get(doc, f).GetOr(Null))
    ensures forall k :: k in Keys(row) <==> k in fields
    ensures UniqueKeys(row)
  {
    if fields == [] then []
    else
      var init := SelectFields(doc, fields[..|fields| - 1]);
      var f := fields[|fields| - 1];
      assert forall g :: g in fields <==> g in fields[..|fields| - 1] || g == f;
      Put(init, f, Get(doc, f).GetOr(Null))
  }

  /**
   * The rows the line loop collects from the given lines: blank lines are
   * passed over, undecodable ones are logged and passed over, and a JSON
   * value that is not an object stops the loop.
   */
  function LoadRows(decode: string -> Option<Value>, lines: seq<string>, fields: seq<string>): Result<seq<seq<Entry>>, RowError> {
    if lines == [] then Success([])
    else
      var init := LoadRows(decode, lines[..|lines| - 1], fields);
      var line := Strip(lines[|lines| - 1]);
      if init.Failure? || line == "" then init
      else
        var doc := decode(line);
        if doc.None? then init
        else if !doc.value.Dict? then Failure(NotAnObject)
        else Success(init.value + [SelectFields(doc.value.entries, fields)])
  }

  /** The stripped lines logged as invalid JSON. */
  function LoggedLines(decode: string -> Option<Value>, lines: seq<string>): seq<string> {
    if lines == [] then []
    else
      var init := LoggedLines(decode, lines[..|lines| - 1]);
      var line := Strip(lines[|lines| - 1]);
      if line != "" && decode(line).None? then init + [line] else init
  }

  /** The lines that are blank once stripped. */
  function BlankCount(lines: seq<string>): nat {
    if lines == [] then 0
    else BlankCount(lines[..|lines| - 1]) + (if Strip(lines[|lines| - 1]) == "" then 1 else 0)
  }

  /**
   * When no line stops the loop, every line is blank, logged, or a row:
   * nothing is dropped silently, and a bad line does not stop the lines
   * after it.
   */
  lemma {:induction false} EveryLineAccounted(decode: string -> Option<Value>, lines: seq<string>, fields: seq<string>)
    requires LoadRows(decode, lines, fields).Success?
    ensures |LoadRows(decode, lines, fields).value| + |LoggedLines(decode, lines)| + BlankCount(lines) == |lines|
  {
    if lines != [] {
      EveryLineAccounted(decode, lines[..|lines| - 1], fields);
    }
  }

  /** Every row holds exactly the selected fields, each the document's value or None. */
  lemma {:induction false} RowsHoldSelectedFields(decode: string -> Option<Value>, lines: seq<string>, fields: seq<string>, i: nat)
    requires LoadRows(decode, lines, fields).Success?
    requires i < |LoadRows(decode, lines, fields).value|
    ensures exists j, doc ::
      && 0 <= j < |lines| && decode(Strip(lines[j])) == Some(Dict(doc))
      && LoadRows(decode, lines, fields).value[i] == SelectFields(doc, fields)
  {
    var init := lines[..|lines| - 1];
    var r := LoadRows(decode, init, fields);
    if i < |r.value| {
      RowsHoldSelectedFields(decode, init, fields, i);
      var j, doc :| 0 <= j < |init| && decode(Strip(init[j])) == Some(Dict(doc)) && r.value[i] == SelectFields(doc, fields);
      assert lines[j] == init[j];
    } else {
      var doc := decode(Strip(lines[|lines| - 1])).value.entries;
      assert LoadRows(decode, lines, fields).value[i] == SelectFields(doc, fields);
    }
  }

  /** Line k is the one that stops the loop: the lines before it load, and it does not. */
  predicate StopsAt(decode: string -> Option<Value>, lines: seq<string>, fields: seq<string>, k: nat) {
    k < |lines| && LoadRows(decode, lines[..k], fields).Success? && LoadRows(decode, lines[..k + 1], fields).Failure?
  }

  /** The index of the line that stops the loop (StopLineStops). */
  function StopLine(decode: string -> Option<Value>, lines: seq<string>, fields: seq<string>): (k: nat)
    requires LoadRows(decode, lines, fields).Failure?
    ensures k < |lines|
    decreases |lines|
  {
    var init := lines[..|lines| - 1];
    if LoadRows(decode, init, fields).Failure? then StopLine(decode, init, fields) else |lines| - 1
  }

  /** When loading fails, `StopLine` is the line that stops the loop. */
  lemma {:induction false} StopLineStops(decode: string -> Option<Value>, lines: seq<string>, fields: seq<string>)
    requires LoadRows(decode, lines, fields).Failure?
    ensures StopsAt(decode, lines, fields, StopLine(decode, lines, fields))
    decreases |lines|
  {
    var init := lines[..|lines| - 1];
    if LoadRows(decode, init, fields).Failure? {
      StopLineStops(decode, init, fields);
      StopsAtPrefix(decode, lines, fields, |lines| - 1, StopLine(decode, init, fields));
    } else {
      LastLineStops(decode, lines, fields);
    }
  }

  /** The line that stops the loop over a prefix stops it over the whole. */
  lemma StopsAtPrefix(decode: string -> Option<Value>, lines: seq<string>, fields: seq<string>, m: nat, k: nat)
    requires m <= |lines| && StopsAt(decode, lines[..m], fields, k)
    ensures StopsAt(decode, lines, fields, k)
  {
    assert lines[..m][..k] == lines[..k] && lines[..m][..k + 1] == lines[..k + 1];
  }

  /** When every line but the last loads and all of them do not, the last one stops the loop. */
  lemma LastLineStops(decode: string -> Option<Value>, lines: seq<string>, fields: seq<string>)
    requires lines != [] && LoadRows(decode, lines[..|lines| - 1], fields).Success?
    requires LoadRows(decode, lines, fields).Failure?
    ensures StopsAt(decode, lines, fields, |lines| - 1)
  {
    assert lines[..|lines|] == lines;
  }

  /** Only one line can stop the loop: once it has stopped, every longer prefix fails too. */
  lemma StopLineUnique(decode: string -> Option<Value>, lines: seq<string>, fields: seq<string>, k: nat)
    requires StopsAt(decode, lines, fields, k)
    ensures LoadRows(decode, lines, fields).Failure? && StopLine(decode, lines, fields) == k
  {
    LoadFailureStays(decode, lines, fields, k + 1);
    StopLineStops(decode, lines, fields);
    var j := StopLine(decode, lines, fields);
    if j < k {
      assert lines[..k][..j + 1] == lines[..j + 1];
      LoadFailureStays(decode, lines[..k], fields, j + 1);
    } else if k < j {
      assert lines[..j][..k + 1] == lines[..k + 1];
      LoadFailureStays(decode, lines[..j], fields, k + 1);
    }
  }

  /**
   * The line loop of `process_object`. The undecodable lines are logged as
   * they are met: all of them when the loop runs to the end, and those
   * before the line that stops it otherwise.
   */
  method CollectRows(decode: string -> Option<Value>, lines: seq<string>, fields: seq<string>)
    returns (rows: Result<seq<seq<Entry>>, RowError>, logged: seq<string>)
    ensures rows == LoadRows(decode, lines, fields)
    ensures rows.Success? ==> logged == LoggedLines(decode, lines)
    ensures rows.Failure? ==> logged == LoggedLines(decode, lines[..StopLine(decode, lines, fields)])
  {
    var collected: seq<seq<Entry>> := [];
    logged := [];
    for i := 0 to |lines|
      invariant LoadRows(decode, lines[..i], fields) == Success(collected)
      invariant logged == LoggedLines(decode, lines[..i])
    {
      assert lines[..i + 1][..i] == lines[..i];
      var line := Strip(lines[i]);
      if line != "" {
        var doc := decode(line);
        if doc.None? {
          logged := logged + [line];
        } else if !doc.value.Dict? {
          assert LoadRows(decode, lines[..i + 1], fields) == Failure(NotAnObject);
          LoadFailureStays(decode, lines, fields, i + 1);
          StopLineUnique(decode, lines, fields, i);
          return Failure(NotAnObject), logged;
        } else {
          collected := collected + [SelectFields(doc.value.entries, fields)];
        }
      }
    }
    assert lines[..|lines|] == lines;
    rows := Success(collected);
  }

  /** Once the loop has stopped, later lines do not change the outcome. */
  lemma {:induction false} LoadFailureStays(decode: string -> Option<Value>, lines: seq<string>, fields: seq<string>, k: nat)
    requires k <= |lines|
    requires LoadRows(decode, lines[..k], fields).Failure?
    ensures LoadRows(decode, lines, fields) == LoadRows(decode, lines[..k], fields)
    decreases |lines| - k
  {
    if k < |lines| {
      assert lines[..k + 1][..k] == lines[..k];
      LoadFailureStays(decode, lines, fields, k + 1);
    } else {
      assert lines[..k] == lines;
    }
  }

  /** What `for url in value` visits: a list's items, a string's characters, a dict's keys. */
  function Elements(v: Value): (r: Option<seq<Value>>)
    ensures r.Some? <==> Len(v).Some?
    ensures r.Some? ==> |r.value| == Len(v).value
  {
    match v
    case List(xs) => Some(xs)
    case Str(s) => Some(seq(|s|, i requires 0 <= i < |s| => Str([s[i]])))
    case Dict(es) => Some(seq(|es|, i requires 0 <= i < |es| => Str(es[i].key)))
    case _ => None
  }

  /** `str.lower()`, over ASCII. */
  function Lower(s: string): (r: string)
    ensures |r| == |s|
  {
    seq(|s|, i requires 0 <= i < |s| => if 'A' <= s[i] <= 'Z' then (s[i] as int + 32) as char else s[i])
  }

  /** `[url.lower() for url in urls]`; None when an element is not a string. */
  function Lowered(urls: seq<Value>): (r: Option<seq<string>>)
    ensures r.Some? <==> forall i :: 0 <= i < |urls| ==> urls[i].Str?
    ensures r.Some? ==> |r.value| == |urls| && forall i :: 0 <= i < |urls| ==> r.value[i] == Lower(urls[i].s)
  {
    if urls == [] then Some([])
    else
      var rest := Lowered(urls[1..]);
      assert forall i :: 1 <= i < |urls| ==> urls[i] == urls[1..][i - 1];
      if !urls[0].Str? || rest.None? then None else Some([Lower(urls[0].s)] + rest.value)
  }

  function Distinct(xs: seq<string>): set<string> {
    set x | x in xs
  }

  /** A set built from a list is no larger than the list. */
  lemma {:induction false} DistinctAtMost(xs: seq<string>)
    ensures |Distinct(xs)| <= |xs|
  {
    if xs != [] {
      var init := xs[..|xs| - 1];
      DistinctAtMost(init);
      assert Distinct(xs) == Distinct(init) + {xs[|xs| - 1]} by {
        assert forall x :: x in xs <==> x in init || x == xs[|xs| - 1];
      }
    }
  }

  /** One output row: the identifiers, the URL value unchanged, and its two counts. */
  datatype UrlRow = UrlRow(id: Value, publisher: Value, urls: Value, numberUrls: nat, numberUniqueUrls: nat)

  /** `compute_row_values(row)`, with the exceptions it can raise. */
  function ComputeRowValues(row: seq<Entry>): Result<UrlRow, RowError> {
    var url := Get(row, "url");
    if url.None? then Failure(MissingColumn("url"))
    else if Len(url.value).None? then Failure(NoLength)
    else
      var lowered := Lowered(Elements(url.value).value);
      if lowered.None? then Failure(NotText)
      else if Get(row, "id").None? then Failure(MissingColumn("id"))
      else if Get(row, "publisher").None? then Failure(MissingColumn("publisher"))
      else Success(UrlRow(Get(row, "id").value, Get(row, "publisher").value, url.value,
                          Len(url.value).value, |Distinct(lowered.value)|))
  }

  /**
   * A row yields values exactly when it has the three columns, its URL value
   * has a length and every element of it is a string; then `urls` is that
   * value, `number_urls` its length, and `number_unique_urls` the number of
   * distinct lower-cased URLs, at most `number_urls`.
   */
  lemma ComputeRowValuesSpec(row: seq<Entry>)
    ensures var url := Get(row, "url");
      ComputeRowValues(row).Success? <==>
        && url.Some? && Len(url.value).Some?
        && (forall i :: 0 <= i < |Elements(url.value).value| ==> Elements(url.value).value[i].Str?)
        && Get(row, "id").Some? && Get(row, "publisher").Some?
    ensures ComputeRowValues(row).Success? ==>
      var r := ComputeRowValues(row).value;
      && Some(r.urls) == Get(row, "url") && Some(r.id) == Get(row, "id") && Some(r.publisher) == Get(row, "publisher")
      && Some(r.numberUrls) == Len(r.urls)
      && r.numberUniqueUrls == |set i | 0 <= i < |Elements(r.urls).value| :: Lower(Elements(r.urls).value[i].s)|
      && r.numberUniqueUrls <= r.numberUrls
      && (r.numberUrls > 0 ==> r.numberUniqueUrls > 0)
  {
    var url := Get(row, "url");
    if ComputeRowValues(row).Success? {
      var urls := Elements(url.value).value;
      var lowered := Lowered(urls).value;
      assert Distinct(lowered) == set i | 0 <= i < |urls| :: Lower(urls[i].s) by {
        forall x | x in Distinct(lowered) ensures x in set i | 0 <= i < |urls| :: Lower(urls[i].s) {
          var i :| 0 <= i < |lowered| && lowered[i] == x;
        }
      }
      DistinctAtMost(lowered);
      if |lowered| > 0 {
        assert lowered[0] in Distinct(lowered);
      }
    }
  }

  /** URLs differing only in letter case count once. */
  lemma CaseInsensitiveExample(row: seq<Entry>)
    requires row == [Entry("id", Str("x")), Entry("publisher", Null), Entry("url", List([Str("HTTP://A.ORG"), Str("http://a.org")]))]
    ensures ComputeRowValues(row) == Success(UrlRow(Str("x"), Null, List([Str("HTTP://A.ORG"), Str("http://a.org")]), 2, 1))
  {
    var urls := List([Str("HTTP://A.ORG"), Str("http://a.org")]);
    assert Get(row, "id") == Some(Str("x"));
    assert Get(row, "publisher") == Some(Null);
    assert Get(row, "url") == Some(urls) by {
      var tail := row[1..][1..];
      assert tail == [Entry("url", urls)];
      assert Get(tail, "url") == Some(urls);
      assert Get(row[1..], "url") == Get(tail, "url");
    }
    assert Elements(urls) == Some([Str("HTTP://A.ORG"), Str("http://a.org")]);
    assert Lower("HTTP://A.ORG") == "http://a.org";
    assert Lower("http://a.org") == "http://a.org";
    var lowered := Lowered([Str("HTTP://A.ORG"), Str("http://a.org")]).value;
    assert lowered == ["http://a.org", "http://a.org"];
    assert Distinct(lowered) == {"http://a.org"};
    assert |Distinct(lowered)| == 1;
  }

  /** `df.apply(compute_row_values, axis=1)`: row by row, the first failing row raising. */
  function RowValues(rows: seq<seq<Entry>>): (r: Result<seq<UrlRow>, RowError>)
    ensures r.Success? ==> |r.value| == |rows| && forall i :: 0 <= i < |rows| ==> ComputeRowValues(rows[i]) == Success(r.value[i])
  {
    if rows == [] then Success([])
    else
      var init := RowValues(rows[..|rows| - 1]);
      var last := ComputeRowValues(rows[|rows| - 1]);
      if init.Failure? then init
      else if last.Failure? then Failure(last.error)
      else Success(init.value + [last.value])
  }

  /** Row values fail exactly when some row's values fail. */
  lemma {:induction false} RowValuesFailIff(rows: seq<seq<Entry>>)
    ensures RowValues(rows).Failure? <==> exists i :: 0 <= i < |rows| && ComputeRowValues(rows[i]).Failure?
  {
    if rows != [] {
      var init := rows[..|rows| - 1];
      RowValuesFailIff(init);
      assert forall i :: 0 <= i < |init| ==> init[i] == rows[i];
    }
  }

  /** What `process_object` returns for the decoded text of one object. */
  function ProcessObjectResult(decode: string -> Option<Value>, text: string, fields: seq<string>): Result<seq<UrlRow>, RowError> {
    var rows := LoadRows(decode, Split(text), fields);
    if rows.Failure? then Failure(rows.error) else RowValues(rows.value)
  }

  /** `process_object(obj, selected_fields)`, from the decoded text on. */
  method ProcessObject(decode: string -> Option<Value>, text: string, fields: seq<string>)
    returns (r: Result<seq<UrlRow>, RowError>, logged: seq<string>)
    ensures r == ProcessObjectResult(decode, text, fields)
    ensures LoadRows(decode, Split(text), fields).Success? ==> logged == LoggedLines(decode, Split(text))
    ensures LoadRows(decode, Split(text), fields).Failure? ==>
      logged == LoggedLines(decode, Split(text)[..StopLine(decode, Split(text), fields)])
  {
    var rows;
    rows, logged := CollectRows(decode, Split(text), fields);
    if rows.Failure? {
      return Failure(rows.error), logged;
    }
    var values: seq<UrlRow> := [];
    for i := 0 to |rows.value|
      invariant RowValues(rows.value[..i]) == Success(values)
    {
      assert rows.value[..i + 1][..i] == rows.value[..i];
      var v := ComputeRowValues(rows.value[i]);
      if v.Failure? {
        RowValuesFailIff(rows.value);
        RowValuesFirstFailure(rows.value, i);
        return Failure(v.error), logged;
      }
      values := values + [v.value];
    }
    assert rows.value[..|rows.value|] == rows.value;
    r := Success(values);
  }

  /** The first failing row decides the error. */
  lemma {:induction false} RowValuesFirstFailure(rows: seq<seq<Entry>>, i: nat)
    requires i < |rows|
    requires RowValues(rows[..i]).Success?
    requires ComputeRowValues(rows[i]).Failure?
    ensures RowValues(rows) == Failure(ComputeRowValues(rows[i]).error)
    decreases |rows| - i
  {
    assert rows[..i + 1][..i] == rows[..i];
    FailureStays(rows, i + 1);
  }

  lemma {:induction false} FailureStays(rows: seq<seq<Entry>>, k: nat)
    requires k <= |rows|
    requires RowValues(rows[..k]).Failure?
    ensures RowValues(rows) == RowValues(rows[..k])
    decreases |rows| - k
  {
    if k < |rows| {
      assert rows[..k + 1][..k] == rows[..k];
      FailureStays(rows, k + 1);
    } else {
      assert rows[..k] == rows;
    }
  }
}
