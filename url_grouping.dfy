/**
 * The per-publisher URL lists both URL tools build from their rows:
 * `result_df["urls"][result_df["publisher"] == publisher].explode()`.
 */
module PublisherGrouping {
  import opened PyValues
  import opened UrlRows

  datatype PublisherUrls = PublisherUrls(publisher: Value, urls: seq<Value>)

  /**
   * `Series.explode` on one cell: a list or dict gives its elements (keys),
   * an empty one gives a single NaN, and anything else stays as it is.
   */
  function Explode(v: Value): (r: seq<Value>)
    ensures |r| >= 1
  {
    match v
    case List(xs) => if xs == [] then [Null] else xs
    case Dict(es) => if es == [] then [Null] else seq(|es|, i requires 0 <= i < |es| => Str(es[i].key))
    case _ => [v]
  }

  /** `result_df["publisher"] == publisher` for one row: pandas compares nothing equal to None. */
  predicate OfPublisher(row: UrlRow, publisher: Value) {
    !publisher.Null? && row.publisher == publisher
  }

  /** The exploded URLs of the rows of one publisher, in row order. */
  function UrlsOf(rows: seq<UrlRow>, publisher: Value): seq<Value> {
    if rows == [] then []
    else
      var init := UrlsOf(rows[..|rows| - 1], publisher);
      var last := rows[|rows| - 1];
      if OfPublisher(last, publisher) then init + Explode(last.urls) else init
  }

  /** `.dropna()`. */
  function DropNa(xs: seq<Value>): (r: seq<Value>)
    ensures forall u :: u in r <==> u in xs && !u.Null?
    ensures |r| <= |xs|
  {
    if xs == [] then []
    else
      var init := DropNa(xs[..|xs| - 1]);
      var last := xs[|xs| - 1];
      assert forall u :: u in xs <==> u in xs[..|xs| - 1] || u == last;
      if last.Null? then init else init + [last]
  }

  /**
   * `set(result_df["publisher"].to_list())`, in the order Python iterates
   * it: each publisher value of the rows once.  Publishers are strings or
   * None.
   */
  predicate Enumerates(order: seq<Value>, rows: seq<UrlRow>) {
    && NoDuplicates(order)
    && (forall k :: 0 <= k < |order| ==> exists i :: 0 <= i < |rows| && rows[i].publisher == order[k])
    && (forall i :: 0 <= i < |rows| ==> rows[i].publisher in order)
    && (forall i :: 0 <= i < |rows| ==> rows[i].publisher.Null? || rows[i].publisher.Str?)
  }

  /** Every exploded URL of a row lands in its publisher's list; a None publisher collects nothing. */
  lemma {:induction false} UrlsOfCollects(rows: seq<UrlRow>, publisher: Value)
    ensures publisher.Null? ==> UrlsOf(rows, publisher) == []
    ensures forall i, u :: 0 <= i < |rows| && OfPublisher(rows[i], publisher) && u in Explode(rows[i].urls) ==>
      u in UrlsOf(rows, publisher)
    ensures forall u :: u in UrlsOf(rows, publisher) ==>
      exists i :: 0 <= i < |rows| && OfPublisher(rows[i], publisher) && u in Explode(rows[i].urls)
  {
    if rows != [] {
      var init := rows[..|rows| - 1];
      UrlsOfCollects(init, publisher);
      assert forall i :: 0 <= i < |init| ==> init[i] == rows[i];
    }
  }
}

/** `urls_checker`: publishers with no URL left after dropping nulls are left out. */
module CheckerGrouping {
  import opened PyValues
  import opened UrlRows
  import opened PublisherGrouping

  /** The entries appended for the given publishers, in iteration order. */
  function Grouped(rows: seq<UrlRow>, order: seq<Value>): seq<PublisherUrls> {
    if order == [] then []
    else
      var init := Grouped(rows, order[..|order| - 1]);
      var p := order[|order| - 1];
      var urls := DropNa(UrlsOf(rows, p));
      if urls != [] then init + [PublisherUrls(p, urls)] else init
  }

  /** The publisher loop of `load_and_process_data`. */
  method GroupByPublisher(rows: seq<UrlRow>, order: seq<Value>) returns (data: seq<PublisherUrls>)
    requires Enumerates(order, rows)
    ensures data == Grouped(rows, order)
  {
    data := [];
    for i := 0 to |order|
      invariant data == Grouped(rows, order[..i])
    {
      assert order[..i + 1][..i] == order[..i];
      var publisherUrls := DropNa(UrlsOf(rows, order[i]));
      if publisherUrls != [] {
        data := data + [PublisherUrls(order[i], publisherUrls)];
      }
    }
    assert order[..|order|] == order;
  }

  /**
   * Each entry of `g` is a publisher of `order`, at most once, with the
   * non-empty list of its rows' non-null URLs.
   */
  predicate WellGrouped(g: seq<PublisherUrls>, rows: seq<UrlRow>, order: seq<Value>) {
    && (forall k :: 0 <= k < |g| ==>
          && g[k].publisher in order
          && g[k].urls == DropNa(UrlsOf(rows, g[k].publisher))
          && g[k].urls != []
          && forall u :: u in g[k].urls ==> !u.Null?)
    && (forall k, l :: 0 <= k < l < |g| ==> g[k].publisher != g[l].publisher)
  }

  /** The checker's entries are well grouped. */
  lemma {:induction false} GroupedEntries(rows: seq<UrlRow>, order: seq<Value>)
    requires NoDuplicates(order)
    ensures WellGrouped(Grouped(rows, order), rows, order)
  {
    if order != [] {
      var init := order[..|order| - 1];
      var p := order[|order| - 1];
      GroupedEntries(rows, init);
      var gi := Grouped(rows, init);
      assert WellGrouped(gi, rows, init);
      assert forall q :: q in order <==> q in init || q == p;
      assert p !in init;
      assert forall k :: 0 <= k < |gi| ==> gi[k].publisher in init;
      var urls := DropNa(UrlsOf(rows, p));
      if urls != [] {
        var g := gi + [PublisherUrls(p, urls)];
        assert Grouped(rows, order) == g;
        assert forall k :: 0 <= k < |gi| ==> g[k] == gi[k];
      }
    }
  }

  /** Some entry of `g` lists `u` under `publisher`. */
  predicate Listed(g: seq<PublisherUrls>, publisher: Value, u: Value) {
    exists k :: 0 <= k < |g| && g[k].publisher == publisher && u in g[k].urls
  }

  /** Every non-null URL of a row with a publisher appears under that publisher. */
  lemma {:induction false} GroupedComplete(rows: seq<UrlRow>, order: seq<Value>)
    ensures forall i, u ::
      (0 <= i < |rows| && rows[i].publisher in order && !rows[i].publisher.Null? && u in Explode(rows[i].urls) && !u.Null?) ==>
      Listed(Grouped(rows, order), rows[i].publisher, u)
  {
    if order != [] {
      var init := order[..|order| - 1];
      var p := order[|order| - 1];
      GroupedComplete(rows, init);
      forall i, u | 0 <= i < |rows| && rows[i].publisher in order && !rows[i].publisher.Null? && u in Explode(rows[i].urls) && !u.Null?
        ensures Listed(Grouped(rows, order), rows[i].publisher, u)
      {
        UrlsOfCollects(rows, rows[i].publisher);
        var g := Grouped(rows, order);
        if rows[i].publisher == p {
          assert u in DropNa(UrlsOf(rows, p));
          assert g[|g| - 1] == PublisherUrls(p, DropNa(UrlsOf(rows, p)));
        } else {
          assert rows[i].publisher in init;
          var gi := Grouped(rows, init);
          var k :| 0 <= k < |gi| && gi[k].publisher == rows[i].publisher && u in gi[k].urls;
          assert g[k] == gi[k];
        }
      }
    }
  }
}

/** `urls_response_codes`: every publisher is kept, and nulls stay in the lists. */
module ResponseCodesGrouping {
  import opened PyValues
  import opened UrlRows
  import opened PublisherGrouping
  import CheckerGrouping

  function Grouped(rows: seq<UrlRow>, order: seq<Value>): (g: seq<PublisherUrls>)
    ensures |g| == |order|
  {
    if order == [] then []
    else Grouped(rows, order[..|order| - 1]) + [PublisherUrls(order[|order| - 1], UrlsOf(rows, order[|order| - 1]))]
  }

  /** The publisher loop of `load_and_process_data`. */
  method GroupByPublisher(rows: seq<UrlRow>, order: seq<Value>) returns (data: seq<PublisherUrls>)
    requires Enumerates(order, rows)
    ensures data == Grouped(rows, order)
  {
    data := [];
    for i := 0 to |order|
      invariant data == Grouped(rows, order[..i])
    {
      assert order[..i + 1][..i] == order[..i];
      data := data + [PublisherUrls(order[i], UrlsOf(rows, order[i]))];
    }
    assert order[..|order|] == order;
  }

  /**
   * One entry per publisher, in iteration order, holding every exploded URL
   * of its rows, nulls included; the None publisher gets an empty list.
   */
  lemma {:induction false} GroupedSpec(rows: seq<UrlRow>, order: seq<Value>)
    ensures forall k :: 0 <= k < |order| ==> Grouped(rows, order)[k] == PublisherUrls(order[k], UrlsOf(rows, order[k]))
    ensures forall k :: 0 <= k < |order| && order[k].Null? ==> Grouped(rows, order)[k].urls == []
  {
    if order != [] {
      GroupedSpec(rows, order[..|order| - 1]);
      forall k | 0 <= k < |order| && order[k].Null? ensures Grouped(rows, order)[k].urls == [] {
        UrlsOfCollects(rows, order[k]);
      }
    }
  }

  /**
   * The checker's entries are these entries with nulls dropped, leaving out
   * those that end up empty.
   */
  lemma {:induction false} CheckerDropsNullsAndEmpties(rows: seq<UrlRow>, order: seq<Value>)
    ensures CheckerGrouping.Grouped(rows, order) == Filtered(Grouped(rows, order))
  {
    if order != [] {
      var init := order[..|order| - 1];
      CheckerDropsNullsAndEmpties(rows, init);
      var g := Grouped(rows, order);
      assert g[..|g| - 1] == Grouped(rows, init);
    }
  }

  /** Each entry with its nulls dropped, those left empty omitted. */
  function Filtered(g: seq<PublisherUrls>): seq<PublisherUrls> {
    if g == [] then []
    else
      var init := Filtered(g[..|g| - 1]);
      var last := g[|g| - 1];
      var urls := DropNa(last.urls);
      if urls != [] then init + [PublisherUrls(last.publisher, urls)] else init
  }
}
