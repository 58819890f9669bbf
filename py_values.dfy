/**
 * The Python values the loaders handle, as one closed datatype.
 *
 * A JSON document decodes to Null, Bool, Int, Str, List and Dict values;
 * pydantic validation turns JSON objects into Model instances; Enum members
 * appear inside models.  Dicts and models keep their entries in insertion
 * (declaration) order, as Python 3.7+ dicts do.
 */
module PyValues {
  import opened Wrappers

  datatype Value =
    | Null                        // None, and pandas' NaN
    | Bool(b: bool)
    | Int(i: int)
    | Str(s: string)
    | Enum(code: string)          // an Enum member whose `.value` is `code`
    | List(items: seq<Value>)
    | Model(fields: seq<Entry>)   // a pydantic model instance
    | Dict(entries: seq<Entry>)   // a plain dict

  datatype Entry = Entry(key: string, val: Value)

  /** Python's truth value of a value: None, False, 0, "", [] and {} are falsy. */
  predicate Truthy(v: Value) {
    match v
    case Null => false
    case Bool(b) => b
    case Int(i) => i != 0
    case Str(s) => s != ""
    case Enum(_) => true
    case List(xs) => xs != []
    case Model(_) => true
    case Dict(es) => es != []
  }

  /** `len(v)` for the values that have one: strings, lists and dicts. */
  function Len(v: Value): (r: Option<nat>)
    ensures r.Some? <==> v.Str? || v.List? || v.Dict?
  {
    match v
    case Str(s) => Some(|s|)
    case List(xs) => Some(|xs|)
    case Dict(es) => Some(|es|)
    case _ => None
  }

  function Keys(es: seq<Entry>): (ks: seq<string>)
    ensures |ks| == |es|
  {
    if es == [] then [] else [es[0].key] + Keys(es[1..])
  }

  lemma {:induction false} KeysAt(es: seq<Entry>, i: nat)
    requires i < |es|
    ensures Keys(es)[i] == es[i].key
  {
    if i > 0 {
      KeysAt(es[1..], i - 1);
    }
  }

  lemma {:induction false} KeysAppend(a: seq<Entry>, b: seq<Entry>)
    ensures Keys(a + b) == Keys(a) + Keys(b)
  {
    if a == [] {
      assert a + b == b;
    } else {
      assert (a + b)[1..] == a[1..] + b;
      assert (a + b)[0] == a[0];
      KeysAppend(a[1..], b);
    }
  }

  predicate NoDuplicates<T(==)>(xs: seq<T>) {
    forall i, j :: 0 <= i < j < |xs| ==> xs[i] != xs[j]
  }

  /** A Python dict never holds a key twice. */
  predicate UniqueKeys(es: seq<Entry>) {
    NoDuplicates(Keys(es))
  }

  /** `d.get(k)`: the value stored under `k`, if any. */
  function Get(es: seq<Entry>, k: string): (r: Option<Value>)
    ensures r.Some? <==> k in Keys(es)
  {
    if es == [] then None
    else if es[0].key == k then Some(es[0].val)
    else Get(es[1..], k)
  }

  /** `d[k] = v`: overwrite `k` where it stands, or append it at the end. */
  function Put(es: seq<Entry>, k: string, v: Value): (r: seq<Entry>)
    ensures Get(r, k) == Some(v)
    ensures forall k' :: k' != k ==> Get(r, k') == Get(es, k')
    ensures Keys(r) == if k in Keys(es) then Keys(es) else Keys(es) + [k]
  {
    if es == [] then [Entry(k, v)]
    else if es[0].key == k then
      KeysCons(Entry(k, v), es[1..]);
      KeysCons(es[0], es[1..]);
      assert es == [es[0]] + es[1..];
      [Entry(k, v)] + es[1..]
    else
      var tail := Put(es[1..], k, v);
      KeysCons(es[0], tail);
      KeysCons(es[0], es[1..]);
      assert es == [es[0]] + es[1..];
      [es[0]] + tail
  }

  lemma KeysCons(e: Entry, t: seq<Entry>)
    ensures Keys([e] + t) == [e.key] + Keys(t)
    ensures forall k :: Get([e] + t, k) == if e.key == k then Some(e.val) else Get(t, k)
  {
    assert ([e] + t)[1..] == t;
  }

  /** The last entry of a dict and the entries before it. */
  lemma {:induction false} SplitLast(other: seq<Entry>)
    requires UniqueKeys(other) && other != []
    ensures var init := other[..|other| - 1];
      var last := other[|other| - 1];
      && UniqueKeys(init)
      && last.key !in Keys(init)
      && Keys(other) == Keys(init) + [last.key]
      && (forall k :: k in Keys(init) ==> Get(other, k) == Get(init, k))
      && Get(other, last.key) == Some(last.val)
  {
    var last := other[|other| - 1];
    var init := other[..|other| - 1];
    assert other == init + [last];
    KeysAppend(init, [last]);
    assert Keys(other) == Keys(init) + [last.key];
    assert UniqueKeys(init) by {
      assert forall i :: 0 <= i < |init| ==> Keys(init)[i] == Keys(other)[i];
    }
    assert last.key !in Keys(init) by {
      assert Keys(other)[|other| - 1] == last.key;
      forall j | 0 <= j < |init| ensures Keys(init)[j] != last.key {
        assert Keys(init)[j] == Keys(other)[j];
      }
    }
    forall k | k in Keys(init) ensures Get(other, k) == Get(init, k) {
      GetPrefix(init, [last], k);
    }
    GetSuffix(init, [last], last.key);
  }

  /** `d.update(other)`: every entry of `other` is put into `d`, in order. */
  function Update(es: seq<Entry>, other: seq<Entry>): (r: seq<Entry>)
    requires UniqueKeys(other)
    ensures forall k :: Get(r, k) == if k in Keys(other) then Get(other, k) else Get(es, k)
    ensures forall k :: k in Keys(r) <==> k in Keys(es) || k in Keys(other)
    decreases |other|
  {
    if other == [] then es
    else
      var last := other[|other| - 1];
      var init := other[..|other| - 1];
      SplitLast(other);
      Put(Update(es, init), last.key, last.val)
  }

  lemma {:induction false} GetPrefix(a: seq<Entry>, b: seq<Entry>, k: string)
    requires k in Keys(a)
    ensures Get(a + b, k) == Get(a, k)
  {
    if a[0].key != k {
      assert (a + b)[1..] == a[1..] + b;
      GetPrefix(a[1..], b, k);
    }
  }

  lemma {:induction false} GetSuffix(a: seq<Entry>, b: seq<Entry>, k: string)
    requires k !in Keys(a)
    ensures Get(a + b, k) == Get(b, k)
  {
    if a == [] {
      assert a + b == b;
    } else {
      assert (a + b)[1..] == a[1..] + b;
      assert Keys(a) == [a[0].key] + Keys(a[1..]);
      GetSuffix(a[1..], b, k);
    }
  }

  /** No model instance occurs anywhere inside the value. */
  predicate IsPlain(v: Value) {
    match v
    case Model(_) => false
    case List(xs) => forall i :: 0 <= i < |xs| ==> IsPlain(xs[i])
    case Dict(es) => forall i :: 0 <= i < |es| ==> IsPlain(es[i].val)
    case _ => true
  }

  /**
   * pydantic's `.dict()` applied below a model: every nested model becomes a
   * plain dict of its fields, recursively through lists and dicts; Enum
   * members are kept as they are.
   */
  function ToPlain(v: Value): (r: Value)
    decreases v
    ensures IsPlain(r)
    ensures v.Model? ==> r.Dict? && Keys(r.entries) == Keys(v.fields)
    ensures v.Dict? ==> r.Dict? && Keys(r.entries) == Keys(v.entries)
    ensures v.List? ==> r.List? && |r.items| == |v.items|
    ensures !v.Model? && !v.Dict? && !v.List? ==> r == v
  {
    match v
    case Model(fs) => Dict(ToPlainEntries(fs))
    case Dict(es) => Dict(ToPlainEntries(es))
    case List(xs) => List(seq(|xs|, i requires 0 <= i < |xs| => ToPlain(xs[i])))
    case _ => v
  }

  function ToPlainEntries(es: seq<Entry>): (r: seq<Entry>)
    ensures |r| == |es| && Keys(r) == Keys(es)
    ensures forall i :: 0 <= i < |r| ==> IsPlain(r[i].val)
    decreases es
  {
    if es == [] then []
    else
      var tail := ToPlainEntries(es[1..]);
      KeysCons(Entry(es[0].key, ToPlain(es[0].val)), tail);
      KeysCons(es[0], es[1..]);
      assert es == [es[0]] + es[1..];
      [Entry(es[0].key, ToPlain(es[0].val))] + tail
  }
}
