/** The few PHP language and array rules the controller relies on. */
module Php {
  import opened Wrappers
  import Decimal
  import opened Json

  /** A string PHP treats as false: "" and "0". */
  predicate Falsy(s: string) {
    s == "" || s == "0"
  }

  /** `empty($v)` for a query parameter, which is absent (NULL) or a string. */
  predicate Empty(v: Option<string>) {
    v.None? || Falsy(v.value)
  }

  /** `array_filter($ms)` with no callback: keeps the truthy strings in order. */
  function ArrayFilter(ms: seq<string>): (r: seq<string>)
    ensures |r| <= |ms|
    ensures forall i :: 0 <= i < |r| ==> !Falsy(r[i])
    ensures forall m :: m in r <==> m in ms && !Falsy(m)
  {
    if |ms| == 0 then []
    else if Falsy(ms[0]) then ArrayFilter(ms[1..])
    else [ms[0]] + ArrayFilter(ms[1..])
  }

  lemma {:induction false} ArrayFilterAppend(a: seq<string>, b: seq<string>)
    ensures ArrayFilter(a + b) == ArrayFilter(a) + ArrayFilter(b)
  {
    if |a| > 0 {
      assert (a + b)[1..] == a[1..] + b;
      ArrayFilterAppend(a[1..], b);
    } else {
      assert a + b == b;
    }
  }

  /** The `(array)` cast of a decoded value: an object keeps its members,
      a list is keyed by its indices, NULL becomes the empty array and any
      other scalar becomes a one-element array under key 0. Integer keys
      are written as their decimal numerals. */
  function ToArray(v: Value): (a: map<string, Value>)
    ensures v.Object? ==> a == v.members
    ensures !v.Object? ==> forall k :: k in a ==> Decimal.IsNumeral(k)
    ensures v.List? ==> forall i :: 0 <= i < |v.items| ==> Decimal.Show(i) in a && a[Decimal.Show(i)] == v.items[i]
    ensures v.List? ==> forall k :: k in a ==> exists i :: 0 <= i < |v.items| && k == Decimal.Show(i)
    ensures v.Null? ==> a == map[]
    ensures !v.Object? && !v.List? && !v.Null? ==> a == map["0" := v]
  {
    match v
    case Null => map[]
    case Object(members) => members
    case List(items) =>
      Decimal.ShowInjective();
      map i | 0 <= i < |items| :: Decimal.Show(i) := items[i]
    case _ => map["0" := v]
  }

  /** `array_intersect_key($a, array_flip($keys))`: the entries of `a` whose
      key is one of `keys`, values untouched. */
  function IntersectKey(a: map<string, Value>, keys: set<string>): (r: map<string, Value>)
    ensures r.Keys == a.Keys * keys
    ensures forall k :: k in r ==> r[k] == a[k]
  {
    map k | k in a && k in keys :: a[k]
  }
}
