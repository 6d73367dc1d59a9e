/**
 * The parsed JSON document. An object keeps its members in document order, as
 * a sequence of (key, value) pairs; a mapping built from such a sequence is an
 * association list, and `Lookup` is its `dict.get`.
 */
module JsonValue {
  import opened Wrappers

  datatype Json =
    | JNull
    | JBool(b: bool)
    | JNumber(lexeme: string)
    | JString(str: string)
    | JArray(items: seq<Json>)
    | JObject(members: seq<(string, Json)>)

  /** A mapping from strings to `V` that remembers insertion order. */
  type Assoc<V> = seq<(string, V)>

  /** The keys of `a`, in order; they repeat nowhere exactly when `a` has unique keys. */
  function Keys<V>(a: Assoc<V>): (ks: seq<string>)
    ensures UniqueKeys(a) <==> forall i, j | 0 <= i < j < |ks| :: ks[i] != ks[j]
  {
    var ks := seq(|a|, i requires 0 <= i < |a| => a[i].0);
    assert forall i | 0 <= i < |a| :: ks[i] == a[i].0;
    ks
  }

  /** No key occurs twice, as in a Python dict. */
  predicate UniqueKeys<V>(a: Assoc<V>) {
    forall i, j | 0 <= i < j < |a| :: a[i].0 != a[j].0
  }

  /** The value stored under `k`, or `None` when `k` is not a key. */
  function Lookup<V>(a: Assoc<V>, k: string): (r: Option<V>)
    ensures r == None <==> forall i | 0 <= i < |a| :: a[i].0 != k
    ensures r.Some? ==> exists i | 0 <= i < |a| :: a[i] == (k, r.value)
    ensures UniqueKeys(a) ==> forall i | 0 <= i < |a| && a[i].0 == k :: r == Some(a[i].1)
  {
    if a == [] then None
    else if a[0].0 == k then Some(a[0].1)
    else Lookup(a[1..], k)
  }
}
