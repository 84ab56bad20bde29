/** A Python `dict` with string keys: a value map plus the order in which the
    keys were first inserted, which is the order the dict iterates in. */
module Ordered {

  datatype ODict<V> = ODict(keys: seq<string>, vals: map<string, V>)

  /** The keys are distinct and are exactly the keys of the value map. */
  ghost predicate Valid<V>(d: ODict<V>)
  {
    && (forall i, j :: 0 <= i < j < |d.keys| ==> d.keys[i] != d.keys[j])
    && (forall k :: k in d.vals <==> k in d.keys)
  }

  /** Every key the dict iterates over can be looked up: all that a loop over the dict needs. */
  ghost predicate Keyed<V>(d: ODict<V>)
  {
    forall k :: k in d.keys ==> k in d.vals
  }

  function Empty<V>(): (d: ODict<V>)
    ensures Valid(d) && d.keys == []
  {
    ODict([], map[])
  }

  /** Storing `v` under `k`: a new key goes to the end; an existing key keeps its place and
      only its value changes. */
  function Put<V>(d: ODict<V>, k: string, v: V): (r: ODict<V>)
    requires Valid(d)
    ensures Valid(r)
    ensures k in r.vals && r.vals[k] == v
    ensures forall k' :: k' != k ==> (k' in r.vals <==> k' in d.vals)
    ensures forall k' :: k' != k && k' in d.vals ==> r.vals[k'] == d.vals[k']
    ensures |d.keys| <= |r.keys| <= |d.keys| + 1 && r.keys[..|d.keys|] == d.keys
    ensures |r.keys| == |d.keys| + 1 <==> k !in d.vals
  {
    if k in d.vals then ODict(d.keys, d.vals[k := v]) else ODict(d.keys + [k], d.vals[k := v])
  }

  /** The distinct elements of `s` in the order of their first occurrence. */
  function FirstOccurrences(s: seq<string>): seq<string>
    decreases |s|
  {
    if s == [] then []
    else
      var prefix := s[..|s| - 1];
      FirstOccurrences(prefix) + (if s[|s| - 1] in prefix then [] else [s[|s| - 1]])
  }

  lemma {:induction false} FirstOccurrencesMembers(s: seq<string>)
    ensures forall x :: x in FirstOccurrences(s) <==> x in s
    decreases |s|
  {
    if s != [] {
      FirstOccurrencesMembers(s[..|s| - 1]);
      assert s == s[..|s| - 1] + [s[|s| - 1]];
    }
  }
}
