/**
 A string-keyed dictionary that remembers the order in which its keys were
 first inserted, as the splitter's dictionaries do: assigning to a key that is
 already present replaces its value and keeps its place, assigning to a new
 key appends it at the end.
 */
module Dicts {

  datatype Dict<V> = Dict(order: seq<string>, entries: map<string, V>) {

    /** The keys in `order` are distinct and are exactly the keys of `entries`. */
    ghost predicate Valid() {
      && (forall k :: k in entries <==> k in order)
      && (forall i, j :: 0 <= i < j < |order| ==> order[i] != order[j])
    }
  }

  /** The empty dictionary `{}`. */
  function Empty<V>(): (d: Dict<V>)
    ensures d.Valid() && d.entries.Keys == {} && |d.order| == 0
  {
    Dict([], map[])
  }

  /** The assignment `d[k] = v`. */
  function Put<V>(d: Dict<V>, k: string, v: V): (r: Dict<V>)
    requires d.Valid()
    ensures r.Valid()
    ensures r.entries.Keys == d.entries.Keys + {k}
    ensures k in r.entries && r.entries[k] == v
    ensures forall k' :: k' in d.entries && k' != k ==> r.entries[k'] == d.entries[k']
    // keys already present keep their place; a new key goes last
    ensures |d.order| <= |r.order| && r.order[..|d.order|] == d.order
    ensures k in d.entries ==> |r.order| == |d.order|
    ensures k !in d.entries ==> |r.order| == |d.order| + 1 && r.order[|d.order|] == k
  {
    Dict(if k in d.entries then d.order else d.order + [k], d.entries[k := v])
  }
}
