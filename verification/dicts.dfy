/** Python dictionaries with string keys: insertion-ordered, and assigning to
    an existing key keeps the key's original position. */
module Dicts {

  datatype RawDict<V> = RawDict(keys: seq<string>, vals: map<string, V>)

  /** Keys are listed once each, in insertion order, and are exactly the mapped keys. */
  predicate DictInv<V>(d: RawDict<V>) {
    && (forall i, j :: 0 <= i < j < |d.keys| ==> d.keys[i] != d.keys[j])
    && d.vals.Keys == set k | k in d.keys
  }

  type Dict<V> = d: RawDict<V> | DictInv(d) witness RawDict([], map[])

  function Empty<V>(): Dict<V> {
    RawDict([], map[])
  }

  /** `{k: v}` */
  function Single<V>(k: string, v: V): Dict<V> {
    RawDict([k], map[k := v])
  }

  /** `d[k] = v` */
  function Put<V>(d: Dict<V>, k: string, v: V): (r: Dict<V>)
    ensures r.vals == d.vals[k := v]
    ensures k in d.vals ==> r.keys == d.keys
    ensures k !in d.vals ==> r.keys == d.keys + [k]
  {
    if k in d.vals then RawDict(d.keys, d.vals[k := v])
    else RawDict(d.keys + [k], d.vals[k := v])
  }

  /** `list(d.values())`, in key order. */
  function Values<V>(d: Dict<V>): (vs: seq<V>)
    ensures |vs| == |d.keys|
  {
    seq(|d.keys|, i requires 0 <= i < |d.keys| => assert d.keys[i] in d.vals; d.vals[d.keys[i]])
  }

  /** `list(d.items())`, in key order. */
  function Items<V>(d: Dict<V>): (ps: seq<(string, V)>)
    ensures |ps| == |d.keys|
    ensures forall i :: 0 <= i < |ps| ==> ps[i].0 == d.keys[i] && ps[i].0 in d.vals && ps[i].1 == d.vals[ps[i].0]
  {
    seq(|d.keys|, i requires 0 <= i < |d.keys| => assert d.keys[i] in d.vals; (d.keys[i], d.vals[d.keys[i]]))
  }

  /** Assigning to a key that is present updates its pair where it stands;
      assigning to a new key appends one pair at the end. */
  lemma PutItems<V>(d: Dict<V>, k: string, v: V)
    ensures k in d.vals ==> |Items(Put(d, k, v))| == |Items(d)|
    ensures k in d.vals ==> forall i :: 0 <= i < |Items(d)| ==>
      Items(Put(d, k, v))[i] == (if d.keys[i] == k then (k, v) else Items(d)[i])
    ensures k !in d.vals ==> Items(Put(d, k, v)) == Items(d) + [(k, v)]
  {
  }
}
