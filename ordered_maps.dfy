/**
 * A JavaScript plain object used as a dictionary: string keys enumerated in
 * insertion order (`Object.entries`, `for … in`). Assigning to a key that
 * is present keeps its place; assigning to a new key appends it.
 */
module OrderedMaps {

  /** No element occurs twice in `ks`. */
  predicate Distinct<K(==)>(ks: seq<K>) {
    forall i, j | 0 <= i < j < |ks| :: ks[i] != ks[j]
  }

  /** Appending an element not yet present keeps a sequence distinct. */
  lemma DistinctSnoc<K>(ks: seq<K>, k: K)
    requires Distinct(ks) && k !in ks
    ensures Distinct(ks + [k])
  {
  }

  /** The element at `i` occurs nowhere before it, and the prefix is distinct too. */
  lemma DistinctPrefix<K>(ks: seq<K>, i: nat)
    requires Distinct(ks) && i < |ks|
    ensures ks[i] !in ks[..i] && Distinct(ks[..i + 1])
  {
  }

  /** Two positions of a distinct sequence hold different elements. */
  lemma DistinctIndices<K>(ks: seq<K>, i: nat, j: nat)
    requires Distinct(ks) && i < j < |ks|
    ensures ks[i] != ks[j]
  {
  }

  /** Distinct sequences with no common element concatenate to a distinct one. */
  lemma DistinctConcat<K>(xs: seq<K>, ys: seq<K>)
    requires Distinct(xs) && Distinct(ys)
    requires forall i | 0 <= i < |ys| :: ys[i] !in xs
    ensures Distinct(xs + ys)
  {
  }

  datatype OrderedMap<V> = OrderedMap(keys: seq<string>, entries: map<string, V>) {

    /** Keys are enumerated once each, and exactly the keys of `entries` are. */
    predicate Valid() {
      && Distinct(keys)
      && (forall k | k in entries :: k in keys)
      && (forall i | 0 <= i < |keys| :: keys[i] in entries)
    }

    /** `object[k] = v`. */
    function Put(k: string, v: V): (r: OrderedMap<V>)
      requires Valid()
      ensures r.Valid()
      ensures r.entries == entries[k := v]
      ensures k in entries ==> r.keys == keys
      ensures k !in entries ==> r.keys == keys + [k]
    {
      if k in entries then OrderedMap(keys, entries[k := v])
      else
        var r := OrderedMap(keys + [k], entries[k := v]);
        assert r.keys[..|r.keys| - 1] == keys;
        r
    }
  }

  /** Assigning to a key twice is assigning the second value once. */
  lemma PutTwice<V>(m: OrderedMap<V>, k: string, v1: V, v2: V)
    requires m.Valid()
    ensures m.Put(k, v1).Put(k, v2) == m.Put(k, v2)
  {
    assert m.entries[k := v1][k := v2] == m.entries[k := v2];
  }

  /** A distinct key sequence listing exactly the keys of a map makes a valid ordered map. */
  lemma ValidWhen<V>(keys: seq<string>, entries: map<string, V>)
    requires Distinct(keys)
    requires forall k {:trigger k in keys} {:trigger k in entries} :: k in keys <==> k in entries
    ensures OrderedMap(keys, entries).Valid()
  {
    forall i | 0 <= i < |keys| ensures keys[i] in entries {
      assert keys[i] in keys;
    }
  }

  /** `{}`. */
  function Empty<V>(): (r: OrderedMap<V>)
    ensures r.Valid() && r.keys == [] && r.entries == map[]
  {
    OrderedMap([], map[])
  }
}
