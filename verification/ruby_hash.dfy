/**
 * Ruby's Hash as the core sees it: an insertion-ordered list of key/value
 * entries. Order matters because `to_a` lists entries in hash order; the
 * unordered Dafny `map` view is `ToMap`.
 */
module RubyHash {
  import opened Wrappers

  datatype Entry<K, V> = Entry(key: K, value: V)

  type Hash<K, V> = seq<Entry<K, V>>

  /** The set of keys present in `h`. */
  ghost function KeySet<K, V>(h: Hash<K, V>): set<K> {
    set e | e in h :: e.key
  }

  /** A Ruby Hash never holds the same key twice. */
  ghost predicate UniqueKeys<K, V>(h: Hash<K, V>) {
    forall i, j :: 0 <= i < j < |h| ==> h[i].key != h[j].key
  }

  /** `h[k]`: the value stored under `k`, or `None` (Ruby's nil) when absent. */
  function Lookup<K(==), V>(h: Hash<K, V>, k: K): (r: Option<V>)
    ensures r.Some? <==> k in KeySet(h)
    ensures r.Some? ==> Entry(k, r.value) in h
  {
    if |h| == 0 then None
    else if h[0].key == k then Some(h[0].value)
    else Lookup(h[1..], k)
  }

  /** In a hash with unique keys, every entry is what `Lookup` finds for its key. */
  lemma {:induction false} LookupFindsEntry<K, V>(h: Hash<K, V>, k: K, v: V)
    requires UniqueKeys(h)
    ensures Entry(k, v) in h <==> Lookup(h, k) == Some(v)
  {
    if |h| > 0 {
      assert UniqueKeys(h[1..]) by {
        forall i, j | 0 <= i < j < |h| - 1 ensures h[1..][i].key != h[1..][j].key {
          assert h[1..][i] == h[i + 1] && h[1..][j] == h[j + 1];
        }
      }
      LookupFindsEntry(h[1..], k, v);
    }
  }

  /** The unordered view of `h` as a Dafny map. */
  ghost function ToMap<K, V>(h: Hash<K, V>): (m: map<K, V>)
    ensures m.Keys == KeySet(h)
    ensures forall k :: k in m ==> Lookup(h, k) == Some(m[k])
  {
    map k | k in KeySet(h) :: Lookup(h, k).value
  }
}
