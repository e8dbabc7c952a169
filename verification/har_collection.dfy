/**
 * `Readme::HarCollection`: a hash plus the filter to apply to it, viewed
 * either as the filtered hash (`to_h`) or as HAR's array of
 * `{name, value}` pairs (`to_a`). The filter is whatever object is
 * injected, so it is modelled as an arbitrary function on hashes.
 */
module HarCollections {
  import opened Wrappers
  import opened RubyHash

  /** One element of a HAR `headers` or `cookies` array. */
  datatype NameValue<K, V> = NameValue(name: K, value: V)

  datatype HarCollection<!K, !V> = HarCollection(filter: Hash<K, V> -> Hash<K, V>, hash: Hash<K, V>)

  /** `to_h`: the filter's output for the wrapped hash. */
  function ToH<K, V>(c: HarCollection<K, V>): (r: Hash<K, V>)
    ensures r == c.filter(c.hash)
  {
    c.filter(c.hash)
  }

  /** `to_a`: `to_h` projected pairwise into `{name, value}` elements. */
  function ToA<K, V>(c: HarCollection<K, V>): (r: seq<NameValue<K, V>>)
    ensures |r| == |ToH(c)|
    ensures forall i :: 0 <= i < |r| ==> r[i].name == ToH(c)[i].key && r[i].value == ToH(c)[i].value
  {
    Pairs(ToH(c))
  }

  /** The `{name, value}` projection of a hash: one pair per entry, key unchanged, same order. */
  function Pairs<K, V>(h: Hash<K, V>): (r: seq<NameValue<K, V>>)
    ensures |r| == |h|
    ensures forall i :: 0 <= i < |r| ==> r[i].name == h[i].key && r[i].value == h[i].value
  {
    if |h| == 0 then [] else [NameValue(h[0].key, h[0].value)] + Pairs(h[1..])
  }

  /** The inverse projection: a `{name, value}` array read back as a hash. */
  function Unpairs<K, V>(ps: seq<NameValue<K, V>>): (h: Hash<K, V>)
    ensures |h| == |ps|
    ensures forall i :: 0 <= i < |h| ==> h[i].key == ps[i].name && h[i].value == ps[i].value
  {
    if |ps| == 0 then [] else [Entry(ps[0].name, ps[0].value)] + Unpairs(ps[1..])
  }

  /** `to_a` loses nothing: reading the pairs back gives `to_h`. */
  lemma {:induction false} PairsRoundTrip<K, V>(h: Hash<K, V>)
    ensures Unpairs(Pairs(h)) == h
  {
    if |h| > 0 {
      PairsRoundTrip(h[1..]);
      assert Pairs(h)[1..] == Pairs(h[1..]);
    }
  }

  /** And every pair array is the projection of the hash it reads back as. */
  lemma {:induction false} UnpairsRoundTrip<K, V>(ps: seq<NameValue<K, V>>)
    ensures Pairs(Unpairs(ps)) == ps
  {
    if |ps| > 0 {
      UnpairsRoundTrip(ps[1..]);
      assert Unpairs(ps)[1..] == Unpairs(ps[1..]);
    }
  }

  /** A pair appears in `to_a` exactly when the entry is in `to_h`. */
  lemma ToAHasExactlyToHEntries<K, V>(c: HarCollection<K, V>, k: K, v: V)
    ensures NameValue(k, v) in ToA(c) <==> Entry(k, v) in ToH(c)
  {
    var r, h := ToA(c), ToH(c);
    if NameValue(k, v) in r {
      var i :| 0 <= i < |r| && r[i] == NameValue(k, v);
      assert h[i] == Entry(k, v);
    }
    if Entry(k, v) in h {
      var i :| 0 <= i < |h| && h[i] == Entry(k, v);
      assert r[i] == NameValue(k, v);
    }
  }

  /** A name occurs in `to_a` exactly when `to_h` has that key, and then with `to_h`'s value. */
  lemma ToANamesAreToHKeys<K, V>(c: HarCollection<K, V>, k: K)
    requires UniqueKeys(ToH(c))
    ensures (exists i :: 0 <= i < |ToA(c)| && ToA(c)[i].name == k) <==> Lookup(ToH(c), k).Some?
    ensures forall i :: 0 <= i < |ToA(c)| && ToA(c)[i].name == k ==> Lookup(ToH(c), k) == Some(ToA(c)[i].value)
  {
    var r, h := ToA(c), ToH(c);
    forall i | 0 <= i < |r| && r[i].name == k ensures Lookup(h, k) == Some(r[i].value) {
      assert h[i] == Entry(k, r[i].value);
      LookupFindsEntry(h, k, r[i].value);
    }
    if Lookup(h, k).Some? {
      var v := Lookup(h, k).value;
      var i :| 0 <= i < |h| && h[i] == Entry(k, v);
      assert r[i].name == k;
    }
  }
}
