/**
 * `Filter.for(reject: [...])`: a policy naming the hash keys to drop.
 * Applying it removes every entry whose key is rejected (the entry is
 * gone, not replaced by a marker) and keeps the others in their order.
 */
module Filters {
  import opened Wrappers
  import opened RubyHash

  datatype Filter = RejectKeys(reject: set<string>)

  /** `Filter.for(reject: keys)`; `For([])` is `Filter.for` with no arguments. */
  function For(keys: seq<string>): (f: Filter)
    ensures forall k :: k in f.reject <==> k in keys
  {
    RejectKeys(set k | k in keys)
  }

  /** `filter.filter(hash)`: the entries of `h` whose key is not rejected, in order. */
  function Apply<V>(f: Filter, h: Hash<string, V>): (r: Hash<string, V>)
    ensures |r| <= |h|
  {
    if |h| == 0 then []
    else if h[0].key in f.reject then Apply(f, h[1..])
    else [h[0]] + Apply(f, h[1..])
  }

  /** An entry survives filtering exactly when it was there and its key is not rejected. */
  lemma {:induction false} ApplyMembers<V>(f: Filter, h: Hash<string, V>, e: Entry<string, V>)
    ensures e in Apply(f, h) <==> e in h && e.key !in f.reject
  {
    if |h| > 0 {
      ApplyMembers(f, h[1..], e);
      assert h == [h[0]] + h[1..];
    }
  }

  /** Looking a key up after filtering: rejected keys are absent, every other key is untouched. */
  lemma {:induction false} ApplyLookup<V>(f: Filter, h: Hash<string, V>, k: string)
    ensures Lookup(Apply(f, h), k) == if k in f.reject then None else Lookup(h, k)
  {
    if |h| > 0 {
      ApplyLookup(f, h[1..], k);
    }
  }

  /** As a Dafny map, filtering is exactly key removal. */
  lemma {:induction false} ApplyIsKeyRemoval<V>(f: Filter, h: Hash<string, V>)
    ensures ToMap(Apply(f, h)) == ToMap(h) - f.reject
  {
    forall k ensures Lookup(Apply(f, h), k) == if k in f.reject then None else Lookup(h, k) {
      ApplyLookup(f, h, k);
    }
  }

  /** Filtering works entry by entry, so it keeps the hash's order. */
  lemma {:induction false} ApplyAppend<V>(f: Filter, a: Hash<string, V>, b: Hash<string, V>)
    ensures Apply(f, a + b) == Apply(f, a) + Apply(f, b)
  {
    if |a| > 0 {
      assert (a + b)[1..] == a[1..] + b;
      ApplyAppend(f, a[1..], b);
    } else {
      assert a + b == b;
    }
  }

  /** A filtered hash still has unique keys. */
  lemma {:induction false} ApplyKeepsUniqueKeys<V>(f: Filter, h: Hash<string, V>)
    requires UniqueKeys(h)
    ensures UniqueKeys(Apply(f, h))
  {
    if |h| > 0 {
      var t := h[1..];
      assert UniqueKeys(t) by {
        forall i, j | 0 <= i < j < |t| ensures t[i].key != t[j].key {
          assert t[i] == h[i + 1] && t[j] == h[j + 1];
        }
      }
      ApplyKeepsUniqueKeys(f, t);
      if h[0].key !in f.reject {
        var r := Apply(f, h);
        var rt := Apply(f, t);
        assert r == [h[0]] + rt;
        forall j | 0 <= j < |rt| ensures rt[j].key != h[0].key {
          ApplyMembers(f, t, rt[j]);
          assert rt[j] in t;
          var m :| 0 <= m < |t| && t[m] == rt[j];
          assert t[m] == h[m + 1];
        }
        forall i, j | 0 <= i < j < |r| ensures r[i].key != r[j].key {
          if i > 0 {
            assert r[i] == rt[i - 1] && r[j] == rt[j - 1];
          } else {
            assert r[j] == rt[j - 1];
          }
        }
      }
    }
  }

  /** `Filter.for` with no arguments is the identity. */
  lemma {:induction false} EmptyFilterIsIdentity<V>(h: Hash<string, V>)
    ensures Apply(For([]), h) == h
  {
    if |h| > 0 {
      EmptyFilterIsIdentity(h[1..]);
    }
  }

  /** Filtering twice with the same policy is filtering once. */
  lemma {:induction false} ApplyIdempotent<V>(f: Filter, h: Hash<string, V>)
    ensures Apply(f, Apply(f, h)) == Apply(f, h)
  {
    if |h| > 0 {
      ApplyIdempotent(f, h[1..]);
    }
  }
}
