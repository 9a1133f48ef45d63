/** Python dictionaries whose iteration order is observable: a sequence of
    (key, value) entries in insertion order with no key repeated.  Assigning to
    an existing key keeps its position; assigning a new key appends it;
    `del` removes the entry.  Every such dictionary in the scheduler is keyed by
    names, so keys are strings. */
module OrderedMaps {
  import opened Collections

  type OMap<V> = seq<(string, V)>

  /** The keys in iteration order (`list(d.keys())`). */
  function Keys<V>(m: OMap<V>): (ks: seq<string>)
    ensures |ks| == |m|
    ensures forall i :: 0 <= i < |m| ==> ks[i] == m[i].0
  {
    if |m| == 0 then [] else [m[0].0] + Keys(m[1..])
  }

  /** `k in d` */
  predicate HasKey<V>(m: OMap<V>, k: string) {
    k in Keys(m)
  }

  /** No key occurs twice, as in every Python dictionary. */
  predicate WellFormed<V>(m: OMap<V>) {
    Distinct(Keys(m))
  }

  /** `d[k]` */
  function Get<V>(m: OMap<V>, k: string): (v: V)
    requires HasKey(m, k)
    ensures exists i :: 0 <= i < |m| && m[i] == (k, v)
  {
    if m[0].0 == k then m[0].1 else Get(m[1..], k)
  }

  /** In a well-formed map the value stored at an entry is what `d[k]` returns. */
  lemma {:induction false} GetAt<V>(m: OMap<V>, i: int)
    requires WellFormed(m) && 0 <= i < |m|
    ensures HasKey(m, m[i].0) && Get(m, m[i].0) == m[i].1
  {
    assert Keys(m)[i] == m[i].0;
    if i > 0 {
      assert Keys(m)[0] != Keys(m)[i];
      assert Keys(m[1..]) == Keys(m)[1..];
      assert WellFormed(m[1..]) by {
        forall p, q | 0 <= p < q < |m| - 1 ensures Keys(m[1..])[p] != Keys(m[1..])[q] {
          assert Keys(m)[p + 1] != Keys(m)[q + 1];
        }
      }
      GetAt(m[1..], i - 1);
    }
  }

  /** `d[k] = v` */
  function Put<V>(m: OMap<V>, k: string, v: V): (r: OMap<V>)
    ensures HasKey(m, k) ==> Keys(r) == Keys(m)
    ensures !HasKey(m, k) ==> r == m + [(k, v)]
    ensures HasKey(r, k)
    ensures forall k' :: k' != k ==> (HasKey(r, k') <==> HasKey(m, k'))
  {
    if |m| == 0 then [(k, v)]
    else if m[0].0 == k then
      KeysCons((k, v), m[1..]);
      KeysCons(m[0], m[1..]);
      assert m == [m[0]] + m[1..];
      [(k, v)] + m[1..]
    else
      var t := Put(m[1..], k, v);
      KeysCons(m[0], t);
      KeysCons(m[0], m[1..]);
      assert m == [m[0]] + m[1..];
      assert m + [(k, v)] == [m[0]] + (m[1..] + [(k, v)]);
      ConsSameKeys(m[0], t, m[1..], k);
      [m[0]] + t
  }

  /** Putting the same entry in front of two maps that agree on every key but
      `k` gives two maps that again agree on every key but `k`. */
  lemma ConsSameKeys<V>(e: (string, V), t: OMap<V>, u: OMap<V>, k: string)
    requires forall k' :: k' != k ==> (HasKey(t, k') <==> HasKey(u, k'))
    ensures forall k' :: k' != k ==> (HasKey([e] + t, k') <==> HasKey([e] + u, k'))
  {
    KeysCons(e, t);
    KeysCons(e, u);
    forall k' | k' != k ensures HasKey([e] + t, k') <==> HasKey([e] + u, k') {
      assert HasKey(t, k') <==> HasKey(u, k');
      assert k' in [e.0] + Keys(t) <==> k' == e.0 || k' in Keys(t);
      assert k' in [e.0] + Keys(u) <==> k' == e.0 || k' in Keys(u);
    }
  }

  lemma KeysCons<V>(e: (string, V), t: OMap<V>)
    ensures Keys([e] + t) == [e.0] + Keys(t)
  {
    assert ([e] + t)[1..] == t;
  }

  /** `del d[k]` (and nothing when `k` is absent). */
  function Remove<V>(m: OMap<V>, k: string): (r: OMap<V>)
    ensures !HasKey(r, k)
    ensures forall k' :: k' != k ==> (HasKey(r, k') <==> HasKey(m, k'))
    ensures |r| <= |m|
  {
    if |m| == 0 then []
    else
      var t := Remove(m[1..], k);
      assert Keys(m) == [m[0].0] + Keys(m[1..]);
      if m[0].0 == k then t
      else
        var r := [m[0]] + t;
        assert r[1..] == t;
        assert Keys(r) == [m[0].0] + Keys(t);
        assert forall k' :: HasKey(r, k') <==> k' == m[0].0 || HasKey(t, k');
        assert forall k' :: HasKey(m, k') <==> k' == m[0].0 || HasKey(m[1..], k');
        r
  }

  /** After `d[k] = v`, `d[k]` is `v`. */
  lemma {:induction false} PutGet<V>(m: OMap<V>, k: string, v: V)
    ensures Get(Put(m, k, v), k) == v
  {
    if |m| > 0 && m[0].0 != k {
      PutGet(m[1..], k, v);
      assert Put(m, k, v)[1..] == Put(m[1..], k, v);
    }
  }

  /** Assigning one key leaves the value of every other key alone. */
  lemma {:induction false} PutOther<V>(m: OMap<V>, k: string, v: V, k': string)
    requires k' != k && HasKey(m, k')
    ensures Get(Put(m, k, v), k') == Get(m, k')
  {
    if m[0].0 != k && m[0].0 != k' {
      assert Keys(m) == [m[0].0] + Keys(m[1..]);
      PutOther(m[1..], k, v, k');
      assert Put(m, k, v)[1..] == Put(m[1..], k, v);
    }
  }

  /** Deleting one key leaves the value of every other key alone. */
  lemma {:induction false} RemoveOther<V>(m: OMap<V>, k: string, k': string)
    requires k' != k && HasKey(m, k')
    ensures Get(Remove(m, k), k') == Get(m, k')
  {
    assert Keys(m) == [m[0].0] + Keys(m[1..]);
    if m[0].0 == k {
      RemoveOther(m[1..], k, k');
    } else if m[0].0 != k' {
      RemoveOther(m[1..], k, k');
      assert Remove(m, k)[1..] == Remove(m[1..], k);
    }
  }

  /** The key set of a map, as Python's `d.keys()` viewed as a set. */
  function KeySet<V>(m: OMap<V>): set<string> {
    SetOf(Keys(m))
  }

  lemma {:induction false} WellFormedTail<V>(m: OMap<V>)
    requires |m| > 0 && WellFormed(m)
    ensures WellFormed(m[1..]) && !HasKey(m[1..], m[0].0)
  {
    assert Keys(m[1..]) == Keys(m)[1..];
    DistinctTail(Keys(m));
  }

  /** Assignment keeps a map free of repeated keys. */
  lemma PutWellFormed<V>(m: OMap<V>, k: string, v: V)
    requires WellFormed(m)
    ensures WellFormed(Put(m, k, v))
  {
    if !HasKey(m, k) {
      var r := m + [(k, v)];
      assert Keys(r) == Keys(m) + [k];
      forall p, q | 0 <= p < q < |r| ensures Keys(r)[p] != Keys(r)[q] {
        if q == |m| { assert Keys(r)[p] == Keys(m)[p]; }
      }
    }
  }

  /** Deletion keeps a map free of repeated keys. */
  lemma {:induction false} RemoveWellFormed<V>(m: OMap<V>, k: string)
    requires WellFormed(m)
    ensures WellFormed(Remove(m, k))
  {
    if |m| > 0 {
      WellFormedTail(m);
      RemoveWellFormed(m[1..], k);
      if m[0].0 != k {
        var t := Remove(m[1..], k);
        var r := [m[0]] + t;
        assert Remove(m, k) == r;
        assert Keys(r) == [m[0].0] + Keys(t);
        assert m[0].0 !in Keys(t);
        forall p, q | 0 <= p < q < |r| ensures Keys(r)[p] != Keys(r)[q] {
          assert Keys(r)[q] == Keys(t)[q - 1];
          if p > 0 { assert Keys(r)[p] == Keys(t)[p - 1]; }
        }
      }
    }
  }

  /** Inserting a fresh key and deleting it again gives back the original map. */
  lemma {:induction false} RemoveAppended<V>(m: OMap<V>, k: string, v: V)
    requires !HasKey(m, k)
    ensures Remove(m + [(k, v)], k) == m
  {
    if |m| > 0 {
      assert Keys(m) == [m[0].0] + Keys(m[1..]);
      assert (m + [(k, v)])[1..] == m[1..] + [(k, v)];
      RemoveAppended(m[1..], k, v);
      assert [m[0]] + m[1..] == m;
    } else {
      assert (m + [(k, v)])[1..] == [];
    }
  }

  /** Deleting a key leaves the map empty exactly when that was its only key. */
  lemma RemoveEmpty<V>(m: OMap<V>, k: string)
    requires HasKey(m, k)
    ensures Remove(m, k) == [] <==> KeySet(m) == {k}
  {
    var r := Remove(m, k);
    if r == [] {
      forall k' | k' in KeySet(m) ensures k' == k {
        assert HasKey(m, k');
      }
    } else {
      var k0 := r[0].0;
      assert Keys(r)[0] == k0;
      assert HasKey(r, k0);
      assert HasKey(m, k0) && k0 != k;
      assert k0 in KeySet(m);
    }
  }

  /** The entries left by `del d[k]` are the other keys' entries. */
  lemma {:induction false} RemoveEntries<V>(m: OMap<V>, k: string, e: (string, V))
    ensures e in Remove(m, k) <==> e in m && e.0 != k
  {
    if |m| > 0 {
      RemoveEntries(m[1..], k, e);
      assert m == [m[0]] + m[1..];
      if m[0].0 != k { assert Remove(m, k) == [m[0]] + Remove(m[1..], k); }
    }
  }

  /** In a well-formed map an entry for `k` holds the value `d[k]`. */
  lemma EntryGet<V>(m: OMap<V>, e: (string, V))
    requires WellFormed(m) && e in m
    ensures HasKey(m, e.0) && Get(m, e.0) == e.1
  {
    var i :| 0 <= i < |m| && m[i] == e;
    GetAt(m, i);
  }
}
