/** A JavaScript `Map<string, V>`: a finite map that also remembers the
    insertion order of its keys, a deleted key losing its place (set again,
    it goes last). `set` on a present key
    replaces the value in place, `delete` removes the key from the order,
    and iteration (`values()`) follows the order. */
module OrderedMaps {
  import opened Wrappers
  import Seqs

  datatype RawMap<V> = RawMap(keys: seq<string>, entries: map<string, V>)

  /** Each key listed once, and exactly the keys of `entries` listed. */
  ghost predicate Wf<V>(m: RawMap<V>) {
    && Seqs.Distinct(m.keys)
    && (forall k :: k in m.entries <==> k in m.keys)
  }

  type OrderedMap<V> = m: RawMap<V> | Wf(m) witness RawMap([], map[])

  function Empty<V>(): (r: OrderedMap<V>)
    ensures r.entries == map[]
  {
    RawMap([], map[])
  }

  /** `map.get(k)`. */
  function Get<V>(m: OrderedMap<V>, k: string): Option<V> {
    if k in m.entries then Some(m.entries[k]) else None
  }

  /** `map.set(k, v)`: afterwards `k` maps to `v`, every other key keeps its
      value, and the iteration order gains `k` at the end only if it was new. */
  function Set<V>(m: OrderedMap<V>, k: string, v: V): (r: OrderedMap<V>)
    ensures Get(r, k) == Some(v)
    ensures forall k' | k' != k :: Get(r, k') == Get(m, k')
    ensures r.entries.Keys == m.entries.Keys + {k}
    ensures k in m.entries ==> r.keys == m.keys
    ensures k !in m.entries ==> r.keys == m.keys + [k]
  {
    if k in m.entries then RawMap(m.keys, m.entries[k := v])
    else
      var ks := m.keys + [k];
      assert Seqs.Distinct(ks) by {
        assert k !in m.keys;
        forall i, j | 0 <= i < j < |ks| ensures ks[i] != ks[j] {
          if j == |m.keys| {
            assert ks[i] == m.keys[i];
          }
        }
      }
      RawMap(ks, m.entries[k := v])
  }

  /** `map.delete(k)`: reports whether `k` was present; afterwards `k` is
      absent, every other key keeps its value and its place in the order. */
  function Delete<V>(m: OrderedMap<V>, k: string): (r: (OrderedMap<V>, bool))
    ensures r.1 <==> k in m.entries
    ensures Get(r.0, k) == None
    ensures forall k' | k' != k :: Get(r.0, k') == Get(m, k')
    ensures r.0.entries.Keys == m.entries.Keys - {k}
    ensures r.0.keys == Seqs.Without(m.keys, k)
  {
    Seqs.WithoutSpec(m.keys, k, [], []);
    (RawMap(Seqs.Without(m.keys, k), m.entries - {k}), k in m.entries)
  }

  /** `Array.from(map.values())`: the values in key-insertion order. */
  function Values<V>(m: OrderedMap<V>): (r: seq<V>)
    ensures |r| == |m.keys| == |m.entries|
    ensures forall i | 0 <= i < |r| :: r[i] == m.entries[m.keys[i]]
  {
    DistinctKeysCount(m);
    seq(|m.keys|, i requires 0 <= i < |m.keys| => m.entries[m.keys[i]])
  }

  lemma DistinctKeysCount<V>(m: OrderedMap<V>)
    ensures |m.keys| == |m.entries|
  {
    DistinctCard(m.keys);
    assert m.entries.Keys == set k | k in m.keys;
  }

  lemma {:induction false} DistinctCard(s: seq<string>)
    requires Seqs.Distinct(s)
    ensures |set k | k in s| == |s|
  {
    if s != [] {
      var t := s[1..];
      assert Seqs.Distinct(t) by {
        forall i, j | 0 <= i < j < |t| ensures t[i] != t[j] {
          assert t[i] == s[i + 1] && t[j] == s[j + 1];
        }
      }
      DistinctCard(t);
      assert s[0] !in t by {
        forall i | 0 <= i < |t| ensures t[i] != s[0] {
          assert t[i] == s[i + 1];
        }
      }
      assert (set k | k in s) == (set k | k in t) + {s[0]};
    }
  }

  /** A value is iterated over exactly when some key maps to it. */
  lemma ValuesMembership<V>(m: OrderedMap<V>, v: V)
    ensures v in Values(m) <==> exists k | k in m.entries :: m.entries[k] == v
  {
    var vs := Values(m);
    if exists k | k in m.entries :: m.entries[k] == v {
      var k :| k in m.entries && m.entries[k] == v;
      var i :| 0 <= i < |m.keys| && m.keys[i] == k;
      assert vs[i] == v;
    }
  }

  /** Setting a new key appends its value to the iteration. */
  lemma ValuesOfFreshSet<V>(m: OrderedMap<V>, k: string, v: V)
    requires k !in m.entries
    ensures Values(Set(m, k, v)) == Values(m) + [v]
  {
    var r := Set(m, k, v);
    assert |Values(r)| == |Values(m)| + 1;
    forall i | 0 <= i < |Values(r)|
      ensures Values(r)[i] == (Values(m) + [v])[i]
    {
      if i < |m.keys| {
        assert m.keys[i] != k;
      }
    }
  }

  /** Setting a new key and then deleting it gives back the original map,
      order included. */
  lemma SetFreshThenDelete<V>(m: OrderedMap<V>, k: string, v: V)
    requires k !in m.entries
    ensures Delete(Set(m, k, v), k) == (m, true)
  {
    var r := Set(m, k, v);
    var d := Delete(r, k).0;
    assert r.keys == m.keys + [k];
    Seqs.WithoutAppended(m.keys, k);
    assert d.entries == m.entries by {
      assert d.entries.Keys == m.entries.Keys;
      forall j | j in m.entries ensures d.entries[j] == m.entries[j] {
        assert Get(d, j) == Get(m, j);
      }
    }
  }
}
