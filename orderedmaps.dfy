/**
 * A JavaScript `Map`: a finite map that also remembers the order in which its
 * keys were first inserted, which is the order `forEach` visits them in.
 */
module OrderedMaps {

  /** The crawler's maps are all keyed by strings. */
  type Key = string

  predicate Distinct<T(==)>(s: seq<T>) {
    forall i, j :: 0 <= i < j < |s| ==> s[i] != s[j]
  }

  function Elems<T>(s: seq<T>): set<T> {
    set x | x in s
  }

  /** The keys of `ks` that are not in `gone`, in their original order. */
  function Without(ks: seq<Key>, gone: set<Key>): (r: seq<Key>)
    ensures forall k :: k in r <==> k in ks && k !in gone
    ensures Distinct(ks) ==> Distinct(r)
  {
    if ks == [] then []
    else
      var init, last := ks[..|ks| - 1], ks[|ks| - 1];
      assert Distinct(ks) ==> last !in init;
      Without(init, gone) + (if last in gone then [] else [last])
  }

  /** Removing keys from two runs of keys removes them from each run, keeping
      the runs in their order. */
  lemma {:induction false} WithoutAppend(a: seq<Key>, b: seq<Key>, gone: set<Key>)
    ensures Without(a + b, gone) == Without(a, gone) + Without(b, gone)
    decreases |b|
  {
    if b == [] {
      assert a + b == a;
    } else {
      var init, last := b[..|b| - 1], b[|b| - 1];
      assert a + b == (a + init) + [last];
      assert b == init + [last];
      WithoutSnoc(a + init, last, gone);
      WithoutSnoc(init, last, gone);
      WithoutAppend(a, init, gone);
    }
  }

  lemma WithoutSnoc(ks: seq<Key>, k: Key, gone: set<Key>)
    ensures Without(ks + [k], gone) == Without(ks, gone) + (if k in gone then [] else [k])
  {
    var s := ks + [k];
    assert s[..|s| - 1] == ks && s[|s| - 1] == k;
  }

  /** Insertion-ordered map from keys to values. `keys` holds every key once,
      in first-insertion order. */
  datatype OrderedMap<V> = OrderedMap(keys: seq<Key>, entries: map<Key, V>) {

    ghost predicate Valid() {
      Distinct(keys) && forall k :: k in entries <==> k in keys
    }

    /** `map.set(k, v)`: a new key goes last; an existing key keeps its place
        and its value is overwritten. */
    function Set(k: Key, v: V): (m: OrderedMap<V>)
      requires Valid()
      ensures m.Valid()
      ensures m.entries == entries[k := v]
      ensures m.keys == if k in entries then keys else keys + [k]
    {
      if k in entries then OrderedMap(keys, entries[k := v])
      else OrderedMap(keys + [k], entries[k := v])
    }

    /** `map.delete(k)`: the other keys keep their order and values. */
    function Delete(k: Key): (m: OrderedMap<V>)
      requires Valid()
      ensures m.Valid()
      ensures m.entries == entries - {k}
      ensures m.keys == Without(keys, {k})
    {
      OrderedMap(Without(keys, {k}), entries - {k})
    }
  }

  function Empty<V>(): (m: OrderedMap<V>)
    ensures m.Valid() && m.entries == map[]
  {
    OrderedMap([], map[])
  }

  lemma {:induction false} WithoutTwice(ks: seq<Key>, first: set<Key>, second: set<Key>)
    ensures Without(Without(ks, first), second) == Without(ks, first + second)
  {
    if ks != [] {
      var init, last := ks[..|ks| - 1], ks[|ks| - 1];
      WithoutTwice(init, first, second);
      var w := Without(init, first);
      if last in first {
        assert Without(ks, first) == w + [];
        assert w + [] == w;
      } else {
        var ws := w + [last];
        assert ws[..|ws| - 1] == w;
      }
    }
  }

  lemma {:induction false} WithoutNothing(ks: seq<Key>)
    ensures Without(ks, {}) == ks
  {
    if ks != [] {
      WithoutNothing(ks[..|ks| - 1]);
      assert ks == ks[..|ks| - 1] + [ks[|ks| - 1]];
    }
  }

  lemma {:induction false} WithoutAbsent(ks: seq<Key>, gone: set<Key>, k: Key)
    requires k !in ks
    ensures Without(ks, gone + {k}) == Without(ks, gone)
  {
    if ks != [] {
      WithoutAbsent(ks[..|ks| - 1], gone, k);
    }
  }

  lemma {:induction false} DistinctCard<T>(s: seq<T>)
    requires Distinct(s)
    ensures |Elems(s)| == |s|
  {
    if s != [] {
      var init := s[..|s| - 1];
      DistinctCard(init);
      assert Elems(s) == Elems(init) + {s[|s| - 1]};
      assert s[|s| - 1] !in Elems(init);
    }
  }

  /** A valid map has as many keys in its order as it has entries. */
  lemma KeysCount<V>(m: OrderedMap<V>)
    requires m.Valid()
    ensures |m.keys| == |m.entries|
  {
    DistinctCard(m.keys);
    assert Elems(m.keys) == m.entries.Keys;
  }
}
