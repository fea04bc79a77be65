/**
 Sorted lists of keyed entries, the form in which a map is exported. Go iterates over a
 map in an arbitrary order and sorts afterwards; the list that comes out is a function of
 the map alone.
 */
module Listing {
  import opened Text
  import opened StableSort

  datatype Entry<+V> = Entry(key: string, value: V)

  /** The map a list stands for; a later entry replaces an earlier one. */
  function AsMap<V>(l: seq<Entry<V>>): map<string, V> {
    if l == [] then map[] else AsMap(l[..|l| - 1])[l[|l| - 1].key := l[|l| - 1].value]
  }

  ghost predicate Sorted<V>(l: seq<Entry<V>>) {
    forall i, j :: 0 <= i < j < |l| ==> Before(l[i].key, l[j].key)
  }

  ghost predicate DistinctKeys<V>(l: seq<Entry<V>>) {
    forall i, j :: 0 <= i < j < |l| ==> l[i].key != l[j].key
  }

  lemma SortedIsDistinct<V>(l: seq<Entry<V>>)
    requires Sorted(l)
    ensures DistinctKeys(l)
  {
    forall i, j | 0 <= i < j < |l|
      ensures l[i].key != l[j].key
    {
      BeforeIsStrict(l[i].key);
    }
  }

  lemma {:induction false} AsMapKeys<V>(l: seq<Entry<V>>, k: string)
    ensures k in AsMap(l) <==> exists i :: 0 <= i < |l| && l[i].key == k
  {
    if l != [] {
      var n := |l| - 1;
      AsMapKeys(l[..n], k);
      if k in AsMap(l[..n]) {
        var i :| 0 <= i < n && l[..n][i].key == k;
        assert l[i].key == k;
      } else if k in AsMap(l) {
        assert l[n].key == k;
      }
    }
  }

  /** With distinct keys a list and its map hold the same bindings, and equally many. */
  lemma {:induction false} AsMapOfDistinct<V>(l: seq<Entry<V>>)
    requires DistinctKeys(l)
    ensures |AsMap(l)| == |l|
    ensures forall i :: 0 <= i < |l| ==> l[i].key in AsMap(l) && AsMap(l)[l[i].key] == l[i].value
  {
    if l != [] {
      var n := |l| - 1;
      AsMapOfDistinct(l[..n]);
      AsMapKeys(l[..n], l[n].key);
      assert AsMap(l).Keys == AsMap(l[..n]).Keys + {l[n].key};
      forall i | 0 <= i < n
        ensures l[i].key in AsMap(l) && AsMap(l)[l[i].key] == l[i].value
      {
        assert l[..n][i] == l[i];
      }
    }
  }

  lemma LastIsGreatest<V>(l: seq<Entry<V>>, k: string)
    requires l != [] && Sorted(l) && k in AsMap(l)
    ensures k == l[|l| - 1].key || Before(k, l[|l| - 1].key)
  {
    AsMapKeys(l, k);
  }

  lemma LastEntriesAgree<V>(l: seq<Entry<V>>, l': seq<Entry<V>>)
    requires l != [] && l' != [] && Sorted(l) && Sorted(l') && AsMap(l) == AsMap(l')
    ensures l[|l| - 1] == l'[|l'| - 1]
  {
    var k, k' := l[|l| - 1].key, l'[|l'| - 1].key;
    LastIsGreatest(l, k');
    LastIsGreatest(l', k);
    if k != k' {
      BeforeIsTransitive(k, k', k);
      BeforeIsStrict(k);
    }
  }

  lemma WithoutLast<V>(l: seq<Entry<V>>)
    requires l != [] && Sorted(l)
    ensures Sorted(l[..|l| - 1]) && AsMap(l[..|l| - 1]) == AsMap(l) - {l[|l| - 1].key}
  {
    SortedIsDistinct(l);
    var front, last := l[..|l| - 1], l[|l| - 1];
    AsMapKeys(front, last.key);
    assert last.key !in AsMap(front);
    PutThenDrop(AsMap(front), last.key, last.value);
  }

  lemma PutThenDrop<V>(m: map<string, V>, k: string, v: V)
    requires k !in m
    ensures m[k := v] - {k} == m
  {
  }

  /** A map has only one sorted listing, so the export cannot depend on iteration order. */
  lemma {:induction false} SortedListingIsUnique<V>(l: seq<Entry<V>>, l': seq<Entry<V>>)
    requires Sorted(l) && Sorted(l') && AsMap(l) == AsMap(l')
    ensures l == l'
  {
    SortedIsDistinct(l);
    SortedIsDistinct(l');
    AsMapOfDistinct(l);
    AsMapOfDistinct(l');
    if l != [] {
      var n := |l| - 1;
      LastEntriesAgree(l, l');
      WithoutLast(l);
      WithoutLast(l');
      SortedListingIsUnique(l[..n], l'[..n]);
      assert l == l[..n] + [l[n]] && l' == l'[..n] + [l'[n]];
    }
  }

  function ByKey<V>(): (Entry<V>, Entry<V>) -> bool {
    (x: Entry<V>, y: Entry<V>) => Before(x.key, y.key)
  }

  lemma ByKeyIsStrictWeak<V(!new)>()
    ensures StrictWeak(ByKey<V>())
  {
    forall x: Entry<V> {
      BeforeIsStrict(x.key);
    }
    forall x: Entry<V>, y: Entry<V>, z: Entry<V> | Before(x.key, y.key) && Before(y.key, z.key)
      ensures Before(x.key, z.key)
    {
      BeforeIsTransitive(x.key, y.key, z.key);
    }
    forall x: Entry<V>, y: Entry<V>, z: Entry<V> | Before(x.key, z.key) && !Before(x.key, y.key)
      ensures Before(y.key, z.key)
    {
      BeforeIsTotal(x.key, y.key);
      if x.key != y.key {
        BeforeIsTransitive(y.key, x.key, z.key);
      }
    }
  }

  /** Stably sorting distinct entries by key lists the same map, now in order. */
  lemma SortByKeyLists<V(!new)>(l: seq<Entry<V>>)
    requires DistinctKeys(l)
    ensures Sorted(SortBy(ByKey(), l)) && AsMap(SortBy(ByKey(), l)) == AsMap(l)
  {
    ByKeyIsStrictWeak<V>();
    SortByIsStable(ByKey(), l);
    var r := SortBy(ByKey(), l);
    var p := SortIndices(ByKey(), l, |l|);
    forall i, j | 0 <= i < j < |r|
      ensures Before(r[i].key, r[j].key)
    {
      BeforeIsTotal(r[i].key, r[j].key);
      assert r[i].key != r[j].key;
    }
    SortedIsDistinct(r);
    AsMapOfDistinct(l);
    AsMapOfDistinct(r);
    forall k
      ensures k in AsMap(r) <==> k in AsMap(l)
      ensures k in AsMap(l) ==> AsMap(r)[k] == AsMap(l)[k]
    {
      AsMapKeys(l, k);
      AsMapKeys(r, k);
      if k in AsMap(l) {
        var i :| 0 <= i < |l| && l[i].key == k;
        assert i in p;
        var j :| 0 <= j < |p| && p[j] == i;
        assert r[j] == l[i];
      }
    }
  }

  /** Collects a map in an arbitrary order, then sorts: the list of the map. */
  method List<V(!new)>(m: map<string, V>) returns (l: seq<Entry<V>>)
    ensures Sorted(l) && AsMap(l) == m && |l| == |m|
  {
    l := [];
    var todo := m.Keys;
    while todo != {}
      invariant todo <= m.Keys && DistinctKeys(l)
      invariant AsMap(l) == m - todo
    {
      var k :| k in todo;
      AsMapKeys(l, k);
      ghost var before := l;
      l := l + [Entry(k, m[k])];
      assert l[..|l| - 1] == before;
      todo := todo - {k};
    }
    SortByKeyLists(l);
    l := SortBy(ByKey(), l);
    SortedIsDistinct(l);
    AsMapOfDistinct(l);
  }
}
