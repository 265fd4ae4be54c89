/**
 * `collectNames`: static name collection for a group of known size. The worker
 * publishes its own name under its id, reads the name of every other id in
 * [0, worldSize) and builds the name -> id table, failing on a repeated name.
 */
module StaticNames {
  import opened Wrappers
  import opened KvStore
  import opened Registry

  /** The workers whose names are known once ids below `bound` are read: this worker and [0, bound). */
  predicate Among(selfId: int, bound: int, w: int) {
    w == selfId || 0 <= w < bound
  }

  ghost predicate Published(data: map<string, string>, selfId: int, bound: int) {
    forall w :: Among(selfId, bound, w) ==> IdKey(w) in data
  }

  /** No two of those workers publish the same name. */
  ghost predicate DistinctNames(data: map<string, string>, selfId: int, bound: int)
    requires Published(data, selfId, bound)
  {
    forall v, w :: Among(selfId, bound, v) && Among(selfId, bound, w) && v != w ==>
      data[IdKey(v)] != data[IdKey(w)]
  }

  /** `m` maps the published name of each of those workers to its id, and holds nothing else. */
  ghost predicate IsNameTable(m: map<string, int>, data: map<string, string>, selfId: int, bound: int) {
    && (forall w :: Among(selfId, bound, w) ==>
          IdKey(w) in data && data[IdKey(w)] in m && m[data[IdKey(w)]] == w)
    && (forall n :: n in m ==>
          Among(selfId, bound, m[n]) && IdKey(m[n]) in data && data[IdKey(m[n])] == n)
  }

  /**
   * The failure `collectNames` reports: reading id `secondId` found a name already
   * in the table under `firstId`, and no two workers read before it shared a name.
   */
  ghost predicate IsFirstDuplicate(e: Error, data: map<string, string>, selfId: int, worldSize: int)
    requires Published(data, selfId, worldSize)
  {
    && e.DuplicateName?
    && 0 <= e.secondId < worldSize && e.secondId != selfId
    && Among(selfId, e.secondId, e.firstId)
    && data[IdKey(e.firstId)] == e.name
    && data[IdKey(e.secondId)] == e.name
    && DistinctNames(data, selfId, e.secondId)
  }

  method CollectNames(store: Store, selfId: int, selfName: string, worldSize: int)
    returns (r: Result<map<string, int>, Error>)
    requires forall w :: 0 <= w < worldSize && w != selfId ==> IdKey(w) in store.data
    modifies store
    ensures store.data == old(store.data)[IdKey(selfId) := selfName]
    ensures Published(store.data, selfId, worldSize)
    ensures r.Success? <==> DistinctNames(store.data, selfId, worldSize)
    ensures r.Success? ==> IsNameTable(r.value, store.data, selfId, worldSize)
    ensures r.Failure? ==> IsFirstDuplicate(r.error, store.data, selfId, worldSize)
  {
    store.Set(IdKey(selfId), selfName);
    forall w | Among(selfId, worldSize, w) ensures IdKey(w) in store.data {
      IdKeysDistinct(w, selfId);
    }
    var nameToId := map[selfName := selfId];
    var w := 0;
    while w < worldSize
      invariant 0 <= w && (w <= worldSize || w == 0)
      invariant store.data == old(store.data)[IdKey(selfId) := selfName]
      invariant Published(store.data, selfId, worldSize)
      invariant IsNameTable(nameToId, store.data, selfId, w)
    {
      if w != selfId {
        IdKeysDistinct(w, selfId);
        var name := store.Get(IdKey(w));
        if name in nameToId {
          DuplicateFound(nameToId, store.data, selfId, w, worldSize);
          return Failure(DuplicateName(name, nameToId[name], w));
        }
        TableStep(nameToId, store.data, selfId, w);
        nameToId := nameToId[name := w];
      } else {
        assert forall v :: Among(selfId, w + 1, v) <==> Among(selfId, w, v);
      }
      w := w + 1;
    }
    assert forall v :: Among(selfId, worldSize, v) <==> Among(selfId, w, v);
    TableNamesDistinct(nameToId, store.data, selfId, worldSize);
    r := Success(nameToId);
  }

  /** Reading a new name for id `w` extends the table to the ids below `w + 1`. */
  lemma TableStep(m: map<string, int>, data: map<string, string>, selfId: int, w: int)
    requires 0 <= w && w != selfId && IdKey(w) in data && data[IdKey(w)] !in m
    requires IsNameTable(m, data, selfId, w)
    ensures IsNameTable(m[data[IdKey(w)] := w], data, selfId, w + 1)
  {
  }

  /** A name read for id `w` that is already in the table is the first repeated name. */
  lemma DuplicateFound(m: map<string, int>, data: map<string, string>, selfId: int, w: int, worldSize: int)
    requires 0 <= w < worldSize && w != selfId
    requires Published(data, selfId, worldSize)
    requires IsNameTable(m, data, selfId, w) && data[IdKey(w)] in m
    ensures IsFirstDuplicate(DuplicateName(data[IdKey(w)], m[data[IdKey(w)]], w), data, selfId, worldSize)
  {
    TableNamesDistinct(m, data, selfId, w);
  }

  /** A name table witnesses that the names it was built from are distinct. */
  lemma TableNamesDistinct(m: map<string, int>, data: map<string, string>, selfId: int, bound: int)
    requires IsNameTable(m, data, selfId, bound)
    ensures Published(data, selfId, bound)
    ensures DistinctNames(data, selfId, bound)
  {
  }

  /** Workers of the same group that read the same store build the same table. */
  lemma NameTablesAgree(m1: map<string, int>, m2: map<string, int>, data: map<string, string>,
                        id1: int, id2: int, worldSize: int)
    requires 0 <= id1 < worldSize && 0 <= id2 < worldSize
    requires IsNameTable(m1, data, id1, worldSize) && IsNameTable(m2, data, id2, worldSize)
    ensures m1 == m2
  {
    forall n | n in m1 ensures n in m2 && m2[n] == m1[n] {
      var w := m1[n];
      assert Among(id2, worldSize, w);
    }
    forall n | n in m2 ensures n in m1 {
      var w := m2[n];
      assert Among(id1, worldSize, w);
    }
  }

  /** With its own id in range, a worker's table has exactly `worldSize` entries. */
  lemma NameTableSize(m: map<string, int>, data: map<string, string>, selfId: int, worldSize: int)
    requires 0 <= selfId < worldSize
    requires IsNameTable(m, data, selfId, worldSize)
    ensures |m| == worldSize
  {
    var ids := IdRange(worldSize);
    forall w | w in ids ensures w in m.Values {
      assert Among(selfId, worldSize, w);
      assert m[data[IdKey(w)]] == w;
    }
    assert m.Values == ids;
    InjectiveMapSize(m);
    assert |m| == |m.Keys|;
  }

  lemma {:induction false} InjectiveMapSize<K, V>(m: map<K, V>)
    requires forall a, b :: a in m && b in m && a != b ==> m[a] != m[b]
    ensures |m.Keys| == |m.Values|
    decreases |m|
  {
    if |m| > 0 {
      var k :| k in m;
      var rest := m - {k};
      assert rest.Keys == m.Keys - {k};
      assert rest.Values == m.Values - {m[k]} by {
        forall v | v in m.Values - {m[k]} ensures v in rest.Values {
          var a :| a in m && m[a] == v;
          assert a in rest;
        }
      }
      InjectiveMapSize(rest);
    }
  }

  /** The ids 0 .. n-1. */
  function IdRange(n: nat): (ids: set<int>)
    ensures forall w :: w in ids <==> 0 <= w < n
    ensures |ids| == n
  {
    if n == 0 then {} else IdRange(n - 1) + {n - 1}
  }
}
