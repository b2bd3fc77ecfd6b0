// The intrusive-counter ownership map of include/active_map.h.
//
// Every table entry carries the number of live handles that refer to it. A
// handle is an iterator into the table (or end()); constructing or copying a
// valid handle raises its entry's count, destroying one lowers it, and the
// entry is erased the moment the count reaches zero. Nothing ever calls erase
// otherwise.
module ActiveMap {

  /** A table entry: the stored value and the number of live handles on it. */
  datatype Entry<V> = Entry(value: V, count: nat)

  /** The backing table (std::map or std::unordered_map) as one finite map. */
  type Store<K, V> = map<K, Entry<V>>

  /** A handle's iterator: the position of a stored key, or end(). */
  datatype Handle<K> = End | At(key: K)
  {
    /** valid() and operator bool: the iterator is not end(), which is exactly when the handle holds a count. */
    predicate Valid()
      ensures Valid() <==> |Held(this)| == 1
      ensures !Valid() ==> Held(this) == multiset{}
    {
      At?
    }
  }

  /** What a handle holds a count on: one key if it is valid, nothing otherwise. */
  function Held<K>(h: Handle<K>): multiset<K>
  {
    if h.At? then multiset{h.key} else multiset{}
  }

  /** The distinct keys among the live handles. */
  ghost function LiveKeys<K>(live: multiset<K>): set<K>
  {
    set k | k in live
  }

  /**
   * The invariant between handle operations: `live` holds one key per valid
   * live handle; every stored key has a count of at least one, equal to the
   * number of live handles on it, and every live handle's key is stored.
   */
  ghost predicate Inv<K, V>(s: Store<K, V>, live: multiset<K>)
  {
    && (forall k :: k in s ==> 1 <= s[k].count == live[k])
    && (forall k :: k in live ==> k in s)
  }

  /** store.find(key): the key's position, or end() when the key is absent. */
  function Find<K, V>(s: Store<K, V>, k: K): (h: Handle<K>)
    ensures h.Valid() <==> k in s
    ensures h.Valid() ==> h.key == k
  {
    if k in s then At(k) else End
  }

  /**
   * The table update of put: a present key has its value overwritten in place
   * and keeps its count; an absent key is emplaced with count 0.
   */
  function Upsert<K, V>(s: Store<K, V>, k: K, v: V): (r: Store<K, V>)
    ensures r.Keys == s.Keys + {k}
    ensures r[k].value == v
    ensures r[k].count == if k in s then s[k].count else 0
    ensures forall j :: j in s && j != k ==> r[j] == s[j]
  {
    if k in s then s[k := s[k].(value := v)] else s[k := Entry(v, 0)]
  }

  /**
   * Constructing a handle on an iterator, or copying a handle: a valid handle
   * adds one to its own entry's count; an invalid one changes nothing.
   */
  function Acquire<K, V>(s: Store<K, V>, h: Handle<K>): (r: Store<K, V>)
    requires h.Valid() ==> h.key in s
    ensures r.Keys == s.Keys
    ensures forall j :: j in s ==> r[j].value == s[j].value
    ensures forall j :: j in s ==> r[j].count == s[j].count + (if h == At(j) then 1 else 0)
  {
    if h.At? then s[h.key := s[h.key].(count := s[h.key].count + 1)] else s
  }

  /**
   * Destroying a handle: a valid handle takes one from its entry's count and
   * erases the entry exactly when the count reaches zero; an invalid handle
   * (end(), e.g. one moved from) changes nothing.
   */
  function Release<K, V>(s: Store<K, V>, h: Handle<K>): (r: Store<K, V>)
    requires h.Valid() ==> h.key in s && s[h.key].count >= 1
    ensures r.Keys == if h.Valid() && s[h.key].count == 1 then s.Keys - {h.key} else s.Keys
    ensures forall j :: j in r ==> r[j].value == s[j].value
    ensures forall j :: j in r ==> r[j].count == s[j].count - (if h == At(j) then 1 else 0)
  {
    if h.End? then s
    else if s[h.key].count - 1 == 0 then s - {h.key}
    else s[h.key := s[h.key].(count := s[h.key].count - 1)]
  }

  /** The table after a mutating for_each whose visitor turns (k, v) into f(k, v). */
  function MapValues<K, V>(s: Store<K, V>, f: (K, V) -> V): (r: Store<K, V>)
    ensures r.Keys == s.Keys && |r| == |s|
    ensures forall j :: j in s ==> r[j].value == f(j, s[j].value) && r[j].count == s[j].count
  {
    map j | j in s :: Entry(f(j, s[j].value), s[j].count)
  }

  /**
   * put changes size() by one exactly when the key was absent, and leaves the
   * key's entry with the new value and one more count than before (one, for a
   * new key).
   */
  lemma PutSize<K, V>(s: Store<K, V>, k: K, v: V)
    ensures var r := Acquire(Upsert(s, k, v), At(k));
      && |r| == (if k in s then |s| else |s| + 1)
      && r[k] == Entry(v, if k in s then s[k].count + 1 else 1)
  {
  }

  /** A put on an absent key whose handle is dropped at once leaves the table as it was. */
  lemma DiscardedPutLeavesNothing<K, V>(s: Store<K, V>, k: K, v: V)
    requires k !in s
    ensures Release(Acquire(Upsert(s, k, v), At(k)), At(k)) == s
  {
  }

  /** Copying a handle and dropping the copy restores every count. */
  lemma CopyThenDropRestores<K, V>(s: Store<K, V>, h: Handle<K>)
    requires h.Valid() ==> h.key in s && s[h.key].count >= 1
    ensures Release(Acquire(s, h), h) == s
  {
  }

  /** Constructing or copying a handle keeps the invariant, with its key now live once more. */
  lemma AcquirePreservesInv<K, V>(s: Store<K, V>, live: multiset<K>, h: Handle<K>)
    requires Inv(s, live)
    requires h.Valid() ==> h.key in s
    ensures Inv(Acquire(s, h), live + Held(h))
  {
  }

  /** put keeps the invariant, with its key live once more. */
  lemma PutPreservesInv<K, V>(s: Store<K, V>, live: multiset<K>, k: K, v: V)
    requires Inv(s, live)
    ensures Inv(Acquire(Upsert(s, k, v), At(k)), live + multiset{k})
  {
  }

  /** Destroying a live handle keeps the invariant, with one occurrence of its key gone. */
  lemma ReleasePreservesInv<K, V>(s: Store<K, V>, live: multiset<K>, h: Handle<K>)
    requires Inv(s, live)
    requires Held(h) <= live
    ensures h.Valid() ==> h.key in s && s[h.key].count >= 1
    ensures Inv(Release(s, h), live - Held(h))
  {
  }

  /** A mutating for_each keeps the invariant: keys and counts are untouched. */
  lemma MapValuesPreservesInv<K, V>(s: Store<K, V>, live: multiset<K>, f: (K, V) -> V)
    requires Inv(s, live)
    ensures MapValues(s, f).Keys == s.Keys
    ensures Inv(MapValues(s, f), live)
  {
  }

  /** size() equals the number of distinct keys with at least one live handle. */
  lemma SizeCountsLiveKeys<K, V>(s: Store<K, V>, live: multiset<K>)
    requires Inv(s, live)
    ensures |s| == |LiveKeys(live)|
  {
    assert s.Keys == LiveKeys(live);
  }

  /** get finds a key exactly when some live handle holds it: a key without handles is gone. */
  lemma GetFindsExactlyLiveKeys<K, V>(s: Store<K, V>, live: multiset<K>, k: K)
    requires Inv(s, live)
    ensures Find(s, k).Valid() <==> k in LiveKeys(live)
  {
  }

  /** The adaptor object: the table it owns and, as ghost state, its live handles. */
  class ActiveMapAdaptor<K(==), V> {
    var store: Store<K, V>
    /** One key per valid handle currently alive, with multiplicity. */
    ghost var live: multiset<K>

    ghost predicate Valid()
      reads this
    {
      Inv(store, live)
    }

    /** A new adaptor owns an empty table and no handle refers to it. */
    constructor ()
      ensures Valid() && store == map[] && live == multiset{}
    {
      store := map[];
      live := multiset{};
    }

    /**
     * put: upsert the value, then wrap the entry's position in a new handle,
     * which raises its count.
     */
    method Put(k: K, v: V) returns (h: Handle<K>)
      requires Valid()
      modifies this
      ensures Valid()
      ensures h == At(k)
      ensures store == Acquire(Upsert(old(store), k, v), At(k))
      ensures live == old(live) + multiset{k}
    {
      PutPreservesInv(store, live, k, v);
      ghost var u := Upsert(store, k, v);
      var i := Find(store, k);
      if i.Valid() {
        store := store[k := store[k].(value := v)];
      } else {
        store := store[k := Entry(v, 0)];
      }
      assert store == u;
      i := At(k);
      store := store[k := store[k].(count := store[k].count + 1)];
      live := live + multiset{k};
      h := i;
    }

    /** get: wrap find's result in a handle; never inserts. */
    method Get(k: K) returns (h: Handle<K>)
      requires Valid()
      modifies this
      ensures Valid()
      ensures h == Find(old(store), k)
      ensures store == Acquire(old(store), h)
      ensures live == old(live) + Held(h)
    {
      h := Find(store, k);
      AcquirePreservesInv(store, live, h);
      if h.Valid() {
        store := store[k := store[k].(count := store[k].count + 1)];
      }
      live := live + Held(h);
    }

    /** The copy constructor: the copy refers to the same entry and raises its count. */
    method Copy(h: Handle<K>) returns (c: Handle<K>)
      requires Valid() && Held(h) <= live
      modifies this
      ensures Valid()
      ensures c == h
      ensures store == Acquire(old(store), h)
      ensures live == old(live) + Held(h)
    {
      c := h;
      AcquirePreservesInv(store, live, h);
      if c.Valid() {
        store := store[c.key := store[c.key].(count := store[c.key].count + 1)];
      }
      live := live + Held(c);
    }

    /**
     * The move constructor: the new handle takes over the iterator and the
     * source is set to end(). No count changes: what the two handles hold
     * together is what the source held, and dropping the source is a no-op.
     */
    method Move(h: Handle<K>) returns (moved: Handle<K>, source: Handle<K>)
      ensures moved == h && !source.Valid()
      ensures Held(moved) + Held(source) == Held(h)
    {
      moved := h;
      source := End;
    }

    /** The destructor: a valid handle lowers its count and erases the entry at zero. */
    method Drop(h: Handle<K>)
      requires Valid() && Held(h) <= live
      modifies this
      ensures Valid()
      ensures store == Release(old(store), h)
      ensures live == old(live) - Held(h)
    {
      ReleasePreservesInv(store, live, h);
      if h.Valid() {
        var n := store[h.key].count - 1;
        if n == 0 {
          store := store - {h.key};
        } else {
          store := store[h.key := store[h.key].(count := n)];
        }
      }
      live := live - Held(h);
    }

    /** value(): the value currently stored under a live valid handle's key. */
    method Value(h: Handle<K>) returns (v: V)
      requires Valid() && h.Valid() && h.key in live
      ensures h.key in store && v == store[h.key].value
    {
      v := store[h.key].value;
    }

    /** Assigning through the reference value() returns: overwrite the value, keep the count. */
    method Write(h: Handle<K>, v: V)
      requires Valid() && h.Valid() && h.key in live
      modifies this
      ensures Valid() && live == old(live)
      ensures store == old(store)[h.key := Entry(v, old(store)[h.key].count)]
    {
      store := store[h.key := store[h.key].(value := v)];
    }

    /** The mutating for_each: the visitor rewrites each stored value once, in unspecified order. */
    method ForEach(f: (K, V) -> V)
      requires Valid()
      modifies this
      ensures Valid() && live == old(live)
      ensures store == MapValues(old(store), f)
    {
      MapValuesPreservesInv(store, live, f);
      var todo := store.Keys;
      while todo != {}
        invariant live == old(live)
        invariant todo <= store.Keys == old(store).Keys
        invariant forall j :: j in store && j in todo ==> store[j] == old(store)[j]
        invariant forall j :: j in store && j !in todo ==>
            store[j] == Entry(f(j, old(store)[j].value), old(store)[j].count)
        decreases todo
      {
        var k :| k in todo;
        store := store[k := store[k].(value := f(k, store[k].value))];
        todo := todo - {k};
      }
    }

    /**
     * The read-only for_each: the sequence of (key, value) pairs its visitor is
     * called with, which names every stored key exactly once.
     */
    method Visit() returns (visited: seq<(K, V)>)
      ensures |visited| == |store|
      ensures forall i :: 0 <= i < |visited| ==>
          visited[i].0 in store && visited[i].1 == store[visited[i].0].value
      ensures forall i, j :: 0 <= i < j < |visited| ==> visited[i].0 != visited[j].0
      ensures forall k :: k in store ==> exists i :: 0 <= i < |visited| && visited[i].0 == k
    {
      var todo := store.Keys;
      ghost var done: set<K> := {};
      visited := [];
      while todo != {}
        invariant todo !! done && todo + done == store.Keys
        invariant |visited| == |done|
        invariant forall i :: 0 <= i < |visited| ==>
            visited[i].0 in done && visited[i].1 == store[visited[i].0].value
        invariant forall i, j :: 0 <= i < j < |visited| ==> visited[i].0 != visited[j].0
        invariant forall k :: k in done ==> exists i :: 0 <= i < |visited| && visited[i].0 == k
        decreases todo
      {
        var k :| k in todo;
        ghost var before := visited;
        visited := visited + [(k, store[k].value)];
        assert visited[|before|].0 == k;
        assert forall i :: 0 <= i < |before| ==> visited[i] == before[i];
        todo := todo - {k};
        done := done + {k};
      }
    }

    /** size(): the number of stored keys, which is the number of keys with a live handle. */
    method Size() returns (n: nat)
      requires Valid()
      ensures n == |store| && n == |LiveKeys(live)|
    {
      n := |store|;
      SizeCountsLiveKeys(store, live);
    }
  }
}
