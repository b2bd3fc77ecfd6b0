// The weak back-link ownership map of other/active_map.h.
//
// Every table entry holds its value and a weak link to the one owning
// allocation that currently aliases that value. Handles are shared pointers
// to that allocation. put locks the link and, when it has expired, mints a
// fresh owner whose deleter erases the key; so the entry disappears when the
// last shared pointer to its owner is released. The shared-pointer use count
// is kept as an explicit owner count in the link, and each minted owner has a
// block number (its allocation) so that sharing one owner can be stated.
module WeakActiveMap {

  /** The entry's weak link: expired (or never set), or naming the live owner
      `block` and the number of shared pointers that own it. */
  datatype Link = Expired | Alive(block: nat, owners: nat)

  /** A table entry: the value in place and its weak link. */
  datatype Slot<V> = Slot(value: V, link: Link)

  /** The backing table (std::map or std::unordered_map) as one finite map. */
  type Store<K, V> = map<K, Slot<V>>

  /** A shared pointer: null, or owning `block`, which aliases the value stored under `key`. */
  datatype Ptr<K> = Null | Shared(key: K, block: nat)

  /**
   * handle_impl_t: one shared pointer. `readOnly` tells const_handle_t (a
   * pointer to a const value) from handle_t (a pointer to a mutable one).
   */
  datatype Handle<K(==)> = Handle(ptr: Ptr<K>, readOnly: bool)
  {
    /** valid() and operator bool: the pointer is not null, which is exactly when it is one owner. */
    predicate Valid()
      ensures Valid() <==> |Held(ptr)| == 1
      ensures !Valid() ==> Held(ptr) == multiset{}
    {
      ptr.Shared?
    }
  }

  /** The owner a pointer contributes to: one occurrence of itself, or nothing if null. */
  function Held<K(==)>(p: Ptr<K>): multiset<Ptr<K>>
  {
    if p.Shared? then multiset{p} else multiset{}
  }

  /** The distinct keys among the live shared pointers. */
  ghost function LiveKeys<K>(live: multiset<Ptr<K>>): set<K>
  {
    set p | p in live && p.Shared? :: p.key
  }

  /**
   * The invariant between handle operations: `live` holds one pointer per
   * valid live handle; every stored key's link is alive, with a block number
   * below `next` (already allocated) and at least one owner, and its owner
   * count is the number of live pointers on that key and block; and every
   * live pointer aliases a stored key through that key's current block, so
   * all handles on one key share one owner.
   */
  ghost predicate Inv<K, V>(s: Store<K, V>, live: multiset<Ptr<K>>, next: nat)
  {
    && (forall k :: k in s ==>
          && s[k].link.Alive?
          && s[k].link.block < next
          && 1 <= s[k].link.owners == live[Shared(k, s[k].link.block)])
    && (forall p :: p in live ==> p.Shared? && p.key in s && s[p.key].link.block == p.block)
  }

  /** A pointer that owns the live owner of its key's entry (or is null). */
  ghost predicate Owns<K, V>(s: Store<K, V>, p: Ptr<K>)
  {
    p.Shared? ==> p.key in s && s[p.key].link.Alive? && s[p.key].link.block == p.block
  }

  /** The default constructor: a null, hence invalid, handle. */
  function NullHandle<K>(readOnly: bool): (h: Handle<K>)
    ensures !h.Valid() && h.readOnly == readOnly
  {
    Handle(Null, readOnly)
  }

  /**
   * The table update of put: a present key has its value overwritten in place
   * and keeps its link; an absent key is emplaced with an empty link.
   */
  function Upsert<K, V>(s: Store<K, V>, k: K, v: V): (r: Store<K, V>)
    ensures r.Keys == s.Keys + {k}
    ensures r[k] == Slot(v, if k in s then s[k].link else Expired)
    ensures forall j :: j in s && j != k ==> r[j] == s[j]
  {
    if k in s then s[k := s[k].(value := v)] else s[k := Slot(v, Expired)]
  }

  /**
   * find followed by lock(): the pointer to the live owner of the key's entry,
   * or null when the key is absent or its link has expired.
   */
  function Lock<K, V>(s: Store<K, V>, k: K): (p: Ptr<K>)
    ensures p.Shared? <==> k in s && s[k].link.Alive?
    ensures p.Shared? ==> p.key == k && p.block == s[k].link.block
    ensures Owns(s, p)
  {
    if k in s && s[k].link.Alive? then Shared(k, s[k].link.block) else Null
  }

  /** A new non-null shared pointer to an owner (lock() or a copy): one more owner. */
  function Acquire<K, V>(s: Store<K, V>, p: Ptr<K>): (r: Store<K, V>)
    requires Owns(s, p)
    ensures r.Keys == s.Keys
    ensures forall j :: j in s ==> r[j].value == s[j].value
    ensures forall j :: j in s ==>
      r[j].link == (if p.Shared? && p.key == j then Alive(p.block, s[j].link.owners + 1) else s[j].link)
  {
    if p.Shared? then s[p.key := s[p.key].(link := Alive(p.block, s[p.key].link.owners + 1))] else s
  }

  /**
   * The mint step of put, for an expired link: a fresh owner `block` aliasing
   * the value in place, with one owner, stored in the entry's weak link.
   */
  function Mint<K, V>(s: Store<K, V>, k: K, block: nat): (r: Store<K, V>)
    requires k in s
    ensures r.Keys == s.Keys
    ensures r[k] == Slot(s[k].value, Alive(block, 1))
    ensures forall j :: j in s && j != k ==> r[j] == s[j]
  {
    s[k := s[k].(link := Alive(block, 1))]
  }

  /**
   * Releasing a shared pointer: a non-null one removes one owner, and the
   * last owner's deleter erases the key; null changes nothing.
   */
  function Release<K, V>(s: Store<K, V>, p: Ptr<K>): (r: Store<K, V>)
    requires Owns(s, p)
    requires p.Shared? ==> s[p.key].link.owners >= 1
    ensures r.Keys == if p.Shared? && s[p.key].link.owners == 1 then s.Keys - {p.key} else s.Keys
    ensures forall j :: j in r ==> r[j].value == s[j].value
    ensures forall j :: j in r ==>
      r[j].link == (if p.Shared? && p.key == j then Alive(p.block, s[j].link.owners - 1) else s[j].link)
  {
    if p.Null? then s
    else if s[p.key].link.owners == 1 then s - {p.key}
    else s[p.key := s[p.key].(link := Alive(p.block, s[p.key].link.owners - 1))]
  }

  /**
   * put as a whole, with `nextBlock` the block a mint would allocate: upsert,
   * then lock the link; a live owner is shared, an expired one is replaced by
   * a fresh owner. Gives the new table and the returned handle's pointer.
   */
  function PutResult<K, V>(s: Store<K, V>, k: K, v: V, nextBlock: nat): (r: (Store<K, V>, Ptr<K>))
    ensures r.0.Keys == s.Keys + {k}
    ensures r.0[k].value == v
    ensures MustMint(s, k) ==> r.1 == Shared(k, nextBlock) && r.0[k].link == Alive(nextBlock, 1)
    ensures !MustMint(s, k) ==>
      && r.1 == Shared(k, s[k].link.block)
      && r.0[k].link == Alive(s[k].link.block, s[k].link.owners + 1)
    ensures forall j :: j in s && j != k ==> r.0[j] == s[j]
  {
    var u := Upsert(s, k, v);
    var p := Lock(u, k);
    if p.Null? then (Mint(u, k, nextBlock), Shared(k, nextBlock)) else (Acquire(u, p), p)
  }

  /** Whether put on `k` has to mint a new owner: the key is absent or its link expired. */
  function MustMint<K, V>(s: Store<K, V>, k: K): (r: bool)
    ensures r <==> Lock(s, k).Null?
  {
    !(k in s && s[k].link.Alive?)
  }

  /** The table after a mutating for_each whose visitor turns (k, v) into f(k, v). */
  function MapValues<K, V>(s: Store<K, V>, f: (K, V) -> V): (r: Store<K, V>)
    ensures r.Keys == s.Keys && |r| == |s|
    ensures forall j :: j in s ==> r[j].value == f(j, s[j].value) && r[j].link == s[j].link
  {
    map j | j in s :: Slot(f(j, s[j].value), s[j].link)
  }

  /**
   * put on an absent key inserts it (size() grows by one) with a freshly
   * minted owner held once, and returns a pointer to that owner.
   */
  lemma PutAbsentMints<K, V>(s: Store<K, V>, k: K, v: V, nextBlock: nat)
    requires k !in s
    ensures var (r, p) := PutResult(s, k, v, nextBlock);
      && p == Shared(k, nextBlock)
      && r == s[k := Slot(v, Alive(nextBlock, 1))]
      && |r| == |s| + 1
  {
  }

  /**
   * put on a present key whose link is alive overwrites the value and shares
   * the existing owner: no new block, one more owner, size() unchanged.
   */
  lemma PutAliveShares<K, V>(s: Store<K, V>, k: K, v: V, nextBlock: nat)
    requires k in s && s[k].link.Alive?
    ensures var (r, p) := PutResult(s, k, v, nextBlock);
      && !MustMint(s, k)
      && p == Shared(k, s[k].link.block)
      && r == s[k := Slot(v, Alive(s[k].link.block, s[k].link.owners + 1))]
      && |r| == |s|
  {
  }

  /** A put on an absent key whose handle is dropped at once leaves the table as it was. */
  lemma DiscardedPutLeavesNothing<K, V>(s: Store<K, V>, k: K, v: V, nextBlock: nat)
    requires k !in s
    ensures var (r, p) := PutResult(s, k, v, nextBlock);
      Owns(r, p) && p.Shared? && r[p.key].link.owners >= 1 && Release(r, p) == s
  {
  }

  /**
   * Copying a pointer and releasing the copy restores the table; this is also
   * copy-assignment of a handle to itself, which acquires before it releases.
   */
  lemma CopyThenDropRestores<K, V>(s: Store<K, V>, p: Ptr<K>)
    requires Owns(s, p)
    requires p.Shared? ==> s[p.key].link.owners >= 1
    ensures Release(Acquire(s, p), p) == s
  {
  }

  /** get never inserts: the table keeps its keys, and an absent or expired key is left untouched. */
  lemma GetNeverInserts<K, V>(s: Store<K, V>, k: K)
    ensures Acquire(s, Lock(s, k)).Keys == s.Keys
    ensures MustMint(s, k) ==> Lock(s, k) == Null && Acquire(s, Lock(s, k)) == s
  {
  }

  /** Acquiring a pointer that owns its key's owner keeps the invariant, with that pointer live once more. */
  lemma AcquirePreservesInv<K, V>(s: Store<K, V>, live: multiset<Ptr<K>>, next: nat, p: Ptr<K>)
    requires Inv(s, live, next)
    requires Owns(s, p)
    ensures Inv(Acquire(s, p), live + Held(p), next)
  {
  }

  /** put keeps the invariant, with the returned pointer live and `nextBlock` allocated if minted. */
  lemma PutPreservesInv<K, V>(s: Store<K, V>, live: multiset<Ptr<K>>, next: nat, k: K, v: V)
    requires Inv(s, live, next)
    ensures var (r, p) := PutResult(s, k, v, next);
      Inv(r, live + Held(p), if MustMint(s, k) then next + 1 else next)
  {
  }

  /** Releasing a live pointer keeps the invariant, with one occurrence of it gone. */
  lemma ReleasePreservesInv<K, V>(s: Store<K, V>, live: multiset<Ptr<K>>, next: nat, p: Ptr<K>)
    requires Inv(s, live, next)
    requires Held(p) <= live
    ensures Owns(s, p) && (p.Shared? ==> s[p.key].link.owners >= 1)
    ensures Inv(Release(s, p), live - Held(p), next)
  {
  }

  /** A mutating for_each keeps the invariant: keys and links are untouched. */
  lemma MapValuesPreservesInv<K, V>(s: Store<K, V>, live: multiset<Ptr<K>>, next: nat, f: (K, V) -> V)
    requires Inv(s, live, next)
    ensures MapValues(s, f).Keys == s.Keys
    ensures Inv(MapValues(s, f), live, next)
  {
  }

  /** size() equals the number of distinct keys with at least one live handle. */
  lemma SizeCountsLiveKeys<K, V>(s: Store<K, V>, live: multiset<Ptr<K>>, next: nat)
    requires Inv(s, live, next)
    ensures |s| == |LiveKeys(live)|
  {
    forall k | k in s
      ensures k in LiveKeys(live)
    {
      assert Shared(k, s[k].link.block) in live;
    }
    assert s.Keys == LiveKeys(live);
  }

  /** get yields a valid handle exactly when some live handle holds the key, and then shares its owner. */
  lemma GetFindsExactlyLiveKeys<K, V>(s: Store<K, V>, live: multiset<Ptr<K>>, next: nat, k: K)
    requires Inv(s, live, next)
    ensures Lock(s, k).Shared? <==> k in LiveKeys(live)
    ensures Lock(s, k).Shared? ==> Lock(s, k) in live
  {
  }

  /** The adapter object: the table it owns and, as ghost state, its live shared pointers. */
  class ActiveMapAdapter<K(==), V> {
    var store: Store<K, V>
    /** The block number the next minted owner gets (a model of allocation). */
    var next: nat
    /** One pointer per valid handle currently alive, with multiplicity. */
    ghost var live: multiset<Ptr<K>>

    ghost predicate Valid()
      reads this
    {
      Inv(store, live, next)
    }

    /** A new adapter owns an empty table and no handle refers to it. */
    constructor ()
      ensures Valid() && store == map[] && live == multiset{} && next == 0
    {
      store := map[];
      next := 0;
      live := multiset{};
    }

    /**
     * put: upsert the value, then lock the weak link; if that yields null,
     * mint a new owner holding the value, store it in the link, and return it.
     */
    method Put(k: K, v: V) returns (h: Handle<K>)
      requires Valid()
      modifies this
      ensures Valid()
      ensures (store, h.ptr) == PutResult(old(store), k, v, old(next)) && !h.readOnly
      ensures next == if MustMint(old(store), k) then old(next) + 1 else old(next)
      ensures live == old(live) + Held(h.ptr)
    {
      PutPreservesInv(store, live, next, k, v);
      if k in store {
        store := store[k := store[k].(value := v)];
      } else {
        store := store[k := Slot(v, Expired)];
      }
      var p := Lock(store, k);
      if p.Null? {
        p := Shared(k, next);
        store := store[k := store[k].(link := Alive(next, 1))];
        next := next + 1;
      } else {
        store := Acquire(store, p);
      }
      live := live + Held(p);
      h := Handle(p, false);
    }

    /** get: the key's live owner, shared; null if the key is absent or expired. Never inserts. */
    method Get(k: K) returns (h: Handle<K>)
      requires Valid()
      modifies this
      ensures Valid() && next == old(next)
      ensures h == Handle(Lock(old(store), k), false)
      ensures store == Acquire(old(store), h.ptr)
      ensures live == old(live) + Held(h.ptr)
    {
      var p := Lock(store, k);
      AcquirePreservesInv(store, live, next, p);
      store := Acquire(store, p);
      live := live + Held(p);
      h := Handle(p, false);
    }

    /**
     * The const get: the same lookup, yielding a read-only handle. The owner
     * count it raises lives beside the table (in the shared pointers' control
     * block), which is why a const lookup may change it.
     */
    method ConstGet(k: K) returns (h: Handle<K>)
      requires Valid()
      modifies this
      ensures Valid() && next == old(next)
      ensures h == Handle(Lock(old(store), k), true)
      ensures store == Acquire(old(store), h.ptr)
      ensures live == old(live) + Held(h.ptr)
    {
      var p := Lock(store, k);
      AcquirePreservesInv(store, live, next, p);
      store := Acquire(store, p);
      live := live + Held(p);
      h := Handle(p, true);
    }

    /** The defaulted copy constructor: one more owner of the same block. */
    method Copy(h: Handle<K>) returns (c: Handle<K>)
      requires Valid() && Held(h.ptr) <= live
      modifies this
      ensures Valid() && next == old(next)
      ensures c == h
      ensures store == Acquire(old(store), h.ptr)
      ensures live == old(live) + Held(h.ptr)
    {
      ReleasePreservesInv(store, live, next, h.ptr);
      AcquirePreservesInv(store, live, next, h.ptr);
      store := Acquire(store, h.ptr);
      live := live + Held(h.ptr);
      c := h;
    }

    /** The defaulted move constructor: the pointer moves over and the source becomes null. */
    method Move(h: Handle<K>) returns (moved: Handle<K>, source: Handle<K>)
      ensures moved == h && !source.Valid() && source.readOnly == h.readOnly
      ensures Held(moved.ptr) + Held(source.ptr) == Held(h.ptr)
    {
      moved := h;
      source := Handle(Null, h.readOnly);
    }

    /** The defaulted destructor: release the pointer, erasing the key with its last owner. */
    method Drop(h: Handle<K>)
      requires Valid() && Held(h.ptr) <= live
      modifies this
      ensures Valid() && next == old(next)
      ensures store == Release(old(store), h.ptr)
      ensures live == old(live) - Held(h.ptr)
    {
      ReleasePreservesInv(store, live, next, h.ptr);
      store := Release(store, h.ptr);
      live := live - Held(h.ptr);
    }

    /**
     * The defaulted copy assignment `dst = src`: acquire src's owner first,
     * then release dst's old one, so assigning a handle to itself changes
     * nothing (see CopyThenDropRestores). Returns the new value of dst.
     */
    method Assign(dst: Handle<K>, src: Handle<K>) returns (r: Handle<K>)
      requires Valid() && Held(dst.ptr) <= live && Held(src.ptr) <= live
      requires dst.readOnly == src.readOnly
      modifies this
      ensures Valid() && next == old(next)
      ensures r == src
      ensures Owns(Acquire(old(store), src.ptr), dst.ptr)
      ensures store == Release(Acquire(old(store), src.ptr), dst.ptr)
      ensures live == old(live) + Held(src.ptr) - Held(dst.ptr)
    {
      ReleasePreservesInv(store, live, next, src.ptr);
      AcquirePreservesInv(store, live, next, src.ptr);
      store := Acquire(store, src.ptr);
      live := live + Held(src.ptr);
      ReleasePreservesInv(store, live, next, dst.ptr);
      store := Release(store, dst.ptr);
      live := live - Held(dst.ptr);
      r := src;
    }

    /**
     * The defaulted move assignment `dst = move(src)` between two handles:
     * dst takes src's pointer, src becomes null, and dst's old owner is
     * released. Returns the new values of dst and src.
     */
    method MoveAssign(dst: Handle<K>, src: Handle<K>) returns (newDst: Handle<K>, newSrc: Handle<K>)
      requires Valid() && Held(dst.ptr) + Held(src.ptr) <= live
      requires dst.readOnly == src.readOnly
      modifies this
      ensures Valid() && next == old(next)
      ensures newDst == src && newSrc == Handle(Null, src.readOnly)
      ensures store == Release(old(store), dst.ptr)
      ensures live == old(live) - Held(dst.ptr)
    {
      ReleasePreservesInv(store, live, next, dst.ptr);
      store := Release(store, dst.ptr);
      live := live - Held(dst.ptr);
      newDst := src;
      newSrc := Handle(Null, src.readOnly);
    }

    /** value(): the value stored in place under a live valid handle's key. */
    method Value(h: Handle<K>) returns (v: V)
      requires Valid() && h.Valid() && h.ptr in live
      ensures h.ptr.key in store && v == store[h.ptr.key].value
    {
      v := store[h.ptr.key].value;
    }

    /** Assigning through the mutable reference value() returns on a handle_t. */
    method Write(h: Handle<K>, v: V)
      requires Valid() && h.Valid() && h.ptr in live && !h.readOnly
      modifies this
      ensures Valid() && live == old(live) && next == old(next)
      ensures store == old(store)[h.ptr.key := Slot(v, old(store)[h.ptr.key].link)]
    {
      store := store[h.ptr.key := store[h.ptr.key].(value := v)];
    }

    /** The mutating for_each: the visitor rewrites each stored value once, in unspecified order. */
    method ForEach(f: (K, V) -> V)
      requires Valid()
      modifies this
      ensures Valid() && live == old(live) && next == old(next)
      ensures store == MapValues(old(store), f)
    {
      MapValuesPreservesInv(store, live, next, f);
      var todo := store.Keys;
      while todo != {}
        invariant live == old(live) && next == old(next)
        invariant todo <= store.Keys == old(store).Keys
        invariant forall j :: j in store && j in todo ==> store[j] == old(store)[j]
        invariant forall j :: j in store && j !in todo ==>
            store[j] == Slot(f(j, old(store)[j].value), old(store)[j].link)
        decreases todo
      {
        var k :| k in todo;
        store := store[k := store[k].(value := f(k, store[k].value))];
        todo := todo - {k};
      }
    }

    /**
     * The read-only for_each: the sequence of (key, value) pairs its visitor is
     * called with, which names every stored key exactly once.
     */
    method Visit() returns (visited: seq<(K, V)>)
      ensures |visited| == |store|
      ensures forall i :: 0 <= i < |visited| ==>
          visited[i].0 in store && visited[i].1 == store[visited[i].0].value
      ensures forall i, j :: 0 <= i < j < |visited| ==> visited[i].0 != visited[j].0
      ensures forall k :: k in store ==> exists i :: 0 <= i < |visited| && visited[i].0 == k
    {
      var todo := store.Keys;
      ghost var done: set<K> := {};
      visited := [];
      while todo != {}
        invariant todo !! done && todo + done == store.Keys
        invariant |visited| == |done|
        invariant forall i :: 0 <= i < |visited| ==>
            visited[i].0 in done && visited[i].1 == store[visited[i].0].value
        invariant forall i, j :: 0 <= i < j < |visited| ==> visited[i].0 != visited[j].0
        invariant forall k :: k in done ==> exists i :: 0 <= i < |visited| && visited[i].0 == k
        decreases todo
      {
        var k :| k in todo;
        ghost var before := visited;
        visited := visited + [(k, store[k].value)];
        assert visited[|before|].0 == k;
        assert forall i :: 0 <= i < |before| ==> visited[i] == before[i];
        todo := todo - {k};
        done := done + {k};
      }
    }

    /** size(): the number of stored keys, which is the number of keys with a live handle. */
    method Size() returns (n: nat)
      requires Valid()
      ensures n == |store| && n == |LiveKeys(live)|
    {
      n := |store|;
      SizeCountsLiveKeys(store, live, next);
    }
  }
}
