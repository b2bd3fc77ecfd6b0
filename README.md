# Reference-counted ownership map, in Dafny

The repository's component is a keyed store whose entries are kept alive by
outstanding handles. An entry is erased at the moment its last handle goes
away, and nothing ever calls `remove`. The repository realises this contract
twice, and this project models both realisations:

- `active_map.dfy`, module `ActiveMap`, models `include/active_map.h`. Each
  table entry is a value plus a count of live handles. A handle is an iterator
  into the table, or `end()`. Building a handle on a valid iterator adds one to
  the count, and so does copying one. A move sets the source to `end()`.
  Destroying a valid handle takes one from the count and erases the entry at 0.
- `weak_active_map.dfy`, module `WeakActiveMap`, models `other/active_map.h`.
  Each entry is a value plus a weak link to one owning allocation. `put` locks
  the link; if it has expired, `put` mints a new owner whose deleter erases
  the key. Here handles are shared pointers, so they can also be assigned.
- `active_map_test.dfy` (module `ActiveMapTest`) replays `test.cc` through the
  contracts of `ActiveMap`. `weak_active_map_test.dfy` (module
  `WeakActiveMapTest`) proves a short sharing-and-assignment scenario on
  `WeakActiveMap`.

How the model is built:

- The backing table, `std::map` or `std::unordered_map`, is one Dafny `map`
  from key to entry. This is the field `store` of the classes
  `ActiveMap.ActiveMapAdaptor` and `WeakActiveMap.ActiveMapAdapter`.
- Handles are datatype values. The methods `Put`, `Get`, `Copy`, `Move` and
  `Drop` stand in for the handle's constructors and destructor, since Dafny
  has none. `ConstGet`, `Assign` and `MoveAssign` exist only in the weak-link
  variant.
- Each class has a ghost multiset `live`: one element per valid handle that
  is alive.
- `Valid()` is the module's `Inv`. It says that every stored key has a count
  of at least one, and that the count equals the number of live handles on
  that key. It also says that every live handle's key is stored. In the
  weak-link variant it also says that all handles on a key share that key's
  one current owner.
- Each method is specified by pure functions that follow the source line by
  line: `Find`, `Upsert`, `Acquire`, `Release`, `Lock`, `Mint`, `PutResult`
  and `MapValues`. Lemmas about these functions carry the properties:
  invariant preservation, size, round trips and sharing.
- `Handle.Valid` models `valid()` and `operator bool` in both variants. It is
  `At?` (the iterator is not `end()`) or `ptr.Shared?` (the pointer is not
  null).

In the weak-link variant, the shared pointers' use count is an explicit owner
count stored in the entry's link. Each minted owner gets a block number, taken
from the counter `next`, which stands for a fresh allocation. That is what
lets the model state "the handle shares the existing owner" and "no second
owner is minted".

Two consequences of the code that the model states explicitly:

- A handle that `put` returns and nobody keeps is destroyed at the end of
  the statement. So `put(11, 110);` on its own leaves no entry behind, and
  `size()` stays at 1 (test.cc:21-24). `ActiveMapTest.PutDiscarded` and
  `ActiveMapTest.ScenarioPuts` prove this.
- The defaulted copy assignment of other/active_map.h:41 acquires the
  source's owner before it releases the old referent. That order makes
  `h = h` a no-op. `WeakActiveMap.ActiveMapAdapter.Assign` follows it.

## Model

| member | source | states |
|---|---|---|
| ActiveMap.Find | include/active_map.h:77-78 | `find` gives a valid position exactly when the key is stored, and it points at that key |
| ActiveMap.Handle.Valid | include/active_map.h:59-61 | `valid()` (and `operator bool`, lines 22-24): the iterator is not `end()`, which is exactly when the handle holds one count on its key; an invalid handle holds none |
| ActiveMap.Upsert | include/active_map.h:76-82 | the key is stored afterwards with the new value; a present key keeps its count, an absent one starts at 0; no other entry changes |
| ActiveMap.Acquire | include/active_map.h:63-66 | building a handle on an iterator adds one to that entry's count when it is valid, and changes nothing otherwise; keys and values are untouched |
| ActiveMap.Release | include/active_map.h:34-38 | destroying a handle removes its key exactly when the count was 1, otherwise takes one from its count; an invalid handle changes nothing; all other entries are unchanged |
| ActiveMap.MapValues | include/active_map.h:104-109 | the mutating `for_each` keeps every key and count, and each stored value becomes the visitor's result on that key and its old value |
| ActiveMap.PutSize | include/active_map.h:76-85 | `size()` grows by 1 exactly when the key was absent; afterwards the entry holds the new value with count old+1 (1 for a new key) |
| ActiveMap.DiscardedPutLeavesNothing | test.cc:22-24 | a `put` on an absent key whose handle is dropped at once leaves the table exactly as it was |
| ActiveMap.CopyThenDropRestores | include/active_map.h:34-46 | copying a handle and dropping the copy restores the table exactly |
| ActiveMap.AcquirePreservesInv | include/active_map.h:63-66 | a handle built on a stored key, or on `end()`, keeps count == live handles, with that key live once more |
| ActiveMap.PutPreservesInv | include/active_map.h:76-85 | `put` keeps the invariant, with its key live one more time |
| ActiveMap.ReleasePreservesInv | include/active_map.h:34-38 | destroying a live handle keeps the invariant with one occurrence of its key gone; the count it decrements is at least 1 |
| ActiveMap.MapValuesPreservesInv | include/active_map.h:104-109 | the mutating `for_each` changes no key and no count, so the invariant holds |
| ActiveMap.SizeCountsLiveKeys | include/active_map.h:111-113 | under the invariant, `size()` equals the number of distinct keys that have a live handle |
| ActiveMap.GetFindsExactlyLiveKeys | include/active_map.h:88-90 | under the invariant, `get` yields a valid handle exactly when some live handle holds the key |
| ActiveMap.ActiveMapAdaptor.constructor | include/active_map.h:13-17 | a new adaptor has an empty table and no live handle |
| ActiveMap.ActiveMapAdaptor.Put | include/active_map.h:76-85 | returns a valid handle on the key; the table becomes the upsert followed by one more count; the invariant is kept |
| ActiveMap.ActiveMapAdaptor.Get | include/active_map.h:88-90 | returns `find`'s result as a handle, valid exactly when the key is stored; only that key's count changes; never inserts |
| ActiveMap.ActiveMapAdaptor.Copy | include/active_map.h:40-46 | the copy equals the source and its entry's count rises by one |
| ActiveMap.ActiveMapAdaptor.Move | include/active_map.h:48-53 | the new handle takes the iterator, the source becomes invalid, and no count changes: the two together hold what the source held |
| ActiveMap.ActiveMapAdaptor.Drop | include/active_map.h:34-38 | the table becomes `Release` of the old table; the handle is no longer live; the invariant is kept |
| ActiveMap.ActiveMapAdaptor.Value | include/active_map.h:26-32 | a live valid handle's key is stored, and the handle reads its current value, so an overwrite by `put` is seen through every handle |
| ActiveMap.ActiveMapAdaptor.Write | include/active_map.h:26-28 | assigning through `value()` replaces the stored value and keeps the count |
| ActiveMap.ActiveMapAdaptor.ForEach | include/active_map.h:104-109 | every stored value is replaced by the visitor's result, exactly once; keys, counts and live handles are unchanged |
| ActiveMap.ActiveMapAdaptor.Visit | include/active_map.h:97-102 | the read-only `for_each` calls the visitor on every stored key, only on stored keys, each with its current value, and never twice on one key |
| ActiveMap.ActiveMapAdaptor.Size | include/active_map.h:111-113 | `size()` is the number of stored keys, which is the number of keys with a live handle |
| ActiveMapTest.SumOfTwo | test.cc:58-70 | a visit of a two-key table sums the two stored values, in either visit order |
| ActiveMapTest.PutDiscarded | test.cc:21-22 | the statement `put(k, v);` overwrites a present key and keeps its count, and leaves the table untouched for an absent key |
| ActiveMapTest.LookupScoped | test.cc:33-42 | a scoped `get` finds the key exactly when it is stored and reads its value; the table is unchanged afterwards |
| ActiveMapTest.ScenarioPuts | test.cc:17-24 | after `put(10,100)` kept plus temporary `put(10,101)` and `put(11,110)`, only key 10 is stored, with value 101 and count 1 |
| ActiveMapTest.ScenarioLifetimes | test.cc:26-50 | a heap copy keeps key 10 alive after h1 goes, reads 101; `get(10)` is valid and `get(11)` is not; deleting the copy evicts key 10 and leaves the map empty |
| ActiveMapTest.ScenarioForEach | test.cc:52-74 | on the map left empty by the first blocks, two puts give size 2, the incrementing `for_each` sums 250, the next one 252, and size is 0 after both handles go |
| WeakActiveMap.NullHandle | other/active_map.h:30-33 | a default-constructed handle is null, so it is invalid |
| WeakActiveMap.Handle.Valid | other/active_map.h:46-48 | `valid()` (and `operator bool`, lines 18-20): the pointer is not null, which is exactly when it is one owner of a block; a null one owns nothing |
| WeakActiveMap.Upsert | other/active_map.h:77-82 | a present key's value is overwritten and its link kept; an absent key is emplaced with an expired (empty) link; no other entry changes |
| WeakActiveMap.Lock | other/active_map.h:99-106 | find then `lock()` gives a non-null pointer exactly when the key is stored with a live link, and that pointer is to the key's current owner |
| WeakActiveMap.Acquire | other/active_map.h:84 | a new non-null pointer to an owner adds one owner to its key's link; keys and values are untouched |
| WeakActiveMap.Mint | other/active_map.h:86-93 | minting stores a new owner with a single holder in the entry's link and keeps the value in place |
| WeakActiveMap.Release | other/active_map.h:87-92 | releasing a pointer removes one owner; when it was the last one, the deleter erases exactly that key; null does nothing |
| WeakActiveMap.PutResult | other/active_map.h:75-96 | `put` stores the key with the new value and leaves every other entry alone; when the lock fails it mints block `next` with one owner and returns it, otherwise it returns the existing block with one more owner |
| WeakActiveMap.MustMint | other/active_map.h:84-86 | `put` mints exactly when `lock()` on the key's link yields null |
| WeakActiveMap.MapValues | other/active_map.h:125-130 | the mutating `for_each` keeps every key and link, and each stored value becomes the visitor's result on that key and its old value |
| WeakActiveMap.PutAbsentMints | other/active_map.h:80-95 | `put` on an absent key emplaces it, the lock fails, and a new owner is minted and held once; `size()` grows by 1 |
| WeakActiveMap.PutAliveShares | other/active_map.h:78-86 | `put` on a key with a live link overwrites the value and shares the existing owner; no new owner is minted and `size()` is unchanged |
| WeakActiveMap.DiscardedPutLeavesNothing | other/active_map.h:84-95 | a `put` on an absent key whose handle is released at once leaves the table as it was |
| WeakActiveMap.CopyThenDropRestores | other/active_map.h:37-41 | copying a pointer and releasing the copy restores the table; this is also why self-assignment changes nothing |
| WeakActiveMap.GetNeverInserts | other/active_map.h:99-106 | `get` never changes the set of keys, and for an absent or expired key it changes nothing and yields null |
| WeakActiveMap.AcquirePreservesInv | other/active_map.h:84-86 | sharing a key's current owner keeps the invariant, with that pointer live once more |
| WeakActiveMap.PutPreservesInv | other/active_map.h:75-96 | `put` keeps the invariant, with the returned pointer live; the block counter advances exactly when a new owner is minted |
| WeakActiveMap.ReleasePreservesInv | other/active_map.h:87-92 | releasing a live pointer keeps the invariant with one occurrence of it gone; the pointer owns its key's current owner |
| WeakActiveMap.MapValuesPreservesInv | other/active_map.h:125-130 | the mutating `for_each` changes no key and no link, so the invariant holds |
| WeakActiveMap.SizeCountsLiveKeys | other/active_map.h:132-134 | under the invariant, `size()` equals the number of distinct keys that have a live handle |
| WeakActiveMap.GetFindsExactlyLiveKeys | other/active_map.h:99-106 | under the invariant, `get` yields a non-null pointer exactly when some live handle holds the key, and that pointer is one the live handles already share |
| WeakActiveMap.ActiveMapAdapter.constructor | other/active_map.h:63-67 | a new adapter has an empty table, no live handle and no owner minted |
| WeakActiveMap.ActiveMapAdapter.Put | other/active_map.h:75-96 | returns a mutable valid handle and the table that `PutResult` gives; mints (and advances the block counter) exactly when the key is absent or expired; keeps the invariant |
| WeakActiveMap.ActiveMapAdapter.Get | other/active_map.h:98-106 | returns a mutable handle on `Lock`'s pointer, which shares the live owner or is null; only that owner's count changes |
| WeakActiveMap.ActiveMapAdapter.ConstGet | other/active_map.h:108-116 | the same lookup as `Get`, yielding a read-only handle with the same validity |
| WeakActiveMap.ActiveMapAdapter.Copy | other/active_map.h:37 | the copy equals the source and shares its owner, one more holder |
| WeakActiveMap.ActiveMapAdapter.Move | other/active_map.h:39 | the pointer moves to the new handle, the source becomes null, and no owner count changes |
| WeakActiveMap.ActiveMapAdapter.Drop | other/active_map.h:35 | the table becomes `Release` of the old table; the handle is no longer live; the invariant is kept |
| WeakActiveMap.ActiveMapAdapter.Assign | other/active_map.h:41 | `dst = src` acquires src's owner, then releases dst's old one; dst becomes src |
| WeakActiveMap.ActiveMapAdapter.MoveAssign | other/active_map.h:43 | `dst = move(src)` releases dst's old owner, dst takes src's pointer, and src becomes null |
| WeakActiveMap.ActiveMapAdapter.Value | other/active_map.h:22-28 | a live valid handle's key is stored, and the handle reads the value stored in place |
| WeakActiveMap.ActiveMapAdapter.Write | other/active_map.h:22-24 | assigning through a mutable handle's `value()` replaces the stored value and keeps the link |
| WeakActiveMap.ActiveMapAdapter.ForEach | other/active_map.h:125-130 | every stored value is replaced by the visitor's result, exactly once; keys, links and live handles are unchanged |
| WeakActiveMap.ActiveMapAdapter.Visit | other/active_map.h:118-123 | the read-only `for_each` calls the visitor on every stored key, only on stored keys, each with its current value, and never twice on one key |
| WeakActiveMap.ActiveMapAdapter.Size | other/active_map.h:132-134 | `size()` is the number of stored keys, which is the number of keys with a live handle |
| WeakActiveMapTest.ScenarioSharing | other/active_map.h:84-86 | two `put`s on one key yield equal handles on the one owner, which is held twice |
| WeakActiveMapTest.ScenarioSelfAssign | other/active_map.h:41 | `h = h` leaves the table and the live handles as they were |
| WeakActiveMapTest.ScenarioCopyAssign | other/active_map.h:41 | assigning a live handle to a default-constructed one adds a third holder of the owner |
| WeakActiveMapTest.ScenarioMoveAssign | other/active_map.h:43 | `g = move(h)` between two holders leaves one fewer holder and `h` null |
| WeakActiveMapTest.ScenarioConstGet | other/active_map.h:108-116 | a const `get` shares the owner and reads the stored value; dropping it restores the count |
| WeakActiveMapTest.ScenarioRelease | other/active_map.h:87-92 | releasing the null handle changes nothing; releasing the last two owners runs the deleter once, which erases the key, so the table is empty and `size()` is 0 |

## Left out

- The template-template genericity over the backing table, and the
  `std::map` and `std::unordered_map` aliases, are one Dafny `map`. Iterator
  stability and hash or tree internals are not modelled.
- `for_each` visits keys in an unspecified order. The ascending order of
  `std::map` is not modelled. A visitor that inserts or erases during the
  traversal is excluded, because the visitor is a pure function of the key and
  the value.
- The read-only `for_each` is modelled by the sequence of calls its visitor
  receives (`Visit`), not by what an arbitrary visitor does with them.
- The const `get` of include/active_map.h:92-95 is not modelled. It builds a
  `handle_t` holding a non-const table reference from a const table, so it
  would not compile if instantiated.
- The deleted handle assignments of include/active_map.h:55-56 have nothing
  to model.
- The failure paths of `put` are not modelled: `emplace` can fail to
  allocate (include/active_map.h:81, other/active_map.h:81), and assigning
  the value can throw (line 79 in both). In other/active_map.h, a failure to
  allocate the control block in the `shared_ptr` constructor (lines 87-92)
  calls the deleter on the pointer, which erases the key that was just
  emplaced. The model's operations always succeed.
- Dereferencing an invalid handle is a precondition of `Value` and `Write`,
  not modelled behaviour.
- Handles that outlive their map, `constexpr`, `noexcept` and `[[nodiscard]]`
  are out of scope. A handle in the model belongs to the one map whose ghost
  `live` accounts for it.
- Destroying one handle object twice, and handles forged by the caller, are
  excluded by the precondition that a dropped, copied or read handle is one
  of the map's live handles.
- In other/active_map.h, the aliasing `shared_ptr` constructor, the heap
  control block and the deleter closure are replaced by an owner count and
  block number in the entry's link, plus the erase-on-zero step of `Release`.
  The weak reference count is not modelled.
- In other/active_map.h, `key` is forwarded into `emplace` (line 81) and then
  captured by copy in the deleter (line 89). For move-sensitive key types,
  the captured key can be a moved-from value, and the deleter then erases the
  wrong key. Keys are plain values here, so this is not reproduced.
- Self-move-assignment of one handle object (`h = std::move(h)`) is not
  modelled. Handles are values, so `MoveAssign` treats its two arguments as
  distinct holders.
- `ActiveMap.Release`: the count is unbounded, and a decrement below zero
  (a `size_t` wrap-around) is excluded by its precondition. That state never
  arises while the invariant holds.
- WeakActiveMap.ActiveMapAdapter.ConstGet: in the source, the owner count
  that a const `get` raises lives in the shared pointers' control block,
  beside the const table. The model keeps that count in the entry, so
  `ConstGet` modifies the map object.
