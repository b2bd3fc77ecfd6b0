// A short scenario for WeakActiveMap: one key shared by several handles
// through one owner, copy and move assignment between them, a const lookup,
// and eviction when the last of them goes. Each step is its own method, with
// the concrete state it leaves as its postcondition.
module WeakActiveMapTest {
  import opened WeakActiveMap

  /** The one owner of key 1, held `n` times. */
  function Owners(n: nat): multiset<Ptr<int>>
  {
    if n == 0 then multiset{} else Owners(n - 1) + multiset{Shared(1, 0)}
  }

  /** Two puts on one key share the owner minted by the first. */
  method ScenarioSharing() returns (m: ActiveMapAdapter<int, int>, h: Handle<int>, g: Handle<int>)
    ensures fresh(m) && m.Valid() && m.next == 1
    ensures h == g == Handle(Shared(1, 0), false)
    ensures m.store == map[1 := Slot(11, Alive(0, 2))] && m.live == Owners(2)
  {
    m := new ActiveMapAdapter<int, int>();
    PutAbsentMints(m.store, 1, 10, m.next);
    h := m.Put(1, 10);
    PutAliveShares(m.store, 1, 11, m.next);
    g := m.Put(1, 11);
  }

  /** h = h: the owner is acquired, then released, and nothing changes. */
  method ScenarioSelfAssign() returns (m: ActiveMapAdapter<int, int>, h: Handle<int>, g: Handle<int>)
    ensures fresh(m) && m.Valid() && m.next == 1
    ensures h == g == Handle(Shared(1, 0), false)
    ensures m.store == map[1 := Slot(11, Alive(0, 2))] && m.live == Owners(2)
  {
    m, h, g := ScenarioSharing();
    CopyThenDropRestores(m.store, h.ptr);
    h := m.Assign(h, h);
  }

  /** d = g for a default-constructed d: d becomes a third owner. */
  method ScenarioCopyAssign() returns (m: ActiveMapAdapter<int, int>, d: Handle<int>, g: Handle<int>, h: Handle<int>)
    ensures fresh(m) && m.Valid() && m.next == 1
    ensures d == g == h == Handle(Shared(1, 0), false)
    ensures m.store == map[1 := Slot(11, Alive(0, 3))] && m.live == Owners(3)
  {
    m, h, g := ScenarioSelfAssign();
    d := NullHandle<int>(false);
    d := m.Assign(d, g);
    assert m.store == map[1 := Slot(11, Alive(0, 3))];
  }

  /** g = move(h): g's old owner unit is released and h is left null. */
  method ScenarioMoveAssign() returns (m: ActiveMapAdapter<int, int>, d: Handle<int>, g: Handle<int>, h: Handle<int>)
    ensures fresh(m) && m.Valid() && m.next == 1
    ensures d == g == Handle(Shared(1, 0), false) && h == Handle(Null, false)
    ensures m.store == map[1 := Slot(11, Alive(0, 2))] && m.live == Owners(2)
  {
    m, d, g, h := ScenarioCopyAssign();
    g, h := m.MoveAssign(g, h);
    assert m.store == map[1 := Slot(11, Alive(0, 2))];
  }

  /** A const get shares the owner and reads the value; dropping it restores the count. */
  method ScenarioConstGet() returns (m: ActiveMapAdapter<int, int>, d: Handle<int>, g: Handle<int>, h: Handle<int>)
    ensures fresh(m) && m.Valid() && m.next == 1
    ensures d == g == Handle(Shared(1, 0), false) && h == Handle(Null, false)
    ensures m.store == map[1 := Slot(11, Alive(0, 2))] && m.live == Owners(2)
  {
    m, d, g, h := ScenarioMoveAssign();
    ghost var s := m.store;
    var c := m.ConstGet(1);
    assert c == Handle(Shared(1, 0), true);
    var v := m.Value(c);
    assert v == 11;
    CopyThenDropRestores(s, c.ptr);
    m.Drop(c);
  }

  /** The key is erased with the last of its handles; the null one releases nothing. */
  method ScenarioRelease() returns (m: ActiveMapAdapter<int, int>, n: nat)
    ensures fresh(m) && m.Valid() && m.store == map[] && m.live == multiset{} && n == 0
  {
    var d, g, h;
    m, d, g, h := ScenarioConstGet();
    m.Drop(h);
    m.Drop(g);
    assert m.store == map[1 := Slot(11, Alive(0, 1))];
    m.Drop(d);
    assert m.store == map[];
    n := m.Size();
  }
}
