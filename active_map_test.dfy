// The scenario of test.cc, replayed against the contracts of ActiveMap. Each
// C++ scope exit is an explicit Drop, in reverse order of construction; a
// temporary handle that put returns and nobody keeps is dropped at once.
module ActiveMapTest {
  import opened ActiveMap

  /** Sum of the values a read-only for_each visits. */
  function SumValues(visited: seq<(int, int)>): int
  {
    if visited == [] then 0 else visited[0].1 + SumValues(visited[1..])
  }

  /** A two-entry visit of keys a and b sums the values stored under them, in either order. */
  lemma SumOfTwo(visited: seq<(int, int)>, s: Store<int, int>, a: int, b: int)
    requires s.Keys == {a, b} && a != b
    requires |visited| == 2 && visited[0].0 != visited[1].0
    requires forall i :: 0 <= i < 2 ==> visited[i].0 in s && visited[i].1 == s[visited[i].0].value
    ensures SumValues(visited) == s[a].value + s[b].value
  {
    var rest := visited[1..];
    assert rest[0] == visited[1] && rest[1..] == [];
    assert SumValues(rest) == visited[1].1;
    if visited[0].0 != a {
      assert visited[0].0 == b && visited[1].0 == a;
    }
  }

  /**
   * The statement `put(k, v);`, whose handle is destroyed at the end of the
   * full expression: an overwrite of a present key, and nothing at all for an
   * absent one.
   */
  method PutDiscarded(m: ActiveMapAdaptor<int, int>, k: int, v: int)
    requires m.Valid()
    modifies m
    ensures m.Valid() && m.live == old(m.live)
    ensures m.store == if k in old(m.store) then old(m.store)[k := Entry(v, old(m.store)[k].count)] else old(m.store)
  {
    ghost var s := m.store;
    var t := m.Put(k, v);
    m.Drop(t);
    if k !in s {
      DiscardedPutLeavesNothing(s, k, v);
    } else {
      assert m.store.Keys == s.Keys;
    }
  }

  /**
   * The block `{ auto ha = get(k); ... ha.value() ... }`: whether the handle
   * was valid and, if so, the value it read; the table is as it was after.
   */
  method LookupScoped(m: ActiveMapAdaptor<int, int>, k: int) returns (found: bool, v: int)
    requires m.Valid()
    modifies m
    ensures m.Valid() && m.live == old(m.live) && m.store == old(m.store)
    ensures found <==> k in m.store
    ensures found ==> v == m.store[k].value
  {
    ghost var s := m.store;
    var ha := m.Get(k);
    found := ha.Valid();
    v := 0;
    if found {
      v := m.Value(ha);
    }
    m.Drop(ha);
    CopyThenDropRestores(s, ha);
  }

  /** test.cc's three puts: only h1's key survives, holding the second value. */
  method ScenarioPuts() returns (m: ActiveMapAdaptor<int, int>, h1: Handle<int>)
    ensures fresh(m) && m.Valid() && h1 == At(10)
    ensures m.store == map[10 := Entry(101, 1)] && m.live == multiset{10}
  {
    m := new ActiveMapAdaptor<int, int>();
    var n := m.Size();
    assert n == 0;

    h1 := m.Put(10, 100);
    PutDiscarded(m, 10, 101);
    PutDiscarded(m, 11, 110);
    assert m.store == map[10 := Entry(101, 1)];
    n := m.Size();
    assert n == 1;
  }

  /**
   * The rest of test.cc's first blocks: a copy outlives h1, lookups see key 10
   * and not key 11, and dropping the copy evicts key 10, leaving the map empty.
   */
  method ScenarioLifetimes() returns (m: ActiveMapAdaptor<int, int>, copied: int, found10: bool, found11: bool, foundAfter: bool)
    ensures fresh(m) && m.Valid() && m.store == map[] && m.live == multiset{}
    ensures copied == 101 && found10 && !found11 && !foundAfter
  {
    var h1;
    m, h1 := ScenarioPuts();

    // h2 is a heap copy of h1, which then leaves its scope.
    var h2 := m.Copy(h1);
    m.Drop(h1);
    var n := m.Size();
    assert n == 1;
    assert h2.Valid();
    copied := m.Value(h2);

    var v;
    found10, v := LookupScoped(m, 10);
    assert v == 101;
    found11, v := LookupScoped(m, 11);

    // The unique_ptr deletes h2: key 10 loses its last handle.
    m.Drop(h2);
    assert m.store == map[];
    foundAfter, v := LookupScoped(m, 10);
  }

  /**
   * test.cc's last block, on the empty map the first blocks leave: two puts,
   * a for_each that sums and increments (250), one that sums (252), and size
   * 2 during the block and 0 after it.
   */
  method ScenarioForEach() returns (first: int, second: int, during: nat, after: nat)
    ensures first == 250 && second == 252 && during == 2 && after == 0
  {
    var m, copied, found10, found11, foundAfter := ScenarioLifetimes();
    var hx := m.Put(12, 120);
    var hy := m.Put(13, 130);
    var n := m.Size();
    assert n == 2;

    // for_each with s += v++: the visitor sees 120 and 130, then adds one to each.
    var visited := m.Visit();
    SumOfTwo(visited, m.store, 12, 13);
    first := SumValues(visited);
    m.ForEach((k: int, x: int) => x + 1);
    visited := m.Visit();
    SumOfTwo(visited, m.store, 12, 13);
    second := SumValues(visited);
    during := m.Size();

    m.Drop(hy);
    m.Drop(hx);
    after := m.Size();
  }
}
