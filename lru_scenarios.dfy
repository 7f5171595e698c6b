/**
 * Scenarios from go-impl/test/lru_test.go, plus the two scenarios behind the
 * stale-handle finding on Put: each a fixed sequence of cache operations
 * whose observable results the ensures clauses pin down.
 */
module LRUScenarios {
  import opened Wrappers
  import opened DLL
  import opened LRU

  /** Lookup in a list of two pairs, unfolded. */
  lemma LookupTwo(a: Pair, b: Pair, key: int)
    ensures Lookup([a], key) == if a.Key == key then Some(a) else None
    ensures Lookup([a, b], key) == if a.Key == key then Some(a) else if b.Key == key then Some(b) else None
  {
    assert [a, b][1..] == [b];
    assert [a][1..] == [];
  }

  /** Removing the second of two different pairs leaves the first. */
  lemma RemoveSecond(a: Pair, b: Pair)
    requires a != b
    ensures RemoveFirst([a, b], b) == [a]
  {
    assert [a, b][1..] == [b];
    assert [b][1..] == [];
  }

  /** A put into an empty cache evicts nothing and the pair is then found. */
  method BasicPutGet() returns (evicted: Option<Pair>, v: int)
    ensures evicted == None && v == 10
  {
    var c := new LRUCache.Init(1);
    evicted := c.Put(Pair(1, 10));
    v := c.Get(1);
  }

  /** Putting the same pair twice into a one-pair cache evicts nothing either time. */
  method PutSameDataTwice() returns (evicted1: Option<Pair>, v1: int, evicted2: Option<Pair>, v2: int)
    ensures evicted1 == None && v1 == 10 && evicted2 == None && v2 == 10
  {
    var c := new LRUCache.Init(1);
    evicted1 := c.Put(Pair(1, 10));
    v1 := c.Get(1);
    evicted2 := c.Put(Pair(1, 10));
    v2 := c.Get(1);
  }

  /** A second key in a one-pair cache evicts the first pair. */
  method PutDifferentData() returns (evicted1: Option<Pair>, v1: int, evicted2: Option<Pair>, v2: int)
    ensures evicted1 == None && v1 == 10 && evicted2 == Some(Pair(1, 10)) && v2 == 20
  {
    var c := new LRUCache.Init(1);
    evicted1 := c.Put(Pair(1, 10));
    v1 := c.Get(1);
    evicted2 := c.Put(Pair(2, 20));
    v2 := c.Get(2);
  }

  /** The two-pair scenario, first step: two puts into an empty cache of capacity two evict nothing. */
  method TwoPairFill() returns (c: LRUCache, evicted1: Option<Pair>, evicted2: Option<Pair>)
    ensures fresh(c) && fresh(c.l) && c.Valid() && c.cap == 2
    ensures c.l.Contents == [Pair(2, 20), Pair(1, 10)]
    ensures evicted1 == None && evicted2 == None
  {
    c := new LRUCache.Init(2);
    evicted1 := c.Put(Pair(1, 10));
    LookupTwo(Pair(1, 10), Pair(1, 10), 2);
    evicted2 := c.Put(Pair(2, 20));
  }

  /** Second step: a get of the older key returns its value and makes it most recently used. */
  method TwoPairGetOlder(c: LRUCache) returns (v: int)
    requires c.Valid() && c.l.Contents == [Pair(2, 20), Pair(1, 10)]
    modifies c, c.l
    ensures c.Valid() && c.l.Contents == [Pair(1, 10), Pair(2, 20)] && v == 10
  {
    LookupTwo(Pair(2, 20), Pair(1, 10), 1);
    RemoveSecond(Pair(2, 20), Pair(1, 10));
    v := c.Get(1);
  }

  /** Third step: a new key evicts the least recently used pair, whose key is then absent. */
  method TwoPairPutThird(c: LRUCache) returns (evicted: Option<Pair>, v: int)
    requires c.Valid() && c.cap == 2 && c.l.Contents == [Pair(1, 10), Pair(2, 20)]
    modifies c, c.l
    ensures c.Valid() && c.l.Contents == [Pair(3, 30), Pair(1, 10)]
    ensures evicted == Some(Pair(2, 20)) && v == -1
  {
    LookupTwo(Pair(1, 10), Pair(2, 20), 3);
    evicted := c.Put(Pair(3, 30));
    LookupTwo(Pair(3, 30), Pair(1, 10), 2);
    v := c.Get(2);
  }

  /** Fourth step: another new key evicts the pair that was refreshed before the third put. */
  method TwoPairPutFourth(c: LRUCache) returns (evicted: Option<Pair>, v: int)
    requires c.Valid() && c.cap == 2 && c.l.Contents == [Pair(3, 30), Pair(1, 10)]
    modifies c, c.l
    ensures c.Valid() && c.l.Contents == [Pair(4, 40), Pair(3, 30)]
    ensures evicted == Some(Pair(1, 10)) && v == -1
  {
    LookupTwo(Pair(3, 30), Pair(1, 10), 4);
    evicted := c.Put(Pair(4, 40));
    LookupTwo(Pair(4, 40), Pair(3, 30), 1);
    v := c.Get(1);
  }

  /** Last step: the older of the two remaining keys is still found. */
  method TwoPairGetLast(c: LRUCache) returns (v: int)
    requires c.Valid() && c.l.Contents == [Pair(4, 40), Pair(3, 30)]
    modifies c, c.l
    ensures v == 30
  {
    LookupTwo(Pair(4, 40), Pair(3, 30), 3);
    RemoveSecond(Pair(4, 40), Pair(3, 30));
    v := c.Get(3);
  }

  /** In a two-pair cache a get refreshes its key, so the other key is the one evicted next. */
  method TwoPairCache() returns (evictions: seq<Option<Pair>>, gets: seq<int>)
    ensures evictions == [None, None, Some(Pair(2, 20)), Some(Pair(1, 10))]
    ensures gets == [10, -1, -1, 30]
  {
    var c, e1, e2 := TwoPairFill();
    var g1 := TwoPairGetOlder(c);
    var e3, g2 := TwoPairPutThird(c);
    var e4, g3 := TwoPairPutFourth(c);
    var g4 := TwoPairGetLast(c);
    evictions, gets := [e1, e2, e3, e4], [g1, g2, g3, g4];
  }

  /**
   * The source's Put of a present key writes the new pair into the node
   * its handle names after that node has been detached. With key 1 behind
   * key 2, the list's front then holds the old pair, and the promotion a
   * later Get attempts through the same handle finds no node with the
   * handle's data.
   */
  method StaleHandleAsWritten() returns (front: Pair, handle: Pair, err: Option<Error>)
    ensures front == Pair(1, 10) && handle == Pair(1, 11)
    ensures err == Some(NoNodeWithGivenData)
  {
    var c, _, _ := TwoPairFill();
    front, handle, err := StaleHandleStep(c);
  }

  /** The update of key 1, held behind key 2, through the source's Put, then a promotion through its handle. */
  method StaleHandleStep(c: LRUCache) returns (front: Pair, handle: Pair, err: Option<Error>)
    requires c.Valid() && c.l.Contents == [Pair(2, 20), Pair(1, 10)]
    modifies c.l
    ensures front == Pair(1, 10) && handle == Pair(1, 11)
    ensures err == Some(NoNodeWithGivenData)
  {
    LookupTwo(Pair(2, 20), Pair(1, 10), 1);
    RemoveSecond(Pair(2, 20), Pair(1, 10));
    var _ := c.PutAsWritten(Pair(1, 11));
    front := c.l.data[c.l.Head()];
    var node := c.m[1];
    handle := c.l.data[node];
    err := c.l.MoveNodeToFront(node);
  }

  /** With the corrected Put, an update of a present key is what the list's front and a later Get see. */
  method UpdatePresentKey() returns (front: Pair, v: int)
    ensures front == Pair(1, 11) && v == 11
  {
    var c := new LRUCache.Init(2);
    var _ := c.Put(Pair(1, 10));
    var _ := c.Put(Pair(1, 11));
    v := c.Get(1);
    front := c.l.data[c.GetFirstElement()];
  }
}
