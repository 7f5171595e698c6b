/**
 * Scenarios from go-impl/test/mglru_test.go: fixed sequences of cache
 * operations whose observable results, and the generations after each
 * step, the ensures clauses pin down.
 */
module MGLRUScenarios {
  import opened Wrappers
  import opened DLL
  import opened LRU
  import opened MGLRUSpec
  import opened MGLRU

  const P1 := Pair(1, 10)
  const P2 := Pair(2, 20)
  const P3 := Pair(3, 30)
  const P4 := Pair(4, 40)
  const P5 := Pair(5, 50)

  /** Init(2, c) builds two empty generations and an empty index. */
  lemma EmptyTwo()
    ensures Empty(2) == Gens([[], []], map[])
  {
    assert Empty(2).lists == [[], []];
  }

  /** A put of a new key into a list with room pushes it at the front and evicts nothing. */
  lemma PutRoom(s: seq<Pair>, cap: int, p: Pair)
    requires cap >= 1 && |s| < cap && Lookup(s, p.Key) == None
    ensures PutSpec(s, cap, p) == ([p] + s, None)
  {
  }

  /** A put of a new key into a full list pushes it at the front and evicts the tail. */
  lemma PutFull(s: seq<Pair>, cap: int, p: Pair)
    requires cap >= 1 && |s| == cap && Lookup(s, p.Key) == None
    ensures PutSpec(s, cap, p) == ([p] + s[..|s| - 1], Some(s[|s| - 1]))
  {
  }

  /** The first put into two empty one-pair generations. */
  lemma TwoByOnePutFirstSpec()
    ensures AfterPut(Gens([[], []], map[]), 1, P1) == (Gens([[P1], []], map[1 := 0]), None)
  {
    var e: seq<Pair> := [];
    var st := Gens([e, e], map[]);
    PutRoom(e, 1, P1);
    assert [P1] + e == [P1];
    assert [e, e][0 := [P1]] == [[P1], e];
    assert Cascade(st, 1, P1, 0) == (Gens([[P1], e], map[]), None);
  }

  /** A get of the only pair: removed, inserted again at the front, read. */
  lemma TwoByOneGetFirstSpec()
    ensures AfterGet(Gens([[P1], []], map[1 := 0]), 1, 1) == (Gens([[P1], []], map[1 := 0]), 10)
  {
    var e: seq<Pair> := [];
    var st := Gens([[P1], e], map[1 := 0]);
    assert Lookup([P1], 1) == Some(P1);
    assert RemoveFirst([P1], P1) == e;
    assert RemoveSpec([P1], 1) == (e, Some(P1));
    var st1 := Gens([e, e], map[1 := 0]);
    PutRoom(e, 1, P1);
    assert [P1] + e == [P1];
    assert [e, e][0 := [P1]] == [[P1], e];
    assert [[P1], e][0 := e] == [e, e];
    assert Cascade(st1, 1, P1, 0) == (Gens([[P1], e], map[1 := 0]), None);
    assert map[1 := 0][1 := 0][1 := 0] == map[1 := 0];
    assert Promoted(st, 1, 1) == (st, Some(P1));
    assert GetSpec([P1], 1) == ([P1], 10);
    assert [[P1], e][0 := [P1]] == [[P1], e];
  }

  /** The second put moves the first pair into the older generation. */
  lemma TwoByOnePutSecondSpec()
    ensures AfterPut(Gens([[P1], []], map[1 := 0]), 1, P2) == (Gens([[P2], [P1]], map[1 := 1, 2 := 0]), None)
  {
    var e: seq<Pair> := [];
    var st := Gens([[P1], e], map[1 := 0]);
    assert Lookup([P1], 2) == None;
    PutFull([P1], 1, P2);
    assert [P2] + [P1][..0] == [P2];
    PutRoom(e, 1, P1);
    assert [P1] + e == [P1];
    var st1 := Gens([[P2], e], map[1 := 1]);
    assert [[P1], e][0 := [P2]] == [[P2], e];
    assert [[P2], e][1 := [P1]] == [[P2], [P1]];
    assert PutSpec(st1.lists[1], 1, P1) == ([P1], None);
    assert Cascade(st1, 1, P1, 1) == (Gens([[P2], [P1]], map[1 := 1]), None);
    assert map[1 := 0][1 := 1] == map[1 := 1];
    assert Cascade(st, 1, P2, 0) == Cascade(st1, 1, P1, 1);
  }

  /** A get of the second key reads it at the front of the youngest generation. */
  lemma TwoByOneGetSecondSpec()
    ensures AfterGet(Gens([[P2], [P1]], map[1 := 1, 2 := 0]), 1, 2).1 == 20
  {
    var st := Gens([[P2], [P1]], map[1 := 1, 2 := 0]);
    assert Lookup([P2], 2) == Some(P2);
    GetFront(st, 1, 2);
  }

  /** Two generations of one pair: the first put goes to the youngest generation. */
  method TwoByOnePutFirst() returns (c: MGLRUCache, evicted: Option<Pair>)
    ensures fresh(c) && fresh(c.Repr) && c.Valid() && c.capacity == 1
    ensures c.State() == Gens([[P1], []], map[1 := 0]) && evicted == None
  {
    c := new MGLRUCache.Init(2, 1);
    EmptyTwo();
    TwoByOnePutFirstSpec();
    evicted := c.Put(P1);
  }

  /** A get of the only pair returns its value and keeps the generations. */
  method TwoByOneGetFirst(c: MGLRUCache) returns (v: int)
    requires c.Valid() && c.capacity == 1 && c.State() == Gens([[P1], []], map[1 := 0])
    modifies c, c.Repr
    ensures c.Valid() && c.State() == Gens([[P1], []], map[1 := 0]) && v == 10
  {
    TwoByOneGetFirstSpec();
    v := c.Get(1);
  }

  /** A second key pushes the first pair into the older generation; nothing leaves. */
  method TwoByOnePutSecond(c: MGLRUCache) returns (evicted: Option<Pair>)
    requires c.Valid() && c.capacity == 1 && c.State() == Gens([[P1], []], map[1 := 0])
    modifies c, c.Repr
    ensures c.Valid() && c.State() == Gens([[P2], [P1]], map[1 := 1, 2 := 0]) && evicted == None
  {
    TwoByOnePutSecondSpec();
    evicted := c.Put(P2);
  }

  /** The second key is found in the youngest generation. */
  method TwoByOneGetSecond(c: MGLRUCache) returns (v: int)
    requires c.Valid() && c.capacity == 1 && c.State() == Gens([[P2], [P1]], map[1 := 1, 2 := 0])
    modifies c, c.Repr
    ensures v == 20
  {
    TwoByOneGetSecondSpec();
    v := c.Get(2);
  }

  /** Two generations of one pair each hold both pairs: no put evicts and both gets succeed. */
  method TwoByOne() returns (evictions: seq<Option<Pair>>, gets: seq<int>)
    ensures evictions == [None, None] && gets == [10, 20]
  {
    var c, e1 := TwoByOnePutFirst();
    var g1 := TwoByOneGetFirst(c);
    var e2 := TwoByOnePutSecond(c);
    var g2 := TwoByOneGetSecond(c);
    evictions, gets := [e1, e2], [g1, g2];
  }

  // One generation of one pair

  /** Init(1, c) builds one empty generation and an empty index. */
  lemma EmptyOne()
    ensures Empty(1) == Gens([[]], map[])
  {
    assert Empty(1).lists == [[]];
  }

  /** The first put into one empty one-pair generation. */
  lemma OneByOnePutFirstSpec()
    ensures AfterPut(Gens([[]], map[]), 1, P1) == (Gens([[P1]], map[1 := 0]), None)
  {
    var e: seq<Pair> := [];
    var st := Gens([e], map[]);
    PutRoom(e, 1, P1);
    assert [P1] + e == [P1];
    assert [e][0 := [P1]] == [[P1]];
    assert Cascade(st, 1, P1, 0) == (Gens([[P1]], map[]), None);
  }

  /** A get of the only pair of the only generation. */
  lemma OneByOneGetFirstSpec()
    ensures AfterGet(Gens([[P1]], map[1 := 0]), 1, 1) == (Gens([[P1]], map[1 := 0]), 10)
  {
    var e: seq<Pair> := [];
    var st := Gens([[P1]], map[1 := 0]);
    assert Lookup([P1], 1) == Some(P1);
    assert RemoveFirst([P1], P1) == e;
    assert RemoveSpec([P1], 1) == (e, Some(P1));
    var st1 := Gens([e], map[1 := 0]);
    PutRoom(e, 1, P1);
    assert [P1] + e == [P1];
    assert [e][0 := [P1]] == [[P1]];
    assert [[P1]][0 := e] == [e];
    assert Cascade(st1, 1, P1, 0) == (Gens([[P1]], map[1 := 0]), None);
    assert map[1 := 0][1 := 0][1 := 0] == map[1 := 0];
    assert Promoted(st, 1, 1) == (st, Some(P1));
    assert GetSpec([P1], 1) == ([P1], 10);
    assert [[P1]][0 := [P1]] == [[P1]];
  }

  /** A second key evicts the first pair from the only generation, and from the cache. */
  lemma OneByOnePutSecondSpec()
    ensures AfterPut(Gens([[P1]], map[1 := 0]), 1, P2) == (Gens([[P2]], map[2 := 0]), Some(P1))
  {
    var st := Gens([[P1]], map[1 := 0]);
    assert Lookup([P1], 2) == None;
    PutFull([P1], 1, P2);
    assert [P2] + [P1][..0] == [P2];
    assert [[P1]][0 := [P2]] == [[P2]];
    var st1 := Gens([[P2]], map[1 := 1]);
    assert map[1 := 0][1 := 1] == map[1 := 1];
    assert Cascade(st, 1, P2, 0) == Cascade(st1, 1, P1, 1) == (st1, Some(P1));
    assert map[1 := 1][2 := 0] - {1} == map[2 := 0];
  }

  /** The second key is read from the only generation. */
  lemma OneByOneGetSecondSpec()
    ensures AfterGet(Gens([[P2]], map[2 := 0]), 1, 2).1 == 20
  {
    var st := Gens([[P2]], map[2 := 0]);
    assert Lookup([P2], 2) == Some(P2);
    GetFront(st, 1, 2);
  }

  /** One generation of one pair: the first put evicts nothing and its pair is found. */
  method OneByOneFirst() returns (c: MGLRUCache, evicted: Option<Pair>, v: int)
    ensures fresh(c) && fresh(c.Repr) && c.Valid() && c.capacity == 1
    ensures c.State() == Gens([[P1]], map[1 := 0]) && evicted == None && v == 10
  {
    c := new MGLRUCache.Init(1, 1);
    EmptyOne();
    OneByOnePutFirstSpec();
    evicted := c.Put(P1);
    OneByOneGetFirstSpec();
    v := c.Get(1);
  }

  /** The second key evicts the first pair and is then found. */
  method OneByOneSecond(c: MGLRUCache) returns (evicted: Option<Pair>, v: int)
    requires c.Valid() && c.capacity == 1 && c.State() == Gens([[P1]], map[1 := 0])
    modifies c, c.Repr
    ensures evicted == Some(P1) && v == 20
  {
    OneByOnePutSecondSpec();
    evicted := c.Put(P2);
    OneByOneGetSecondSpec();
    v := c.Get(2);
  }

  /** With one generation of one pair, the second key evicts the first. */
  method OneByOne() returns (evictions: seq<Option<Pair>>, gets: seq<int>)
    ensures evictions == [None, Some(Pair(1, 10))] && gets == [10, 20]
  {
    var c, e1, g1 := OneByOneFirst();
    var e2, g2 := OneByOneSecond(c);
    evictions, gets := [e1, e2], [g1, g2];
  }

  // Two generations of two pairs

  /** The first put into two empty two-pair generations. */
  lemma TwoByTwoPut1Spec()
    ensures AfterPut(Gens([[], []], map[]), 2, P1) == (Gens([[P1], []], map[1 := 0]), None)
  {
    var e: seq<Pair> := [];
    var st := Gens([e, e], map[]);
    PutRoom(e, 2, P1);
    assert [P1] + e == [P1];
    assert [e, e][0 := [P1]] == [[P1], e];
    assert Cascade(st, 2, P1, 0) == (Gens([[P1], e], map[]), None);
  }

  /** The second put still fits the youngest generation. */
  lemma TwoByTwoPut2Spec()
    ensures AfterPut(Gens([[P1], []], map[1 := 0]), 2, P2) == (Gens([[P2, P1], []], map[1 := 0, 2 := 0]), None)
  {
    var e: seq<Pair> := [];
    var st := Gens([[P1], e], map[1 := 0]);
    assert Lookup([P1], 2) == None;
    PutRoom([P1], 2, P2);
    assert [P2] + [P1] == [P2, P1];
    assert [[P1], e][0 := [P2, P1]] == [[P2, P1], e];
    assert Cascade(st, 2, P2, 0) == (Gens([[P2, P1], e], map[1 := 0]), None);
  }

  /** A get of the older pair of the youngest generation moves it to the front. */
  lemma TwoByTwoGet1Spec()
    ensures AfterGet(Gens([[P2, P1], []], map[1 := 0, 2 := 0]), 2, 1)
         == (Gens([[P1, P2], []], map[1 := 0, 2 := 0]), 10)
  {
    var e: seq<Pair> := [];
    var keys := map[1 := 0, 2 := 0];
    var st := Gens([[P2, P1], e], keys);
    assert [P2, P1][1..] == [P1];
    assert Lookup([P2, P1], 1) == Some(P1);
    assert RemoveFirst([P2, P1], P1) == [P2] by {
      assert [P1][1..] == e;
    }
    assert RemoveSpec([P2, P1], 1) == ([P2], Some(P1));
    var st1 := Gens([[P2], e], keys);
    assert [[P2, P1], e][0 := [P2]] == [[P2], e];
    assert Lookup([P2], 1) == None;
    PutRoom([P2], 2, P1);
    assert [P1] + [P2] == [P1, P2];
    assert [[P2], e][0 := [P1, P2]] == [[P1, P2], e];
    assert Cascade(st1, 2, P1, 0) == (Gens([[P1, P2], e], keys), None);
    assert keys[1 := 0][1 := 0] == keys;
    assert Promoted(st, 2, 1) == (Gens([[P1, P2], e], keys), Some(P1));
    assert Lookup([P1, P2], 1) == Some(P1);
    assert RemoveFirst([P1, P2], P1) == [P2];
    assert GetSpec([P1, P2], 1) == ([P1, P2], 10);
    assert [[P1, P2], e][0 := [P1, P2]] == [[P1, P2], e];
  }

  /** The third key fills the youngest generation, whose tail moves to the older one. */
  lemma TwoByTwoPut3Spec()
    ensures AfterPut(Gens([[P1, P2], []], map[1 := 0, 2 := 0]), 2, P3)
         == (Gens([[P3, P1], [P2]], map[1 := 0, 2 := 1, 3 := 0]), None)
  {
    var e: seq<Pair> := [];
    var st := Gens([[P1, P2], e], map[1 := 0, 2 := 0]);
    assert [P1, P2][1..] == [P2];
    assert Lookup([P1, P2], 3) == None;
    PutFull([P1, P2], 2, P3);
    assert [P3] + [P1, P2][..1] == [P3, P1];
    assert [[P1, P2], e][0 := [P3, P1]] == [[P3, P1], e];
    var st1 := Gens([[P3, P1], e], map[1 := 0, 2 := 1]);
    assert map[1 := 0, 2 := 0][2 := 1] == map[1 := 0, 2 := 1];
    PutRoom(e, 2, P2);
    assert [P2] + e == [P2];
    assert [[P3, P1], e][1 := [P2]] == [[P3, P1], [P2]];
    assert Cascade(st1, 2, P2, 1) == (Gens([[P3, P1], [P2]], map[1 := 0, 2 := 1]), None);
    assert Cascade(st, 2, P3, 0) == Cascade(st1, 2, P2, 1);
  }

  /** The fourth key pushes the youngest generation's tail to the front of the older one. */
  lemma TwoByTwoPut4Spec()
    ensures AfterPut(Gens([[P3, P1], [P2]], map[1 := 0, 2 := 1, 3 := 0]), 2, P4)
         == (Gens([[P4, P3], [P1, P2]], map[1 := 1, 2 := 1, 3 := 0, 4 := 0]), None)
  {
    var st := Gens([[P3, P1], [P2]], map[1 := 0, 2 := 1, 3 := 0]);
    assert [P3, P1][1..] == [P1];
    assert Lookup([P3, P1], 4) == None;
    PutFull([P3, P1], 2, P4);
    assert [P4] + [P3, P1][..1] == [P4, P3];
    assert [[P3, P1], [P2]][0 := [P4, P3]] == [[P4, P3], [P2]];
    var st1 := Gens([[P4, P3], [P2]], map[1 := 1, 2 := 1, 3 := 0]);
    assert map[1 := 0, 2 := 1, 3 := 0][1 := 1] == map[1 := 1, 2 := 1, 3 := 0];
    assert Lookup([P2], 1) == None;
    PutRoom([P2], 2, P1);
    assert [P1] + [P2] == [P1, P2];
    assert [[P4, P3], [P2]][1 := [P1, P2]] == [[P4, P3], [P1, P2]];
    assert Cascade(st1, 2, P1, 1) == (Gens([[P4, P3], [P1, P2]], map[1 := 1, 2 := 1, 3 := 0]), None);
    assert Cascade(st, 2, P4, 0) == Cascade(st1, 2, P1, 1);
  }

  /** The fifth key cascades through both full generations: the oldest pair leaves the cache. */
  lemma TwoByTwoPut5Spec()
    ensures AfterPut(Gens([[P4, P3], [P1, P2]], map[1 := 1, 2 := 1, 3 := 0, 4 := 0]), 2, P5)
         == (Gens([[P5, P4], [P3, P1]], map[1 := 1, 3 := 1, 4 := 0, 5 := 0]), Some(P2))
  {
    var st := Gens([[P4, P3], [P1, P2]], map[1 := 1, 2 := 1, 3 := 0, 4 := 0]);
    assert [P4, P3][1..] == [P3];
    assert Lookup([P4, P3], 5) == None;
    PutFull([P4, P3], 2, P5);
    assert [P5] + [P4, P3][..1] == [P5, P4];
    assert [[P4, P3], [P1, P2]][0 := [P5, P4]] == [[P5, P4], [P1, P2]];
    var st1 := Gens([[P5, P4], [P1, P2]], map[1 := 1, 2 := 1, 3 := 1, 4 := 0]);
    assert map[1 := 1, 2 := 1, 3 := 0, 4 := 0][3 := 1] == map[1 := 1, 2 := 1, 3 := 1, 4 := 0];
    assert [P1, P2][1..] == [P2];
    assert Lookup([P1, P2], 3) == None;
    PutFull([P1, P2], 2, P3);
    assert [P3] + [P1, P2][..1] == [P3, P1];
    assert [[P5, P4], [P1, P2]][1 := [P3, P1]] == [[P5, P4], [P3, P1]];
    var st2 := Gens([[P5, P4], [P3, P1]], map[1 := 1, 2 := 2, 3 := 1, 4 := 0]);
    assert map[1 := 1, 2 := 1, 3 := 1, 4 := 0][2 := 2] == map[1 := 1, 2 := 2, 3 := 1, 4 := 0];
    assert Cascade(st1, 2, P3, 1) == Cascade(st2, 2, P2, 2) == (st2, Some(P2));
    assert Cascade(st, 2, P5, 0) == Cascade(st1, 2, P3, 1);
    assert map[1 := 1, 2 := 2, 3 := 1, 4 := 0][5 := 0] - {2} == map[1 := 1, 3 := 1, 4 := 0, 5 := 0];
  }

  /** After the fifth put, a get of the evicted key finds nothing and changes nothing. */
  lemma TwoByTwoGet2Spec()
    ensures AfterGet(Gens([[P5, P4], [P3, P1]], map[1 := 1, 3 := 1, 4 := 0, 5 := 0]), 2, 2)
         == (Gens([[P5, P4], [P3, P1]], map[1 := 1, 3 := 1, 4 := 0, 5 := 0]), -1)
  {
    var st := Gens([[P5, P4], [P3, P1]], map[1 := 1, 3 := 1, 4 := 0, 5 := 0]);
    assert 2 !in st.keys;
    assert Promoted(st, 2, 2) == (st, None);
  }

  /** A get of a key of the older generation returns its value. */
  lemma TwoByTwoGet3Spec()
    ensures AfterGet(Gens([[P5, P4], [P3, P1]], map[1 := 1, 3 := 1, 4 := 0, 5 := 0]), 2, 3).1 == 30
  {
    var st := Gens([[P5, P4], [P3, P1]], map[1 := 1, 3 := 1, 4 := 0, 5 := 0]);
    assert Lookup([P3, P1], 3) == Some(P3);
    GetFront(st, 2, 3);
  }

  /** Two generations of two pairs: two puts fill the youngest generation and evict nothing. */
  method TwoByTwoFill() returns (c: MGLRUCache, e1: Option<Pair>, e2: Option<Pair>)
    ensures fresh(c) && fresh(c.Repr) && c.Valid() && c.capacity == 2
    ensures c.State() == Gens([[P2, P1], []], map[1 := 0, 2 := 0]) && e1 == None && e2 == None
  {
    c := new MGLRUCache.Init(2, 2);
    EmptyTwo();
    TwoByTwoPut1Spec();
    e1 := c.Put(P1);
    TwoByTwoPut2Spec();
    e2 := c.Put(P2);
  }

  /** A get of the older pair returns its value and makes it the youngest. */
  method TwoByTwoGetOlder(c: MGLRUCache) returns (v: int, first: int)
    requires c.Valid() && c.capacity == 2 && c.State() == Gens([[P2, P1], []], map[1 := 0, 2 := 0])
    modifies c, c.Repr
    ensures c.Valid() && c.State() == Gens([[P1, P2], []], map[1 := 0, 2 := 0])
    ensures v == 10 && first == 1
  {
    TwoByTwoGet1Spec();
    v := c.Get(1);
    first := c.GetFirstElement().Key;
  }

  /** The third key evicts nothing: the youngest generation's tail moves to the older one. */
  method TwoByTwoPutThird(c: MGLRUCache) returns (evicted: Option<Pair>, first: int)
    requires c.Valid() && c.capacity == 2 && c.State() == Gens([[P1, P2], []], map[1 := 0, 2 := 0])
    modifies c, c.Repr
    ensures c.Valid() && c.State() == Gens([[P3, P1], [P2]], map[1 := 0, 2 := 1, 3 := 0])
    ensures evicted == None && first == 3
  {
    TwoByTwoPut3Spec();
    evicted := c.Put(P3);
    first := c.GetFirstElement().Key;
  }

  /** The fourth key evicts nothing either: both generations are now full. */
  method TwoByTwoPutFourth(c: MGLRUCache) returns (evicted: Option<Pair>, first: int)
    requires c.Valid() && c.capacity == 2 && c.State() == Gens([[P3, P1], [P2]], map[1 := 0, 2 := 1, 3 := 0])
    modifies c, c.Repr
    ensures c.Valid() && c.State() == Gens([[P4, P3], [P1, P2]], map[1 := 1, 2 := 1, 3 := 0, 4 := 0])
    ensures evicted == None && first == 4
  {
    TwoByTwoPut4Spec();
    evicted := c.Put(P4);
    first := c.GetFirstElement().Key;
  }

  /** The fifth key evicts the least recently used pair, whose key is then absent. */
  method TwoByTwoPutFifth(c: MGLRUCache) returns (evicted: Option<Pair>, v: int)
    requires c.Valid() && c.capacity == 2
    requires c.State() == Gens([[P4, P3], [P1, P2]], map[1 := 1, 2 := 1, 3 := 0, 4 := 0])
    modifies c, c.Repr
    ensures c.Valid() && c.State() == Gens([[P5, P4], [P3, P1]], map[1 := 1, 3 := 1, 4 := 0, 5 := 0])
    ensures evicted == Some(P2) && v == -1
  {
    TwoByTwoPut5Spec();
    evicted := c.Put(P5);
    TwoByTwoGet2Spec();
    v := c.Get(2);
  }

  /** A key of the older generation is still found, and becomes the youngest. */
  method TwoByTwoGetLast(c: MGLRUCache) returns (v: int, first: int)
    requires c.Valid() && c.capacity == 2
    requires c.State() == Gens([[P5, P4], [P3, P1]], map[1 := 1, 3 := 1, 4 := 0, 5 := 0])
    modifies c, c.Repr
    ensures v == 30 && first == 3
  {
    ghost var st := c.State();
    TwoByTwoGet3Spec();
    GetKeeps(st, 2, 3);
    v := c.Get(3);
    first := c.GetFirstElement().Key;
  }

  /**
   * Two generations of two pairs: a get refreshes its key, new keys push
   * older pairs into the older generation, and the fifth key evicts the
   * least recently used pair while a key of the older generation is still
   * found.
   */
  method TwoByTwo() returns (evictions: seq<Option<Pair>>, gets: seq<int>, firsts: seq<int>)
    ensures evictions == [None, None, None, None, Some(Pair(2, 20))]
    ensures gets == [10, -1, 30]
    ensures firsts == [1, 3, 4, 3]
  {
    var c, e1, e2 := TwoByTwoFill();
    var g1, f1 := TwoByTwoGetOlder(c);
    var e3, f2 := TwoByTwoPutThird(c);
    var e4, f3 := TwoByTwoPutFourth(c);
    var e5, g2 := TwoByTwoPutFifth(c);
    var g3, f4 := TwoByTwoGetLast(c);
    evictions, gets, firsts := [e1, e2, e3, e4, e5], [g1, g2, g3], [f1, f2, f3, f4];
  }
}
