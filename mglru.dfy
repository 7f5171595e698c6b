/**
 * The multi-generational LRU cache: a fixed row of LRU caches, one per
 * generation (index 0 the youngest), and a map from each resident key to
 * the generation holding it. A new pair enters the youngest generation;
 * what a full generation evicts moves on to the next one, and what the
 * oldest evicts leaves the cache. A key that is read or put again is
 * promoted to the front of the youngest generation.
 */
module GenerationRow {
  import opened DLL
  import opened LRU

  /** The caches are distinct, valid LRU caches of capacity cap, their objects in repr, whose lists are gens. */
  ghost predicate Mirrored(lrus: seq<LRUCache>, gens: seq<seq<Pair>>, cap: int, repr: set<object>)
    reads repr
  {
    && |lrus| == |gens|
    && (forall i :: 0 <= i < |lrus| ==> lrus[i] in repr && lrus[i].l in repr)
    && (forall i :: 0 <= i < |lrus| ==> lrus[i].cap == cap && lrus[i].Valid() && lrus[i].l.Contents == gens[i])
    && (forall i, j :: 0 <= i < j < |lrus| ==> lrus[i] != lrus[j] && lrus[i].l != lrus[j].l)
  }
}

module MGLRU {
  import opened Wrappers
  import opened DLL
  import opened LRU
  import opened MGLRUSpec
  import opened GenerationRow

  class MGLRUCache {
    /** The generations, youngest first. */
    const lrus: seq<LRUCache>
    /** The capacity of each generation. */
    const capacity: int
    /** The number of generations. */
    const length: int
    /** The generation index of each resident key. */
    var keys: map<int, int>
    /** The generations' lists, mirrored. */
    ghost var gens: seq<seq<Pair>>

    /** The objects the cache's operations may change: the generations and their lists. */
    ghost const Repr: set<object>

    /** The cache's state as a value. */
    ghost function State(): Gens
      reads this
    {
      Gens(gens, keys)
    }

    /** The generations are distinct, valid LRU caches of the common capacity whose lists gens mirrors. */
    ghost predicate Mirrors()
      reads this`gens, Repr
    {
      && |lrus| == length
      && (length == 0 || capacity >= 1)
      && this !in Repr
      && Mirrored(lrus, gens, capacity, Repr)
    }

    /** The cache invariant: the generations mirror their lists and the state keeps the invariant of the value model. */
    ghost predicate Valid()
      reads this, Repr
    {
      Mirrors() && Inv(State(), capacity)
    }

    /** Builds length empty generations of the given capacity. */
    constructor Init(length: int, capacity: int)
      requires length >= 0 && (length == 0 || capacity >= 1)
      ensures Valid() && fresh(Repr)
      ensures this.length == length && this.capacity == capacity && State() == Empty(length)
    {
      var ls: seq<LRUCache> := [];
      ghost var objs: set<object> := {};
      var i := 0;
      while i < length
        invariant 0 <= i <= length && |ls| == i
        invariant forall o :: o in objs ==> fresh(o)
        invariant forall j :: 0 <= j < i ==> ls[j] in objs && ls[j].l in objs
        invariant forall j :: 0 <= j < i ==> ls[j].cap == capacity && ls[j].Valid() && ls[j].l.Contents == []
        invariant forall j, k :: 0 <= j < k < i ==> ls[j] != ls[k] && ls[j].l != ls[k].l
      {
        var c := new LRUCache.Init(capacity);
        ls := ls + [c];
        objs := objs + {c, c.l};
        i := i + 1;
      }
      lrus := ls;
      Repr := objs;
      this.capacity := capacity;
      this.length := length;
      keys := map[];
      gens := Empty(length).lists;
      new;
      EmptyInv(length, capacity);
    }

    /** One generation's Put, mirrored into gens; the other generations are untouched. */
    method PutAt(i: int, e: Pair) returns (out: Option<Pair>)
      requires Mirrors() && 0 <= i < length
      modifies this, lrus[i], lrus[i].l
      ensures Mirrors() && keys == old(keys)
      ensures (gens, out) == (var (g, o) := PutSpec(old(gens[i]), capacity, e); (old(gens)[i := g], o))
    {
      out := lrus[i].Put(e);
      gens := gens[i := lrus[i].l.Contents];
      OthersKept(i);
    }

    /** One generation's Remove, mirrored into gens. */
    method RemoveAt(i: int, key: int) returns (out: Option<Pair>)
      requires Mirrors() && 0 <= i < length
      modifies this, lrus[i], lrus[i].l
      ensures Mirrors() && keys == old(keys)
      ensures (gens, out) == (var (g, o) := RemoveSpec(old(gens[i]), key); (old(gens)[i := g], o))
    {
      out := lrus[i].Remove(key);
      gens := gens[i := lrus[i].l.Contents];
      OthersKept(i);
    }

    /** One generation's Get, mirrored into gens. */
    method GetAt(i: int, key: int) returns (v: int)
      requires Mirrors() && 0 <= i < length
      modifies this, lrus[i], lrus[i].l
      ensures Mirrors() && keys == old(keys)
      ensures (gens, v) == (var (g, x) := GetSpec(old(gens[i]), key); (old(gens)[i := g], x))
    {
      v := lrus[i].Get(key);
      gens := gens[i := lrus[i].l.Contents];
      OthersKept(i);
    }

    /** Indexes key to generation i. */
    method IndexAt(key: int, i: int)
      requires Mirrors()
      modifies this`keys
      ensures Mirrors() && keys == old(keys)[key := i]
    {
      keys := keys[key := i];
    }

    /** Drops key from the index. */
    method Unindex(key: int)
      requires Mirrors()
      modifies this`keys
      ensures Mirrors() && keys == old(keys) - {key}
    {
      keys := keys - {key};
    }

    /** After a change to generation i alone, the generations other than i still mirror gens. */
    twostate lemma OthersKept(i: int)
      requires old(Mirrors()) && 0 <= i < length
      requires |gens| == |old(gens)| && lrus[i].Valid() && lrus[i].l.Contents == gens[i]
      requires forall j :: 0 <= j < |lrus| && j != i ==> gens[j] == old(gens[j])
      requires forall j :: 0 <= j < |lrus| && j != i ==> unchanged(lrus[j]) && unchanged(lrus[j].l)
      ensures Mirrors()
    {
      forall j | 0 <= j < |lrus| && j != i
        ensures lrus[j].Valid() && lrus[j].l.Contents == gens[j]
      {
        assert unchanged(lrus[j]) && unchanged(lrus[j].l);
      }
    }

    /**
     * insertElement: the pair is put into the youngest generation and each
     * pair a generation evicts is put into the next one, its key indexed
     * to it; the pair's key is then indexed to the youngest generation and
     * the pair the oldest generation evicted, if any, leaves the index and
     * is returned.
     */
    method InsertElement(pair: Pair) returns (element: Option<Pair>)
      requires Mirrors()
      modifies this, Repr
      ensures Mirrors()
      ensures (State(), element) == Inserted(old(State()), capacity, pair)
    {
      ghost var st0 := State();
      element := Some(pair);
      var i := 0;
      while i < length
        invariant 0 <= i <= length && element.Some?
        invariant Mirrors()
        invariant Cascade(st0, capacity, pair, 0) == Cascade(State(), capacity, element.value, i)
        decreases length - i
      {
        element := PutAt(i, element.value);
        if element.None? {
          break;
        }
        IndexAt(element.value.Key, i + 1);
        i := i + 1;
      }
      IndexAt(pair.Key, 0);
      if element.Some? {
        Unindex(element.value.Key);
      }
    }

    /**
     * moveNodeToFront: the key's pair is removed from the generation the
     * index names and inserted again; the key is indexed to the youngest
     * generation and the moved pair returned. A key not in the index
     * changes nothing.
     */
    method MoveNodeToFront(key: int) returns (r: Option<Pair>)
      requires Valid()
      modifies this, Repr
      ensures (State(), r) == Promoted(old(State()), capacity, key)
      ensures Valid()
    {
      ghost var st0 := State();
      r := None;
      if key in keys {
        var idx := keys[key];
        r := RemoveAt(idx, key);
        if r.Some? {
          var _ := InsertElement(r.value);
          IndexAt(key, 0);
        }
      }
      PromotedKeepsInv(st0, capacity, key);
    }

    /** Put: a present key is promoted (its stored pair is kept and returned); a new pair is inserted and what it evicts returned. */
    method Put(pair: Pair) returns (r: Option<Pair>)
      requires Valid()
      modifies this, Repr
      ensures (State(), r) == AfterPut(old(State()), capacity, pair)
      ensures Valid()
    {
      ghost var st0 := State();
      if pair.Key in keys {
        r := MoveNodeToFront(pair.Key);
      } else {
        NewInsertable(st0, capacity, pair);
        r := InsertElement(pair);
        InsertedInv(st0, capacity, pair);
      }
    }

    /** Get: the key is promoted, then read from the generation the index names; -1 for a key not in the index. */
    method Get(key: int) returns (v: int)
      requires Valid()
      modifies this, Repr
      ensures (State(), v) == AfterGet(old(State()), capacity, key)
      ensures Valid()
    {
      ghost var st0 := State();
      var _ := MoveNodeToFront(key);
      if key in keys {
        var idx := keys[key];
        v := GetAt(idx, key);
      } else {
        v := -1;
      }
      GetKeeps(st0, capacity, key);
    }

    /** The pair at the front of the youngest generation. */
    function GetFirstElement(): (p: Pair)
      requires Valid() && length >= 1 && gens[0] != []
      reads this, Repr
      ensures p == gens[0][0]
    {
      lrus[0].l.data[lrus[0].GetFirstElement()]
    }
  }
}
