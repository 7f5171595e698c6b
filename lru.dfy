/**
 * The single-generation LRU cache of go-impl/main.go: a capacity, a map from
 * key to node handle, and one list whose front is the most recently used
 * pair and whose tail is the least recently used one.
 */
module LRU {
  import opened Wrappers
  import opened DLL

  /** The keys of the pairs in s. */
  function Keys(s: seq<Pair>): set<int>
  {
    set p | p in s :: p.Key
  }

  /** No two pairs of s share a key. */
  predicate DistinctKeys(s: seq<Pair>)
  {
    forall i, j :: 0 <= i < j < |s| ==> s[i].Key != s[j].Key
  }

  /** The pair stored under key, searching from the front. */
  function Lookup(s: seq<Pair>, key: int): (r: Option<Pair>)
    ensures r.None? <==> key !in Keys(s)
    ensures r.Some? ==> r.value in s && r.value.Key == key
  {
    if s == [] then None
    else if s[0].Key == key then Some(s[0])
    else
      Lookup(s[1..], key)
  }

  /** With distinct keys, the pair a lookup finds is the only pair in s with that key. */
  lemma {:induction false} LookupUnique(s: seq<Pair>, key: int, x: Pair)
    requires DistinctKeys(s) && x in s && x.Key == key
    ensures Lookup(s, key) == Some(x)
  {
    if s[0] != x {
      assert s[0].Key != key by {
        var j :| 0 <= j < |s| && s[j] == x;
      }
      assert x in s[1..];
      LookupUnique(s[1..], key, x);
    }
  }

  /** A non-empty list with distinct keys is its head, whose key is not among the rest, followed by a rest with distinct keys. */
  lemma SplitHead(s: seq<Pair>)
    requires s != [] && DistinctKeys(s)
    ensures var t := s[1..];
      DistinctKeys(t) && s[0].Key !in Keys(t) && Keys(s) == {s[0].Key} + Keys(t)
      && (forall y :: y in s <==> y == s[0] || y in t)
  {
    var t := s[1..];
    assert s == [s[0]] + t;
    forall i, j | 0 <= i < j < |t|
      ensures t[i].Key != t[j].Key
    {
      assert t[i] == s[i + 1] && t[j] == s[j + 1];
    }
  }

  /** Removing a resident pair from a list with distinct keys removes exactly that pair and its key. */
  lemma {:induction false} RemoveFirstResident(s: seq<Pair>, d: Pair)
    requires DistinctKeys(s) && d in s
    ensures var r := RemoveFirst(s, d);
      && DistinctKeys(r)
      && (forall y :: y in r <==> y in s && y != d)
      && Keys(r) == Keys(s) - {d.Key}
  {
    SplitHead(s);
    var t := s[1..];
    if s[0] != d {
      RemoveFirstResident(t, d);
      var r' := RemoveFirst(t, d);
      assert RemoveFirst(s, d) == [s[0]] + r';
      SplitHeadOnto(s[0], r');
    }
  }

  /** Putting a pair whose key is new in front of a list with distinct keys keeps them distinct. */
  lemma SplitHeadOnto(x: Pair, r: seq<Pair>)
    requires DistinctKeys(r) && x.Key !in Keys(r)
    ensures DistinctKeys([x] + r) && Keys([x] + r) == {x.Key} + Keys(r)
  {
    var s := [x] + r;
    forall i, j | 0 <= i < j < |s|
      ensures s[i].Key != s[j].Key
    {
      assert s[j] == r[j - 1];
      if i > 0 {
        assert s[i] == r[i - 1];
      }
    }
  }

  /** Moving d to the front of a list with distinct keys keeps the keys and the length and puts d first. */
  lemma MoveToFrontResident(s: seq<Pair>, d: Pair, p: Pair)
    requires DistinctKeys(s) && d in s && p.Key == d.Key
    ensures var r := [p] + RemoveFirst(s, d);
      && DistinctKeys(r) && Keys(r) == Keys(s) && |r| == |s| && r[0] == p
      && (forall y :: y in r <==> y == p || (y in s && y != d))
  {
    RemoveFirstResident(s, d);
    SplitHeadOnto(p, RemoveFirst(s, d));
  }


  /** The effect of Get on the list, and its result: a hit moves the pair to the front and yields its value, a miss yields -1. */
  function GetSpec(s: seq<Pair>, key: int): (r: (seq<Pair>, int))
    ensures key !in Keys(s) ==> r == (s, -1)
    ensures key in Keys(s) ==>
      && r.0 != [] && r.0[0] in s && r.0[0].Key == key && r.1 == r.0[0].Value
      && multiset(r.0) == multiset(s)
  {
    match Lookup(s, key)
    case None => (s, -1)
    case Some(d) => ([d] + RemoveFirst(s, d), d.Value)
  }

  /**
   * The effect of Put on the list, and the pair it returns as evicted: a
   * present key is rewritten and moved to the front; otherwise a full list
   * first loses its tail, then the pair is pushed at the front.
   */
  function PutSpec(s: seq<Pair>, cap: int, p: Pair): (r: (seq<Pair>, Option<Pair>))
    requires cap >= 1
    ensures r.0 != [] && r.0[0] == p
    ensures r.1.Some? <==> p.Key !in Keys(s) && |s| == cap
    ensures r.1.Some? ==> r.1.value == s[|s| - 1]
  {
    match Lookup(s, p.Key)
    case Some(d) => ([p] + RemoveFirst(s, d), None)
    case None =>
      if |s| == cap then ([p] + s[..|s| - 1], Some(s[|s| - 1]))
      else ([p] + s, None)
  }

  /** The effect of Remove on the list, and the pair it returns. */
  function RemoveSpec(s: seq<Pair>, key: int): (r: (seq<Pair>, Option<Pair>))
    ensures r.1.None? <==> key !in Keys(s)
    ensures r.1.None? ==> r.0 == s
    ensures r.1.Some? ==> r.1.value in s && r.1.value.Key == key && multiset(r.0) + multiset{r.1.value} == multiset(s)
  {
    match Lookup(s, key)
    case None => (s, None)
    case Some(d) => (RemoveFirst(s, d), Some(d))
  }

  /** Get of an absent key returns -1 and changes nothing; of a present key it returns that key's value and makes its pair most recently used, keeping the resident keys. */
  lemma GetSpecFacts(s: seq<Pair>, key: int)
    requires DistinctKeys(s)
    ensures var (s', v) := GetSpec(s, key);
      && (key !in Keys(s) ==> s' == s && v == -1)
      && (key in Keys(s) ==>
            && s' != [] && s'[0].Key == key && s'[0] in s && v == s'[0].Value
            && DistinctKeys(s') && Keys(s') == Keys(s) && |s'| == |s|
            && multiset(s') == multiset(s))
  {
    if key in Keys(s) {
      var d := Lookup(s, key).value;
      MoveToFrontResident(s, d, d);
      assert multiset(RemoveFirst(s, d)) + multiset{d} == multiset(s);
    }
  }

  /**
   * Put keeps a list of at most cap pairs with distinct keys that way, puts
   * the new pair at the front, and evicts exactly when the key is new and
   * the list is full; the evicted pair is the old tail and its key is the
   * only one that leaves.
   */
  lemma PutSpecFacts(s: seq<Pair>, cap: int, p: Pair)
    requires cap >= 1 && |s| <= cap && DistinctKeys(s)
    ensures var (s', ev) := PutSpec(s, cap, p);
      && s' != [] && s'[0] == p
      && |s'| <= cap && DistinctKeys(s')
      && (ev.Some? <==> p.Key !in Keys(s) && |s| == cap)
      && (ev.Some? ==> ev.value == s[|s| - 1] && ev.value.Key != p.Key && Keys(s') == Keys(s) - {ev.value.Key} + {p.Key})
      && (ev.None? ==> Keys(s') == Keys(s) + {p.Key})
      && (p.Key in Keys(s) ==> |s'| == |s|)
      && (ev.None? && p.Key !in Keys(s) ==> |s'| == |s| + 1)
  {
    match Lookup(s, p.Key)
    case Some(d) =>
      MoveToFrontResident(s, d, p);
    case None =>
      if |s| == cap {
        DropLastResident(s);
        PushFreshResident(s[..|s| - 1], p);
      } else {
        PushFreshResident(s, p);
      }
  }

  /** Pushing a pair with a new key in front of a list with distinct keys keeps the keys distinct and adds that key. */
  lemma PushFreshResident(t: seq<Pair>, p: Pair)
    requires DistinctKeys(t) && p.Key !in Keys(t)
    ensures DistinctKeys([p] + t) && Keys([p] + t) == Keys(t) + {p.Key}
  {
    var r := [p] + t;
    forall i, j | 0 <= i < j < |r|
      ensures r[i].Key != r[j].Key
    {
      assert r[j] == t[j - 1];
      if i > 0 {
        assert r[i] == t[i - 1];
      }
    }
    assert Keys(r) == {p.Key} + Keys(t);
  }

  /** Dropping the tail of a non-empty list with distinct keys removes exactly the tail's key. */
  lemma DropLastResident(s: seq<Pair>)
    requires s != [] && DistinctKeys(s)
    ensures var t, e := s[..|s| - 1], s[|s| - 1];
      DistinctKeys(t) && e.Key !in Keys(t) && Keys(s) == Keys(t) + {e.Key}
  {
    var t, e := s[..|s| - 1], s[|s| - 1];
    assert s == t + [e];
    assert forall j :: 0 <= j < |t| ==> t[j] == s[j];
  }

  /** Remove of a present key takes exactly its pair out of the list; of an absent key it changes nothing. */
  lemma RemoveSpecFacts(s: seq<Pair>, key: int)
    requires DistinctKeys(s)
    ensures var (s', r) := RemoveSpec(s, key);
      && DistinctKeys(s') && Keys(s') == Keys(s) - {key}
      && (key !in Keys(s) ==> r == None && s' == s)
      && (key in Keys(s) ==> r.Some? && r.value in s && r.value.Key == key && |s'| == |s| - 1 && multiset(s') + multiset{r.value} == multiset(s))
  {
    if key in Keys(s) {
      RemoveFirstResident(s, Lookup(s, key).value);
    }
  }

  /** Each handle in m names an arena slot whose pair is the pair of s under that key. */
  ghost predicate Handles(m: map<int, int>, data: seq<Pair>, s: seq<Pair>)
  {
    forall k :: k in m ==> 0 <= m[k] < |data| && data[m[k]] in s && data[m[k]].Key == k
  }

  /** Evicting the tail of a full list and pushing a new pair into a fresh slot keeps every handle reading its key's pair. */
  lemma HandlesAfterPush(m: map<int, int>, data: seq<Pair>, s: seq<Pair>, p: Pair, evict: bool)
    requires Handles(m, data, s) && DistinctKeys(s) && p.Key !in m
    requires evict ==> s != []
    ensures var t := if evict then s[..|s| - 1] else s;
      var m' := if evict then m - {s[|s| - 1].Key} else m;
      Handles(m'[p.Key := |data|], data + [p], [p] + t)
  {
    var t := if evict then s[..|s| - 1] else s;
    var m' := if evict then m - {s[|s| - 1].Key} else m;
    forall k | k in m'
      ensures data[m[k]] in t
    {
      var y := data[m[k]];
      var j :| 0 <= j < |s| && s[j] == y;
      if evict {
        assert j != |s| - 1;
        assert t[j] == y;
      }
    }
  }

  /** Moving key's pair to the front in a fresh slot and rewriting it to p keeps every handle reading its key's pair, the key's own handle now naming the fresh slot. */
  lemma HandlesAfterMove(m: map<int, int>, data: seq<Pair>, s: seq<Pair>, d: Pair, p: Pair)
    requires Handles(m, data, s) && DistinctKeys(s) && d in s && p.Key == d.Key
    ensures Handles(m[p.Key := |data|], (data + [d])[|data| := p], [p] + RemoveFirst(s, d))
  {
    MoveToFrontResident(s, d, p);
  }

  /**
   * The cache invariant on values: the list holds at most cap pairs with
   * distinct keys, the map's keys are the list's keys, and each key's handle
   * reads the list's pair for that key (a handle the list has since detached
   * still reads it, as a detached Go node does).
   */
  ghost predicate Indexed(cap: int, m: map<int, int>, data: seq<Pair>, s: seq<Pair>)
  {
    && cap >= 1
    && |s| <= cap
    && DistinctKeys(s)
    && m.Keys == Keys(s)
    && Handles(m, data, s)
  }

  /** Get's move of a hit to the front, into a fresh slot, keeps the invariant with the map untouched. */
  lemma IndexedAfterGet(cap: int, m: map<int, int>, data: seq<Pair>, s: seq<Pair>, d: Pair)
    requires Indexed(cap, m, data, s) && d in s
    ensures Indexed(cap, m, data + [d], [d] + RemoveFirst(s, d))
  {
    MoveToFrontResident(s, d, d);
  }

  /** Put's move of a present key to the front, rewritten to p in the fresh slot its handle now names, keeps the invariant. */
  lemma IndexedAfterRefresh(cap: int, m: map<int, int>, data: seq<Pair>, s: seq<Pair>, d: Pair, p: Pair)
    requires Indexed(cap, m, data, s) && d in s && p.Key == d.Key
    ensures Indexed(cap, m[p.Key := |data|], (data + [d])[|data| := p], [p] + RemoveFirst(s, d))
  {
    MoveToFrontResident(s, d, p);
    var data', r, m' := (data + [d])[|data| := p], [p] + RemoveFirst(s, d), m[p.Key := |data|];
    forall k | k in m'
      ensures 0 <= m'[k] < |data'| && data'[m'[k]] in r && data'[m'[k]].Key == k
    {
      if k != p.Key {
        assert data'[m[k]] == data[m[k]];
      }
    }
  }


  /** Put of a new key, after evicting the tail of a full list, keeps the invariant with the new key's handle naming the fresh slot. */
  lemma IndexedAfterInsert(cap: int, m: map<int, int>, data: seq<Pair>, s: seq<Pair>, p: Pair)
    requires Indexed(cap, m, data, s) && p.Key !in m
    ensures var full := |s| == cap;
      var t := if full then s[..|s| - 1] else s;
      var m' := if full then m - {s[|s| - 1].Key} else m;
      Indexed(cap, m'[p.Key := |data|], data + [p], [p] + t)
  {
    PutSpecFacts(s, cap, p);
    HandlesAfterPush(m, data, s, p, |s| == cap);
    if |s| == cap {
      DropLastResident(s);
    }
  }

  /** Remove of a present key keeps the invariant with the key gone from the map and its pair from the list. */
  lemma IndexedAfterRemove(cap: int, m: map<int, int>, data: seq<Pair>, s: seq<Pair>, d: Pair)
    requires Indexed(cap, m, data, s) && d in s
    ensures Indexed(cap, m - {d.Key}, data, RemoveFirst(s, d))
  {
    RemoveFirstResident(s, d);
    var r := RemoveFirst(s, d);
    forall k | k in m - {d.Key}
      ensures data[m[k]] in r
    {
      var y := data[m[k]];
      assert y in s && y.Key == k;
    }
  }

  /**
   * A node holding a pair of a list with distinct keys is either detached
   * or the first node holding that pair, so once MoveNodeToFront has
   * dropped that first node the handle is detached.
   */
  lemma DetachedAfterMove(nodes: seq<int>, data: seq<Pair>, s: seq<Pair>, node: int, nodes': seq<int>)
    requires |nodes| == |s| && DistinctKeys(s)
    requires forall i, j :: 0 <= i < j < |nodes| ==> nodes[i] != nodes[j]
    requires forall i :: 0 <= i < |nodes| ==> 0 <= nodes[i] < |data| && data[nodes[i]] == s[i]
    requires 0 <= node < |data| && data[node] in s
    requires var i := FirstIndex(s, data[node]);
      nodes' == [|data|] + (nodes[..i] + nodes[i + 1..])
    ensures node !in nodes'
  {
  }

  class LRUCache {
    const cap: int
    /** Each key's node handle in l, like the source's map of *Node. */
    var m: map<int, int>
    const l: DoublyLinkedList

    /** The list is well formed and the cache invariant holds of its state. */
    ghost predicate Valid()
      reads this, l
    {
      l.Valid() && Indexed(cap, m, l.data, l.Contents)
    }

    constructor Init(capacity: int)
      requires capacity >= 1
      ensures Valid() && fresh(l)
      ensures cap == capacity && m == map[] && l.Contents == []
    {
      cap := capacity;
      m := map[];
      l := new DoublyLinkedList.Init();
    }

    method Get(key: int) returns (v: int)
      requires Valid()
      modifies this, l
      ensures Valid()
      ensures (l.Contents, v) == GetSpec(old(l.Contents), key)
    {
      if key !in m {
        return -1;
      }
      var node := m[key];
      LookupUnique(l.Contents, key, l.data[node]);
      IndexedAfterGet(cap, m, l.data, l.Contents, l.data[node]);
      var _ := l.MoveNodeToFront(node);
      return l.data[node].Value;
    }

    method Put(pair: Pair) returns (evicted: Option<Pair>)
      requires Valid()
      modifies this, l
      ensures Valid()
      ensures (l.Contents, evicted) == PutSpec(old(l.Contents), cap, pair)
    {
      if pair.Key in m {
        Refresh(pair);
        return None;
      }
      evicted := Insert(pair);
    }

    /**
     * The branch of Put for a new key: a full list first loses its tail,
     * whose key leaves the map, then the pair is pushed at the front.
     */
    method Insert(pair: Pair) returns (evicted: Option<Pair>)
      requires Valid() && pair.Key !in m
      modifies this, l
      ensures Valid()
      ensures var s := old(l.Contents);
        if |s| == cap then l.Contents == [pair] + s[..|s| - 1] && evicted == Some(s[|s| - 1])
        else l.Contents == [pair] + s && evicted == None
    {
      ghost var s0, d0, m0 := l.Contents, l.data, m;
      ghost var full := l.Size() == cap;
      IndexedAfterInsert(cap, m, l.data, l.Contents, pair);
      evicted := None;
      if l.Size() == cap {
        evicted := l.PopBack();
        m := m - {evicted.value.Key};
      }
      var newNode := l.PushFront(pair);
      m := m[pair.Key := newNode];
      assert m == (if full then m0 - {s0[|s0| - 1].Key} else m0)[pair.Key := |d0|];
    }

    /**
     * The branch of Put for a key already cached: its node moves to the
     * front and the fresh front node takes the new pair.
     */
    method Refresh(pair: Pair)
      requires Valid() && pair.Key in m
      modifies this, l
      ensures Valid()
      ensures var d := Lookup(old(l.Contents), pair.Key).value;
        l.Contents == [pair] + RemoveFirst(old(l.Contents), d)
    {
      var node := m[pair.Key];
      ghost var s0, d := l.Contents, l.data[node];
      LookupUnique(s0, pair.Key, d);
      IndexedAfterRefresh(cap, m, l.data, s0, d, pair);
      var _ := l.MoveNodeToFront(node);
      var front := l.Head();
      l.SetData(front, pair);
      assert l.Contents == [pair] + RemoveFirst(s0, d);
      m := m[pair.Key := front];
    }

    /**
     * The existing-key branch of Put as the source writes it: the new pair
     * is written through the map's handle, which MoveNodeToFront has just
     * detached, so the list keeps the old pair at its front and the handle
     * no longer names a node of the list. The move goes through the
     * corrected Remove, so when the key's node is the head this is not what
     * the source does: there the old node stays linked behind the new head.
     */
    method PutAsWritten(pair: Pair) returns (evicted: Option<Pair>)
      requires Valid() && pair.Key in m
      modifies l
      ensures l.Valid() && evicted == None
      ensures var d := Lookup(old(l.Contents), pair.Key).value;
        l.Contents == [d] + RemoveFirst(old(l.Contents), d)
      ensures 0 <= m[pair.Key] < |l.data| && l.data[m[pair.Key]] == pair && m[pair.Key] !in l.nodes
    {
      var node := m[pair.Key];
      LookupUnique(l.Contents, pair.Key, l.data[node]);
      HandleDetaches(pair.Key);
      var _ := l.MoveNodeToFront(node);
      l.SetData(node, pair);
      return None;
    }

    /** The handle of a cached key names the first node holding its pair, so the move of that pair to the front detaches it. */
    lemma HandleDetaches(key: int)
      requires Valid() && key in m
      ensures var node, s := m[key], l.Contents;
        var i := FirstIndex(s, l.data[node]);
        0 <= node < |l.data| && l.data[node] in s && node !in [|l.data|] + (l.nodes[..i] + l.nodes[i + 1..])
    {
      var node, s, n := m[key], l.Contents, l.nodes;
      var i := FirstIndex(s, l.data[node]);
      DetachedAfterMove(n, l.data, s, node, [|l.data|] + (n[..i] + n[i + 1..]));
    }

    method Remove(key: int) returns (r: Option<Pair>)
      requires Valid()
      modifies this, l
      ensures Valid()
      ensures (l.Contents, r) == RemoveSpec(old(l.Contents), key)
    {
      if key !in m {
        return None;
      }
      var node := m[key];
      LookupUnique(l.Contents, key, l.data[node]);
      IndexedAfterRemove(cap, m, l.data, l.Contents, l.data[node]);
      m := m - {key};
      r := l.Remove(l.data[node]);
    }

    /** The node at the front of the list: the most recently used pair. */
    function GetFirstElement(): (node: int)
      requires Valid()
      reads this, l
      ensures node == Nil <==> l.Contents == []
      ensures node != Nil ==> 0 <= node < |l.data| && l.data[node] == l.Contents[0]
    {
      l.Head()
    }
  }
}
