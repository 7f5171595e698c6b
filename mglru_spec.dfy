/**
 * The multi-generational LRU on values: a sequence of generations (the
 * lists of the per-generation LRU caches, youngest first) and the map from
 * each resident key to the index of the generation holding it. The
 * functions here compute what the cache's operations do to that state;
 * the lemmas prove the invariant they keep and what they promise.
 */
module MGLRUSpec {
  import opened Wrappers
  import opened DLL
  import opened LRU

  /** The state of the cache: the generations' lists and the key index. */
  datatype Gens = Gens(lists: seq<seq<Pair>>, keys: map<int, int>)

  /** The pairs held by all generations together. */
  function Bag(lists: seq<seq<Pair>>): multiset<Pair>
  {
    if lists == [] then multiset{} else multiset(lists[0]) + Bag(lists[1..])
  }

  /** The pair an operation hands back, as a multiset of zero or one pair. */
  function Handed(o: Option<Pair>): multiset<Pair>
  {
    if o.Some? then multiset{o.value} else multiset{}
  }

  /** Every generation holds at most cap pairs, with distinct keys. */
  ghost predicate Shaped(lists: seq<seq<Pair>>, cap: int)
  {
    forall j :: 0 <= j < |lists| ==> |lists[j]| <= cap && DistinctKeys(lists[j])
  }

  /** No key is held by two generations. */
  ghost predicate Disjoint(lists: seq<seq<Pair>>)
  {
    forall a, b, k :: 0 <= a < |lists| && 0 <= b < |lists| && a != b && k in Keys(lists[a]) ==> k !in Keys(lists[b])
  }

  /** No generation holds key. */
  ghost predicate Absent(lists: seq<seq<Pair>>, key: int)
  {
    forall j :: 0 <= j < |lists| ==> key !in Keys(lists[j])
  }

  /**
   * Outside the keys in ex, the index names for each of its keys a
   * generation holding that key, and every key a generation holds is
   * indexed to that generation.
   */
  ghost predicate Tracked(st: Gens, ex: set<int>)
  {
    && (forall k :: k in st.keys && k !in ex ==> 0 <= st.keys[k] < |st.lists| && k in Keys(st.lists[st.keys[k]]))
    && (forall j, k :: 0 <= j < |st.lists| && k in Keys(st.lists[j]) && k !in ex ==> k in st.keys && st.keys[k] == j)
  }

  /** The cache invariant: well-shaped, disjoint generations, exactly indexed by the key map. */
  ghost predicate Inv(st: Gens, cap: int)
  {
    && (|st.lists| == 0 || cap >= 1)
    && Shaped(st.lists, cap)
    && Disjoint(st.lists)
    && Tracked(st, {})
  }

  /** Every generation from i on is full. */
  ghost predicate Full(lists: seq<seq<Pair>>, cap: int, i: nat)
  {
    forall j :: i <= j < |lists| ==> |lists[j]| == cap
  }

  /**
   * The loop of insertElement from generation i on, carrying e: e is put
   * into generation i; when that evicts a pair, the evicted key is indexed
   * to the next generation and the pair is carried on. The result is the
   * new state and the pair still carried when the loop ends (None when a
   * put evicted nothing).
   */
  function Cascade(st: Gens, cap: int, e: Pair, i: nat): (r: (Gens, Option<Pair>))
    requires i <= |st.lists| && (|st.lists| == 0 || cap >= 1)
    ensures |r.0.lists| == |st.lists|
    decreases |st.lists| - i
  {
    if i == |st.lists| then (st, Some(e))
    else
      var (g, out) := PutSpec(st.lists[i], cap, e);
      var st' := st.(lists := st.lists[i := g]);
      match out
      case None => (st', None)
      case Some(x) => Cascade(st'.(keys := st'.keys[x.Key := i + 1]), cap, x, i + 1)
  }

  /** insertElement: the cascade from the youngest generation, then p's key indexed to it and the evicted key dropped. */
  function Inserted(st: Gens, cap: int, p: Pair): (r: (Gens, Option<Pair>))
    requires |st.lists| == 0 || cap >= 1
    ensures |r.0.lists| == |st.lists|
    ensures r.1.None? ==> p.Key in r.0.keys && r.0.keys[p.Key] == 0
    ensures r.1.Some? ==> r.1.value.Key !in r.0.keys
  {
    var (st', out) := Cascade(st, cap, p, 0);
    var keys := st'.keys[p.Key := 0];
    match out
    case None => (st'.(keys := keys), None)
    case Some(x) => (st'.(keys := keys - {x.Key}), out)
  }

  /**
   * moveNodeToFront: an indexed key's pair is removed from its generation
   * and inserted again, the key indexed to the youngest generation; the
   * result is the pair that was moved, None for a key not in the index.
   */
  function Promoted(st: Gens, cap: int, key: int): (r: (Gens, Option<Pair>))
    requires |st.lists| == 0 || cap >= 1
    requires key in st.keys ==> 0 <= st.keys[key] < |st.lists|
    ensures |r.0.lists| == |st.lists|
    ensures key !in st.keys ==> r == (st, None)
    ensures r.1.Some? ==> r.1.value.Key == key && key in r.0.keys && r.0.keys[key] == 0
  {
    if key !in st.keys then (st, None)
    else
      var i := st.keys[key];
      var (g, removed) := RemoveSpec(st.lists[i], key);
      match removed
      case None => (st, None)
      case Some(d) =>
        var (st', _) := Inserted(st.(lists := st.lists[i := g]), cap, d);
        (st'.(keys := st'.keys[key := 0]), Some(d))
  }

  /** Put: a present key is promoted (its stored pair kept and returned), a new one inserted. */
  function AfterPut(st: Gens, cap: int, p: Pair): (r: (Gens, Option<Pair>))
    requires |st.lists| == 0 || cap >= 1
    requires p.Key in st.keys ==> 0 <= st.keys[p.Key] < |st.lists|
    ensures |r.0.lists| == |st.lists|
    ensures p.Key in st.keys ==> r.1.None? || r.1.value.Key == p.Key
  {
    if p.Key in st.keys then Promoted(st, cap, p.Key) else Inserted(st, cap, p)
  }

  /** Get: the key is promoted, then looked up in the generation the index names; -1 when it is not indexed. */
  function AfterGet(st: Gens, cap: int, key: int): (r: (Gens, int))
    requires Inv(st, cap)
    ensures |r.0.lists| == |st.lists|
    ensures key !in st.keys ==> r == (st, -1)
  {
    var (st1, _) := Promoted(st, cap, key);
    PromotedInv(st, cap, key);
    if key in st1.keys then
      var i := st1.keys[key];
      var (g, v) := GetSpec(st1.lists[i], key);
      (st1.(lists := st1.lists[i := g]), v)
    else (st1, -1)
  }

  /** The state Init builds: length empty generations and an empty index. */
  function Empty(length: nat): (st: Gens)
    ensures |st.lists| == length && st.keys == map[] && Bag(st.lists) == multiset{}
  {
    var lists: seq<seq<Pair>> := seq(length, _ => []);
    EmptyBag(lists);
    Gens(lists, map[])
  }

  // ---------------------------------------------------------------------
  // Generations as a multiset of pairs

  /** Replacing one generation by g, where g with rem holds what the old one held with add, does the same to the bag. */
  lemma {:induction false} BagStep(lists: seq<seq<Pair>>, i: int, g: seq<Pair>, add: multiset<Pair>, rem: multiset<Pair>)
    requires 0 <= i < |lists|
    requires multiset(g) + rem == multiset(lists[i]) + add
    ensures Bag(lists[i := g]) + rem == Bag(lists) + add
  {
    var l' := lists[i := g];
    assert Bag(lists) == multiset(lists[0]) + Bag(lists[1..]);
    assert Bag(l') == multiset(l'[0]) + Bag(l'[1..]);
    if i == 0 {
      assert l'[1..] == lists[1..];
      calc {
        Bag(l') + rem;
        (multiset(g) + rem) + Bag(lists[1..]);
        (multiset(lists[0]) + add) + Bag(lists[1..]);
        Bag(lists) + add;
      }
    } else {
      assert l'[1..] == lists[1..][i - 1 := g];
      assert l'[0] == lists[0] && lists[1..][i - 1] == lists[i];
      BagStep(lists[1..], i - 1, g, add, rem);
      calc {
        Bag(l') + rem;
        multiset(lists[0]) + (Bag(lists[1..][i - 1 := g]) + rem);
        multiset(lists[0]) + (Bag(lists[1..]) + add);
        Bag(lists) + add;
      }
    }
  }

  /** The bag holds as many pairs as the generations together. */
  function TotalSize(lists: seq<seq<Pair>>): (n: nat)
  {
    if lists == [] then 0 else |lists[0]| + TotalSize(lists[1..])
  }

  lemma {:induction false} TotalSizeIsBag(lists: seq<seq<Pair>>)
    ensures TotalSize(lists) == |Bag(lists)|
  {
    if lists != [] {
      TotalSizeIsBag(lists[1..]);
    }
  }

  /** A cache of length generations of capacity cap never holds more than length * cap pairs. */
  lemma {:induction false} TotalSizeBound(lists: seq<seq<Pair>>, cap: int)
    requires forall j :: 0 <= j < |lists| ==> |lists[j]| <= cap
    ensures TotalSize(lists) <= |lists| * cap
  {
    if lists != [] {
      assert forall j :: 0 <= j < |lists[1..]| ==> |lists[1..][j]| <= cap by {
        forall j | 0 <= j < |lists[1..]|
          ensures |lists[1..][j]| <= cap
        {
          assert lists[1..][j] == lists[j + 1];
        }
      }
      TotalSizeBound(lists[1..], cap);
    }
  }

  // ---------------------------------------------------------------------
  // One step of the cascade

  /**
   * Putting a pair with a key new to a generation: the pair goes to the
   * front, the generation stays well shaped, it evicts exactly when the
   * generation was full, and then the evicted pair is the old tail, whose
   * key alone leaves. No pair is lost or duplicated.
   */
  lemma PutNew(g: seq<Pair>, cap: int, e: Pair)
    requires cap >= 1 && |g| <= cap && DistinctKeys(g) && e.Key !in Keys(g)
    ensures var (g', out) := PutSpec(g, cap, e);
      && g' != [] && g'[0] == e && |g'| <= cap && DistinctKeys(g')
      && (out.None? <==> |g| < cap)
      && (out.None? ==> Keys(g') == Keys(g) + {e.Key})
      && (out.Some? ==>
            && out.value == g[|g| - 1] && out.value.Key in Keys(g) && out.value.Key != e.Key
            && Keys(g') == Keys(g) - {out.value.Key} + {e.Key} && out.value.Key !in Keys(g'))
      && multiset(g') + Handed(out) == multiset(g) + multiset{e}
  {
    PutSpecFacts(g, cap, e);
    if |g| == cap {
      assert g == g[..|g| - 1] + [g[|g| - 1]];
    }
  }

  /** After one cascade step the generations are still well shaped and disjoint, and the carried key is held by none of them. */
  lemma StepShape(lists: seq<seq<Pair>>, cap: int, e: Pair, i: int)
    requires 0 <= i < |lists| && cap >= 1
    requires Shaped(lists, cap) && Disjoint(lists) && Absent(lists, e.Key)
    ensures var (g, out) := PutSpec(lists[i], cap, e);
      var l' := lists[i := g];
      && Shaped(l', cap) && Disjoint(l')
      && (out.Some? ==> Absent(l', out.value.Key))
      && (forall j, k :: 0 <= j < |lists| && j != i ==> (k in Keys(l'[j]) <==> k in Keys(lists[j])))
      && (forall k :: k in Keys(g) <==> (k in Keys(lists[i]) && (out.None? || k != out.value.Key)) || k == e.Key)
  {
    PutNew(lists[i], cap, e);
  }

  // ---------------------------------------------------------------------
  // The cascade

  /**
   * The generations the cascade leaves behind: those before i untouched,
   * all still well shaped and disjoint, the carried pair at the front of
   * generation i, and any pair that comes out held by none of them.
   */
  lemma {:induction false} CascadeShape(st: Gens, cap: int, e: Pair, i: nat)
    requires i <= |st.lists| && (|st.lists| == 0 || cap >= 1)
    requires Shaped(st.lists, cap) && Disjoint(st.lists) && Absent(st.lists, e.Key)
    ensures var (st', out) := Cascade(st, cap, e, i);
      && st'.lists[..i] == st.lists[..i]
      && Shaped(st'.lists, cap) && Disjoint(st'.lists)
      && (i < |st.lists| ==> st'.lists[i] != [] && st'.lists[i][0] == e)
      && (out.Some? ==> Absent(st'.lists, out.value.Key))
    decreases |st.lists| - i
  {
    if i < |st.lists| {
      var (g, out) := PutSpec(st.lists[i], cap, e);
      StepShape(st.lists, cap, e, i);
      if out.Some? {
        var x := out.value;
        var st2 := Gens(st.lists[i := g], st.keys[x.Key := i + 1]);
        CascadeShape(st2, cap, x, i + 1);
        var (st', out') := Cascade(st2, cap, x, i + 1);
        assert st'.lists[..i] == st'.lists[..i + 1][..i];
        assert st'.lists[i] == st'.lists[..i + 1][i];
        PutNew(st.lists[i], cap, e);
      } else {
        PutNew(st.lists[i], cap, e);
      }
    }
  }

  /**
   * A pair comes out of the cascade exactly when every generation from i
   * on was full, and then it is the old tail of the oldest generation, or
   * e itself when no generation is left.
   */
  lemma {:induction false} CascadeOut(st: Gens, cap: int, e: Pair, i: nat)
    requires i <= |st.lists| && (|st.lists| == 0 || cap >= 1)
    requires Shaped(st.lists, cap) && Disjoint(st.lists) && Absent(st.lists, e.Key)
    ensures var (st', out) := Cascade(st, cap, e, i);
      && (out.Some? <==> Full(st.lists, cap, i))
      && (out.Some? && i == |st.lists| ==> out.value == e)
      && (out.Some? && i < |st.lists| ==> var last := st.lists[|st.lists| - 1]; last != [] && out.value == last[|last| - 1])
    decreases |st.lists| - i
  {
    if i < |st.lists| {
      var (g, out) := PutSpec(st.lists[i], cap, e);
      PutNew(st.lists[i], cap, e);
      if out.Some? {
        StepShape(st.lists, cap, e, i);
        var x := out.value;
        var st2 := Gens(st.lists[i := g], st.keys[x.Key := i + 1]);
        CascadeOut(st2, cap, x, i + 1);
        assert forall j :: i < j < |st.lists| ==> st2.lists[j] == st.lists[j];
      } else {
        assert |st.lists[i]| < cap;
      }
    }
  }

  /** The cascade loses and duplicates no pair: what the generations hold, with what comes out, is what they held plus e. */
  lemma {:induction false} CascadeBag(st: Gens, cap: int, e: Pair, i: nat)
    requires i <= |st.lists| && (|st.lists| == 0 || cap >= 1)
    requires Shaped(st.lists, cap) && Disjoint(st.lists) && Absent(st.lists, e.Key)
    ensures var (st', out) := Cascade(st, cap, e, i);
      Bag(st'.lists) + Handed(out) == Bag(st.lists) + multiset{e}
    decreases |st.lists| - i
  {
    if i < |st.lists| {
      var (g, out) := PutSpec(st.lists[i], cap, e);
      PutNew(st.lists[i], cap, e);
      BagStep(st.lists, i, g, multiset{e}, Handed(out));
      if out.Some? {
        StepShape(st.lists, cap, e, i);
        var x := out.value;
        var st2 := Gens(st.lists[i := g], st.keys[x.Key := i + 1]);
        CascadeBag(st2, cap, x, i + 1);
      }
    }
  }

  /**
   * The cascade keeps the index's domain, and the key of a pair that comes
   * out of the oldest generation is indexed one past it.
   */
  lemma {:induction false} CascadeKeys(st: Gens, cap: int, e: Pair, i: nat)
    requires i <= |st.lists| && (|st.lists| == 0 || cap >= 1)
    requires Shaped(st.lists, cap) && Disjoint(st.lists) && Absent(st.lists, e.Key)
    requires forall j, k :: i <= j < |st.lists| && k in Keys(st.lists[j]) ==> k in st.keys
    ensures var (st', out) := Cascade(st, cap, e, i);
      && st'.keys.Keys == st.keys.Keys
      && (out.Some? && i < |st.lists| ==> out.value.Key in st'.keys && st'.keys[out.value.Key] == |st.lists|)
    decreases |st.lists| - i
  {
    if i < |st.lists| {
      var (g, out) := PutSpec(st.lists[i], cap, e);
      PutNew(st.lists[i], cap, e);
      StepShape(st.lists, cap, e, i);
      if out.Some? {
        var x := out.value;
        assert x.Key in st.keys;
        assert st.keys[x.Key := i + 1].Keys == st.keys.Keys;
        CascadeKeys(Gens(st.lists[i := g], st.keys[x.Key := i + 1]), cap, x, i + 1);
      }
    }
  }

  /**
   * With p the pair the insertion started with and e the pair carried into
   * generation i, the cascade keeps p in the youngest generation and never
   * lets it out, unless there are no generations, when p itself comes out.
   */
  lemma {:induction false} CascadeKeepsFirst(st: Gens, cap: int, p: Pair, e: Pair, i: nat)
    requires i <= |st.lists| && (|st.lists| == 0 || cap >= 1)
    requires Shaped(st.lists, cap) && Disjoint(st.lists) && Absent(st.lists, e.Key)
    requires i == 0 ==> e == p
    requires i > 0 ==> p.Key in Keys(st.lists[0]) && e.Key != p.Key
    ensures var (st', out) := Cascade(st, cap, e, i);
      && (|st.lists| > 0 ==> p.Key in Keys(st'.lists[0]))
      && (out.Some? && |st.lists| > 0 ==> out.value.Key != p.Key)
      && (out.Some? && |st.lists| == 0 ==> out.value == p)
    decreases |st.lists| - i
  {
    if i < |st.lists| {
      var (g, out) := PutSpec(st.lists[i], cap, e);
      StepShape(st.lists, cap, e, i);
      CascadeFront(st.lists, cap, p, e, i, g);
      if out.Some? {
        var x := out.value;
        CascadeKeepsFirst(Gens(st.lists[i := g], st.keys[x.Key := i + 1]), cap, p, x, i + 1);
      }
    }
  }

  /** One cascade step keeps p's key in the youngest generation and never evicts it. */
  lemma CascadeFront(lists: seq<seq<Pair>>, cap: int, p: Pair, e: Pair, i: int, g: seq<Pair>)
    requires 0 <= i < |lists| && cap >= 1
    requires Shaped(lists, cap) && Disjoint(lists) && Absent(lists, e.Key)
    requires i == 0 ==> e == p
    requires i > 0 ==> p.Key in Keys(lists[0]) && e.Key != p.Key
    requires g == PutSpec(lists[i], cap, e).0
    ensures p.Key in Keys(lists[i := g][0])
    ensures var out := PutSpec(lists[i], cap, e).1;
      out.Some? ==> out.value.Key != p.Key
  {
    var out := PutSpec(lists[i], cap, e).1;
    PutNew(lists[i], cap, e);
    if i == 0 {
      assert g[0] == p && p in g;
    } else {
      assert lists[i := g][0] == lists[0];
      if out.Some? {
        assert p.Key in Keys(lists[0]) && out.value.Key in Keys(lists[i]);
      }
    }
  }

  /**
   * The cascade's effect on the key index, with p the pair the insertion
   * started with and e the pair carried into generation i: when nothing
   * comes out, every key but p's is indexed to the generation holding it;
   * when x comes out, the same holds outside p's and x's keys.
   */
  lemma {:induction false} CascadeTracked(st: Gens, cap: int, p: Pair, e: Pair, i: nat)
    requires i <= |st.lists| && (|st.lists| == 0 || cap >= 1)
    requires Shaped(st.lists, cap) && Disjoint(st.lists) && Absent(st.lists, e.Key)
    requires i == 0 ==> e == p
    requires i > 0 ==> p.Key in Keys(st.lists[0]) && e.Key != p.Key && e.Key in st.keys && st.keys[e.Key] == i
    requires Tracked(st, {p.Key, e.Key})
    ensures var (st', out) := Cascade(st, cap, e, i);
      && (out.None? ==> Tracked(st', {p.Key}))
      && (out.Some? ==> Tracked(st', {p.Key, out.value.Key}))
    decreases |st.lists| - i
  {
    if i < |st.lists| {
      var (g, out) := PutSpec(st.lists[i], cap, e);
      var l' := st.lists[i := g];
      PutNew(st.lists[i], cap, e);
      StepShape(st.lists, cap, e, i);
      CascadeFront(st.lists, cap, p, e, i, g);
      if out.Some? {
        var x := out.value;
        StepPass(st, i, g, p, e, x);
        CascadeTracked(Gens(l', st.keys[x.Key := i + 1]), cap, p, x, i + 1);
      } else {
        StepStay(st, i, g, p, e);
      }
    }
  }

  /** A cascade step that evicts nothing leaves every key but p's indexed to the generation holding it. */
  lemma StepStay(st: Gens, i: int, g: seq<Pair>, p: Pair, e: Pair)
    requires 0 <= i < |st.lists| && Absent(st.lists, e.Key)
    requires e.Key != p.Key ==> e.Key in st.keys && st.keys[e.Key] == i
    requires forall k :: k in Keys(g) <==> k in Keys(st.lists[i]) || k == e.Key
    requires Tracked(st, {p.Key, e.Key})
    ensures Tracked(Gens(st.lists[i := g], st.keys), {p.Key})
  {
    var l' := st.lists[i := g];
    forall k | k in st.keys && k !in {p.Key}
      ensures 0 <= st.keys[k] < |l'| && k in Keys(l'[st.keys[k]])
    {
      if k != e.Key {
        assert k in Keys(st.lists[st.keys[k]]);
      }
    }
    forall j, k | 0 <= j < |l'| && k in Keys(l'[j]) && k !in {p.Key}
      ensures k in st.keys && st.keys[k] == j
    {
      if j != i {
        assert l'[j] == st.lists[j];
      }
    }
  }

  /** A cascade step that evicts x leaves every key but p's and x's indexed to the generation holding it, x's key indexed to the next one. */
  lemma StepPass(st: Gens, i: int, g: seq<Pair>, p: Pair, e: Pair, x: Pair)
    requires 0 <= i < |st.lists| && Absent(st.lists, e.Key)
    requires e.Key != p.Key ==> e.Key in st.keys && st.keys[e.Key] == i
    requires x.Key in Keys(st.lists[i]) && x.Key != p.Key && x.Key != e.Key
    requires forall k :: k in Keys(g) <==> (k in Keys(st.lists[i]) && k != x.Key) || k == e.Key
    requires Tracked(st, {p.Key, e.Key})
    ensures x.Key in st.keys
    ensures Tracked(Gens(st.lists[i := g], st.keys[x.Key := i + 1]), {p.Key, x.Key})
  {
    var l' := st.lists[i := g];
    var keys' := st.keys[x.Key := i + 1];
    forall k | k in keys' && k !in {p.Key, x.Key}
      ensures 0 <= keys'[k] < |l'| && k in Keys(l'[keys'[k]])
    {
      if k != e.Key {
        assert k in Keys(st.lists[st.keys[k]]);
      }
    }
    forall j, k | 0 <= j < |l'| && k in Keys(l'[j]) && k !in {p.Key, x.Key}
      ensures k in keys' && keys'[k] == j
    {
      if j != i {
        assert l'[j] == st.lists[j];
      }
    }
  }

  // ---------------------------------------------------------------------
  // Insertion, promotion, Put and Get

  /** What insertElement needs of the state: well-shaped, disjoint generations, none holding p's key, indexed outside p's key. */
  ghost predicate Insertable(st: Gens, cap: int, p: Pair)
  {
    && (|st.lists| == 0 || cap >= 1) && Shaped(st.lists, cap) && Disjoint(st.lists)
    && Absent(st.lists, p.Key) && Tracked(st, {p.Key})
  }

  /**
   * insertElement keeps the invariant: the pair becomes the youngest and
   * its key is indexed to the youngest generation, and the key of a pair
   * that comes out, never p's own unless there are no generations, leaves
   * the index.
   */
  lemma InsertedInv(st: Gens, cap: int, p: Pair)
    requires Insertable(st, cap, p)
    ensures var (st', out) := Inserted(st, cap, p);
      && Inv(st', cap)
      && |st'.lists| == |st.lists|
      && st'.keys.Keys == st.keys.Keys + {p.Key} - (if out.Some? then {out.value.Key} else {})
      && (|st.lists| > 0 ==> st'.lists[0] != [] && st'.lists[0][0] == p && p.Key in st'.keys && st'.keys[p.Key] == 0)
      && (out.Some? && |st.lists| > 0 ==> out.value.Key != p.Key)
  {
    assert {p.Key, p.Key} == {p.Key};
    CascadeShape(st, cap, p, 0);
    assert forall j, k :: 0 <= j < |st.lists| && k in Keys(st.lists[j]) ==> k in st.keys;
    CascadeKeys(st, cap, p, 0);
    CascadeKeepsFirst(st, cap, p, p, 0);
    CascadeTracked(st, cap, p, p, 0);
    var (sc, out) := Cascade(st, cap, p, 0);
    Indexed(sc, p, out);
  }

  /**
   * insertElement evicts exactly when every generation was full; the
   * evicted pair is then the oldest generation's tail, or p itself when
   * there are no generations.
   */
  lemma InsertedOut(st: Gens, cap: int, p: Pair)
    requires Insertable(st, cap, p)
    ensures var (st', out) := Inserted(st, cap, p);
      && (out.Some? <==> Full(st.lists, cap, 0))
      && (out.Some? && |st.lists| == 0 ==> out.value == p)
      && (out.Some? && |st.lists| > 0 ==>
            var last := st.lists[|st.lists| - 1];
            last != [] && out.value == last[|last| - 1])
  {
    CascadeOut(st, cap, p, 0);
  }

  /** insertElement loses and duplicates no pair: the generations and the evicted pair hold the old pairs and p. */
  lemma InsertedBag(st: Gens, cap: int, p: Pair)
    requires Insertable(st, cap, p)
    ensures var (st', out) := Inserted(st, cap, p);
      Bag(st'.lists) + Handed(out) == Bag(st.lists) + multiset{p}
  {
    CascadeBag(st, cap, p, 0);
  }

  /** The key index insertElement leaves once the cascade is over: p's key indexed to the youngest generation, the evicted key dropped. */
  lemma Indexed(sc: Gens, p: Pair, out: Option<Pair>)
    requires Disjoint(sc.lists)
    requires |sc.lists| > 0 ==> p.Key in Keys(sc.lists[0])
    requires out.None? ==> Tracked(sc, {p.Key})
    requires out.Some? ==> Tracked(sc, {p.Key, out.value.Key}) && Absent(sc.lists, out.value.Key)
    requires |sc.lists| == 0 ==> out == Some(p)
    requires out.Some? && |sc.lists| > 0 ==> out.value.Key != p.Key
    ensures var keys := sc.keys[p.Key := 0];
      Tracked(sc.(keys := if out.Some? then keys - {out.value.Key} else keys), {})
  {
    var keys := sc.keys[p.Key := 0];
    var keys' := if out.Some? then keys - {out.value.Key} else keys;
    forall k | k in keys'
      ensures 0 <= keys'[k] < |sc.lists| && k in Keys(sc.lists[keys'[k]])
    {
      if k == p.Key {
        assert p.Key in Keys(sc.lists[0]);
      }
    }
    forall j, k | 0 <= j < |sc.lists| && k in Keys(sc.lists[j])
      ensures k in keys' && keys'[k] == j
    {
      if k == p.Key {
        assert p.Key in Keys(sc.lists[0]);
      }
    }
  }

  /**
   * moveNodeToFront keeps the invariant, the number of generations and the
   * indexed keys: an indexed key's pair, the one its generation holds, is
   * returned and becomes the youngest, the key indexed to the youngest
   * generation. A key not in the index changes nothing.
   */
  lemma PromotedInv(st: Gens, cap: int, key: int)
    requires Inv(st, cap)
    ensures var (st', r) := Promoted(st, cap, key);
      && Inv(st', cap)
      && |st'.lists| == |st.lists|
      && st'.keys.Keys == st.keys.Keys
      && (key !in st.keys ==> st' == st && r == None)
      && (key in st.keys ==>
            && r == Lookup(st.lists[st.keys[key]], key) && r.Some? && r.value.Key == key
            && st'.lists[0] != [] && st'.lists[0][0] == r.value && st'.keys[key] == 0)
  {
    if key in st.keys {
      var i := st.keys[key];
      var (g, removed) := RemoveSpec(st.lists[i], key);
      RemovedShape(st, cap, key);
      RemovedPair(st, cap, key);
      var d := removed.value;
      var st1 := Gens(st.lists[i := g], st.keys);
      InsertedInv(st1, cap, d);
      InsertedOut(st1, cap, d);
      var (st2, _) := Inserted(st1, cap, d);
      assert st2.keys[key := 0] == st2.keys;
    }
  }

  /** Promotion keeps the invariant. */
  lemma PromotedKeepsInv(st: Gens, cap: int, key: int)
    requires Inv(st, cap)
    ensures Inv(Promoted(st, cap, key).0, cap)
  {
    PromotedInv(st, cap, key);
  }

  /** moveNodeToFront never evicts: the generations hold the same pairs after it. */
  lemma PromotedBag(st: Gens, cap: int, key: int)
    requires Inv(st, cap)
    ensures var (st', r) := Promoted(st, cap, key);
      Bag(st'.lists) == Bag(st.lists)
  {
    if key in st.keys {
      var i := st.keys[key];
      var (g, removed) := RemoveSpec(st.lists[i], key);
      RemovedShape(st, cap, key);
      RemovedPair(st, cap, key);
      var d := removed.value;
      var st1 := Gens(st.lists[i := g], st.keys);
      InsertedBag(st1, cap, d);
      InsertedOut(st1, cap, d);
    }
  }

  /**
   * moveNodeToFront's removal takes out of the key's generation the pair
   * the generation holds for it, so that generation is no longer full and
   * the generations hold the other pairs.
   */
  lemma RemovedPair(st: Gens, cap: int, key: int)
    requires Inv(st, cap) && key in st.keys
    ensures var i := st.keys[key];
      var (g, removed) := RemoveSpec(st.lists[i], key);
      var l' := st.lists[i := g];
      && removed.Some? && removed == Lookup(st.lists[i], key) && removed.value.Key == key
      && !Full(l', cap, 0)
      && Bag(l') + multiset{removed.value} == Bag(st.lists)
  {
    var i := st.keys[key];
    var (g, removed) := RemoveSpec(st.lists[i], key);
    RemoveSpecFacts(st.lists[i], key);
    var l' := st.lists[i := g];
    assert |l'[i]| < cap;
    BagStep(st.lists, i, g, multiset{}, multiset{removed.value});
  }

  /** After moveNodeToFront's removal the state is ready for insertElement of the removed pair. */
  lemma RemovedShape(st: Gens, cap: int, key: int)
    requires Inv(st, cap) && key in st.keys
    ensures var i := st.keys[key];
      var (g, removed) := RemoveSpec(st.lists[i], key);
      removed.Some? && Insertable(Gens(st.lists[i := g], st.keys), cap, removed.value)
  {
    var i := st.keys[key];
    var (g, removed) := RemoveSpec(st.lists[i], key);
    RemoveSpecFacts(st.lists[i], key);
    var l' := st.lists[i := g];
    forall j | 0 <= j < |l'|
      ensures key !in Keys(l'[j])
    {
      if j != i {
        assert key in Keys(st.lists[i]);
      }
    }
    forall k | k in st.keys && k != key
      ensures 0 <= st.keys[k] < |l'| && k in Keys(l'[st.keys[k]])
    {
    }
  }

  /**
   * Put keeps the invariant and leaves p's key the youngest. A present key
   * is promoted: its stored pair is returned, the pairs are unchanged and
   * nothing is evicted. A new key is inserted: a pair is evicted exactly
   * when every generation was full, and the pairs are the old ones plus p
   * less the evicted one.
   */
  lemma PutKeeps(st: Gens, cap: int, p: Pair)
    requires Inv(st, cap)
    ensures var (st', r) := AfterPut(st, cap, p);
      && Inv(st', cap)
      && (|st.lists| > 0 ==> st'.lists[0] != [] && st'.lists[0][0].Key == p.Key && st'.keys[p.Key] == 0)
      && (p.Key in st.keys ==>
            && r == Lookup(st.lists[st.keys[p.Key]], p.Key) && r.Some? && st'.lists[0][0] == r.value
            && Bag(st'.lists) == Bag(st.lists) && st'.keys.Keys == st.keys.Keys)
      && (p.Key !in st.keys ==>
            && (r.Some? <==> Full(st.lists, cap, 0))
            && Bag(st'.lists) + Handed(r) == Bag(st.lists) + multiset{p})
  {
    if p.Key in st.keys {
      PromotedInv(st, cap, p.Key);
      PromotedBag(st, cap, p.Key);
    } else {
      NewInsertable(st, cap, p);
      InsertedInv(st, cap, p);
      InsertedOut(st, cap, p);
      InsertedBag(st, cap, p);
    }
  }

  /** A key the index does not hold is held by no generation, so its pair may be inserted. */
  lemma NewInsertable(st: Gens, cap: int, p: Pair)
    requires Inv(st, cap) && p.Key !in st.keys
    ensures Insertable(st, cap, p)
  {
    assert {p.Key} - {p.Key} == {};
  }

  /**
   * Get reads the promoted key at the front of the youngest generation,
   * where reading it changes nothing more: Get's state is the promotion's,
   * and its value the indexed pair's value, or -1 for a key not indexed.
   */
  lemma GetFront(st: Gens, cap: int, key: int)
    requires Inv(st, cap)
    ensures var (st', v) := AfterGet(st, cap, key);
      && st' == Promoted(st, cap, key).0
      && (key !in st.keys ==> v == -1)
      && (key in st.keys ==> v == Lookup(st.lists[st.keys[key]], key).value.Value)
  {
    PromotedInv(st, cap, key);
    if key in st.keys {
      var (st1, r) := Promoted(st, cap, key);
      var g0 := st1.lists[0];
      assert g0[0] in g0;
      LookupUnique(g0, key, g0[0]);
      MoveToFrontResident(g0, g0[0], g0[0]);
      assert RemoveFirst(g0, g0[0]) == g0[1..];
      assert [g0[0]] + g0[1..] == g0;
      assert st1.lists[0 := g0] == st1.lists;
    }
  }

  /**
   * Get keeps the invariant and the pairs: an indexed key becomes the
   * youngest; any other key changes nothing.
   */
  lemma GetKeeps(st: Gens, cap: int, key: int)
    requires Inv(st, cap)
    ensures var (st', v) := AfterGet(st, cap, key);
      && Inv(st', cap)
      && Bag(st'.lists) == Bag(st.lists) && st'.keys.Keys == st.keys.Keys
      && (key !in st.keys ==> st' == st)
      && (key in st.keys ==> st'.lists[0] != [] && st'.lists[0][0].Key == key && st'.keys[key] == 0)
  {
    GetFront(st, cap, key);
    PromotedInv(st, cap, key);
    PromotedBag(st, cap, key);
  }

  /** Init's state satisfies the invariant and holds no pair. */
  lemma EmptyInv(length: nat, cap: int)
    requires length == 0 || cap >= 1
    ensures Inv(Empty(length), cap) && Bag(Empty(length).lists) == multiset{}
  {
    var l := Empty(length).lists;
    forall j | 0 <= j < length
      ensures Keys(l[j]) == {}
    {
      assert l[j] == [];
    }
    EmptyBag(l);
  }

  lemma {:induction false} EmptyBag(lists: seq<seq<Pair>>)
    requires forall j :: 0 <= j < |lists| ==> lists[j] == []
    ensures Bag(lists) == multiset{}
  {
    if lists != [] {
      assert forall j :: 0 <= j < |lists[1..]| ==> lists[1..][j] == lists[j + 1];
      EmptyBag(lists[1..]);
    }
  }
}
