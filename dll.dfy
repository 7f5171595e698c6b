/**
 * The intrusive doubly-linked list of go-impl/dll/dll.go.
 *
 * Nodes live in an arena: slot n of the sequences data, next and prev holds
 * the Data, Next and Prev fields of the n-th node ever allocated, and a node
 * handle (the source's *Node) is a slot index, with Nil for nil.
 * A node that leaves the list keeps its slot, as a detached Go node keeps its
 * fields, so a stale handle still reads the data it last held.
 */
module DLL {
  import opened Wrappers

  /** One key/value entry held by a node. */
  datatype Pair = Pair(Key: int, Value: int)

  /** The error MoveNodeToFront reports when the node's data is not in the list. */
  datatype Error = NoNodeWithGivenData

  /** The nil node handle. */
  const Nil: int := -1

  /** Where a scan from the head for p stops: the first index holding p, or |s| when there is none. */
  function FirstIndex(s: seq<Pair>, p: Pair): (i: nat)
    ensures i <= |s|
    ensures i < |s| <==> p in s
    ensures i < |s| ==> s[i] == p
    ensures p !in s[..i]
  {
    if s == [] then 0
    else if s[0] == p then 0
    else
      var j := FirstIndex(s[1..], p);
      assert s[..j + 1] == [s[0]] + s[1..][..j];
      1 + j
  }

  /** The list s after removing its first element equal to p; s itself when p is absent. */
  function RemoveFirst(s: seq<Pair>, p: Pair): (r: seq<Pair>)
    ensures p in s ==> |r| == |s| - 1 && multiset(r) + multiset{p} == multiset(s)
    ensures p !in s ==> r == s
  {
    if s == [] then []
    else
      assert s == [s[0]] + s[1..];
      if s[0] == p then s[1..]
      else [s[0]] + RemoveFirst(s[1..], p)
  }

  /** When p first occurs at index k, removing the first p is cutting s at k. */
  lemma {:induction false} RemoveFirstCuts(s: seq<Pair>, p: Pair, k: int)
    requires 0 <= k < |s| && s[k] == p && p !in s[..k]
    ensures RemoveFirst(s, p) == s[..k] + s[k + 1..]
  {
    if k > 0 {
      var t := s[1..];
      assert s[0] in s[..k];
      assert t[..k - 1] == s[1..k];
      RemoveFirstCuts(t, p, k - 1);
      assert s[..k] == [s[0]] + t[..k - 1];
      assert s[k + 1..] == t[k..];
    }
  }

  /**
   * The link structure of a list over an arena of n slots: head and tail
   * are nil exactly when there are no nodes, the nodes are distinct slots, and
   * following Next from head (Prev from tail) visits them in order.
   */
  ghost predicate Linked(nodes: seq<int>, next: seq<int>, prev: seq<int>, head: int, tail: int, n: int)
  {
    && |next| == n && |prev| == n
    && (forall i :: 0 <= i < |nodes| ==> 0 <= nodes[i] < n)
    && (forall i, j :: 0 <= i < j < |nodes| ==> nodes[i] != nodes[j])
    && (|nodes| == 0 ==> head == Nil && tail == Nil)
    && (|nodes| > 0 ==> head == nodes[0] && tail == nodes[|nodes| - 1] && prev[head] == Nil && next[tail] == Nil)
    && (forall i {:trigger next[nodes[i]]} :: 0 <= i < |nodes| - 1 ==> next[nodes[i]] == nodes[i + 1])
    && (forall i {:trigger prev[nodes[i]]} :: 0 < i < |nodes| ==> prev[nodes[i]] == nodes[i - 1])
  }

  /** After unlinking node k, Next still leads from each remaining node to the one after it. */
  lemma UnlinkKeepsNext(nodes: seq<int>, next: seq<int>, k: int, next': seq<int>)
    requires 0 <= k < |nodes|
    requires forall i :: 0 <= i < |nodes| ==> 0 <= nodes[i] < |next|
    requires forall i, j :: 0 <= i < j < |nodes| ==> nodes[i] != nodes[j]
    requires forall i {:trigger next[nodes[i]]} :: 0 <= i < |nodes| - 1 ==> next[nodes[i]] == nodes[i + 1]
    requires var nn := if k < |nodes| - 1 then nodes[k + 1] else Nil;
             next' == if k > 0 then next[nodes[k - 1] := nn] else next
    ensures var ns := nodes[..k] + nodes[k + 1..];
      forall i {:trigger next'[ns[i]]} :: 0 <= i < |ns| - 1 ==> next'[ns[i]] == ns[i + 1]
  {
    var ns := nodes[..k] + nodes[k + 1..];
    forall i | 0 <= i < |ns| - 1
      ensures next'[ns[i]] == ns[i + 1]
    {
      if i < k - 1 {
        assert ns[i] == nodes[i] && ns[i + 1] == nodes[i + 1];
        assert next[nodes[i]] == nodes[i + 1];
      } else if i == k - 1 {
        assert ns[i] == nodes[k - 1] && ns[i + 1] == nodes[k + 1];
      } else {
        assert ns[i] == nodes[i + 1] && ns[i + 1] == nodes[i + 2];
        assert next[nodes[i + 1]] == nodes[i + 2];
      }
    }
  }

  /** After unlinking node k, Prev still leads from each remaining node to the one before it. */
  lemma UnlinkKeepsPrev(nodes: seq<int>, prev: seq<int>, k: int, prev': seq<int>)
    requires 0 <= k < |nodes|
    requires forall i :: 0 <= i < |nodes| ==> 0 <= nodes[i] < |prev|
    requires forall i, j :: 0 <= i < j < |nodes| ==> nodes[i] != nodes[j]
    requires forall i {:trigger prev[nodes[i]]} :: 0 < i < |nodes| ==> prev[nodes[i]] == nodes[i - 1]
    requires var pn := if k > 0 then nodes[k - 1] else Nil;
             prev' == if k < |nodes| - 1 then prev[nodes[k + 1] := pn] else prev
    ensures var ns := nodes[..k] + nodes[k + 1..];
      forall i {:trigger prev'[ns[i]]} :: 0 < i < |ns| ==> prev'[ns[i]] == ns[i - 1]
  {
    var ns := nodes[..k] + nodes[k + 1..];
    forall i | 0 < i < |ns|
      ensures prev'[ns[i]] == ns[i - 1]
    {
      if i < k {
        assert ns[i] == nodes[i] && ns[i - 1] == nodes[i - 1];
        assert prev[nodes[i]] == nodes[i - 1];
      } else if i == k {
        assert ns[i] == nodes[k + 1] && ns[i - 1] == nodes[k - 1];
      } else {
        assert ns[i] == nodes[i + 1] && ns[i - 1] == nodes[i];
        assert prev[nodes[i + 1]] == nodes[i];
      }
    }
  }

  /**
   * Unlinking node k as Remove does (its predecessor's Next and its
   * successor's Prev bypass it, and head or tail move when it was at an end)
   * leaves a well-linked list of the other nodes.
   */
  lemma UnlinkKeepsLinks(nodes: seq<int>, next: seq<int>, prev: seq<int>, head: int, tail: int, n: int, k: int,
                         next': seq<int>, prev': seq<int>, head': int, tail': int)
    requires Linked(nodes, next, prev, head, tail, n)
    requires 0 <= k < |nodes|
    requires var pn := if k > 0 then nodes[k - 1] else Nil;
             var nn := if k < |nodes| - 1 then nodes[k + 1] else Nil;
             && next' == (if pn != Nil then next[pn := nn] else next)
             && head' == (if pn != Nil then head else nn)
             && prev' == (if nn != Nil then prev[nn := pn] else prev)
             && tail' == (if nn != Nil then tail else pn)
    ensures Linked(nodes[..k] + nodes[k + 1..], next', prev', head', tail', n)
  {
    var ns := nodes[..k] + nodes[k + 1..];
    assert k > 0 ==> nodes[k - 1] != Nil;
    assert k < |nodes| - 1 ==> nodes[k + 1] != Nil;
    UnlinkKeepsNext(nodes, next, k, next');
    UnlinkKeepsPrev(nodes, prev, k, prev');
    DropKeepsSlots(nodes, n, k);
    if |ns| > 0 {
      assert ns[0] == (if k == 0 then nodes[1] else nodes[0]);
      assert ns[|ns| - 1] == (if k == |nodes| - 1 then nodes[k - 1] else nodes[|nodes| - 1]);
    }
  }

  /** Dropping position k from a sequence of distinct slots below n leaves distinct slots below n. */
  lemma DropKeepsSlots(nodes: seq<int>, n: int, k: int)
    requires 0 <= k < |nodes|
    requires forall i :: 0 <= i < |nodes| ==> 0 <= nodes[i] < n
    requires forall i, j :: 0 <= i < j < |nodes| ==> nodes[i] != nodes[j]
    ensures var ns := nodes[..k] + nodes[k + 1..];
      && (forall i :: 0 <= i < |ns| ==> 0 <= ns[i] < n)
      && (forall i, j :: 0 <= i < j < |ns| ==> ns[i] != ns[j])
  {
    var ns := nodes[..k] + nodes[k + 1..];
    forall i | 0 <= i < |ns|
      ensures ns[i] == if i < k then nodes[i] else nodes[i + 1]
    {
    }
    forall i, j | 0 <= i < j < |ns|
      ensures ns[i] != ns[j]
    {
      var i', j' := if i < k then i else i + 1, if j < k then j else j + 1;
      assert ns[i] == nodes[i'] && ns[j] == nodes[j'];
    }
  }

  /** Dropping position k from both the slot order and the contents keeps each remaining slot holding its pair. */
  lemma DropKeepsData(data: seq<Pair>, nodes: seq<int>, cs: seq<Pair>, k: int)
    requires |nodes| == |cs| && 0 <= k < |nodes|
    requires forall i :: 0 <= i < |nodes| ==> 0 <= nodes[i] < |data| && data[nodes[i]] == cs[i]
    ensures var ns, cs' := nodes[..k] + nodes[k + 1..], cs[..k] + cs[k + 1..];
      forall i :: 0 <= i < |ns| ==> 0 <= ns[i] < |data| && data[ns[i]] == cs'[i]
  {
    var ns, cs' := nodes[..k] + nodes[k + 1..], cs[..k] + cs[k + 1..];
    forall i | 0 <= i < |ns|
      ensures 0 <= ns[i] < |data| && data[ns[i]] == cs'[i]
    {
      if i < k {
        assert ns[i] == nodes[i] && cs'[i] == cs[i];
      } else {
        assert ns[i] == nodes[i + 1] && cs'[i] == cs[i + 1];
      }
    }
  }

  /** Pushing p in a fresh slot at either end of the slot order and the contents keeps each slot holding its pair. */
  lemma PushKeepsData(data: seq<Pair>, nodes: seq<int>, cs: seq<Pair>, p: Pair, front: bool,
                      data': seq<Pair>, nodes': seq<int>, cs': seq<Pair>)
    requires |nodes| == |cs|
    requires forall i :: 0 <= i < |nodes| ==> 0 <= nodes[i] < |data| && data[nodes[i]] == cs[i]
    requires data' == data + [p]
    requires nodes' == if front then [|data|] + nodes else nodes + [|data|]
    requires cs' == if front then [p] + cs else cs + [p]
    ensures forall i :: 0 <= i < |nodes'| ==> data'[nodes'[i]] == cs'[i]
  {
    forall i | 0 <= i < |nodes'|
      ensures data'[nodes'[i]] == cs'[i]
    {
      var j := if front then i - 1 else i;
      if 0 <= j < |nodes| {
        assert nodes'[i] == nodes[j] && cs'[i] == cs[j];
      }
    }
  }

  /** Linking a fresh slot n in front of the head keeps the list well linked, with n as the new head. */
  lemma PushFrontKeepsLinks(nodes: seq<int>, next: seq<int>, prev: seq<int>, head: int, tail: int, n: int,
                            next': seq<int>, prev': seq<int>, tail': int)
    requires Linked(nodes, next, prev, head, tail, n)
    requires next' == if head == Nil then next + [Nil] else (next + [Nil])[n := head]
    requires prev' == if head == Nil then prev + [Nil] else (prev + [Nil])[head := n]
    requires tail' == if head == Nil then n else tail
    ensures Linked([n] + nodes, next', prev', n, tail', n + 1)
  {
    var ns := [n] + nodes;
    if head == Nil {
      assert ns == [n];
    } else {
      forall i | 0 <= i < |ns| - 1
        ensures next'[ns[i]] == ns[i + 1]
      {
        if i > 0 {
          assert ns[i] == nodes[i - 1] && ns[i + 1] == nodes[i];
        }
      }
      forall i | 0 < i < |ns|
        ensures prev'[ns[i]] == ns[i - 1]
      {
        assert ns[i] == nodes[i - 1];
        if i > 1 {
          assert nodes[i - 1] != nodes[0];
        }
      }
    }
  }

  /** Linking a fresh slot n after the tail keeps the list well linked, with n as the new tail. */
  lemma PushBackKeepsLinks(nodes: seq<int>, next: seq<int>, prev: seq<int>, head: int, tail: int, n: int,
                           next': seq<int>, prev': seq<int>, head': int)
    requires Linked(nodes, next, prev, head, tail, n)
    requires next' == if tail == Nil then next + [Nil] else (next + [Nil])[tail := n]
    requires prev' == if tail == Nil then prev + [Nil] else (prev + [Nil])[n := tail]
    requires head' == if tail == Nil then n else head
    ensures Linked(nodes + [n], next', prev', head', n, n + 1)
  {
    if tail == Nil {
      assert nodes + [n] == [n];
    } else {
      PushBackKeepsNext(nodes, next, n, next');
      PushBackKeepsPrev(nodes, prev, n, prev');
    }
  }

  /** Next after pushing slot n behind a non-empty list. */
  lemma PushBackKeepsNext(nodes: seq<int>, next: seq<int>, n: int, next': seq<int>)
    requires |nodes| > 0 && |next| == n
    requires forall i :: 0 <= i < |nodes| ==> 0 <= nodes[i] < n
    requires forall i, j :: 0 <= i < j < |nodes| ==> nodes[i] != nodes[j]
    requires forall i {:trigger next[nodes[i]]} :: 0 <= i < |nodes| - 1 ==> next[nodes[i]] == nodes[i + 1]
    requires next' == (next + [Nil])[nodes[|nodes| - 1] := n]
    ensures var ns := nodes + [n];
      forall i {:trigger next'[ns[i]]} :: 0 <= i < |ns| - 1 ==> next'[ns[i]] == ns[i + 1]
  {
    var ns := nodes + [n];
    forall i | 0 <= i < |ns| - 1
      ensures next'[ns[i]] == ns[i + 1]
    {
      assert ns[i] == nodes[i];
      if i < |nodes| - 1 {
        assert nodes[i] != nodes[|nodes| - 1];
      }
    }
  }

  /** Prev after pushing slot n behind a non-empty list. */
  lemma PushBackKeepsPrev(nodes: seq<int>, prev: seq<int>, n: int, prev': seq<int>)
    requires |nodes| > 0 && |prev| == n
    requires forall i :: 0 <= i < |nodes| ==> 0 <= nodes[i] < n
    requires forall i {:trigger prev[nodes[i]]} :: 0 < i < |nodes| ==> prev[nodes[i]] == nodes[i - 1]
    requires prev' == (prev + [Nil])[n := nodes[|nodes| - 1]]
    ensures var ns := nodes + [n];
      forall i {:trigger prev'[ns[i]]} :: 0 < i < |ns| ==> prev'[ns[i]] == ns[i - 1]
  {
    var ns := nodes + [n];
    forall i | 0 < i < |ns|
      ensures prev'[ns[i]] == ns[i - 1]
    {
      if i < |nodes| {
        assert ns[i] == nodes[i] && ns[i - 1] == nodes[i - 1];
      }
    }
  }

  class DoublyLinkedList {
    var data: seq<Pair>
    var next: seq<int>
    var prev: seq<int>
    var head: int
    var tail: int
    var len: int
    /** The slots of the nodes reachable from head, in list order. */
    ghost var nodes: seq<int>
    /** The pairs those nodes hold: the list as a sequence, head first. */
    ghost var Contents: seq<Pair>

    /** The list invariant: the links of the arena chain exactly the slots in nodes, and those slots hold Contents. */
    ghost predicate Valid()
      reads this
    {
      && Linked(nodes, next, prev, head, tail, |data|)
      && len == |nodes| == |Contents|
      && (forall i :: 0 <= i < |nodes| ==> data[nodes[i]] == Contents[i])
    }

    constructor Init()
      ensures Valid() && Contents == [] && data == []
    {
      data, next, prev := [], [], [];
      head, tail, len := Nil, Nil, 0;
      nodes, Contents := [], [];
    }

    function Size(): (n: int)
      requires Valid()
      reads this
      ensures n == |Contents|
    {
      len
    }

    function Head(): (node: int)
      requires Valid()
      reads this
      ensures node == Nil <==> Contents == []
      ensures node != Nil ==> 0 <= node < |data| && data[node] == Contents[0]
    {
      head
    }

    function Tail(): (node: int)
      requires Valid()
      reads this
      ensures node == Nil <==> Contents == []
      ensures node != Nil ==> 0 <= node < |data| && data[node] == Contents[|Contents| - 1]
    {
      tail
    }

    method PushFront(p: Pair) returns (node: int)
      requires Valid()
      modifies this
      ensures Valid()
      ensures Contents == [p] + old(Contents)
      ensures node == |old(data)| && data == old(data) + [p]
      ensures nodes == [node] + old(nodes) && head == node
    {
      node := |data|;
      ghost var nodes0, next0, prev0, head0, tail0 := nodes, next, prev, head, tail;
      data, next, prev := data + [p], next + [Nil], prev + [Nil];
      if head == Nil {
        head, tail := node, node;
      } else {
        prev := prev[head := node];
        next := next[node := head];
        head := node;
      }
      len := len + 1;
      PushFrontKeepsLinks(nodes0, next0, prev0, head0, tail0, node, next, prev, tail);
      PushKeepsData(old(data), nodes, Contents, p, true, data, [node] + nodes, [p] + Contents);
      nodes, Contents := [node] + nodes, [p] + Contents;
    }

    method PushBack(p: Pair) returns (node: int)
      requires Valid()
      modifies this
      ensures Valid()
      ensures Contents == old(Contents) + [p]
      ensures node == |old(data)| && data == old(data) + [p]
      ensures nodes == old(nodes) + [node] && tail == node
    {
      node := |data|;
      ghost var nodes0, next0, prev0, head0, tail0 := nodes, next, prev, head, tail;
      data, next, prev := data + [p], next + [Nil], prev + [Nil];
      if tail == Nil {
        head, tail := node, node;
      } else {
        next := next[tail := node];
        prev := prev[node := tail];
        tail := node;
      }
      len := len + 1;
      PushBackKeepsLinks(nodes0, next0, prev0, head0, tail0, node, next, prev, head);
      PushKeepsData(old(data), nodes, Contents, p, false, data, nodes + [node], Contents + [p]);
      nodes, Contents := nodes + [node], Contents + [p];
    }

    /** Drops the head; the source dereferences the nil successor of a sole head, so a one-element list is excluded. */
    method PopFront()
      requires Valid()
      requires |Contents| != 1
      modifies this
      ensures Valid() && data == old(data)
      ensures Contents == if old(Contents) == [] then [] else old(Contents)[1..]
      ensures nodes == if old(nodes) == [] then [] else old(nodes)[1..]
    {
      if head == Nil {
        return;
      }
      assert next[nodes[0]] == nodes[1];
      head := next[head];
      prev := prev[head := Nil];
      len := len - 1;
      nodes, Contents := nodes[1..], Contents[1..];
    }

    method PopBack() returns (r: Option<Pair>)
      requires Valid()
      modifies this
      ensures Valid() && data == old(data)
      ensures old(Contents) == [] ==> r == None && Contents == [] && nodes == []
      ensures old(Contents) != [] ==>
        && r == Some(old(Contents)[|old(Contents)| - 1])
        && Contents == old(Contents)[..|old(Contents)| - 1]
        && nodes == old(nodes)[..|old(nodes)| - 1]
    {
      if tail == Nil {
        return None;
      }
      var nodeData := data[tail];
      assert len > 1 ==> prev[nodes[len - 1]] == nodes[len - 2];
      tail := prev[tail];
      if tail != Nil {
        next := next[tail := Nil];
      } else {
        head := Nil;
      }
      len := len - 1;
      nodes, Contents := nodes[..len], Contents[..len];
      return Some(nodeData);
    }

    /** Scans from the head and unlinks the first node whose Data equals p. */
    method Remove(p: Pair) returns (r: Option<Pair>)
      requires Valid()
      modifies this
      ensures Valid() && data == old(data)
      ensures Contents == RemoveFirst(old(Contents), p)
      ensures r == if p in old(Contents) then Some(p) else None
      ensures var i := FirstIndex(old(Contents), p);
        nodes == if i == |old(nodes)| then old(nodes) else old(nodes)[..i] + old(nodes)[i + 1..]
    {
      if head == Nil {
        return None;
      }
      var curr := head;
      ghost var k := 0;
      while curr != Nil
        invariant unchanged(this) && Valid()
        invariant 0 <= k <= len
        invariant curr == if k < len then nodes[k] else Nil
        invariant p !in Contents[..k]
        decreases len - k
      {
        if data[curr] == p {
          assert FirstIndex(Contents, p) == k;
          RemoveFirstCuts(Contents, p, k);
          Unlink(curr, k);
          return Some(p);
        }
        assert Contents[..k + 1] == Contents[..k] + [Contents[k]];
        curr := next[curr];
        k := k + 1;
      }
      assert Contents[..k] == Contents;
      return None;
    }

    /**
     * Remove exactly as the source writes it: when the matching node is the
     * head, its successor's Prev bypasses it but head is left pointing at it.
     */
    method RemoveAsWritten(p: Pair) returns (r: Option<Pair>)
      requires Valid()
      modifies this
      ensures head == old(head)
      ensures r == if p in old(Contents) then Some(p) else None
      ensures len == if p in old(Contents) then old(len) - 1 else old(len)
    {
      if head == Nil {
        return None;
      }
      var curr := head;
      ghost var k := 0;
      while curr != Nil
        invariant unchanged(this) && Valid()
        invariant 0 <= k <= len
        invariant curr == if k < len then nodes[k] else Nil
        invariant p !in Contents[..k]
        decreases len - k
      {
        if data[curr] == p {
          var prevNode := prev[curr];
          var nextNode := next[curr];
          assert prevNode == if k > 0 then nodes[k - 1] else Nil;
          assert nextNode == if k < len - 1 then nodes[k + 1] else Nil;
          if prevNode != Nil {
            next := next[prevNode := nextNode];
          }
          if nextNode == Nil {
            tail := prevNode;
          } else {
            prev := prev[nextNode := prevNode];
          }
          len := len - 1;
          return Some(p);
        }
        assert Contents[..k + 1] == Contents[..k] + [Contents[k]];
        curr := next[curr];
        k := k + 1;
      }
      assert Contents[..k] == Contents;
      return None;
    }

    /** The relinking Remove does once it has found the node at position k: its neighbours bypass it, and head or tail move off it. */
    method Unlink(curr: int, ghost k: int)
      requires Valid()
      requires 0 <= k < |nodes| && curr == nodes[k]
      modifies this
      ensures Valid() && data == old(data)
      ensures nodes == old(nodes)[..k] + old(nodes)[k + 1..]
      ensures Contents == old(Contents)[..k] + old(Contents)[k + 1..]
    {
      var prevNode := prev[curr];
      var nextNode := next[curr];
      assert prevNode == if k > 0 then nodes[k - 1] else Nil;
      assert nextNode == if k < len - 1 then nodes[k + 1] else Nil;
      var next1, prev1, head1, tail1 := next, prev, head, tail;
      if prevNode != Nil {
        next1 := next1[prevNode := nextNode];
      } else {
        head1 := nextNode;
      }
      if nextNode == Nil {
        tail1 := prevNode;
      } else {
        prev1 := prev1[nextNode := prevNode];
      }
      UnlinkKeepsLinks(nodes, next, prev, head, tail, |data|, k, next1, prev1, head1, tail1);
      DropKeepsData(data, nodes, Contents, k);
      next, prev, head, tail, len := next1, prev1, head1, tail1, len - 1;
      nodes, Contents := nodes[..k] + nodes[k + 1..], Contents[..k] + Contents[k + 1..];
    }

    /** Overwrites the Data of the node behind a handle; the list changes only if that node is still in it. */
    method SetData(node: int, p: Pair)
      requires Valid()
      requires 0 <= node < |data|
      modifies this
      ensures Valid()
      ensures data == old(data)[node := p] && nodes == old(nodes) && head == old(head)
      ensures |Contents| == |old(Contents)|
      ensures forall i {:trigger Contents[i]} :: 0 <= i < |nodes| ==> Contents[i] == if nodes[i] == node then p else old(Contents)[i]
      ensures node == old(head) ==> Contents == [p] + old(Contents)[1..]
      ensures node !in old(nodes) ==> Contents == old(Contents)
    {
      var ns, cs := nodes, Contents;
      data := data[node := p];
      Contents := seq(|ns|, i requires 0 <= i < |ns| && |cs| == |ns| => if ns[i] == node then p else cs[i]);
    }

    /**
     * Moves the data of a node to the front by removing it and pushing a new
     * node; the handle passed in goes stale. The removal is the corrected
     * Remove: for the head node the source leaves the old node linked.
     */
    method MoveNodeToFront(node: int) returns (err: Option<Error>)
      requires Valid()
      requires 0 <= node < |data|
      modifies this
      ensures Valid()
      ensures var d := old(data[node]);
        if d in old(Contents) then
          && err == None
          && Contents == [d] + RemoveFirst(old(Contents), d)
          && data == old(data) + [d] && head == |old(data)|
          && nodes == [head] + (var i := FirstIndex(old(Contents), d); old(nodes)[..i] + old(nodes)[i + 1..])
        else
          && err == Some(NoNodeWithGivenData)
          && Contents == old(Contents) && data == old(data) && nodes == old(nodes)
    {
      var removed := Remove(data[node]);
      if removed.None? {
        return Some(NoNodeWithGivenData);
      }
      var _ := PushFront(removed.value);
      return None;
    }
  }
}
