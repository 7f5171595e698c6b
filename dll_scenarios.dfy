/**
 * Scenarios from go-impl/test/dll_test.go, each a fixed sequence of list
 * operations whose observable results the ensures clauses pin down.
 */
module DLLScenarios {
  import opened Wrappers
  import opened DLL

  /** Removing the only element with the source's Remove: the size drops to 0 but head still names the removed node. */
  method RemoveSoleElementAsWritten(p: Pair) returns (size: int, head: int)
    ensures size == 0 && head != Nil
  {
    var l := new DoublyLinkedList.Init();
    var _ := l.PushFront(p);
    var _ := l.RemoveAsWritten(p);
    size, head := l.len, l.head;
  }

  /** Removing the only element leaves an empty list whose head and tail are both nil. */
  method RemoveSoleElement(p: Pair) returns (size: int, head: int, tail: int)
    ensures size == 0 && head == Nil && tail == Nil
  {
    var l := new DoublyLinkedList.Init();
    var _ := l.PushFront(p);
    var _ := l.Remove(p);
    size, head, tail := l.Size(), l.Head(), l.Tail();
  }

  /** PushFront puts each new pair at the head; PushBack leaves the head alone. */
  method PushScenario() returns (front1: Pair, front2: Pair, back1: Pair, back2: Pair)
    ensures front1 == Pair(3, 30) && front2 == Pair(2, 20)
    ensures back1 == Pair(2, 20) && back2 == Pair(2, 20)
  {
    var l := new DoublyLinkedList.Init();
    var _ := l.PushFront(Pair(3, 30));
    front1 := l.data[l.Head()];
    var _ := l.PushFront(Pair(2, 20));
    front2 := l.data[l.Head()];
    var m := new DoublyLinkedList.Init();
    var _ := m.PushBack(Pair(2, 20));
    back1 := m.data[m.Head()];
    var _ := m.PushBack(Pair(3, 30));
    back2 := m.data[m.Head()];
  }

  /** PopBack of a two-element list leaves the first pair as both head and tail; of a one-element list, an empty list. */
  method PopBackScenario() returns (size: int, head: Pair, tail: Pair, size1: int, head1: int, tail1: int)
    ensures size == 1 && head == Pair(2, 20) && tail == Pair(2, 20)
    ensures size1 == 0 && head1 == Nil && tail1 == Nil
  {
    var l := new DoublyLinkedList.Init();
    var _ := l.PushBack(Pair(2, 20));
    var _ := l.PushBack(Pair(3, 30));
    var _ := l.PopBack();
    size, head, tail := l.Size(), l.data[l.Head()], l.data[l.Tail()];
    var m := new DoublyLinkedList.Init();
    var _ := m.PushBack(Pair(2, 20));
    var _ := m.PopBack();
    size1, head1, tail1 := m.Size(), m.Head(), m.Tail();
  }

  /** PopFront of a two-element list leaves the second pair as both head and tail. */
  method PopFrontScenario() returns (size: int, head: Pair, tail: Pair)
    ensures size == 1 && head == Pair(3, 30) && tail == Pair(3, 30)
  {
    var l := new DoublyLinkedList.Init();
    var _ := l.PushFront(Pair(3, 30));
    var _ := l.PushFront(Pair(2, 20));
    l.PopFront();
    size, head, tail := l.Size(), l.data[l.Head()], l.data[l.Tail()];
  }

  /** Removing the middle pair of three keeps the outer two as head and tail. */
  method RemoveScenario() returns (size: int, head: Pair, tail: Pair)
    ensures size == 2 && head == Pair(1, 10) && tail == Pair(3, 30)
  {
    var l := new DoublyLinkedList.Init();
    var _ := l.PushBack(Pair(2, 20));
    var _ := l.PushBack(Pair(3, 30));
    var _ := l.PushFront(Pair(1, 10));
    assert FirstIndex(l.Contents, Pair(2, 20)) == 1;
    var _ := l.Remove(Pair(2, 20));
    size, head, tail := l.Size(), l.data[l.Head()], l.data[l.Tail()];
  }

  /** Moving the tail node of [1, 2, 3] to the front gives [3, 1, 2]. */
  method MoveNodeToFrontScenario() returns (err: Option<Error>, head: Pair, tail: Pair)
    ensures err == None && head == Pair(3, 30) && tail == Pair(2, 20)
  {
    var l := new DoublyLinkedList.Init();
    var _ := l.PushBack(Pair(1, 10));
    var _ := l.PushBack(Pair(2, 20));
    var c := l.PushBack(Pair(3, 30));
    assert FirstIndex(l.Contents, Pair(3, 30)) == 2;
    err := l.MoveNodeToFront(c);
    head, tail := l.data[l.Head()], l.data[l.Tail()];
  }

  /** Pushes at both ends followed by PopBack and PopFront, checking head, tail and size after each. */
  method MixedScenario() returns (sizes: seq<int>, heads: seq<Pair>, tails: seq<Pair>)
    ensures sizes == [3, 2, 1]
    ensures heads == [Pair(2, 20), Pair(2, 20), Pair(3, 30)]
    ensures tails == [Pair(4, 40), Pair(3, 30), Pair(3, 30)]
  {
    var l := new DoublyLinkedList.Init();
    var _ := l.PushFront(Pair(3, 30));
    var _ := l.PushFront(Pair(2, 20));
    var _ := l.PushBack(Pair(4, 40));
    assert l.Contents == [Pair(2, 20), Pair(3, 30), Pair(4, 40)];
    sizes, heads, tails := [l.Size()], [l.data[l.Head()]], [l.data[l.Tail()]];
    var _ := l.PopBack();
    assert l.Contents == [Pair(2, 20), Pair(3, 30)];
    sizes, heads, tails := sizes + [l.Size()], heads + [l.data[l.Head()]], tails + [l.data[l.Tail()]];
    l.PopFront();
    assert l.Contents == [Pair(3, 30)];
    sizes, heads, tails := sizes + [l.Size()], heads + [l.data[l.Head()]], tails + [l.data[l.Tail()]];
  }
}
