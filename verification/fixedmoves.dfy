/** MoveTodoUp and MoveTodoDown of todo/stores/todoList.go with the one write they miss,
    and what that write buys: every move keeps the chain valid. The as-written moves leave
    the `Prev` of the todo after the swapped pair pointing at the wrong todo; a later
    RemoveTodo that trusts that `Prev` then cuts todos out of the chain. */
module FixedMoves {
  import opened Wrappers
  import opened Todos
  import opened TodoLists
  import opened ChainProofs

  /** MoveTodoUp followed by the missing write: when the old predecessor now has a
      successor, that todo's `Prev` is set back to the old predecessor. */
  function MoveTodoUpFixed(l: TodoList, p: Ptr): (r: (TodoList, Result<Todo, ListError>))
    requires p in l.heap
    ensures r.0.id == l.id && r.0.heap.Keys == l.heap.Keys && r.1.Success?
    ensures l.heap[p].prev.None? ==> r == (l, Success(l.heap[p]))
    ensures r.1.value.id == l.heap[p].id
  {
    var h := l.heap;
    if h[p].prev.None? || h[p].prev.value !in h then MoveTodoUp(l, p)
    else
      var q := h[p].prev.value;
      var l1 := MoveTodoUp(l, p).0;
      var m := l1.heap[q].next;
      var h' := if m.Some? then SetPrev(l1.heap, m.value, Some(q)) else l1.heap;
      (l1.(heap := h'), Success(h'[p]))
  }

  /** MoveTodoDown followed by the missing write: when the moved todo now has a successor,
      that todo's `Prev` is set back to the moved todo. */
  function MoveTodoDownFixed(l: TodoList, p: Ptr): (r: (TodoList, Result<Todo, ListError>))
    requires p in l.heap
    ensures r.0.id == l.id && r.0.heap.Keys == l.heap.Keys && r.1.Success?
    ensures l.heap[p].next.None? ==> r == (l, Success(l.heap[p]))
    ensures r.1.value.id == l.heap[p].id
  {
    var h := l.heap;
    if h[p].next.None? || h[p].next.value !in h then MoveTodoDown(l, p)
    else
      var l1 := MoveTodoDown(l, p).0;
      var m := l1.heap[p].next;
      var h' := if m.Some? then SetPrev(l1.heap, m.value, Some(p)) else l1.heap;
      (l1.(heap := h'), Success(h'[p]))
  }

  /** MoveTodo over the corrected moves. */
  function MoveTodoFixed(l: TodoList, todoId: int, moveUp: bool): (r: (TodoList, Result<Todo, ListError>))
    ensures Lookup(l, todoId).None? ==> r == (l, Failure(NotFound))
    ensures Lookup(l, todoId).Some? ==> r.1.Success? && r.1.value.id == todoId
  {
    match Lookup(l, todoId)
    case None => (l, Failure(NotFound))
    case Some(p) => if moveUp then MoveTodoUpFixed(l, p) else MoveTodoDownFixed(l, p)
  }

  /** The order a move of the todo at position `k` should produce: the head cannot move
      up and the tail cannot move down. */
  function Moved(o: seq<Ptr>, k: nat, moveUp: bool): (r: seq<Ptr>)
    requires k < |o|
  {
    if moveUp then (if k == 0 then o else Swap(o, k - 1))
    else (if k + 1 == |o| then o else Swap(o, k))
  }

  // ---------------------------------------------------------------------------

  /** Pointing the one stale `prev` of a chain at its predecessor makes it back-linked. */
  lemma RepairPrev(h: Heap, start: Option<Ptr>, o: seq<Ptr>, id: string, i: nat)
    requires Chained(h, start, o) && Owned(h, o, id) && i < |o|
    requires forall j :: 0 <= j < |o| && j != i ==> h[o[j]].prev == PrevOf(o, j)
    ensures var h' := SetPrev(h, o[i], PrevOf(o, i));
      Chained(h', start, o) && BackLinked(h', o) && Owned(h', o, id)
  {
    var h' := SetPrev(h, o[i], PrevOf(o, i));
    forall j | 0 <= j < |o|
      ensures o[j] in h'
      ensures h'[o[j]] == if j == i then h[o[i]].(prev := PrevOf(o, i)) else h[o[j]]
    {
      if j != i { assert o[j] != o[i]; }
    }
  }

  /** On a valid list the corrected MoveTodoUp of the todo at position `k > 0` is the
      as-written one plus the repair of the following todo's `prev`. */
  lemma UpFixedIsRepair(l: TodoList, k: nat)
    requires Valid(l) && 0 < k < |Order(l)|
    ensures var o, l1 := Order(l), MoveTodoUp(l, Order(l)[k]).0;
      var l' := MoveTodoUpFixed(l, o[k]).0;
      && l'.start == l1.start
      && l'.heap == (if k + 1 < |o| then SetPrev(l1.heap, o[k + 1], Some(o[k - 1])) else l1.heap)
      && MoveTodoUpFixed(l, o[k]).1 == Success(l'.heap[o[k]])
  {
    var o := Order(l);
    assert l.heap[o[k]].prev == Some(o[k - 1]);
    MoveUpAt(l, k, k - 1);
  }

  /** The corrected MoveTodoUp, on a valid list, for the todo at position `k > 0`: the
      order is the swap and the list stays valid. */
  lemma MoveTodoUpFixedSwaps(l: TodoList, k: nat)
    requires Valid(l) && 0 < k < |Order(l)|
    ensures var o, (l', r) := Order(l), MoveTodoUpFixed(l, Order(l)[k]);
      && Valid(l')
      && Order(l') == Swap(o, k - 1)
      && r == Success(l'.heap[o[k]])
  {
    var o := Order(l);
    var l1 := MoveTodoUp(l, o[k]).0;
    var l' := MoveTodoUpFixed(l, o[k]).0;
    var o' := Swap(o, k - 1);
    MoveUpOrder(l, k);
    UpFixedIsRepair(l, k);
    if k + 1 < |o| {
      assert o'[k + 1] == o[k + 1] && PrevOf(o', k + 1) == Some(o[k - 1]);
      RepairPrev(l1.heap, l1.start, o', l.id, k + 1);
      OrderIs(l', o');
    } else {
      assert BackLinked(l1.heap, o');
    }
  }

  /** ... and every todo, moved or not, keeps its content and list. */
  lemma MoveTodoUpFixedKeepsContent(l: TodoList, k: nat, i: nat)
    requires Valid(l) && 0 < k < |Order(l)| && i < |Order(l)|
    ensures var o, l' := Order(l), MoveTodoUpFixed(l, Order(l)[k]).0;
      TodoFields(l'.heap[o[i]]) == TodoFields(l.heap[o[i]])
  {
    var o := Order(l);
    var l1, l' := MoveTodoUp(l, o[k]).0, MoveTodoUpFixed(l, o[k]).0;
    UpFixedIsRepair(l, k);
    if k + 1 < |o| {
      SetPrevKeepsFields(l1.heap, o[k + 1], Some(o[k - 1]), o[i]);
    }
    MoveUpAt(l, k, i);
  }

  /** A `prev` write changes no todo's content. */
  lemma SetPrevKeepsFields(h: Heap, p: Ptr, v: Option<Ptr>, c: Ptr)
    requires c in h
    ensures TodoFields(SetPrev(h, p, v)[c]) == TodoFields(h[c])
  {
  }

  /** Like the as-written pair, the corrected MoveTodoDown is the corrected MoveTodoUp of
      the successor. */
  lemma MoveDownFixedIsMoveUpFixedOfNext(l: TodoList, k: nat)
    requires Valid(l) && k + 1 < |Order(l)|
    ensures var o := Order(l);
      && MoveTodoDownFixed(l, o[k]).0 == MoveTodoUpFixed(l, o[k + 1]).0
      && MoveTodoDownFixed(l, o[k]).1 == Success(MoveTodoUpFixed(l, o[k + 1]).0.heap[o[k]])
  {
    var o := Order(l);
    assert l.heap[o[k]].next == Some(o[k + 1]) && l.heap[o[k + 1]].prev == Some(o[k]);
    MoveDownIsMoveUpOfNext(l, k);
  }

  /** The corrected MoveTodoDown, on a valid list, for a todo with a successor. */
  lemma MoveTodoDownFixedSwaps(l: TodoList, k: nat)
    requires Valid(l) && k + 1 < |Order(l)|
    ensures var o, (l', r) := Order(l), MoveTodoDownFixed(l, Order(l)[k]);
      && Valid(l')
      && Order(l') == Swap(o, k)
      && r == Success(l'.heap[o[k]])
      && TodoFields(l'.heap[o[k]]) == TodoFields(l.heap[o[k]])
  {
    MoveDownFixedIsMoveUpFixedOfNext(l, k);
    MoveTodoUpFixedSwaps(l, k + 1);
    MoveTodoUpFixedKeepsContent(l, k + 1, k);
  }

  /** The corrected MoveTodo on a valid list: an unknown id is an error and changes
      nothing; otherwise the todo moves one place (or stays, at the end it moves towards)
      and the list stays valid. */
  lemma MoveTodoFixedMoves(l: TodoList, todoId: int, moveUp: bool)
    requires Valid(l)
    ensures var (l', r) := MoveTodoFixed(l, todoId, moveUp);
      match IndexOf(l, todoId)
      case None => l' == l && r == Failure(NotFound)
      case Some(k) =>
        && Valid(l') && Order(l') == Moved(Order(l), k, moveUp)
        && r.Success? && r.value == l'.heap[Order(l)[k]]
        && TodoFields(r.value) == TodoFields(l.heap[Order(l)[k]])
  {
    var o := Order(l);
    if IndexOf(l, todoId).Some? {
      var k := IndexOf(l, todoId).value;
      assert Lookup(l, todoId) == Some(o[k]);
      BoundaryLinks(l, k);
      if moveUp && k > 0 {
        MoveTodoUpFixedSwaps(l, k);
        MoveTodoUpFixedKeepsContent(l, k, k);
      } else if !moveUp && k + 1 < |o| {
        MoveTodoDownFixedSwaps(l, k);
      }
    }
  }

  // ---------------------------------------------------------------------------
  // The defect on a three-todo list

  function Item(id: int, prev: Option<Ptr>, next: Option<Ptr>): Todo {
    Todo(id, "todo", "", false, [], Some("L"), prev, next)
  }

  /** Todos 1, 2, 3 in cells 0, 1, 2, in that order. */
  function ThreeTodos(): TodoList {
    TodoList("L", Some(0), map[0 := Item(1, None, Some(1)), 1 := Item(2, Some(0), Some(2)),
                               2 := Item(3, Some(1), None)])
  }

  lemma ThreeTodosValid()
    ensures Order(ThreeTodos()) == [0, 1, 2] && Valid(ThreeTodos())
  {
    var l := ThreeTodos();
    assert Chained(l.heap, l.start, [0, 1, 2]);
    OrderIs(l, [0, 1, 2]);
  }

  /** ThreeTodos after MoveTodo(2, up) as written: todo 3 still points back to todo 2. */
  function MovedUpAsWritten(): TodoList {
    TodoList("L", Some(1), map[0 := Item(1, Some(1), Some(2)), 1 := Item(2, None, Some(0)),
                               2 := Item(3, Some(1), None)])
  }

  lemma MoveUpAsWrittenHeap()
    ensures MoveTodo(ThreeTodos(), 2, true).0 == MovedUpAsWritten()
  {
    var l := ThreeTodos();
    ThreeTodosValid();
    assert IndexOf(l, 2) == Some(1);
    assert MoveTodo(l, 2, true) == MoveTodoUp(l, 1);
    MoveUpWrites(l, 1);
    MoveUpCell(l, 1, 2);
    var h' := MoveTodoUp(l, 1).0.heap;
    assert h'.Keys == {0, 1, 2};
    assert h' == MovedUpAsWritten().heap;
  }

  lemma MovedUpAsWrittenOrder()
    ensures Order(MovedUpAsWritten()) == [1, 0, 2] && !Valid(MovedUpAsWritten())
  {
    var l1 := MovedUpAsWritten();
    assert Chained(l1.heap, l1.start, [1, 0, 2]);
    OrderIs(l1, [1, 0, 2]);
    assert l1.heap[[1, 0, 2][2]].prev != PrevOf([1, 0, 2], 2);
  }

  /** RemoveTodo(3) on the moved list: todo 3's `prev` sends the write to todo 2, which
      loses its `next`, and the chain stops there. */
  lemma RemoveFromMovedUp()
    ensures Order(RemoveTodo(MovedUpAsWritten(), 3).0) == [1]
  {
    var l1 := MovedUpAsWritten();
    MovedUpAsWrittenOrder();
    assert IndexOf(l1, 3) == Some(2);
    assert Lookup(l1, 3) == Some(2);
    var l2 := Unlink(l1, 2).0;
    UnlinkWrites(l1, 2);
    UnlinkCell(l1, 2, 1);
    assert l2.start == Some(1) && l2.heap[1].next.None?;
    assert Chained(l2.heap, l2.start, [1]);
    OrderIs(l2, [1]);
  }

  /** As written: moving todo 2 up and then removing todo 3 also drops todo 1, because
      todo 3's stale `prev` still names todo 2, whose `next` RemoveTodo then clears. */
  lemma MoveUpThenRemoveLosesTodo()
    ensures var l1 := MoveTodo(ThreeTodos(), 2, true).0;
      && Order(l1) == [1, 0, 2]
      && !Valid(l1)
      && Order(RemoveTodo(l1, 3).0) == [1]
  {
    MoveUpAsWrittenHeap();
    MovedUpAsWrittenOrder();
    RemoveFromMovedUp();
  }

  /** Corrected: moving the todo at position `k` up and then removing the todo after the
      swapped pair removes just that todo, and the list stays valid. On ThreeTodos with
      `k == 1` the order goes [0, 1, 2], [1, 0, 2], [1, 0]. */
  lemma FixedMoveUpThenRemoveNext(l: TodoList, k: nat)
    requires Valid(l) && 0 < k && k + 1 < |Order(l)|
    ensures var o, l1 := Order(l), MoveTodoUpFixed(l, Order(l)[k]).0;
      var l2 := Unlink(l1, o[k + 1]).0;
      && Order(l2) == Without(Swap(o, k - 1), k + 1)
      && Valid(l2)
  {
    var o := Order(l);
    MoveTodoUpFixedSwaps(l, k);
    var l1 := MoveTodoUpFixed(l, o[k]).0;
    assert Order(l1)[k + 1] == o[k + 1];
    UnlinkChain(l1, k + 1);
  }
}
