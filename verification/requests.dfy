/** Sequences of move and remove requests on one list of todo/stores/todoList.go. The
    as-written moves leave stale `Prev` links behind. A later move or remove writes through
    such a link and can close a cycle; the walk from `Start` in GetTodos then never reaches
    nil. With the corrected moves, every request sequence keeps the list valid. */
module MoveSequences {
  import opened Wrappers
  import opened Todos
  import opened TodoLists
  import opened ChainProofs
  import opened FixedMoves

  /** One request on a list, by todo id, as the PUT and DELETE handlers issue them. */
  datatype Request = MoveUp(id: int) | MoveDown(id: int) | Remove(id: int)

  /** One request, with the as-written moves or (`fixed`) the corrected ones. */
  function Step(l: TodoList, req: Request, fixed: bool): TodoList {
    match req
    case MoveUp(id) => (if fixed then MoveTodoFixed(l, id, true) else MoveTodo(l, id, true)).0
    case MoveDown(id) => (if fixed then MoveTodoFixed(l, id, false) else MoveTodo(l, id, false)).0
    case Remove(id) => RemoveTodo(l, id).0
  }

  /** Runs the requests in order. */
  function Apply(l: TodoList, reqs: seq<Request>, fixed: bool): TodoList
    decreases |reqs|
  {
    if |reqs| == 0 then l else Apply(Step(l, reqs[0], fixed), reqs[1..], fixed)
  }

  /** One corrected request keeps a valid list valid and keeps its todos: a move permutes
      the chain order, a remove drops at most one todo from it. */
  lemma FixedStepKeepsValid(l: TodoList, req: Request)
    requires Valid(l)
    ensures Valid(Step(l, req, true))
    ensures |Order(Step(l, req, true))| == |Order(l)| - (if req.Remove? && IndexOf(l, req.id).Some? then 1 else 0)
  {
    match req
    case MoveUp(id) => MoveTodoFixedMoves(l, id, true);
    case MoveDown(id) => MoveTodoFixedMoves(l, id, false);
    case Remove(id) =>
      if IndexOf(l, id).Some? {
        RemoveTodoUnlinks(l, id);
      }
  }

  /** With the corrected moves, any sequence of requests keeps a valid list valid, so its
      walk from `Start` always ends. */
  lemma {:induction false} FixedRequestsKeepValid(l: TodoList, reqs: seq<Request>)
    requires Valid(l)
    ensures Valid(Apply(l, reqs, true))
    decreases |reqs|
  {
    if |reqs| > 0 {
      FixedStepKeepsValid(l, reqs[0]);
      FixedRequestsKeepValid(Step(l, reqs[0], true), reqs[1..]);
    }
  }

  // ---------------------------------------------------------------------------
  // A cycle from five todos

  /** Todos 0 to 4 in cells 0 to 4, in that order. */
  function FiveTodos(): TodoList {
    TodoList("L", Some(0), map[0 := Item(0, None, Some(1)), 1 := Item(1, Some(0), Some(2)),
                               2 := Item(2, Some(1), Some(3)), 3 := Item(3, Some(2), Some(4)),
                               4 := Item(4, Some(3), None)])
  }

  /** Move todo 1 up, remove todo 1, move todos 3, 4 and 2 up. */
  function CycleRequests(): seq<Request> {
    [MoveUp(1), Remove(1), MoveUp(3), MoveUp(4), MoveUp(2)]
  }

  /** After MoveUp(1): order 1, 0, 2, 3, 4; todo 2 still points back to todo 1. */
  function AfterFirstMove(): TodoList {
    TodoList("L", Some(1), map[0 := Item(0, Some(1), Some(2)), 1 := Item(1, None, Some(0)),
                               2 := Item(2, Some(1), Some(3)), 3 := Item(3, Some(2), Some(4)),
                               4 := Item(4, Some(3), None)])
  }

  /** After Remove(1): order 0, 2, 3, 4; todo 2 still points back to the removed todo 1. */
  function AfterRemove(): TodoList {
    TodoList("L", Some(0), map[0 := Item(0, None, Some(2)), 1 := Item(1, None, None),
                               2 := Item(2, Some(1), Some(3)), 3 := Item(3, Some(2), Some(4)),
                               4 := Item(4, Some(3), None)])
  }

  /** After MoveUp(3): the write meant for todo 3's new predecessor goes to the removed
      todo 1, so todo 0 still leads to todo 2 and todo 3 drops out: order 0, 2, 4. */
  function AfterThird(): TodoList {
    TodoList("L", Some(0), map[0 := Item(0, None, Some(2)), 1 := Item(1, None, Some(3)),
                               2 := Item(2, Some(3), Some(4)), 3 := Item(3, Some(1), Some(2)),
                               4 := Item(4, Some(3), None)])
  }

  /** After MoveUp(4): order 0, 2, 4, 3. */
  function AfterFourth(): TodoList {
    TodoList("L", Some(0), map[0 := Item(0, None, Some(2)), 1 := Item(1, None, Some(4)),
                               2 := Item(2, Some(3), Some(4)), 3 := Item(3, Some(4), None),
                               4 := Item(4, Some(1), Some(3))])
  }

  /** After MoveUp(2): todo 4's `Next` is todo 2 again, closing the cycle 2, 3, 4. */
  function Cyclic(): TodoList {
    TodoList("L", Some(0), map[0 := Item(0, None, Some(2)), 1 := Item(1, None, Some(4)),
                               2 := Item(2, Some(4), Some(3)), 3 := Item(3, Some(2), Some(4)),
                               4 := Item(4, Some(1), Some(2))])
  }

  /** Every todo of these lists carries its cell number as id. */
  predicate IdsAreCells(l: TodoList) {
    forall c :: c in l.heap ==> l.heap[c].id == c
  }

  /** On such a list, GetTodoById finds every todo on the walk from `Start`. */
  lemma LookupOnPath(l: TodoList, j: nat)
    requires IdsAreCells(l) && j < |Order(l)|
    ensures Lookup(l, Order(l)[j]) == Some(Order(l)[j])
  {
    var o := Order(l);
    assert l.heap[o[j]].id == o[j];
  }

  lemma FiveTodosValid()
    ensures Order(FiveTodos()) == [0, 1, 2, 3, 4] && Valid(FiveTodos())
  {
    var l := FiveTodos();
    var o := [0, 1, 2, 3, 4];
    assert Distinct(o);
    forall i | 0 <= i < |o|
      ensures o[i] in l.heap && l.heap[o[i]].next == NextOf(o, i) && l.heap[o[i]].prev == PrevOf(o, i)
    {
    }
    ValidByChain(l, o);
  }

  lemma AfterFirstMoveOrder()
    ensures Order(AfterFirstMove()) == [1, 0, 2, 3, 4]
  {
    var h := AfterFirstMove().heap;
    assert |h| == 5 by { assert h.Keys == {0, 1, 2, 3, 4}; }
    assert Walk(h, Some(4), 1) == [4];
    assert Walk(h, Some(3), 2) == [3, 4];
    assert Walk(h, Some(2), 3) == [2, 3, 4];
    assert Walk(h, Some(0), 4) == [0, 2, 3, 4];
  }

  lemma AfterRemoveOrder()
    ensures Order(AfterRemove()) == [0, 2, 3, 4]
  {
    var h := AfterRemove().heap;
    assert |h| == 5 by { assert h.Keys == {0, 1, 2, 3, 4}; }
    assert Walk(h, Some(4), 2) == [4];
    assert Walk(h, Some(3), 3) == [3, 4];
    assert Walk(h, Some(2), 4) == [2, 3, 4];
  }

  lemma AfterThirdOrder()
    ensures Order(AfterThird()) == [0, 2, 4]
  {
    var h := AfterThird().heap;
    assert |h| == 5 by { assert h.Keys == {0, 1, 2, 3, 4}; }
    assert Walk(h, Some(4), 3) == [4];
    assert Walk(h, Some(2), 4) == [2, 4];
  }

  lemma AfterFourthOrder()
    ensures Order(AfterFourth()) == [0, 2, 4, 3]
  {
    var h := AfterFourth().heap;
    assert |h| == 5 by { assert h.Keys == {0, 1, 2, 3, 4}; }
    assert Walk(h, Some(3), 2) == [3];
    assert Walk(h, Some(4), 3) == [4, 3];
    assert Walk(h, Some(2), 4) == [2, 4, 3];
  }

  lemma FirstMoveHeap()
    ensures MoveTodoUp(FiveTodos(), 1).0 == AfterFirstMove()
  {
    var l := FiveTodos();
    MoveUpWrites(l, 1);
    MoveUpCell(l, 1, 2);
    MoveUpCell(l, 1, 3);
    MoveUpCell(l, 1, 4);
    var h' := MoveTodoUp(l, 1).0.heap;
    assert h'.Keys == {0, 1, 2, 3, 4};
    assert h' == AfterFirstMove().heap;
  }

  lemma FirstMove()
    ensures Step(FiveTodos(), MoveUp(1), false) == AfterFirstMove()
  {
    FiveTodosValid();
    LookupOnPath(FiveTodos(), 1);
    FirstMoveHeap();
  }

  lemma RemoveHeap()
    ensures Unlink(AfterFirstMove(), 1).0 == AfterRemove()
  {
    var l := AfterFirstMove();
    AfterFirstMoveOrder();
    UnlinkWrites(l, 1);
    UnlinkCell(l, 1, 0);
    UnlinkCell(l, 1, 2);
    UnlinkCell(l, 1, 3);
    UnlinkCell(l, 1, 4);
    var h' := Unlink(l, 1).0.heap;
    assert h'.Keys == {0, 1, 2, 3, 4};
    assert h' == AfterRemove().heap;
  }

  lemma RemoveStep()
    ensures Step(AfterFirstMove(), Remove(1), false) == AfterRemove()
  {
    AfterFirstMoveOrder();
    LookupOnPath(AfterFirstMove(), 0);
    RemoveHeap();
  }

  lemma ThirdMoveHeap()
    ensures MoveTodoUp(AfterRemove(), 3).0 == AfterThird()
  {
    var l := AfterRemove();
    MoveUpWrites(l, 3);
    MoveUpCell(l, 3, 0);
    MoveUpCell(l, 3, 1);
    MoveUpCell(l, 3, 4);
    var h' := MoveTodoUp(l, 3).0.heap;
    assert h'.Keys == {0, 1, 2, 3, 4};
    assert h' == AfterThird().heap;
  }

  lemma ThirdMove()
    ensures Step(AfterRemove(), MoveUp(3), false) == AfterThird()
  {
    AfterRemoveOrder();
    LookupOnPath(AfterRemove(), 2);
    ThirdMoveHeap();
  }

  lemma FourthMoveHeap()
    ensures MoveTodoUp(AfterThird(), 4).0 == AfterFourth()
  {
    var l := AfterThird();
    MoveUpWrites(l, 4);
    MoveUpCell(l, 4, 0);
    MoveUpCell(l, 4, 1);
    MoveUpCell(l, 4, 2);
    var h' := MoveTodoUp(l, 4).0.heap;
    assert h'.Keys == {0, 1, 2, 3, 4};
    assert h' == AfterFourth().heap;
  }

  lemma FourthMove()
    ensures Step(AfterThird(), MoveUp(4), false) == AfterFourth()
  {
    AfterThirdOrder();
    LookupOnPath(AfterThird(), 2);
    FourthMoveHeap();
  }

  lemma FifthMoveHeap()
    ensures MoveTodoUp(AfterFourth(), 2).0 == Cyclic()
  {
    var l := AfterFourth();
    MoveUpWrites(l, 2);
    MoveUpCell(l, 2, 0);
    MoveUpCell(l, 2, 1);
    MoveUpCell(l, 2, 4);
    var h' := MoveTodoUp(l, 2).0.heap;
    assert h'.Keys == {0, 1, 2, 3, 4};
    assert h' == Cyclic().heap;
  }

  lemma FifthMove()
    ensures Step(AfterFourth(), MoveUp(2), false) == Cyclic()
  {
    AfterFourthOrder();
    LookupOnPath(AfterFourth(), 1);
    FifthMoveHeap();
  }

  /** From any of the cells 2, 3, 4 of the cyclic list, `n` steps along `Next` visit `n`
      todos: the walk never meets nil. */
  lemma {:induction false} CycleNeverEnds(c: Ptr, n: nat)
    requires c == 2 || c == 3 || c == 4
    ensures |Walk(Cyclic().heap, Some(c), n)| == n
    decreases n
  {
    if n > 0 {
      var h := Cyclic().heap;
      assert h[c].next == Some(if c == 2 then 3 else if c == 3 then 4 else 2);
      CycleNeverEnds(h[c].next.value, n - 1);
    }
  }

  // The as-written run, one suffix of the requests at a time.

  lemma LastRequest()
    ensures Apply(AfterFourth(), [MoveUp(2)], false) == Cyclic()
  {
    FifthMove();
    assert [MoveUp(2)][1..] == [];
  }

  lemma LastTwoRequests()
    ensures Apply(AfterThird(), [MoveUp(4), MoveUp(2)], false) == Cyclic()
  {
    FourthMove();
    LastRequest();
    assert [MoveUp(4), MoveUp(2)][1..] == [MoveUp(2)];
  }

  lemma LastThreeRequests()
    ensures Apply(AfterRemove(), [MoveUp(3), MoveUp(4), MoveUp(2)], false) == Cyclic()
  {
    ThirdMove();
    LastTwoRequests();
    assert [MoveUp(3), MoveUp(4), MoveUp(2)][1..] == [MoveUp(4), MoveUp(2)];
  }

  lemma LastFourRequests()
    ensures Apply(AfterFirstMove(), [Remove(1), MoveUp(3), MoveUp(4), MoveUp(2)], false) == Cyclic()
  {
    RemoveStep();
    LastThreeRequests();
    assert [Remove(1), MoveUp(3), MoveUp(4), MoveUp(2)][1..] == [MoveUp(3), MoveUp(4), MoveUp(2)];
  }

  /** The five requests, run with the as-written moves, end in the cyclic list. */
  lemma AsWrittenRequestsEndCyclic()
    ensures Apply(FiveTodos(), CycleRequests(), false) == Cyclic()
  {
    FirstMove();
    LastFourRequests();
    assert CycleRequests()[1..] == [Remove(1), MoveUp(3), MoveUp(4), MoveUp(2)];
  }

  /** The walk of the cyclic list visits todo 2 twice within five steps. */
  lemma CyclicOrder()
    ensures Order(Cyclic()) == [0, 2, 3, 4, 2] && !Acyclic(Cyclic())
  {
    var h := Cyclic().heap;
    assert |h| == 5 by { assert h.Keys == {0, 1, 2, 3, 4}; }
    assert Walk(h, Some(2), 1) == [2];
    assert Walk(h, Some(4), 2) == [4, 2];
    assert Walk(h, Some(3), 3) == [3, 4, 2];
    assert Walk(h, Some(2), 4) == [2, 3, 4, 2];
    var o := Order(Cyclic());
    assert o[1] == o[4];
  }

  /** The walk of the cyclic list from `Start` never meets nil, so GetTodos loops for ever. */
  lemma CyclicWalkEndless()
    ensures forall n: nat :: |Walk(Cyclic().heap, Cyclic().start, n)| == n
  {
    var c := Cyclic();
    forall n: nat
      ensures |Walk(c.heap, c.start, n)| == n
    {
      if n > 0 { CycleNeverEnds(2, n - 1); }
    }
  }

  /** From any of the cells 2, 3, 4 of the cyclic list, every step along `Next` stays
      among those three cells. */
  lemma {:induction false} CycleStaysOnCycle(c: Ptr, n: nat)
    requires c == 2 || c == 3 || c == 4
    ensures var w := Walk(Cyclic().heap, Some(c), n);
      forall i :: 0 <= i < |w| ==> w[i] == 2 || w[i] == 3 || w[i] == 4
    decreases n
  {
    if n > 0 {
      var h := Cyclic().heap;
      var c' := if c == 2 then 3 else if c == 3 then 4 else 2;
      assert h[c].next == Some(c');
      CycleStaysOnCycle(c', n - 1);
      var w := Walk(h, Some(c), n);
      assert w == [c] + Walk(h, Some(c'), n - 1);
    }
  }

  /** Todo 1 is off the walk of the cyclic list, however far it goes, so the GetTodoById
      loop for id 1 never returns; the bounded `Lookup` reports it missing. */
  lemma CyclicLookupMisses()
    ensures forall n: nat, i :: 0 <= i < |Walk(Cyclic().heap, Cyclic().start, n)| ==>
      Cyclic().heap[Walk(Cyclic().heap, Cyclic().start, n)[i]].id != 1
    ensures Lookup(Cyclic(), 1).None?
  {
    var l := Cyclic();
    forall n: nat, i | 0 <= i < |Walk(l.heap, l.start, n)|
      ensures l.heap[Walk(l.heap, l.start, n)[i]].id != 1
    {
      var w := Walk(l.heap, l.start, n);
      assert w == [0] + Walk(l.heap, Some(2), n - 1);
      if i > 0 {
        CycleStaysOnCycle(2, n - 1);
        assert w[i] == Walk(l.heap, Some(2), n - 1)[i - 1];
      }
    }
    CyclicOrder();
    assert l.heap[1].id == 1;
  }

  /** The same requests with the corrected moves keep the list valid. */
  lemma SameRequestsFixed()
    ensures Valid(Apply(FiveTodos(), CycleRequests(), true))
  {
    FiveTodosValid();
    FixedRequestsKeepValid(FiveTodos(), CycleRequests());
  }

  /** As written, the five requests turn a valid list into one whose walk from `Start`
      never ends: GetTodos loops for ever, and so does GetTodoById for an id off the walk.
      The corrected moves keep the same requests' result valid. */
  lemma StaleLinksMakeCycle()
    ensures Valid(FiveTodos())
    ensures Apply(FiveTodos(), CycleRequests(), false) == Cyclic()
    ensures forall n: nat :: |Walk(Cyclic().heap, Cyclic().start, n)| == n
    ensures !Acyclic(Cyclic()) && Lookup(Cyclic(), 1).None?
    ensures forall n: nat, i :: 0 <= i < |Walk(Cyclic().heap, Cyclic().start, n)| ==>
      Cyclic().heap[Walk(Cyclic().heap, Cyclic().start, n)[i]].id != 1
    ensures Valid(Apply(FiveTodos(), CycleRequests(), true))
  {
    FiveTodosValid();
    AsWrittenRequestsEndCyclic();
    CyclicWalkEndless();
    CyclicOrder();
    CyclicLookupMisses();
    SameRequestsFixed();
  }
}
