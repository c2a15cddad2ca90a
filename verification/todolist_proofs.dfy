/** What the chain operations of todo/stores/todoList.go do to the order of a list. */
module ChainProofs {
  import opened Wrappers
  import opened Todos
  import opened TodoLists

  /** `o` with positions `i` and `i + 1` exchanged. */
  function Swap(o: seq<Ptr>, i: nat): (r: seq<Ptr>)
    requires i + 1 < |o|
    ensures |r| == |o| && r[i] == o[i + 1] && r[i + 1] == o[i]
    ensures forall j :: 0 <= j < |o| && j != i && j != i + 1 ==> r[j] == o[j]
  {
    o[i := o[i + 1]][i + 1 := o[i]]
  }

  /** `o` without position `i`. */
  function Without(o: seq<Ptr>, i: nat): (r: seq<Ptr>)
    requires i < |o|
    ensures |r| == |o| - 1
    ensures forall j :: 0 <= j < i ==> r[j] == o[j]
    ensures forall j :: i <= j < |r| ==> r[j] == o[j + 1]
  {
    o[..i] + o[i + 1..]
  }

  // ---------------------------------------------------------------------------
  // The walk recovers any chain

  lemma {:induction false} DistinctBound(o: seq<Ptr>, cells: set<Ptr>)
    requires Distinct(o) && forall i :: 0 <= i < |o| ==> o[i] in cells
    ensures |o| <= |cells|
  {
    if |o| > 0 {
      var rest := cells - {o[0]};
      forall i | 0 <= i < |o[1..]|
        ensures o[1..][i] in rest
      {
        assert o[1..][i] == o[i + 1] && o[i + 1] != o[0];
      }
      DistinctBound(o[1..], rest);
    }
  }

  lemma {:induction false} WalkFollowsChain(h: Heap, start: Option<Ptr>, o: seq<Ptr>, fuel: nat)
    requires Chained(h, start, o) && |o| <= fuel
    ensures Walk(h, start, fuel) == o
    decreases |o|
  {
    if |o| > 0 {
      var rest := o[1..];
      assert h[o[0]].next == NextOf(o, 0);
      forall i | 0 <= i < |rest|
        ensures h[rest[i]].next == NextOf(rest, i)
      {
        assert rest[i] == o[i + 1] && h[o[i + 1]].next == NextOf(o, i + 1);
      }
      assert Chained(h, h[o[0]].next, rest);
      WalkFollowsChain(h, h[o[0]].next, rest, fuel - 1);
    }
  }

  /** Any forward chain from `Start` is the list's order. */
  lemma OrderIs(l: TodoList, o: seq<Ptr>)
    requires Chained(l.heap, l.start, o)
    ensures Order(l) == o
  {
    DistinctBound(o, l.heap.Keys);
    WalkFollowsChain(l.heap, l.start, o, |l.heap|);
  }

  /** An empty list has no todos. */
  lemma EmptyListEmptyOrder(l: TodoList)
    requires l.start.None?
    ensures Order(l) == [] && Valid(l)
  {
  }

  /** In a valid list the head is exactly the todo without `prev` and the tail exactly
      the todo without `next`. */
  lemma {:induction false} BoundaryLinks(l: TodoList, k: nat)
    requires Valid(l) && k < |Order(l)|
    ensures l.heap[Order(l)[k]].prev.None? <==> k == 0
    ensures l.heap[Order(l)[k]].next.None? <==> k + 1 == |Order(l)|
  {
    var o := Order(l);
    assert l.heap[o[k]].prev == PrevOf(o, k);
    assert l.heap[o[k]].next == NextOf(o, k);
  }

  // ---------------------------------------------------------------------------
  // AddTodo

  /** AddTodo puts the new todo first and keeps the list valid; the new todo has this
      list and no `prev`, and the old head points back to it. */
  lemma AddTodoPrepends(l: TodoList, newTodo: Todo, cell: Ptr)
    requires Valid(l) && cell !in l.heap
    requires l.start.None? ==> newTodo.prev.None? && newTodo.next.None?
    ensures var (l', added) := AddTodo(l, newTodo, cell);
      && Order(l') == [cell] + Order(l)
      && Valid(l')
      && added.list == Some(l.id) && added.prev.None?
      && (|Order(l)| > 0 ==> l'.heap[Order(l)[0]].prev == Some(cell))
      && forall i :: 0 <= i < |Order(l)| ==> TodoFields(l'.heap[Order(l)[i]]) == TodoFields(l.heap[Order(l)[i]])
  {
    var o := Order(l);
    var l' := AddTodo(l, newTodo, cell).0;
    AddTodoChain(l, newTodo, cell);
    if |o| > 0 {
      AddTodoCell(l, newTodo, cell, o[0]);
    }
    forall i | 0 <= i < |o|
      ensures TodoFields(l'.heap[o[i]]) == TodoFields(l.heap[o[i]])
    {
      AddTodoCell(l, newTodo, cell, o[i]);
    }
  }

  /** The chain part of AddTodoPrepends. */
  lemma AddTodoChain(l: TodoList, newTodo: Todo, cell: Ptr)
    requires Valid(l) && cell !in l.heap
    requires l.start.None? ==> newTodo.prev.None? && newTodo.next.None?
    ensures Order(AddTodo(l, newTodo, cell).0) == [cell] + Order(l)
    ensures Valid(AddTodo(l, newTodo, cell).0)
  {
    var o := Order(l);
    var l' := AddTodo(l, newTodo, cell).0;
    var o' := [cell] + o;
    forall i, j | 0 <= i < j < |o'|
      ensures o'[i] != o'[j]
    {
      if i > 0 { assert o'[i] == o[i - 1] && o'[j] == o[j - 1]; }
    }
    forall i | 0 <= i < |o'|
      ensures o'[i] in l'.heap && l'.heap[o'[i]].next == NextOf(o', i) && l'.heap[o'[i]].prev == PrevOf(o', i)
      ensures l'.heap[o'[i]].list == Some(l.id)
    {
      AddTodoAt(l, newTodo, cell, i);
    }
    ValidByChain(l', o');
  }

  /** A chain from `Start` whose back links and owner are right makes a valid list. */
  lemma ValidByChain(l: TodoList, o: seq<Ptr>)
    requires Distinct(o)
    requires l.start == (if |o| == 0 then None else Some(o[0]))
    requires forall i :: 0 <= i < |o| ==> o[i] in l.heap && l.heap[o[i]].next == NextOf(o, i)
    requires forall i :: 0 <= i < |o| ==> o[i] in l.heap && l.heap[o[i]].prev == PrevOf(o, i)
    requires forall i :: 0 <= i < |o| ==> o[i] in l.heap && l.heap[o[i]].list == Some(l.id)
    ensures Order(l) == o && Valid(l)
  {
    assert Chained(l.heap, l.start, o);
    OrderIs(l, o);
  }

  /** What AddTodo writes into an old cell: only the old head's `prev` changes. */
  lemma AddTodoCell(l: TodoList, newTodo: Todo, cell: Ptr, c: Ptr)
    requires cell !in l.heap && c in l.heap
    ensures AddTodo(l, newTodo, cell).0.heap[c]
         == if l.start == Some(c) then l.heap[c].(prev := Some(cell)) else l.heap[c]
  {
  }

  /** The links of the cell at position `i` of `[cell] + Order(l)` after AddTodo. */
  lemma AddTodoAt(l: TodoList, newTodo: Todo, cell: Ptr, i: nat)
    requires Valid(l) && cell !in l.heap && i <= |Order(l)|
    requires l.start.None? ==> newTodo.prev.None? && newTodo.next.None?
    ensures var o, h' := Order(l), AddTodo(l, newTodo, cell).0.heap;
      var o' := [cell] + o;
      && o'[i] in h' && h'[o'[i]].next == NextOf(o', i) && h'[o'[i]].prev == PrevOf(o', i)
      && h'[o'[i]].list == Some(l.id)
  {
    var o, h := Order(l), l.heap;
    var o' := [cell] + o;
    if i > 0 {
      var c := o[i - 1];
      assert o'[i] == c;
      AddTodoCell(l, newTodo, cell, c);
      assert h[c].next == NextOf(o, i - 1) && h[c].prev == PrevOf(o, i - 1) && h[c].list == Some(l.id);
      assert l.start == Some(c) <==> i == 1;
      if i < |o| { assert o'[i + 1] == o[i]; }
    } else if |o| > 0 {
      assert o'[1] == o[0];
    }
  }

  /** The client-visible fields of a todo (everything but the links). */
  function TodoFields(t: Todo): (int, string, string, bool, seq<string>, Option<string>) {
    (t.id, t.name, t.text, t.done, t.category, t.list)
  }

  // ---------------------------------------------------------------------------
  // UpdateTodo

  /** A successful UpdateTodo replaces the content of the todo found and nothing else:
      the order, every other todo and the validity of the list are unchanged. */
  lemma UpdateTodoKeepsOrder(l: TodoList, updated: Todo)
    requires Valid(l) && Lookup(l, updated.id).Some?
    ensures var (l', r) := UpdateTodo(l, updated);
      var p := Lookup(l, updated.id).value;
      && Order(l') == Order(l)
      && Valid(l')
      && r == Success(l'.heap[p])
      && l'.heap[p] == updated.(list := l.heap[p].list, prev := l.heap[p].prev, next := l.heap[p].next)
      && forall q :: q in l.heap && q != p ==> l'.heap[q] == l.heap[q]
  {
    var o := Order(l);
    var (l', r) := UpdateTodo(l, updated);
    var p := Lookup(l, updated.id).value;
    forall i | 0 <= i < |o|
      ensures l'.heap[o[i]].next == l.heap[o[i]].next && l'.heap[o[i]].prev == l.heap[o[i]].prev
      ensures l'.heap[o[i]].list == l.heap[o[i]].list
    {
    }
    assert Chained(l'.heap, l'.start, o);
    OrderIs(l', o);
  }

  // ---------------------------------------------------------------------------
  // RemoveTodo

  /** The writes Unlink makes to the list and to the removed todo. */
  lemma UnlinkWrites(l: TodoList, p: Ptr)
    requires p in l.heap
    ensures var (l', r) := Unlink(l, p);
      var x := l.heap[p];
      && l'.start == (if x.prev.Some? then l.start else x.next)
      && r == Success(l'.heap[p])
      && l'.heap[p] == x.(prev := None, next := None)
  {
  }

  /** The writes Unlink makes to any other todo: only the neighbours' links change. */
  lemma UnlinkCell(l: TodoList, p: Ptr, c: Ptr)
    requires p in l.heap && c in l.heap && c != p
    ensures var h, h' := l.heap, Unlink(l, p).0.heap;
      var x := h[p];
      && TodoFields(h'[c]) == TodoFields(h[c])
      && h'[c].next == (if x.prev == Some(c) then x.next else h[c].next)
      && h'[c].prev == (if x.next == Some(c) then x.prev else h[c].prev)
  {
    var x, h0 := l.heap[p], l.heap;
    var h1 := if x.next.Some? then SetPrev(h0, x.next.value, x.prev) else h0;
    var h2 := if x.prev.Some? then SetNext(h1, x.prev.value, x.next) else h1;
    var h3 := SetNext(SetPrev(h2, p, None), p, None);
    assert Unlink(l, p).0.heap == h3;
    assert h3[c] == h2[c];
    if x.next == Some(c) { assert h1[c] == h0[c].(prev := x.prev); } else { assert h1[c] == h0[c]; }
    if x.prev == Some(c) { assert h2[c] == h1[c].(next := x.next); } else { assert h2[c] == h1[c]; }
  }

  /** Unlinking the todo at position `k` of a valid list leaves the chain without it. */
  lemma UnlinkChain(l: TodoList, k: nat)
    requires Valid(l) && k < |Order(l)|
    ensures var l' := Unlink(l, Order(l)[k]).0;
      && Order(l') == Without(Order(l), k)
      && Valid(l')
      && l'.start == (if k == 0 then NextOf(Order(l), 0) else l.start)
  {
    var o := Order(l);
    var l' := Unlink(l, o[k]).0;
    var o' := Without(o, k);
    UnlinkStart(l, k);
    WithoutDistinct(o, k);
    UnlinkLinksAll(l, k);
    assert o' == [] || o'[0] == (if k == 0 then o[1] else o[0]);
    assert Chained(l'.heap, l'.start, o');
    OrderIs(l', o');
  }

  lemma UnlinkStart(l: TodoList, k: nat)
    requires Valid(l) && k < |Order(l)|
    ensures Unlink(l, Order(l)[k]).0.start == (if k == 0 then NextOf(Order(l), 0) else l.start)
  {
    var o := Order(l);
    UnlinkWrites(l, o[k]);
    assert l.heap[o[k]].prev == PrevOf(o, k) && l.heap[o[k]].next == NextOf(o, k);
  }

  lemma UnlinkLinksAll(l: TodoList, k: nat)
    requires Valid(l) && k < |Order(l)|
    ensures var h', o' := Unlink(l, Order(l)[k]).0.heap, Without(Order(l), k);
      && (forall i :: 0 <= i < |o'| ==> o'[i] in h')
      && BackLinked(h', o') && Owned(h', o', l.id)
      && forall i :: 0 <= i < |o'| ==> h'[o'[i]].next == NextOf(o', i)
  {
    var o := Order(l);
    var h' := Unlink(l, o[k]).0.heap;
    var o' := Without(o, k);
    forall i | 0 <= i < |o'|
      ensures o'[i] in h' && h'[o'[i]].next == NextOf(o', i) && h'[o'[i]].prev == PrevOf(o', i)
      ensures h'[o'[i]].list == Some(l.id)
    {
      var i0 := if i < k then i else i + 1;
      UnlinkKeepsOther(l, k, i0);
    }
  }

  lemma WithoutDistinct(o: seq<Ptr>, k: nat)
    requires Distinct(o) && k < |o|
    ensures Distinct(Without(o, k))
  {
    var o' := Without(o, k);
    forall i, j | 0 <= i < j < |o'|
      ensures o'[i] != o'[j]
    {
      var i0 := if i < k then i else i + 1;
      var j0 := if j < k then j else j + 1;
      assert o'[i] == o[i0] && o'[j] == o[j0] && i0 < j0;
    }
  }

  lemma UnlinkKeepsOther(l: TodoList, k: nat, i0: nat)
    requires Valid(l) && k < |Order(l)| && i0 < |Order(l)| && i0 != k
    ensures var o, l' := Order(l), Unlink(l, Order(l)[k]).0;
      var o' := Without(o, k);
      var i := if i0 < k then i0 else i0 - 1;
      && l'.heap[o[i0]].next == NextOf(o', i)
      && l'.heap[o[i0]].prev == PrevOf(o', i)
      && l'.heap[o[i0]].list == Some(l.id)
  {
    var o := Order(l);
    UnlinkFrame(l, k, i0);
    UnlinkNextLink(l, k, i0);
    UnlinkPrevLink(l, k, i0);
    assert l.heap[o[i0]].list == Some(l.id);
  }

  /** What Unlink does to the cell at position `i0`, in terms of the old chain. */
  lemma UnlinkFrame(l: TodoList, k: nat, i0: nat)
    requires Valid(l) && k < |Order(l)| && i0 < |Order(l)| && i0 != k
    ensures var o, h' := Order(l), Unlink(l, Order(l)[k]).0.heap;
      && h'[o[i0]].next == (if i0 == k - 1 then NextOf(o, k) else NextOf(o, i0))
      && h'[o[i0]].prev == (if i0 == k + 1 then PrevOf(o, k) else PrevOf(o, i0))
      && h'[o[i0]].list == l.heap[o[i0]].list
      && h'[o[i0]].id == l.heap[o[i0]].id
  {
    var o := Order(l);
    var p, q := o[k], o[i0];
    var h, h' := l.heap, Unlink(l, p).0.heap;
    var x := h[p];
    assert q != p;
    assert h'[q].next == (if x.prev == Some(q) then x.next else h[q].next)
        && h'[q].prev == (if x.next == Some(q) then x.prev else h[q].prev)
        && TodoFields(h'[q]) == TodoFields(h[q]) by {
      UnlinkCell(l, p, q);
    }
    assert x.prev == PrevOf(o, k) && x.next == NextOf(o, k);
    assert h[q].next == NextOf(o, i0) && h[q].prev == PrevOf(o, i0);
    assert x.prev == Some(q) <==> i0 == k - 1;
    assert x.next == Some(q) <==> i0 == k + 1;
  }

  lemma UnlinkNextLink(l: TodoList, k: nat, i0: nat)
    requires k < |Order(l)| && i0 < |Order(l)| && i0 != k
    ensures var o := Order(l);
      var i := if i0 < k then i0 else i0 - 1;
      (if i0 == k - 1 then NextOf(o, k) else NextOf(o, i0)) == NextOf(Without(o, k), i)
  {
  }

  lemma UnlinkPrevLink(l: TodoList, k: nat, i0: nat)
    requires k < |Order(l)| && i0 < |Order(l)| && i0 != k
    ensures var o := Order(l);
      var i := if i0 < k then i0 else i0 - 1;
      (if i0 == k + 1 then PrevOf(o, k) else PrevOf(o, i0)) == PrevOf(Without(o, k), i)
  {
    var o := Order(l);
    var o' := Without(o, k);
    var i := if i0 < k then i0 else i0 - 1;
    if i0 < k {
      if 0 < i0 { assert o'[i - 1] == o[i0 - 1]; }
    } else if i0 == k + 1 {
      if 0 < k { assert o'[k - 1] == o[k - 1]; }
    } else {
      assert o'[i - 1] == o[i0 - 1];
    }
  }

  /** On a valid list RemoveTodo drops exactly the todo found: the rest keep their
      order, `Start` moves on when the head goes, the removed todo comes back with
      cleared links, and the list stays valid. */
  lemma RemoveTodoUnlinks(l: TodoList, todoId: int)
    requires Valid(l) && IndexOf(l, todoId).Some?
    ensures var o, k := Order(l), IndexOf(l, todoId).value;
      var (l', r) := RemoveTodo(l, todoId);
      && Order(l') == Without(o, k)
      && Valid(l')
      && l'.start == (if k == 0 then NextOf(o, 0) else l.start)
      && r == Success(l.heap[o[k]].(prev := None, next := None))
  {
    var o, k := Order(l), IndexOf(l, todoId).value;
    assert Lookup(l, todoId) == Some(o[k]);
    assert RemoveTodo(l, todoId) == Unlink(l, o[k]);
    UnlinkWrites(l, o[k]);
    UnlinkChain(l, k);
  }

  /** When ids are unique, a removed todo can no longer be found, and the list is one
      todo shorter. */
  lemma RemovedTodoNotFound(l: TodoList, todoId: int)
    requires Valid(l) && IndexOf(l, todoId).Some?
    requires UniqueIds(l)
    ensures Lookup(RemoveTodo(l, todoId).0, todoId).None?
    ensures |Order(RemoveTodo(l, todoId).0)| == |Order(l)| - 1
  {
    var o, k := Order(l), IndexOf(l, todoId).value;
    RemoveTodoUnlinks(l, todoId);
    assert RemoveTodo(l, todoId) == Unlink(l, o[k]);
    var l' := RemoveTodo(l, todoId).0;
    var o' := Order(l');
    forall i | 0 <= i < |o'|
      ensures l'.heap[o'[i]].id != todoId
    {
      var i0 := if i < k then i else i + 1;
      UnlinkFrame(l, k, i0);
      assert o'[i] == o[i0] && i0 != k;
      assert l.heap[o[i0]].id != l.heap[o[k]].id;
    }
  }

  /** No two todos in the chain share an id. */
  ghost predicate UniqueIds(l: TodoList) {
    forall i, j :: 0 <= i < j < |Order(l)| ==> l.heap[Order(l)[i]].id != l.heap[Order(l)[j]].id
  }

  // ---------------------------------------------------------------------------
  // MoveTodoUp and MoveTodoDown

  /** The writes MoveTodoUp makes to the moved todo `p`, its predecessor `q` and the list,
      when `q` is live and `q`'s own predecessor (if any) is a third cell. */
  lemma MoveUpWrites(l: TodoList, p: Ptr)
    requires p in l.heap && l.heap[p].prev.Some?
    requires var q := l.heap[p].prev.value;
      q in l.heap && q != p && l.heap[q].prev != Some(p) && l.heap[q].prev != Some(q)
    ensures var (l', r) := MoveTodoUp(l, p);
      var h, h' := l.heap, l'.heap;
      var q := h[p].prev.value;
      var a := h[q].prev;
      && l'.start == (if a.None? then Some(p) else l.start)
      && r == Success(h'[p])
      && h'[p] == h[p].(next := Some(q), prev := a)
      && h'[q] == h[q].(next := h[p].next, prev := Some(p))
  {
    var h := l.heap;
    var q := h[p].prev.value;
    var a := h[q].prev;
    var h1 := if a.None? then h else SetNext(h, a.value, Some(p));
    assert h1[p] == h[p] && h1[q] == h[q];
  }

  /** ... and to any third cell: only the predecessor's predecessor changes. */
  lemma MoveUpCell(l: TodoList, p: Ptr, c: Ptr)
    requires p in l.heap && l.heap[p].prev.Some?
    requires var q := l.heap[p].prev.value;
      q in l.heap && q != p && l.heap[q].prev != Some(p) && l.heap[q].prev != Some(q)
    requires c in l.heap && c != p && c != l.heap[p].prev.value
    ensures var h, h' := l.heap, MoveTodoUp(l, p).0.heap;
      var a := h[h[p].prev.value].prev;
      h'[c] == if a == Some(c) then h[c].(next := Some(p)) else h[c]
  {
    var h := l.heap;
    var q := h[p].prev.value;
    var a := h[q].prev;
    var h1 := if a.None? then h else SetNext(h, a.value, Some(p));
    var h2 := SetNext(SetNext(h1, q, h1[p].next), p, Some(q));
    var h3 := SetPrev(SetPrev(h2, p, h2[q].prev), q, Some(p));
    assert MoveTodoUp(l, p).0.heap == h3;
    assert h3[c] == h2[c] && h2[c] == h1[c];
  }

  /** The writes MoveTodoDown makes to the moved todo `p`, its successor `n` and the
      list, when `n` is live and `p`'s predecessor (if any) is a third cell. */
  lemma MoveDownWrites(l: TodoList, p: Ptr)
    requires p in l.heap && l.heap[p].next.Some?
    requires var n := l.heap[p].next.value;
      n in l.heap && n != p && l.heap[p].prev != Some(p) && l.heap[p].prev != Some(n)
    ensures var (l', r) := MoveTodoDown(l, p);
      var h, h' := l.heap, l'.heap;
      var n := h[p].next.value;
      var a := h[p].prev;
      && l'.start == (if a.None? then Some(n) else l.start)
      && r == Success(h'[p])
      && h'[p] == h[p].(next := h[n].next, prev := Some(n))
      && h'[n] == h[n].(next := Some(p), prev := a)
  {
    var h := l.heap;
    var n := h[p].next.value;
    var a := h[p].prev;
    var h1 := if a.None? then h else SetNext(h, a.value, Some(n));
    assert h1[p] == h[p] && h1[n] == h[n];
  }

  /** ... and to any third cell: only the moved todo's predecessor changes. */
  lemma MoveDownCell(l: TodoList, p: Ptr, c: Ptr)
    requires p in l.heap && l.heap[p].next.Some?
    requires var n := l.heap[p].next.value;
      n in l.heap && n != p && l.heap[p].prev != Some(p) && l.heap[p].prev != Some(n)
    requires c in l.heap && c != p && c != l.heap[p].next.value
    ensures var h, h' := l.heap, MoveTodoDown(l, p).0.heap;
      h'[c] == if h[p].prev == Some(c) then h[c].(next := Some(h[p].next.value)) else h[c]
  {
    var h := l.heap;
    var n := h[p].next.value;
    var a := h[p].prev;
    var h1 := if a.None? then h else SetNext(h, a.value, Some(n));
    var h2 := SetNext(SetNext(h1, p, h1[n].next), n, Some(p));
    var h3 := SetPrev(SetPrev(h2, p, Some(n)), n, h2[p].prev);
    assert MoveTodoDown(l, p).0.heap == h3;
    assert h3[c] == h2[c] && h2[c] == h1[c];
  }

  /** MoveTodoDown relinks the heap exactly as MoveTodoUp of the successor does: the two
      Go functions differ only in which of the two todos they return. */
  lemma {:induction false} MoveDownIsMoveUpOfNext(l: TodoList, k: nat)
    requires Valid(l) && k + 1 < |Order(l)|
    ensures var o := Order(l);
      && MoveTodoDown(l, o[k]).0 == MoveTodoUp(l, o[k + 1]).0
      && MoveTodoDown(l, o[k]).1 == Success(MoveTodoUp(l, o[k + 1]).0.heap[o[k]])
  {
    var o := Order(l);
    var h := l.heap;
    var p, n := o[k], o[k + 1];
    assert h[p].next == Some(n) && h[n].prev == Some(p) && h[p].prev == PrevOf(o, k);
    assert h[p].prev != Some(p) && h[p].prev != Some(n) by {
      if k > 0 { assert o[k - 1] != p && o[k - 1] != n; }
    }
    SwapSameHeap(l, p, n);
  }

  lemma SwapSameHeap(l: TodoList, p: Ptr, n: Ptr)
    requires p in l.heap && n in l.heap && p != n
    requires l.heap[p].next == Some(n) && l.heap[n].prev == Some(p)
    requires l.heap[p].prev != Some(p) && l.heap[p].prev != Some(n)
    ensures MoveTodoDown(l, p).0 == MoveTodoUp(l, n).0
    ensures MoveTodoDown(l, p).1 == Success(MoveTodoUp(l, n).0.heap[p])
  {
    MoveUpWrites(l, n);
    MoveDownWrites(l, p);
    var d, u := MoveTodoDown(l, p).0.heap, MoveTodoUp(l, n).0.heap;
    assert d.Keys == u.Keys;
    forall c | c in d
      ensures d[c] == u[c]
    {
      if c != p && c != n {
        MoveUpCell(l, n, c);
        MoveDownCell(l, p, c);
      }
    }
    assert d == u;
  }

  /** What MoveTodoUp does to the cell at position `i0` when it moves the todo at
      position `k > 0` of a valid list. */
  lemma MoveUpAt(l: TodoList, k: nat, i0: nat)
    requires Valid(l) && 0 < k < |Order(l)| && i0 < |Order(l)|
    ensures var o, h' := Order(l), MoveTodoUp(l, Order(l)[k]).0.heap;
      && h'[o[i0]].next == (if i0 == k - 2 then Some(o[k]) else if i0 == k - 1 then NextOf(o, k)
                            else if i0 == k then Some(o[k - 1]) else NextOf(o, i0))
      && h'[o[i0]].prev == (if i0 == k - 1 then Some(o[k]) else if i0 == k then PrevOf(o, k - 1)
                            else PrevOf(o, i0))
      && TodoFields(h'[o[i0]]) == TodoFields(l.heap[o[i0]])
  {
    var o, h := Order(l), l.heap;
    var p, q, c := o[k], o[k - 1], o[i0];
    var h' := MoveTodoUp(l, p).0.heap;
    assert h[p].prev == Some(q) && h[p].next == NextOf(o, k);
    assert h[q].prev == PrevOf(o, k - 1) && h[q].next == Some(p);
    assert h[c].prev == PrevOf(o, i0) && h[c].next == NextOf(o, i0);
    var a := h[q].prev;
    assert a != Some(p) && a != Some(q) && (a == Some(c) <==> i0 == k - 2) by {
      if k > 1 { assert o[k - 2] != p && o[k - 2] != q; }
    }
    assert c == p <==> i0 == k;
    assert c == q <==> i0 == k - 1;
    assert h'[c] == (if c == p then h[p].(next := Some(q), prev := a)
                     else if c == q then h[q].(next := h[p].next, prev := Some(p))
                     else if a == Some(c) then h[c].(next := Some(p)) else h[c]) by {
      MoveUpWrites(l, p);
      if c != p && c != q { MoveUpCell(l, p, c); }
    }
  }

  /** The links of the todo at position `j` of the swapped order, after MoveTodoUp. */
  lemma MoveUpLinks(l: TodoList, k: nat, j: nat)
    requires Valid(l) && 0 < k < |Order(l)| && j < |Order(l)|
    ensures var o, h' := Order(l), MoveTodoUp(l, Order(l)[k]).0.heap;
      var o' := Swap(o, k - 1);
      && o'[j] in h'
      && h'[o'[j]].next == NextOf(o', j)
      && h'[o'[j]].list == Some(l.id)
      && (j != k + 1 ==> h'[o'[j]].prev == PrevOf(o', j))
      && (j == k + 1 ==> h'[o'[j]].prev == Some(o[k]))
  {
    var o := Order(l);
    var o' := Swap(o, k - 1);
    var i0 := if j == k - 1 then k else if j == k then k - 1 else j;
    assert o'[j] == o[i0];
    MoveUpAt(l, k, i0);
    assert l.heap[o[i0]].list == Some(l.id);
    if j + 1 < |o| && j + 1 != k - 1 && j + 1 != k { assert o'[j + 1] == o[j + 1]; }
    if 0 < j && j - 1 != k - 1 && j - 1 != k { assert o'[j - 1] == o[j - 1]; }
  }

  lemma SwapDistinct(o: seq<Ptr>, i: nat)
    requires Distinct(o) && i + 1 < |o|
    ensures Distinct(Swap(o, i)) && multiset(Swap(o, i)) == multiset(o)
  {
    var o' := Swap(o, i);
    forall a, b | 0 <= a < b < |o'|
      ensures o'[a] != o'[b]
    {
      var a0 := if a == i then i + 1 else if a == i + 1 then i else a;
      var b0 := if b == i then i + 1 else if b == i + 1 then i else b;
      assert o'[a] == o[a0] && o'[b] == o[b0] && a0 != b0;
    }
    assert o' == o[..i] + [o[i + 1], o[i]] + o[i + 2..];
    assert o == o[..i] + [o[i], o[i + 1]] + o[i + 2..];
  }

  lemma MoveUpStart(l: TodoList, k: nat)
    requires Valid(l) && 0 < k < |Order(l)|
    ensures MoveTodoUp(l, Order(l)[k]).0.start == (if k == 1 then Some(Order(l)[k]) else l.start)
  {
    var o := Order(l);
    assert l.heap[o[k]].prev == Some(o[k - 1]);
    assert l.heap[o[k - 1]].prev == PrevOf(o, k - 1);
    if k > 1 { assert o[k - 2] != o[k] && o[k - 2] != o[k - 1]; }
    MoveUpWrites(l, o[k]);
  }

  /** The forward chain after MoveTodoUp of the todo at position `k > 0` is the swap. */
  lemma MoveUpOrder(l: TodoList, k: nat)
    requires Valid(l) && 0 < k < |Order(l)|
    ensures var o, l' := Order(l), MoveTodoUp(l, Order(l)[k]).0;
      var o' := Swap(o, k - 1);
      && Order(l') == o'
      && Chained(l'.heap, l'.start, o')
      && Owned(l'.heap, o', l.id)
      && forall j :: 0 <= j < |o'| && j != k + 1 ==> l'.heap[o'[j]].prev == PrevOf(o', j)
  {
    var o := Order(l);
    var l' := MoveTodoUp(l, o[k]).0;
    var o' := Swap(o, k - 1);
    MoveUpStart(l, k);
    MoveUpLinksAll(l, k);
    SwapDistinct(o, k - 1);
    assert o'[0] == (if k == 1 then o[k] else o[0]);
    assert Chained(l'.heap, l'.start, o');
    OrderIs(l', o');
  }

  lemma MoveUpLinksAll(l: TodoList, k: nat)
    requires Valid(l) && 0 < k < |Order(l)|
    ensures var o, h' := Order(l), MoveTodoUp(l, Order(l)[k]).0.heap;
      var o' := Swap(o, k - 1);
      && (forall j :: 0 <= j < |o'| ==> o'[j] in h')
      && (forall j :: 0 <= j < |o'| ==> h'[o'[j]].next == NextOf(o', j) && h'[o'[j]].list == Some(l.id))
      && (forall j :: 0 <= j < |o'| && j != k + 1 ==> h'[o'[j]].prev == PrevOf(o', j))
  {
    var o := Order(l);
    var h' := MoveTodoUp(l, o[k]).0.heap;
    var o' := Swap(o, k - 1);
    forall j | 0 <= j < |o'|
      ensures o'[j] in h' && h'[o'[j]].next == NextOf(o', j) && h'[o'[j]].list == Some(l.id)
      ensures j != k + 1 ==> h'[o'[j]].prev == PrevOf(o', j)
    {
      MoveUpLinks(l, k, j);
    }
  }

  /** MoveTodoUp as written, on a valid list, for the todo at position `k > 0`: the
      forward order is that of the swap, every other position and the multiset of todos
      are unchanged, and the moved todo keeps its content and list. */
  lemma MoveTodoUpSwaps(l: TodoList, k: nat)
    requires Valid(l) && 0 < k < |Order(l)|
    ensures var o, l' := Order(l), MoveTodoUp(l, Order(l)[k]).0;
      && Order(l') == Swap(o, k - 1)
      && multiset(Order(l')) == multiset(o)
      && Acyclic(l') && Owned(l'.heap, Order(l'), l.id)
      && MoveTodoUp(l, o[k]).1 == Success(l'.heap[o[k]])
      && TodoFields(l'.heap[o[k]]) == TodoFields(l.heap[o[k]])
  {
    var o := Order(l);
    MoveUpOrder(l, k);
    SwapDistinct(o, k - 1);
    MoveUpAt(l, k, k);
    assert l.heap[o[k]].prev == Some(o[k - 1]);
  }

  /** ... but it keeps the list valid only when the moved todo was the tail: otherwise
      the old successor's `prev` still names the moved todo instead of its new
      predecessor. */
  lemma MoveUpValidIff(l: TodoList, k: nat)
    requires Valid(l) && 0 < k < |Order(l)|
    ensures var o, l' := Order(l), MoveTodoUp(l, Order(l)[k]).0;
      && (Valid(l') <==> k + 1 == |o|)
      && (k + 1 < |o| ==> l'.heap[o[k + 1]].prev == Some(o[k]))
  {
    var o := Order(l);
    var l' := MoveTodoUp(l, o[k]).0;
    var o' := Swap(o, k - 1);
    MoveUpOrder(l, k);
    if k + 1 < |o| {
      MoveUpLinks(l, k, k + 1);
      assert o'[k + 1] == o[k + 1] && o'[k] == o[k - 1] && o[k] != o[k - 1];
      assert l'.heap[o'[k + 1]].prev != PrevOf(o', k + 1);
      assert !BackLinked(l'.heap, o');
    } else {
      assert BackLinked(l'.heap, o');
    }
  }

  /** MoveTodoDown as written, on a valid list, for the todo at position `k` that has a
      successor: the forward order is that of the swap, and the moved todo keeps its
      content and list. */
  lemma MoveTodoDownSwaps(l: TodoList, k: nat)
    requires Valid(l) && k + 1 < |Order(l)|
    ensures var o, l' := Order(l), MoveTodoDown(l, Order(l)[k]).0;
      && Order(l') == Swap(o, k)
      && multiset(Order(l')) == multiset(o)
      && Acyclic(l') && Owned(l'.heap, Order(l'), l.id)
      && MoveTodoDown(l, o[k]).1 == Success(l'.heap[o[k]])
      && TodoFields(l'.heap[o[k]]) == TodoFields(l.heap[o[k]])
  {
    MoveDownIsMoveUpOfNext(l, k);
    MoveTodoUpSwaps(l, k + 1);
    MoveUpAt(l, k + 1, k);
  }

  /** ... and it keeps the list valid only when the successor was the tail. */
  lemma MoveDownValidIff(l: TodoList, k: nat)
    requires Valid(l) && k + 1 < |Order(l)|
    ensures var o, l' := Order(l), MoveTodoDown(l, Order(l)[k]).0;
      && (Valid(l') <==> k + 2 == |o|)
      && (k + 2 < |o| ==> l'.heap[o[k + 2]].prev == Some(o[k + 1]))
  {
    var o := Order(l);
    MoveDownIsMoveUpOfNext(l, k);
    var l', lu := MoveTodoDown(l, o[k]).0, MoveTodoUp(l, o[k + 1]).0;
    assert l' == lu;
    MoveUpValidIff(l, k + 1);
    assert Valid(lu) <==> k + 2 == |o|;
  }

  /** Moving the head up or the tail down changes nothing. */
  lemma MoveAtEndIsNoOp(l: TodoList, todoId: int, moveUp: bool)
    requires Valid(l) && IndexOf(l, todoId).Some?
    requires var k := IndexOf(l, todoId).value;
      if moveUp then k == 0 else k + 1 == |Order(l)|
    ensures MoveTodo(l, todoId, moveUp).0 == l
  {
    var o, k := Order(l), IndexOf(l, todoId).value;
    assert Lookup(l, todoId) == Some(o[k]);
    BoundaryLinks(l, k);
  }
}
