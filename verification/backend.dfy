/** The store calls the handlers of todo/backend/backend.go chain together: create then
    add (PostTodo), update then move (PutTodo), and the token a new list hands out meeting
    the check every request goes through. */
module Backend {
  import opened Wrappers
  import opened GoInt
  import opened Todos
  import opened TodoLists
  import opened ChainProofs
  import opened FixedMoves
  import ListRegistry
  import RequestHelpers

  /** Every todo in the chain has an id below `index`. */
  ghost predicate IdsBelow(l: TodoList, index: int)
    requires Acyclic(l)
  {
    forall i :: 0 <= i < |Order(l)| ==> l.heap[Order(l)[i]].id < index
  }

  /** PostTodo's store calls (lines 102-111): decode the body with the id counter, then
      put the todo at the head of the list. `cell` is the fresh cell for the todo. */
  function PostTodo(l: TodoList, index: int, body: Option<Payload>, cell: Ptr): (r: (TodoList, int, Result<Todo, DecodeError>))
    requires InRange(index) && cell !in l.heap
    ensures body.None? ==> r == (l, index, Failure(DecodeError))
    ensures body.Some? ==> r.1 == Inc(index) && r.2.Success? && r.2.value.id == index
    ensures body.Some? ==>
      && SameContent(r.2.value, body.value) && r.0.start == Some(cell)
      && cell in r.0.heap && r.2.value == r.0.heap[cell]
  {
    var (index', res) := NewTodoFromJson(index, body);
    if res.Failure? then (l, index', Failure(DecodeError))
    else
      var (l', added) := AddTodo(l, res.value, cell);
      (l', index', Success(added))
  }

  /** While the counter does not wrap, ids stay unique: if every id in the list is below
      the counter, a posted todo gets a fresh id, goes first, and the list stays valid
      with every id below the new counter. */
  lemma PostTodoFreshId(l: TodoList, index: int, body: Option<Payload>, cell: Ptr)
    requires Valid(l) && InRange(index) && index < MAX_INT && cell !in l.heap
    requires IdsBelow(l, index) && UniqueIds(l)
    requires body.Some?
    ensures var (l', index', r) := PostTodo(l, index, body, cell);
      && Valid(l') && Order(l') == [cell] + Order(l)
      && index' == index + 1
      && IdsBelow(l', index') && UniqueIds(l')
      && r == Success(l'.heap[cell])
  {
    var o := Order(l);
    var t := NewTodoFromJson(index, body).1.value;
    AddTodoPrepends(l, t, cell);
    var (l', index', r) := PostTodo(l, index, body, cell);
    var o' := Order(l');
    assert l'.heap[cell].id == index;
    forall i | 0 <= i < |o'|
      ensures l'.heap[o'[i]].id <= index
      ensures i > 0 ==> l'.heap[o'[i]].id == l.heap[o[i - 1]].id < index
    {
      if i > 0 {
        assert o'[i] == o[i - 1];
        assert TodoFields(l'.heap[o[i - 1]]) == TodoFields(l.heap[o[i - 1]]);
      }
    }
    forall i, j | 0 <= i < j < |o'|
      ensures l'.heap[o'[i]].id != l'.heap[o'[j]].id
    {
      if i > 0 {
        assert l'.heap[o'[i]].id == l.heap[o[i - 1]].id && l'.heap[o'[j]].id == l.heap[o[j - 1]].id;
      }
    }
  }

  /** Equal ids along the same order give the same first match. */
  lemma FirstWithIdSameIds(h1: Heap, h2: Heap, o: seq<Ptr>, id: int)
    requires forall i :: 0 <= i < |o| ==> o[i] in h1 && o[i] in h2
    requires forall i :: 0 <= i < |o| ==> h1[o[i]].id == h2[o[i]].id
    ensures FirstWithId(h1, o, id) == FirstWithId(h2, o, id)
  {
    var a := FirstWithId(h1, o, id);
    if a.Some? {
      assert h2[o[a.value]].id == id;
    }
  }

  /** PutTodo's store calls (lines 143-152): update the todo, then move it if the body
      asked for a move. An update that finds nothing ends the request with its error;
      the move is the corrected one. */
  function UpdateThenMove(l: TodoList, updated: Todo, change: Option<ChangeOrder>): (r: (TodoList, Result<Todo, ListError>))
    ensures Lookup(l, updated.id).None? ==> r == (l, Failure(NotFound))
  {
    var (l1, res) := UpdateTodo(l, updated);
    if res.Failure? then (l, res)
    else match change
      case None => (l1, res)
      case Some(c) => MoveTodoFixed(l1, res.value.id, c.moveUp)
  }

  /** On a valid list, update-then-move keeps the list valid; the order is unchanged
      without a move and has the todo moved one place with one. */
  lemma UpdateThenMoveKeepsValid(l: TodoList, updated: Todo, change: Option<ChangeOrder>)
    requires Valid(l)
    ensures var (l', r) := UpdateThenMove(l, updated, change);
      match IndexOf(l, updated.id)
      case None => l' == l && r == Failure(NotFound)
      case Some(k) =>
        && Valid(l')
        && Order(l') == (if change.None? then Order(l) else Moved(Order(l), k, change.value.moveUp))
        && r.Success? && TodoFields(r.value) == TodoFields(updated.(list := Some(l.id)))
  {
    if IndexOf(l, updated.id).Some? {
      var o, k := Order(l), IndexOf(l, updated.id).value;
      var p := o[k];
      UpdateTodoKeepsOrder(l, updated);
      var (l1, res) := UpdateTodo(l, updated);
      assert res == Success(l1.heap[p]) && l1.heap[p].id == updated.id;
      assert l.heap[o[k]].list == Some(l.id);
      assert TodoFields(l1.heap[p]) == TodoFields(updated.(list := Some(l.id)));
      forall i | 0 <= i < |o|
        ensures l1.heap[o[i]].id == l.heap[o[i]].id
      {
        if o[i] != p { assert l1.heap[o[i]] == l.heap[o[i]]; }
      }
      FirstWithIdSameIds(l1.heap, l.heap, o, updated.id);
      assert IndexOf(l1, updated.id) == Some(k);
      if change.Some? {
        MoveTodoFixedMoves(l1, updated.id, change.value.moveUp);
      }
    }
  }

  /** A token NewTodoList hands out, sent as "Bearer <token>", passes the format check
      of GetTokenFromRequest, which gives the token back. */
  lemma NewListTokenAccepted(store: ListRegistry.Registry, bytes: seq<ListRegistry.Byte>)
    requires |bytes| == 16
    ensures var token := ListRegistry.NewTodoList(store, Some(bytes)).1;
      RequestHelpers.GetTokenFromRequest(RequestHelpers.Bearer + token) == (token, None)
  {
    var token := ListRegistry.NewTodoList(store, Some(bytes)).1;
    forall c | c in token
      ensures c != 'B'
    {
      var i :| 0 <= i < |token| && token[i] == c;
      assert ListRegistry.IsHexDigit(token[i]);
    }
    RequestHelpers.NoBearerInside(token);
    RequestHelpers.NoBearerInside("");
    RequestHelpers.BearerTokenAccepted("", token);
    assert "" + RequestHelpers.Bearer + token == RequestHelpers.Bearer + token;
  }
}
