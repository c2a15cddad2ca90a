/** The older slice-backed store of todo/stores/todoStore.go: one global slice of todos,
    each tagged with the id of the list it belongs to. */
module SliceStore {
  import opened Wrappers

  /** A todo of this store: the client fields plus `ListId`. */
  datatype StoredTodo = StoredTodo(
    id: int,
    name: string,
    text: string,
    done: bool,
    category: seq<string>,
    listId: string)

  /** The package-level `todoStore` slice. */
  type Store = seq<StoredTodo>

  datatype StoreError = NotFound | WrongList

  /** The todos of one list, in store order: the reference for GetTodos. */
  function InList(store: Store, listId: string): (r: Store)
    ensures |r| <= |store|
    ensures forall t :: t in r <==> t in store && t.listId == listId
  {
    if |store| == 0 then []
    else (if store[0].listId == listId then [store[0]] else []) + InList(store[1..], listId)
  }

  /** Selecting by list commutes with concatenation: InList keeps store order. */
  lemma {:induction false} InListAppend(a: Store, b: Store, listId: string)
    ensures InList(a + b, listId) == InList(a, listId) + InList(b, listId)
    decreases |a|
  {
    if |a| > 0 {
      assert (a + b)[1..] == a[1..] + b;
      InListAppend(a[1..], b, listId);
    } else {
      assert a + b == b;
    }
  }

  /** GetTodos: copies the todos with the list id, in store order. */
  method GetTodos(store: Store, listId: string) returns (todos: Store)
    ensures todos == InList(store, listId)
  {
    todos := [];
    for i := 0 to |store|
      invariant todos == InList(store[..i], listId)
    {
      InListAppend(store[..i], [store[i]], listId);
      assert store[..i + 1] == store[..i] + [store[i]];
      if store[i].listId == listId {
        todos := todos + [store[i]];
      }
    }
    assert store[..|store|] == store;
  }

  /** The index of the first todo with the id, whatever its list. */
  function FirstIndex(store: Store, id: int): (r: Option<nat>)
    ensures r.Some? ==> r.value < |store| && store[r.value].id == id
    ensures r.Some? ==> forall j :: 0 <= j < r.value ==> store[j].id != id
    ensures r.None? ==> forall j :: 0 <= j < |store| ==> store[j].id != id
  {
    if |store| == 0 then None
    else if store[0].id == id then Some(0)
    else match FirstIndex(store[1..], id)
      case None => None
      case Some(i) => Some(i + 1)
  }

  /** GetTodoById: looks only at the first todo with the id; a todo of another list
      hides any later one with the same id. */
  function GetTodoById(store: Store, id: int, listId: string): (r: Option<nat>)
    ensures r.Some? <==> FirstIndex(store, id).Some? && store[FirstIndex(store, id).value].listId == listId
    ensures r.Some? ==> r == FirstIndex(store, id)
  {
    match FirstIndex(store, id)
    case None => None
    case Some(i) => if store[i].listId == listId then Some(i) else None
  }

  /** AddTodo: appends the todo and returns it. */
  function AddTodo(store: Store, newTodo: StoredTodo): (r: (Store, StoredTodo))
    ensures |r.0| == |store| + 1 && r.0[..|store|] == store && r.0[|store|] == newTodo
    ensures r.1 == newTodo
  {
    (store + [newTodo], newTodo)
  }

  /** AddTodo puts the todo last in its own list and leaves the other lists alone. */
  lemma AddTodoLast(store: Store, newTodo: StoredTodo, listId: string)
    ensures InList(AddTodo(store, newTodo).0, listId)
         == InList(store, listId) + (if newTodo.listId == listId then [newTodo] else [])
  {
    InListAppend(store, [newTodo], listId);
  }

  /** UpdateTodo: replaces the todo GetTodoById finds, keeping its list id. */
  function UpdateTodo(store: Store, updated: StoredTodo, listId: string): (r: (Store, Result<StoredTodo, StoreError>))
    ensures GetTodoById(store, updated.id, listId).None? ==> r == (store, Failure(NotFound))
    ensures GetTodoById(store, updated.id, listId).Some? ==>
      var i := GetTodoById(store, updated.id, listId).value;
      && |r.0| == |store|
      && (forall j :: 0 <= j < |store| && j != i ==> r.0[j] == store[j])
      && r.0[i] == updated.(listId := listId)
      && r.1 == Success(r.0[i])
  {
    match GetTodoById(store, updated.id, listId)
    case None => (store, Failure(NotFound))
    case Some(i) =>
      var u := updated.(listId := store[i].listId);
      (store[i := u], Success(u))
  }

  /** RemoveTodo: deletes the first todo with the id, unless it belongs to another list. */
  function RemoveTodo(store: Store, id: int, listId: string): (r: (Store, Result<StoredTodo, StoreError>))
    ensures FirstIndex(store, id).None? ==> r == (store, Failure(NotFound))
    ensures FirstIndex(store, id).Some? && store[FirstIndex(store, id).value].listId != listId ==>
      r == (store, Failure(WrongList))
    ensures GetTodoById(store, id, listId).Some? ==>
      var i := GetTodoById(store, id, listId).value;
      && |r.0| == |store| - 1
      && (forall j :: 0 <= j < i ==> r.0[j] == store[j])
      && (forall j :: i <= j < |r.0| ==> r.0[j] == store[j + 1])
      && r.1 == Success(store[i])
  {
    match FirstIndex(store, id)
    case None => (store, Failure(NotFound))
    case Some(i) =>
      if store[i].listId != listId then (store, Failure(WrongList))
      else (store[..i] + store[i + 1..], Success(store[i]))
  }

  /** A removal is a permutation away from the old store: the removed todo plus the rest. */
  lemma RemoveTodoMultiset(store: Store, id: int, listId: string)
    requires GetTodoById(store, id, listId).Some?
    ensures var (store', r) := RemoveTodo(store, id, listId);
      multiset(store') + multiset{r.value} == multiset(store)
  {
    var i := GetTodoById(store, id, listId).value;
    assert store == store[..i] + [store[i]] + store[i + 1..];
  }

  /** Removing a todo takes it out of its list's view, keeping the order of the rest,
      and leaves the view of every other list as it was. */
  lemma RemoveTodoInList(store: Store, id: int, listId: string, other: string)
    requires GetTodoById(store, id, listId).Some?
    ensures var i := GetTodoById(store, id, listId).value;
      && InList(store, other)
         == InList(store[..i], other) + (if other == listId then [store[i]] else [])
            + InList(store[i + 1..], other)
      && InList(RemoveTodo(store, id, listId).0, other)
         == InList(store[..i], other) + InList(store[i + 1..], other)
  {
    var i := GetTodoById(store, id, listId).value;
    assert RemoveTodo(store, id, listId).0 == store[..i] + store[i + 1..];
    InListAppend(store[..i], store[i + 1..], other);
    InListAround(store, i, other);
  }

  lemma InListAround(s: Store, i: nat, listId: string)
    requires i < |s|
    ensures InList(s, listId)
         == InList(s[..i], listId) + (if s[i].listId == listId then [s[i]] else []) + InList(s[i + 1..], listId)
  {
    assert s == s[..i] + ([s[i]] + s[i + 1..]);
    InListAppend(s[..i], [s[i]] + s[i + 1..], listId);
    assert ([s[i]] + s[i + 1..])[1..] == s[i + 1..];
  }

  /** While ids are unique, a removed todo can no longer be found. */
  lemma RemovedTodoNotFound(store: Store, id: int, listId: string)
    requires forall a, b :: 0 <= a < b < |store| ==> store[a].id != store[b].id
    requires GetTodoById(store, id, listId).Some?
    ensures FirstIndex(RemoveTodo(store, id, listId).0, id).None?
  {
    var i := GetTodoById(store, id, listId).value;
    var store' := RemoveTodo(store, id, listId).0;
    forall j | 0 <= j < |store'|
      ensures store'[j].id != id
    {
      if j < i { assert store'[j] == store[j]; } else { assert store'[j] == store[j + 1]; }
    }
  }
}
