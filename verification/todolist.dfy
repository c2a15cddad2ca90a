/** The doubly-linked todo chain of todo/stores/todoList.go.

    Go pointers become heap cells: `heap` maps each cell to the todo stored there, and
    `start`, `prev` and `next` hold cells. Every operation performs the same field writes
    as the Go code, in the same order, so its behaviour is modelled on every heap, not
    only on well-formed ones. A removed todo keeps its cell: the Go value stays alive. */
module TodoLists {
  import opened Wrappers
  import opened Todos

  type Heap = map<Ptr, Todo>

  /** The Go `TodoList`: its id, its `Start` pointer, and the cells its todos occupy. */
  datatype TodoList = TodoList(id: string, start: Option<Ptr>, heap: Heap)

  datatype ListError = NotFound

  /** `p.Next = v` (a write through a live pointer; a cell outside the heap is left alone). */
  function SetNext(h: Heap, p: Ptr, v: Option<Ptr>): (h': Heap)
    ensures h'.Keys == h.Keys
  {
    if p in h then h[p := h[p].(next := v)] else h
  }

  /** `p.Prev = v`. */
  function SetPrev(h: Heap, p: Ptr, v: Option<Ptr>): (h': Heap)
    ensures h'.Keys == h.Keys
  {
    if p in h then h[p := h[p].(prev := v)] else h
  }

  // ---------------------------------------------------------------------------
  // The abstraction: the chain as a sequence of cells

  /** The cells visited by following `next` from `cur`, for at most `fuel` steps. */
  function Walk(h: Heap, cur: Option<Ptr>, fuel: nat): (o: seq<Ptr>)
    ensures |o| <= fuel
    ensures forall i :: 0 <= i < |o| ==> o[i] in h
    decreases fuel
  {
    if fuel == 0 || cur.None? || cur.value !in h then []
    else [cur.value] + Walk(h, h[cur.value].next, fuel - 1)
  }

  /** The list's todos in chain order. An acyclic chain visits each cell at most once,
      so `|heap|` steps are enough to reach its end. */
  function Order(l: TodoList): (o: seq<Ptr>)
    ensures forall i :: 0 <= i < |o| ==> o[i] in l.heap
  {
    Walk(l.heap, l.start, |l.heap|)
  }

  ghost predicate Distinct(o: seq<Ptr>) {
    forall i, j :: 0 <= i < j < |o| ==> o[i] != o[j]
  }

  function NextOf(o: seq<Ptr>, i: int): Option<Ptr> {
    if 0 <= i && i + 1 < |o| then Some(o[i + 1]) else None
  }

  function PrevOf(o: seq<Ptr>, i: int): Option<Ptr> {
    if 0 < i <= |o| then Some(o[i - 1]) else None
  }

  /** `o` is the forward chain from `start`: distinct live cells, `start` is the first,
      each `next` is the following one and the last has no `next`. */
  ghost predicate Chained(h: Heap, start: Option<Ptr>, o: seq<Ptr>) {
    && Distinct(o)
    && (forall i :: 0 <= i < |o| ==> o[i] in h)
    && start == (if |o| == 0 then None else Some(o[0]))
    && (forall i {:trigger h[o[i]]} :: 0 <= i < |o| ==> h[o[i]].next == NextOf(o, i))
  }

  /** Every `prev` in `o` is the preceding cell; the first has no `prev`. */
  ghost predicate BackLinked(h: Heap, o: seq<Ptr>)
    requires forall i :: 0 <= i < |o| ==> o[i] in h
  {
    forall i {:trigger h[o[i]]} :: 0 <= i < |o| ==> h[o[i]].prev == PrevOf(o, i)
  }

  /** Every todo in `o` refers back to the list `id`. */
  ghost predicate Owned(h: Heap, o: seq<Ptr>, id: string)
    requires forall i :: 0 <= i < |o| ==> o[i] in h
  {
    forall i {:trigger h[o[i]]} :: 0 <= i < |o| ==> h[o[i]].list == Some(id)
  }

  /** The walk from `Start` ends at nil: what the Go loops need to terminate. */
  ghost predicate Acyclic(l: TodoList) {
    Chained(l.heap, l.start, Order(l))
  }

  /** The chain invariants: acyclic, `A.next == B` exactly when `B.prev == A`, the head has
      no `prev`, the tail no `next`, and every todo's list is this list. */
  ghost predicate Valid(l: TodoList) {
    && Acyclic(l)
    && BackLinked(l.heap, Order(l))
    && Owned(l.heap, Order(l), l.id)
  }

  // ---------------------------------------------------------------------------
  // Reading the chain

  /** Index in `o` of the first todo with the given id. */
  function FirstWithId(h: Heap, o: seq<Ptr>, id: int): (r: Option<nat>)
    requires forall i :: 0 <= i < |o| ==> o[i] in h
    ensures r.Some? ==> r.value < |o| && h[o[r.value]].id == id
    ensures r.Some? ==> forall j :: 0 <= j < r.value ==> h[o[j]].id != id
    ensures r.None? ==> forall j :: 0 <= j < |o| ==> h[o[j]].id != id
  {
    if |o| == 0 then None
    else if h[o[0]].id == id then Some(0)
    else match FirstWithId(h, o[1..], id)
      case None => None
      case Some(i) => Some(i + 1)
  }

  /** The position in chain order of the todo GetTodoById finds. */
  function IndexOf(l: TodoList, id: int): Option<nat> {
    FirstWithId(l.heap, Order(l), id)
  }

  /** The cell GetTodoById returns: the first todo in chain order with that id. */
  function Lookup(l: TodoList, id: int): (r: Option<Ptr>)
    ensures r.Some? ==> r.value in l.heap && l.heap[r.value].id == id
  {
    match IndexOf(l, id)
    case None => None
    case Some(i) => Some(Order(l)[i])
  }

  /** GetTodos: copies the todos from `Start` along `Next`. */
  method GetTodos(l: TodoList) returns (todos: seq<Todo>)
    requires Acyclic(l)
    ensures |todos| == |Order(l)|
    ensures forall i :: 0 <= i < |todos| ==> todos[i] == l.heap[Order(l)[i]]
    ensures l.start.None? ==> todos == []
  {
    ghost var o := Order(l);
    todos := [];
    var current := l.start;
    while current.Some?
      invariant |todos| <= |o|
      invariant current == (if |todos| < |o| then Some(o[|todos|]) else None)
      invariant forall i :: 0 <= i < |todos| ==> todos[i] == l.heap[o[i]]
      decreases |o| - |todos|
    {
      todos := todos + [l.heap[current.value]];
      current := l.heap[current.value].next;
    }
  }

  /** GetTodoById: follows `Next` from `Start` and stops at the first matching id. */
  method GetTodoById(l: TodoList, todoId: int) returns (found: Option<Ptr>)
    requires Acyclic(l)
    ensures found == Lookup(l, todoId)
    ensures found.None? <==> forall i :: 0 <= i < |Order(l)| ==> l.heap[Order(l)[i]].id != todoId
  {
    ghost var o := Order(l);
    ghost var k := 0;
    var current := l.start;
    while current.Some?
      invariant k <= |o|
      invariant current == (if k < |o| then Some(o[k]) else None)
      invariant forall j :: 0 <= j < k ==> l.heap[o[j]].id != todoId
      decreases |o| - k
    {
      if l.heap[current.value].id == todoId {
        FirstMatchUnique(l.heap, o, todoId, k);
        return current;
      }
      current := l.heap[current.value].next;
      k := k + 1;
    }
    return None;
  }

  lemma FirstMatchUnique(h: Heap, o: seq<Ptr>, id: int, k: nat)
    requires forall i :: 0 <= i < |o| ==> o[i] in h
    requires k < |o| && h[o[k]].id == id
    requires forall j :: 0 <= j < k ==> h[o[j]].id != id
    ensures FirstWithId(h, o, id) == Some(k)
  {
  }

  // ---------------------------------------------------------------------------
  // Changing the chain

  /** AddTodo: puts the todo at the head of the chain. `cell` is the fresh heap cell the
      Go allocator gives `&newTodo`. With an empty chain the todo's own links are kept. */
  function AddTodo(l: TodoList, newTodo: Todo, cell: Ptr): (r: (TodoList, Todo))
    requires cell !in l.heap
    ensures r.0.start == Some(cell) && r.0.id == l.id
    ensures r.0.heap.Keys == l.heap.Keys + {cell} && r.1 == r.0.heap[cell]
    ensures r.1.list == Some(l.id) && r.1.id == newTodo.id
    ensures r.1.name == newTodo.name && r.1.text == newTodo.text && r.1.done == newTodo.done
      && r.1.category == newTodo.category
    ensures l.start.Some? && l.start.value in l.heap ==> r.1.prev.None? && r.1.next == l.start
  {
    var t := newTodo.(list := Some(l.id));
    match l.start
    case None =>
      (l.(start := Some(cell), heap := l.heap[cell := t]), t)
    case Some(s) =>
      var t' := t.(next := Some(s), prev := None);
      var h := SetPrev(l.heap[cell := t'], s, Some(cell));
      (l.(start := Some(cell), heap := h), h[cell])
  }

  /** UpdateTodo: overwrites the first todo with the update's id, keeping its list
      reference and links. */
  function UpdateTodo(l: TodoList, updated: Todo): (r: (TodoList, Result<Todo, ListError>))
    ensures Lookup(l, updated.id).None? ==> r == (l, Failure(NotFound))
    ensures Lookup(l, updated.id).Some? ==> r.1.Success?
    ensures r.0.start == l.start && r.0.id == l.id && r.0.heap.Keys == l.heap.Keys
  {
    match Lookup(l, updated.id)
    case None => (l, Failure(NotFound))
    case Some(p) =>
      var former := l.heap[p];
      var u := updated.(list := former.list, prev := former.prev, next := former.next);
      (l.(heap := l.heap[p := u]), Success(u))
  }

  /** RemoveTodo: finds the todo by id and unlinks it. */
  function RemoveTodo(l: TodoList, todoId: int): (r: (TodoList, Result<Todo, ListError>))
    ensures Lookup(l, todoId).None? ==> r == (l, Failure(NotFound))
    ensures Lookup(l, todoId).Some? ==> r.1.Success? && r.1.value.prev.None? && r.1.value.next.None?
    ensures r.0.id == l.id && r.0.heap.Keys == l.heap.Keys
  {
    match Lookup(l, todoId)
    case None => (l, Failure(NotFound))
    case Some(p) => Unlink(l, p)
  }

  /** The unlinking half of RemoveTodo: bridges the todo's own `Prev` and `Next`, then
      clears them. */
  function Unlink(l: TodoList, p: Ptr): (r: (TodoList, Result<Todo, ListError>))
    requires p in l.heap
    ensures r.0.id == l.id && r.0.heap.Keys == l.heap.Keys
    ensures r.1.Success? && r.1.value.prev.None? && r.1.value.next.None?
  {
    var x := l.heap[p];
    // lines 128-133: the successor's Prev skips the removed todo
    var h1 := if x.next.Some? then SetPrev(l.heap, x.next.value, x.prev) else l.heap;
    // lines 134-143: the predecessor's Next, or else the list's Start, skips it
    var start' := if x.prev.Some? then l.start else x.next;
    var h2 := if x.prev.Some? then SetNext(h1, x.prev.value, x.next) else h1;
    // lines 146-147
    var h3 := SetNext(SetPrev(h2, p, None), p, None);
    (l.(start := start', heap := h3), Success(h3[p]))
  }

  /** MoveTodoUp as written: swaps the todo with its predecessor. The predecessor's
      predecessor (or `Start`) is redirected, but the moved todo's old successor keeps
      its stale `Prev`. A cell outside the heap cannot be reached in Go; the model leaves
      the list alone there. */
  function MoveTodoUp(l: TodoList, p: Ptr): (r: (TodoList, Result<Todo, ListError>))
    requires p in l.heap
    ensures r.0.id == l.id && r.0.heap.Keys == l.heap.Keys && r.1.Success?
    ensures l.heap[p].prev.None? ==> r == (l, Success(l.heap[p]))
    ensures r.1.value.id == l.heap[p].id
  {
    var h := l.heap;
    if h[p].prev.None? || h[p].prev.value !in h then (l, Success(h[p]))
    else
      var q := h[p].prev.value;
      // lines 193-199
      var start' := if h[q].prev.None? then Some(p) else l.start;
      var h1 := if h[q].prev.None? then h else SetNext(h, h[q].prev.value, Some(p));
      // line 202: read the moved todo's `Next`, then the predecessor takes it and the
      // moved todo's `Next` becomes the predecessor
      var pNext := h1[p].next;
      var h2 := SetNext(SetNext(h1, q, pNext), p, Some(q));
      // line 203: read the predecessor's `Prev`, then the moved todo takes it and the
      // predecessor's `Prev` becomes the moved todo
      var qPrev := h2[q].prev;
      var h3 := SetPrev(SetPrev(h2, p, qPrev), q, Some(p));
      (l.(start := start', heap := h3), Success(h3[p]))
  }

  /** MoveTodoDown as written: swaps the todo with its successor; the successor's old
      successor keeps its stale `Prev`. */
  function MoveTodoDown(l: TodoList, p: Ptr): (r: (TodoList, Result<Todo, ListError>))
    requires p in l.heap
    ensures r.0.id == l.id && r.0.heap.Keys == l.heap.Keys && r.1.Success?
    ensures l.heap[p].next.None? ==> r == (l, Success(l.heap[p]))
    ensures r.1.value.id == l.heap[p].id
  {
    var h := l.heap;
    if h[p].next.None? || h[p].next.value !in h then (l, Success(h[p]))
    else
      var n := h[p].next.value;
      // lines 225-231
      var start' := if h[p].prev.None? then Some(n) else l.start;
      var h1 := if h[p].prev.None? then h else SetNext(h, h[p].prev.value, Some(n));
      // line 234: read the successor's `Next`, then the moved todo takes it and the
      // successor's `Next` becomes the moved todo
      var nNext := h1[n].next;
      var h2 := SetNext(SetNext(h1, p, nNext), n, Some(p));
      // line 235: read the moved todo's `Prev`, then its `Prev` becomes the successor
      // and the successor takes the value read
      var pPrev := h2[p].prev;
      var h3 := SetPrev(SetPrev(h2, p, Some(n)), n, pPrev);
      (l.(start := start', heap := h3), Success(h3[p]))
  }

  /** MoveTodo: finds the todo by id and moves it one place up or down. */
  function MoveTodo(l: TodoList, todoId: int, moveUp: bool): (r: (TodoList, Result<Todo, ListError>))
    ensures Lookup(l, todoId).None? ==> r == (l, Failure(NotFound))
    ensures Lookup(l, todoId).Some? ==> r.1.Success? && r.1.value.id == todoId
  {
    match Lookup(l, todoId)
    case None => (l, Failure(NotFound))
    case Some(p) => if moveUp then MoveTodoUp(l, p) else MoveTodoDown(l, p)
  }
}
