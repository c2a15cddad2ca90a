/** The todo record and the two request decoders of todo/stores/todo.go. */
module Todos {
  import opened Wrappers
  import opened GoInt

  /** A heap cell; the Go code links todos through `*todo` pointers. */
  type Ptr = nat

  /** The Go `todo` struct: client fields plus the `List`, `Prev` and `Next` links,
      which the JSON coding never touches. `list` names the owning list by its id. */
  datatype Todo = Todo(
    id: int,
    name: string,
    text: string,
    done: bool,
    category: seq<string>,
    list: Option<string>,
    prev: Option<Ptr>,
    next: Option<Ptr>)

  /** What a JSON body can set on a todo. */
  datatype Payload = Payload(id: int, name: string, text: string, done: bool, category: seq<string>)

  /** The `todoUpdate` body: a todo plus the `upOrDown` move directive. */
  datatype UpdatePayload = UpdatePayload(fields: Payload, upOrDown: int)

  /** A request to move the updated todo up (`moveUp`) or down one place. */
  datatype ChangeOrder = ChangeOrder(todo: Todo, moveUp: bool)

  datatype DecodeError = DecodeError

  /** The todo a decoded body yields: links and list reference all unset. */
  function FromPayload(p: Payload, id: int): (t: Todo)
    ensures t.list.None? && t.prev.None? && t.next.None?
    ensures t.id == id && SameContent(t, p)
  {
    Todo(id, p.name, p.text, p.done, p.category, None, None, None)
  }

  predicate SameContent(t: Todo, p: Payload) {
    t.name == p.name && t.text == p.text && t.done == p.done && t.category == p.category
  }

  /** NewTodoFromJson: `body` is the outcome of decoding the request body (None on a
      decode error); `index` is the package-level id counter. Returns the new counter. */
  function NewTodoFromJson(index: int, body: Option<Payload>): (r: (int, Result<Todo, DecodeError>))
    requires InRange(index)
    ensures body.None? ==> r == (index, Failure(DecodeError))
    ensures body.Some? ==> r.1.Success? && r.0 == Inc(index)
    ensures body.Some? ==> r.1.value.id == index && SameContent(r.1.value, body.value)
    ensures body.Some? ==> r.1.value.prev.None? && r.1.value.next.None? && r.1.value.list.None?
  {
    match body
    case None => (index, Failure(DecodeError))
    case Some(p) => (Inc(index), Success(FromPayload(p, index)))
  }

  /** UpdateTodoFromJson: the update todo and, when `upOrDown` is non-zero, a move directive. */
  function UpdateTodoFromJson(body: Option<UpdatePayload>): (r: Result<(Todo, Option<ChangeOrder>), DecodeError>)
    ensures body.None? <==> r.Failure?
    ensures r.Success? ==> var t := r.value.0;
      t.id == body.value.fields.id && SameContent(t, body.value.fields)
      && t.list.None? && t.prev.None? && t.next.None?
    ensures r.Success? ==> (r.value.1.None? <==> body.value.upOrDown == 0)
    ensures r.Success? && r.value.1.Some? ==>
      r.value.1.value.todo == r.value.0 && (r.value.1.value.moveUp <==> body.value.upOrDown == 1)
  {
    match body
    case None => Failure(DecodeError)
    case Some(u) =>
      var t := FromPayload(u.fields, u.fields.id);
      if u.upOrDown == 0 then Success((t, None))
      else Success((t, Some(ChangeOrder(t, u.upOrDown == 1))))
  }

  /** Runs NewTodoFromJson over a series of request bodies; returns the final counter
      and the ids handed out, in order. */
  function CreateAll(index: int, bodies: seq<Option<Payload>>): (r: (int, seq<int>))
    requires InRange(index)
    ensures InRange(r.0)
    decreases |bodies|
  {
    if |bodies| == 0 then (index, [])
    else
      var (index', res) := NewTodoFromJson(index, bodies[0]);
      var (last, ids) := CreateAll(index', bodies[1..]);
      (last, if res.Success? then [res.value.id] + ids else ids)
  }

  function Successes(bodies: seq<Option<Payload>>): nat {
    if |bodies| == 0 then 0 else (if bodies[0].Some? then 1 else 0) + Successes(bodies[1..])
  }

  /** While the counter does not wrap, the ids handed out are the consecutive integers
      from `index`: strictly increasing, never reused, and one per successful decode. */
  lemma {:induction false} CreateAllIdsIncrease(index: int, bodies: seq<Option<Payload>>)
    requires InRange(index) && index + Successes(bodies) <= MAX_INT
    ensures var (last, ids) := CreateAll(index, bodies);
      |ids| == Successes(bodies) && last == index + |ids|
      && (forall i :: 0 <= i < |ids| ==> ids[i] == index + i)
      && (forall i, j :: 0 <= i < j < |ids| ==> ids[i] < ids[j])
    decreases |bodies|
  {
    if |bodies| > 0 {
      var (index', res) := NewTodoFromJson(index, bodies[0]);
      if bodies[0].Some? {
        assert index < MAX_INT;
        CreateAllIdsIncrease(index + 1, bodies[1..]);
      } else {
        CreateAllIdsIncrease(index, bodies[1..]);
      }
    }
  }
}
