# Todo store model

A Dafny model of the in-memory store behind the Go todo service (`todo/stores` and the
request helpers of `todo/backend`). The store has three parts:

- Each todo list is a doubly linked chain of todos. `Start` points at the head, and each
  todo carries `Prev`, `Next` and a `List` back-reference.
- A registry holds the lists. Each list is named by a token of 32 lowercase hex digits made
  from 16 random bytes.
- An older, slice-backed todo store tags every todo with the id of its list.

The request helpers check the format of the bearer token and read the numeric `id` query
parameter. Two handlers of `backend.go` are modelled as compositions: PostTodo (decode, then
add) and PutTodo (update, then optionally move).

How the model is built:

- Go pointers become an arena. A `TodoList` holds `start: Option<Ptr>` and a
  `heap: map<Ptr, Todo>` of cells. Every pointer write goes through `SetNext` or `SetPrev`,
  in the order the Go statements perform them. Go tuple assignments read all right-hand
  sides first, then write left to right. The fresh cell that `&newTodo` allocates is a
  parameter of `AddTodo`.
- `Order(l)` is the sequence of cells reached from `Start` along `Next`. `Valid(l)` is the
  chain invariant:
  - the walk ends at nil;
  - every `Prev` names the preceding todo, and the head has none;
  - every todo's `List` is this list.
- The Go `int` is 64 bits wide. The id counter wraps around (`GoInt.Inc`), and `Atoi`
  rejects values outside the 64-bit range.
- The `TodoLists` module keeps MoveTodoUp and MoveTodoDown exactly as written. Both leave a
  stale `Prev` behind (see Findings). The `FixedMoves` module adds the missing write and
  proves that the corrected moves keep the list valid. The PutTodo composition
  (`Backend.UpdateThenMove`) uses the corrected moves.
- The `MoveSequences` module runs sequences of move and remove requests. As written, five
  requests turn a valid list into a cyclic one. With the corrected moves, every sequence
  keeps the list valid.
- Three first-match searches, `TodoLists.FirstWithId`, `SliceStore.FirstIndex` and
  `ListRegistry.GetTodoListById`, mirror three separate Go loops: `todoList.go:34-43`,
  `todoStore.go:25-38` and `todoListStore.go:83-92`. Each searches a different structure,
  so the model keeps them apart.

Three places where the Go code does less than its names and comments suggest:

- The comments at lines 201 and 233 of `todo/stores/todoList.go` call the relinking a swap
  of the moved todo with its neighbour. The statements that follow (202-203 and 234-235)
  never update the `Prev` of the todo after the pair (see Findings).
- Ids come from the package counter `index` of `todo/stores/todo.go` (lines 9 and 49-50).
  It is a 64-bit Go `int` and wraps from 2^63 - 1 to -2^63, and AddTodo stores whatever
  todo it is given. Ids are therefore proved unique only while the counter has not wrapped
  (`Backend.PostTodoFreshId`).
- `todo/stores/todoStore.go` reads a `ListId` field (lines 14, 30, 66 and 88) that the `todo`
  struct of `todo/stores/todo.go` (lines 13-22) does not declare. The model gives the slice
  store its own record, `SliceStore.StoredTodo`, with a `listId` field.

## Model

| member | source | states |
|---|---|---|
| GoInt.Inc | todo/stores/todo.go:50 | `index++` on a 64-bit int: one more, except that the maximum wraps to the minimum; the result stays in range |
| Todos.NewTodoFromJson | todo/stores/todo.go:38-53 | a failed decode returns the error and consumes no id; a decoded todo gets the current counter as its id, keeps the body's content, has no links and no list, and the counter advances |
| Todos.UpdateTodoFromJson | todo/stores/todo.go:59-92 | fails exactly when the body fails to decode; the update todo carries the body's id and content with no links; there is a move directive exactly when `upOrDown` is non-zero, and it moves up exactly when `upOrDown` is 1 |
| Todos.CreateAllIdsIncrease | todo/stores/todo.go:48-50 | without wrap-around, successive decodes hand out consecutive, strictly increasing ids, one per successful decode, and the counter ends that many higher |
| TodoLists.FirstWithId | todo/stores/todoList.go:30-47 | the position found holds the id and no earlier position does; None means no todo in the sequence has the id |
| TodoLists.Lookup | todo/stores/todoList.go:30-47 | a found cell is live and holds the requested id |
| TodoLists.GetTodos | todo/stores/todoList.go:11-24 | the loop from `Start` along `Next` returns, position by position, the todos of the chain order; an empty list gives an empty slice |
| TodoLists.GetTodoById | todo/stores/todoList.go:30-47 | the loop returns the first todo in chain order with the id; it returns nil exactly when no todo in the chain has the id |
| TodoLists.AddTodo | todo/stores/todoList.go:54-81 | the new todo becomes `Start`, refers to this list, keeps its id, name, text, done flag and categories, and (on a non-empty list) has no `Prev` and the old head as `Next`; exactly one cell is added |
| TodoLists.UpdateTodo | todo/stores/todoList.go:88-110 | an unknown id is an error and changes nothing; otherwise it succeeds and `Start`, the list id and the cells are unchanged |
| TodoLists.RemoveTodo | todo/stores/todoList.go:117-151 | an unknown id is an error and changes nothing; otherwise the returned todo has no links |
| TodoLists.Unlink | todo/stores/todoList.go:128-150 | the unlinked todo is returned with `Prev` and `Next` cleared; no cell is added or dropped |
| TodoLists.MoveTodoUp | todo/stores/todoList.go:182-207 | a todo without `Prev` is returned and nothing changes; otherwise it succeeds, returns the moved todo and keeps the cells |
| TodoLists.MoveTodoDown | todo/stores/todoList.go:214-239 | a todo without `Next` is returned and nothing changes; otherwise it succeeds, returns the moved todo and keeps the cells |
| TodoLists.MoveTodo | todo/stores/todoList.go:159-175 | an unknown id is an error and changes nothing; a found todo is moved and returned |
| ChainProofs.OrderIs | todo/stores/todoList.go:17-22 | any forward chain from `Start` of distinct live cells ending at nil is exactly what the walk visits |
| ChainProofs.BoundaryLinks | todo/stores/todoList.go:184-186 | in a valid list, a todo has no `Prev` exactly when it is the head and no `Next` exactly when it is the tail, which are the tests the moves use |
| ChainProofs.AddTodoPrepends | todo/stores/todoList.go:54-81 | on a valid list the new todo goes first and the rest keep their order; the list stays valid; the old head points back to the new todo; no todo's content changes |
| ChainProofs.AddTodoChain | todo/stores/todoList.go:59-78 | the links AddTodo writes make `[new] + old order` a valid chain |
| ChainProofs.UpdateTodoKeepsOrder | todo/stores/todoList.go:88-110 | an update replaces only the content of the todo found, keeping its list and links; the order, the validity and every other cell are unchanged, and the returned todo is the stored one |
| ChainProofs.UnlinkWrites | todo/stores/todoList.go:128-150 | the writes Unlink makes to the removed todo and `Start`: the todo loses both links, and `Start` moves to its successor exactly when it had no `Prev` |
| ChainProofs.UnlinkCell | todo/stores/todoList.go:128-143 | for any other cell, only the predecessor's `Next` and the successor's `Prev` change, and they change to the removed todo's neighbours |
| ChainProofs.UnlinkStart | todo/stores/todoList.go:134-143 | `Start` moves to the second todo exactly when the head is removed |
| ChainProofs.UnlinkLinksAll | todo/stores/todoList.go:128-147 | after unlinking position k, the remaining todos are forward- and back-linked in order and still owned by the list |
| ChainProofs.UnlinkChain | todo/stores/todoList.go:128-147 | unlinking the todo at position k of a valid list gives the order without position k, and the list stays valid |
| ChainProofs.UnlinkFrame | todo/stores/todoList.go:128-147 | every other todo keeps its id and list; only the neighbours of the removed todo get new links |
| ChainProofs.RemoveTodoUnlinks | todo/stores/todoList.go:117-151 | removing a found id from a valid list drops exactly its position from the order, keeps the list valid and returns the todo with its links cleared |
| ChainProofs.RemovedTodoNotFound | todo/stores/todoList.go:117-151 | with unique ids, a removed id is no longer found, and the list is one shorter |
| ChainProofs.MoveUpWrites | todo/stores/todoList.go:189-206 | the writes MoveTodoUp makes to the moved todo, its predecessor and `Start` |
| ChainProofs.MoveUpCell | todo/stores/todoList.go:193-203 | any third cell is untouched except the predecessor's predecessor, whose `Next` becomes the moved todo |
| ChainProofs.MoveDownWrites | todo/stores/todoList.go:221-238 | the writes MoveTodoDown makes to the moved todo, its successor and `Start` |
| ChainProofs.MoveDownCell | todo/stores/todoList.go:225-235 | any third cell is untouched except the moved todo's predecessor, whose `Next` becomes the successor |
| ChainProofs.MoveDownIsMoveUpOfNext | todo/stores/todoList.go:214-239 | on a valid list, moving a todo down relinks the heap exactly as moving its successor up does; only the returned todo differs |
| ChainProofs.MoveUpAt | todo/stores/todoList.go:193-203 | position by position, the `Next` and `Prev` that MoveTodoUp leaves, with every todo's content kept |
| ChainProofs.MoveUpLinks | todo/stores/todoList.go:193-203 | in the swapped order, every todo has the right `Next` and list, and the right `Prev` except the one after the pair, whose `Prev` still names the moved todo |
| ChainProofs.MoveUpStart | todo/stores/todoList.go:193-199 | `Start` becomes the moved todo exactly when it moves into first place |
| ChainProofs.MoveUpOrder | todo/stores/todoList.go:182-207 | the forward order after MoveTodoUp is the swap of the todo with its predecessor |
| ChainProofs.MoveUpLinksAll | todo/stores/todoList.go:193-203 | the per-position facts of MoveUpLinks for all positions together |
| ChainProofs.MoveTodoUpSwaps | todo/stores/todoList.go:182-207 | on a valid list, MoveTodoUp gives the swapped order, which is a permutation; it keeps the chain acyclic and owned and returns the moved todo with its content unchanged |
| ChainProofs.MoveUpValidIff | todo/stores/todoList.go:202-203 | as written, MoveTodoUp keeps the list valid exactly when the moved todo was the tail; otherwise the next todo's `Prev` still names the moved todo |
| ChainProofs.MoveTodoDownSwaps | todo/stores/todoList.go:214-239 | on a valid list, MoveTodoDown gives the swapped order, which is a permutation; it keeps the chain acyclic and owned and returns the moved todo with its content unchanged |
| ChainProofs.MoveDownValidIff | todo/stores/todoList.go:234-235 | as written, MoveTodoDown keeps the list valid exactly when the successor was the tail; otherwise the todo after the pair still points back to the old successor |
| ChainProofs.MoveAtEndIsNoOp | todo/stores/todoList.go:159-175 | moving the head up or the tail down returns the list unchanged |
| FixedMoves.MoveTodoUpFixed | todo/stores/todoList.go:182-207 | the corrected move up always succeeds, returns the todo with the requested id, keeps the cells, and changes nothing for the head |
| FixedMoves.MoveTodoDownFixed | todo/stores/todoList.go:214-239 | the corrected move down always succeeds, returns the todo with the requested id, keeps the cells, and changes nothing for the tail |
| FixedMoves.MoveTodoFixed | todo/stores/todoList.go:159-175 | an unknown id is an error and changes nothing; a found todo is moved and returned |
| FixedMoves.RepairPrev | todo/stores/todoList.go:202-203 | pointing the one stale `Prev` of a chain at its predecessor makes the chain back-linked again |
| FixedMoves.UpFixedIsRepair | todo/stores/todoList.go:202-203 | the corrected move up is the as-written one plus the repair of the following todo's `Prev` |
| FixedMoves.MoveTodoUpFixedSwaps | todo/stores/todoList.go:182-207 | on a valid list, the corrected move up gives the swapped order, keeps the list valid and returns the moved todo |
| FixedMoves.MoveTodoUpFixedKeepsContent | todo/stores/todoList.go:182-207 | the corrected move up keeps every todo's content and list |
| FixedMoves.MoveDownFixedIsMoveUpFixedOfNext | todo/stores/todoList.go:214-239 | the corrected move down of a todo is the corrected move up of its successor |
| FixedMoves.MoveTodoDownFixedSwaps | todo/stores/todoList.go:214-239 | on a valid list, the corrected move down gives the swapped order, keeps the list valid and returns the moved todo with its content unchanged |
| FixedMoves.MoveTodoFixedMoves | todo/stores/todoList.go:159-175 | on a valid list, an unknown id changes nothing and is an error; otherwise the todo moves one place (or stays at the end it moves towards), the list stays valid, and the moved todo keeps its content |
| FixedMoves.MoveUpAsWrittenHeap | todo/stores/todoList.go:193-203 | on todos 1, 2, 3, moving 2 up as written leaves todo 3's `Prev` on todo 2 |
| FixedMoves.MovedUpAsWrittenOrder | todo/stores/todoList.go:202-203 | that list reads 2, 1, 3 forwards but is not valid |
| FixedMoves.RemoveFromMovedUp | todo/stores/todoList.go:128-143 | removing todo 3 from it clears todo 2's `Next`, so only todo 2 remains in the chain |
| FixedMoves.MoveUpThenRemoveLosesTodo | todo/stores/todoList.go:202-203 | as written, move-up followed by the remove of the next todo loses an unrelated todo |
| FixedMoves.FixedMoveUpThenRemoveNext | todo/stores/todoList.go:117-151 | with the corrected move, the same sequence removes just that todo, and the list stays valid |
| MoveSequences.FixedRequestsKeepValid | todo/stores/todoList.go:117-239 | with the corrected moves, any sequence of move-up, move-down and remove requests keeps a valid list valid |
| MoveSequences.FirstMove | todo/stores/todoList.go:182-207 | on todos 0 to 4, moving todo 1 up as written leaves todo 2's `Prev` on todo 1 |
| MoveSequences.RemoveStep | todo/stores/todoList.go:117-151 | removing todo 1 then leaves todo 2's `Prev` on the removed todo |
| MoveSequences.ThirdMove | todo/stores/todoList.go:193-203 | moving todo 3 up then writes its `Next` through that stale link into the removed todo, and todo 3 drops out of the walk |
| MoveSequences.FifthMove | todo/stores/todoList.go:193-203 | two moves later, moving todo 2 up sets todo 4's `Next` back to todo 2 |
| MoveSequences.AsWrittenRequestsEndCyclic | todo/stores/todoList.go:117-239 | those five requests, as written, turn the list of todos 0 to 4 into that cyclic list |
| MoveSequences.CyclicOrder | todo/stores/todoList.go:17-22 | the walk of the cyclic list meets todo 2 twice, so it is not a chain |
| MoveSequences.CyclicWalkEndless | todo/stores/todoList.go:17-22 | the walk from `Start` of the cyclic list never meets nil, so the GetTodos loop never ends |
| MoveSequences.CycleStaysOnCycle | todo/stores/todoList.go:36-43 | from any of todos 2, 3, 4 of the cyclic list, every step along `Next`, however many, stays on those three |
| MoveSequences.CyclicLookupMisses | todo/stores/todoList.go:34-46 | no todo on the walk from `Start` of the cyclic list, for any number of steps, has id 1, so the GetTodoById loop for id 1 never returns; the bounded `Lookup` reports it missing |
| MoveSequences.StaleLinksMakeCycle | todo/stores/todoList.go:193-203 | as written, five requests make a valid list cyclic; the corrected moves keep the same requests' result valid |
| ListRegistry.HexEncode | todo/stores/todoListStore.go:35 | two lowercase hex digits per byte |
| ListRegistry.HexValue | todo/stores/todoListStore.go:35 | a character has a hex value exactly when it is a lowercase hex digit, and that value's digit is the character |
| ListRegistry.HexRoundTrip | todo/stores/todoListStore.go:35 | decoding an encoded byte string gives it back |
| ListRegistry.HexEncodeInjective | todo/stores/todoListStore.go:16-35 | different random bytes give different tokens |
| ListRegistry.RandomString | todo/stores/todoListStore.go:21-36 | a failed random read gives "" and an error; otherwise the result is 32 hex digits that decode to the random bytes |
| ListRegistry.NewTodoList | todo/stores/todoListStore.go:42-63 | a failed token leaves the registry unchanged and returns "" with the error; otherwise the registry gains, at the end, an empty list named by the 32-character token |
| ListRegistry.IsValidTodoListId | todo/stores/todoListStore.go:70-77 | true exactly when some list in the registry has the id |
| ListRegistry.GetTodoListById | todo/stores/todoListStore.go:83-92 | returns the first list with the id, and nil exactly when no list has it |
| ListRegistry.NewTodoListKeepsKnown | todo/stores/todoListStore.go:58-59 | creating a list keeps every known id known and found at the same place |
| ListRegistry.NewTodoListFound | todo/stores/todoListStore.go:42-63 | the returned token names a list; a token not seen before finds the new, empty list |
| ListRegistry.NewTodoListKnownIff | todo/stores/todoListStore.go:42-77 | after one creation, an id is valid exactly when it was valid before or is the token just handed out |
| ListRegistry.CreatedListsStayKnown | todo/stores/todoListStore.go:42-77 | after any sequence of list creations, an id is valid exactly when it was valid before or is one of the tokens handed out |
| SliceStore.InList | todo/stores/todoStore.go:11-19 | a todo is in a list's view exactly when it is in the store with that list id |
| SliceStore.GetTodos | todo/stores/todoStore.go:11-19 | the loop returns exactly the todos of the list, in store order |
| SliceStore.FirstIndex | todo/stores/todoStore.go:25-38 | the index found holds the id and no earlier one does; None means no todo has the id |
| SliceStore.GetTodoById | todo/stores/todoStore.go:25-38 | finds a todo exactly when the first todo with the id belongs to the list; a todo of another list hides later ones |
| SliceStore.AddTodo | todo/stores/todoStore.go:43-46 | the todo is appended and returned; the rest of the store is unchanged |
| SliceStore.AddTodoLast | todo/stores/todoStore.go:43-46 | the todo comes last in its own list's view, and other lists' views are unchanged |
| SliceStore.UpdateTodo | todo/stores/todoStore.go:54-72 | not found changes nothing; otherwise only the found todo is replaced, keeping its list id, and the stored value is returned |
| SliceStore.RemoveTodo | todo/stores/todoStore.go:80-114 | an unknown id or a todo of another list changes nothing and gives the matching error; otherwise the todo is cut out, keeping the order of the rest, and returned |
| SliceStore.RemoveTodoMultiset | todo/stores/todoStore.go:93-107 | the new store plus the removed todo is a permutation of the old store |
| SliceStore.RemoveTodoInList | todo/stores/todoStore.go:93-100 | the removed todo leaves its list's view, and every view keeps the order of the rest |
| SliceStore.RemovedTodoNotFound | todo/stores/todoStore.go:80-114 | with unique ids, a removed id is no longer found |
| RequestHelpers.Index | todo/backend/helper.go:60 | the first occurrence of the separator, or None when there is none |
| RequestHelpers.Split | todo/backend/helper.go:60 | `strings.Split` gives at least one piece; joining the pieces with the separator gives the header back, and no piece contains the separator |
| RequestHelpers.GetTokenFromRequest | todo/backend/helper.go:56-76 | accepts exactly when the header splits on "Bearer " into two pieces and the second is 32 characters long, and returns that piece; otherwise "" and an error |
| RequestHelpers.AcceptedHeaderShape | todo/backend/helper.go:56-76 | an accepted header is some text, "Bearer ", and a 32-character token, and neither part contains "Bearer " |
| RequestHelpers.BearerTokenAccepted | todo/backend/helper.go:56-76 | conversely, for any text and any 32-character token neither of which contains "Bearer ", the header text + "Bearer " + token is accepted with that token |
| RequestHelpers.EmptyHeaderRejected | todo/backend/helper.go:59-66 | a missing or empty header is rejected |
| RequestHelpers.FormatOnly | todo/backend/helper.go:51 | only the format is checked: the token of 32 `z` characters passes, although `randomString` can never hand it out |
| RequestHelpers.Atoi | todo/backend/helper.go:36 | a parsed value is in the 64-bit range; the empty string does not parse |
| RequestHelpers.AtoiItoa | todo/backend/helper.go:36 | every 64-bit integer written in decimal parses back to itself |
| RequestHelpers.GetIdFromUrl | todo/backend/helper.go:17-45 | every error gives -1: a bad query, a missing id, a non-number; otherwise the parsed id, succeeding exactly when the value parses |
| RequestHelpers.IdFromDecimal | todo/backend/helper.go:36-44 | an `id` written in decimal gives back its value |
| RequestHelpers.NonNumericIdRejected | todo/backend/helper.go:36-42 | an `id` with a character other than a digit or sign is rejected with -1 |
| Backend.PostTodo | todo/backend/backend.go:102-111 | a failed decode changes nothing and keeps the counter; otherwise the todo gets the counter as its id, keeps the body's content, is stored at `Start` and returned as stored, and the counter advances |
| Backend.PostTodoFreshId | todo/backend/backend.go:102-111 | without wrap-around, a posted todo goes first, the list stays valid, ids stay unique and below the counter, and the stored todo is returned |
| Backend.UpdateThenMove | todo/backend/backend.go:143-152 | an update of an unknown id ends the request with the error and changes nothing |
| Backend.UpdateThenMoveKeepsValid | todo/backend/backend.go:143-152 | on a valid list, the order is unchanged without a move directive and moved one place with one; the list stays valid, and the returned todo has the update's content and belongs to this list |
| Backend.NewListTokenAccepted | todo/backend/helper.go:56-76 | every token a new list hands out, sent as "Bearer <token>", passes the token check and is given back |

## Left out

- HTTP handling, JSON decoding and logging are not modelled. A decoded body is a parameter: `Option<Payload>`, with None for a decode error.
- `crypto/rand` is not modelled. The 16 random bytes, or None for a failed read, are a parameter.
- `url.ParseQuery` is not modelled: the model starts from the extracted `id` value.
- `r.Header.Get` is not modelled: the model starts from the `Authorization` header text.
- Concurrency is not modelled. The Go store is shared between requests without locking; the model runs one operation at a time.
- The Go allocator is not modelled. The fresh cell of `AddTodo` is a parameter that must not be in the heap.
- Removed cells stay in the heap. Go keeps them reachable from stale pointers.
- A pointer to a cell outside the heap cannot occur in Go. The model's moves leave the list alone in that case.
- `Order` walks at most as many steps as there are cells. That is enough for every acyclic chain. The as-written moves can make a chain cyclic (see Findings); on such a chain `Order` is a bounded prefix of the endless walk.
- TodoLists.GetTodos: requires an acyclic chain, because the Go loop never ends on a cycle, and the as-written moves can make one (`MoveSequences.CyclicWalkEndless`).
- TodoLists.GetTodoById: requires an acyclic chain. On a cyclic chain the Go loop still returns when the id lies on the path before the cycle closes, but it never ends for an id off the path (`MoveSequences.CyclicLookupMisses`); the model covers neither case.
- TodoLists.Lookup: walks at most as many steps as there are cells. On a cyclic chain it, and so UpdateTodo, RemoveTodo and MoveTodo, report NotFound for an id off the walk, where the Go lookup (todoList.go:34-43, called at lines 91, 120 and 162) never returns. An id on the walk is found as in Go, because that many steps reach every distinct cell of the path.
- TodoLists.Unlink: writes `Start` of the receiver, where the Go code writes it through the removed todo's `List`. The two are the same list whenever the list is valid.
- Todos.CreateAllIdsIncrease: assumes the counter does not wrap. With wrap-around, ids repeat after 2^64 creations.
- Backend.PostTodoFreshId: assumes the counter does not wrap, for the same reason.
- Backend.UpdateThenMove: uses the corrected `FixedMoves.MoveTodoFixed`, while line 151 calls the as-written MoveTodo. `Backend.UpdateThenMoveKeepsValid` therefore holds for the corrected handler only; as written, a move keeps the list valid only at the tail (`ChainProofs.MoveUpValidIff`, `ChainProofs.MoveDownValidIff`).
- Backend.UpdateThenMove: stops after a failed update. In the Go handler, line 146 dereferences the nil result instead, which panics before the move. The store is left unchanged either way.
- The `fmt.Print` and error responses of `backend.go` are not modelled.
- Strings are sequences of characters, one per byte of the Go string. Token and header checks count characters.

## Findings

| source | as written | input that shows it | evidently intended | confidence | as-written member | corrected member |
|---|---|---|---|---|---|---|
| todo/stores/todoList.go:202-203 | MoveTodoUp relinks the moved todo and its predecessor but never sets the `Prev` of the todo after the pair, which keeps naming the moved todo | todos 1, 2, 3 in order. MoveTodo(2, up) reads 2, 1, 3 but todo 3's `Prev` is todo 2. RemoveTodo(3) then clears todo 2's `Next`, and the list shows only todo 2 | add `prevTodo.Next.Prev = prevTodo` when `prevTodo.Next` is not nil | not executed | FixedMoves.MoveUpThenRemoveLosesTodo | FixedMoves.MoveTodoUpFixedSwaps |
| todo/stores/todoList.go:234-235 | MoveTodoDown relinks the moved todo and its successor but never sets the `Prev` of the todo after the pair, which keeps naming the old successor | todos 1, 2, 3 in order. MoveTodo(1, down) reads 2, 1, 3 but todo 3's `Prev` is todo 2, where it should be todo 1 | add `todoToBeMoved.Next.Prev = todoToBeMoved` when `todoToBeMoved.Next` is not nil | not executed | ChainProofs.MoveDownValidIff | FixedMoves.MoveTodoDownFixedSwaps |
| todo/stores/todoList.go:193-203 | a move after the stale `Prev` of an earlier move or remove writes `Next` through that link; this can close a cycle, and GetTodos (lines 17-22) then never returns | todos 0 to 4 in order. Move 1 up, remove 1, move 3 up, move 4 up, move 2 up: the walk from `Start` reads 0, 2, 3, 4, 2, 3, 4, ... for ever | moves that keep every `Prev` exact, so that any sequence of requests leaves a valid, acyclic list | not executed | MoveSequences.StaleLinksMakeCycle | MoveSequences.FixedRequestsKeepValid |
