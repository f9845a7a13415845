/**
 The todo list held in the state of the `App` component: the record type, the
 three list operations (add, toggle, clear completed) and the "left to do"
 query. Every operation is a pure function from the old list to the new list.
 */
module Todos {

  /** An identifier as produced by the uuid library: an opaque string. */
  type Id = string

  /** One todo record `{id, name, complete}`. */
  datatype Todo = Todo(id: Id, name: string, complete: bool)

  /** `Some(x)`, or `None` for JavaScript's `undefined`. */
  datatype Option<T> = None | Some(value: T)

  /** True iff some record of the list carries `id`. */
  predicate HasId(todos: seq<Todo>, id: Id) {
    exists i :: 0 <= i < |todos| && todos[i].id == id
  }

  /** No two records of the list share an id. */
  predicate UniqueIds(todos: seq<Todo>) {
    forall i, j :: 0 <= i < j < |todos| ==> todos[i].id != todos[j].id
  }

  /** The ids of the list, in list order. */
  function Ids(todos: seq<Todo>): seq<Id> {
    seq(|todos|, i requires 0 <= i < |todos| => todos[i].id)
  }

  /** Position `k` holds the first record whose id is `id`. */
  predicate IsFirstWithId(todos: seq<Todo>, id: Id, k: int) {
    && 0 <= k < |todos|
    && todos[k].id == id
    && forall j :: 0 <= j < k ==> todos[j].id != id
  }

  /** `b` keeps some of the records of `a`, in their order in `a`. */
  predicate IsSubsequence(b: seq<Todo>, a: seq<Todo>)
    decreases |a|
  {
    if |b| == 0 then true
    else if |a| == 0 then false
    else (b[0] == a[0] && IsSubsequence(b[1..], a[1..])) || IsSubsequence(b, a[1..])
  }

  /** The record with its `complete` flag negated. */
  function Flip(t: Todo): (r: Todo)
    ensures r.id == t.id && r.name == t.name && r.complete != t.complete
  {
    t.(complete := !t.complete)
  }

  /**
   The position of the first record with the given id, as `Array.prototype.find`
   with `todo.id === id` locates it; `None` where `find` yields `undefined`.
   */
  function Find(todos: seq<Todo>, id: Id): (r: Option<nat>)
    ensures r.None? <==> !HasId(todos, id)
    ensures r.Some? ==> IsFirstWithId(todos, id, r.value)
  {
    if |todos| == 0 then None
    else if todos[0].id == id then Some(0)
    else
      match Find(todos[1..], id)
      case None =>
        assert forall i :: 1 <= i < |todos| ==> todos[i] == todos[1..][i - 1];
        None
      case Some(k) =>
        assert forall j :: 1 <= j < k + 1 ==> todos[j] == todos[1..][j - 1];
        Some(k + 1)
  }

  /**
   `toggleTodo(id)`: the first record with that id gets its `complete` flag
   negated, every other record stays as it was. The id must be present: the
   source dereferences the result of `find` without a check.
   */
  function Toggle(todos: seq<Todo>, id: Id): (r: seq<Todo>)
    requires HasId(todos, id)
    ensures |r| == |todos|
    ensures Ids(r) == Ids(todos)
    ensures forall k :: 0 <= k < |todos| ==> r[k].name == todos[k].name
    ensures forall k :: 0 <= k < |todos| ==>
              r[k] == if IsFirstWithId(todos, id, k) then Flip(todos[k]) else todos[k]
  {
    var k := Find(todos, id).value;
    todos[k := Flip(todos[k])]
  }

  /**
   `handleAddTodo` with the input's text `name` and the id `freshId` that
   `uuidv4()` would return: the empty name leaves the list alone, any other
   name (whitespace included) is appended as an incomplete record.
   */
  function Add(todos: seq<Todo>, name: string, freshId: Id): (r: seq<Todo>)
    ensures name == "" ==> r == todos
    ensures name != "" ==> |r| == |todos| + 1
    ensures name != "" ==> r[..|todos|] == todos
    ensures name != "" ==> r[|todos|] == Todo(freshId, name, false)
  {
    if name == "" then todos else todos + [Todo(freshId, name, false)]
  }

  /**
   `handleClearTodos`: `todos.filter(todo => !todo.complete)`, the incomplete
   records in their original order.
   */
  function ClearCompleted(todos: seq<Todo>): (r: seq<Todo>)
    ensures forall t :: t in r <==> t in todos && !t.complete
    ensures |r| <= |todos|
    ensures |r| == |todos| <==> forall i :: 0 <= i < |todos| ==> !todos[i].complete
    ensures (forall i :: 0 <= i < |todos| ==> !todos[i].complete) ==> r == todos
  {
    if |todos| == 0 then []
    else
      var rest := ClearCompleted(todos[1..]);
      assert forall i :: 1 <= i < |todos| ==> todos[i] == todos[1..][i - 1];
      assert todos == [todos[0]] + todos[1..];
      if todos[0].complete then rest else [todos[0]] + rest
  }

  /** The "left to do" figure: the number of incomplete records. */
  function IncompleteCount(todos: seq<Todo>): (n: nat)
    ensures n <= |todos|
    ensures n == |todos| <==> forall i :: 0 <= i < |todos| ==> !todos[i].complete
    ensures n == 0 <==> forall i :: 0 <= i < |todos| ==> todos[i].complete
  {
    var r := ClearCompleted(todos);
    assert forall i :: 0 <= i < |todos| && !todos[i].complete ==> todos[i] in r;
    assert r != [] ==> r[0] in todos && !r[0].complete;
    |r|
  }
}
