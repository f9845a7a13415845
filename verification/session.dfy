/**
 A session of the `App` component: the list starts as some state and each user
 intent (add, toggle, clear completed) replaces it with the operation's result.
 */
module Session {
  import opened Todos
  import opened TodoProperties

  /** What the view forwards to the state: the three buttons and checkboxes. */
  datatype Intent =
    | AddTodo(name: string, freshId: Id)
    | ToggleTodo(id: Id)
    | ClearTodos

  /** The intent runs without the source throwing: a toggle names a present id. */
  predicate Enabled(todos: seq<Todo>, intent: Intent) {
    intent.ToggleTodo? ==> HasId(todos, intent.id)
  }

  /** An add brings an id the list does not hold yet. */
  predicate FreshFor(todos: seq<Todo>, intent: Intent) {
    intent.AddTodo? ==> !HasId(todos, intent.freshId)
  }

  /** One state update, the list the next render sees. */
  function Step(todos: seq<Todo>, intent: Intent): (r: seq<Todo>)
    requires Enabled(todos, intent)
    ensures UniqueIds(todos) && FreshFor(todos, intent) ==> UniqueIds(r)
    ensures intent.ClearTodos? ==> IncompleteCount(r) == |r|
    ensures !intent.ClearTodos? ==> |r| >= |todos|
  {
    match intent
    case AddTodo(name, freshId) =>
      assert UniqueIds(todos) && !HasId(todos, freshId) ==> UniqueIds(Add(todos, name, freshId)) by {
        if UniqueIds(todos) && !HasId(todos, freshId) {
          AddPreservesUniqueIds(todos, name, freshId);
        }
      }
      Add(todos, name, freshId)
    case ToggleTodo(id) =>
      assert UniqueIds(todos) ==> UniqueIds(Toggle(todos, id)) by {
        if UniqueIds(todos) {
          TogglePreservesUniqueIds(todos, id);
        }
      }
      Toggle(todos, id)
    case ClearTodos =>
      assert UniqueIds(todos) ==> UniqueIds(ClearCompleted(todos)) by {
        if UniqueIds(todos) {
          ClearCompletedPreservesUniqueIds(todos);
        }
      }
      ClearCompletedLeavesOnlyOpen(todos);
      ClearCompleted(todos)
  }

  /** Every intent of the run is enabled in the state it meets. */
  predicate CanRun(todos: seq<Todo>, intents: seq<Intent>)
    decreases |intents|
  {
    |intents| == 0 ||
    (Enabled(todos, intents[0]) && CanRun(Step(todos, intents[0]), intents[1..]))
  }

  /** Every add of the run brings an id not held by the state it meets. */
  predicate FreshThroughout(todos: seq<Todo>, intents: seq<Intent>)
    requires CanRun(todos, intents)
    decreases |intents|
  {
    |intents| == 0 ||
    (FreshFor(todos, intents[0]) && FreshThroughout(Step(todos, intents[0]), intents[1..]))
  }

  /** The list after the whole run. Distinct ids stay distinct when every add is fresh. */
  function Run(todos: seq<Todo>, intents: seq<Intent>): (r: seq<Todo>)
    requires CanRun(todos, intents)
    ensures UniqueIds(todos) && FreshThroughout(todos, intents) ==> UniqueIds(r)
    decreases |intents|
  {
    if |intents| == 0 then todos
    else Run(Step(todos, intents[0]), intents[1..])
  }

  /**
   A sample session: add "Buy milk", add "Walk dog", tick
   "Buy milk", clear completed; "Walk dog" alone is left, one to do.
   */
  lemma BuyMilkWalkDog()
    ensures var intents := [AddTodo("Buy milk", "id-1"), AddTodo("Walk dog", "id-2"),
                            ToggleTodo("id-1"), ClearTodos];
            && CanRun([], intents)
            && Run([], intents) == [Todo("id-2", "Walk dog", false)]
            && IncompleteCount(Run([], intents)) == 1
  {
    var s1 := Step([], AddTodo("Buy milk", "id-1"));
    assert s1 == [Todo("id-1", "Buy milk", false)];
    var s2 := Step(s1, AddTodo("Walk dog", "id-2"));
    assert s2 == [Todo("id-1", "Buy milk", false), Todo("id-2", "Walk dog", false)];
    assert s2[0].id == "id-1";
    var s3 := Step(s2, ToggleTodo("id-1"));
    assert IsFirstWithId(s2, "id-1", 0);
    assert s3 == [Todo("id-1", "Buy milk", true), Todo("id-2", "Walk dog", false)];
    var s4 := Step(s3, ClearTodos);
    assert s4 == [Todo("id-2", "Walk dog", false)];
  }
}
