# Todo list state of the simple React app

This project models the todo-list state kept by the `App` component of
`simple-react-app`. The state is an ordered list of records `{id, name, complete}`.
Three handlers change it and one expression reads it:

- `handleAddTodo` appends a new incomplete record, unless the input's text is exactly `''`.
- `toggleTodo(id)` negates the `complete` flag of the first record with that id.
- `handleClearTodos` keeps only the records that are not complete.
- The "left to do" line shows the number of incomplete records.

Each handler is a pure function from the old list to the new one, over `seq<Todo>`:

- `todos.dfy` (module `Todos`) holds the record type and the operations.
- `properties.dfy` (module `TodoProperties`) holds the lemmas about ids, order and counts.
- `session.dfy` (module `Session`) runs a sequence of user intents through the operations.
  It proves that distinct ids stay distinct over a whole session, and it replays a sample
  session ("Buy milk", "Walk dog").

Two behaviours of the code are easy to miss:

- The add handler does not trim the name. Only the empty string is refused, so a name of
  spaces is added.
- Toggling an id that is not in the list is not a quiet no-op. `find` yields `undefined`
  and the next line dereferences it, so the handler throws. `Todos.Toggle` therefore
  requires the id to be present (`HasId`), and `Session.CanRun` requires the same of
  every toggle in a run.

The id that `uuidv4()` would produce is an input of `Todos.Add`. The code never checks that
the id is new, so `Add` has no precondition. Freshness is assumed only where distinct ids are
concluded: it is a precondition of the lemma `AddPreservesUniqueIds`, and a hypothesis in the
contracts of `Session.Step` (through the predicate `Session.FreshFor`) and `Session.Run`
(through the predicate `Session.FreshThroughout`).

## Model

| member | source | states |
|---|---|---|
| `Todos.Find` | simple-react-app/src/App.js:44 | the result is absent exactly when no record has the id; otherwise it is the position of the first record whose id matches |
| `Todos.Toggle` | simple-react-app/src/App.js:36-47 | for a present id, the list keeps its length, its ids in order and its names; the first record with the id has `complete` negated and every other record is identical |
| `Todos.Add` | simple-react-app/src/App.js:56-68 | the name `""` leaves the list unchanged; any other name gives a list one longer whose earlier records are the old list and whose last record is `{freshId, name, false}` |
| `Todos.ClearCompleted` | simple-react-app/src/App.js:72-75 | a record is in the result iff it is in the list and not complete; the result is as long as the list iff no record is complete, and then it is the list itself |
| `Todos.IncompleteCount` | simple-react-app/src/App.js:88 | the count is at most the length; it equals the length iff no record is complete, and it is 0 iff every record is complete |
| `TodoProperties.AddPreservesUniqueIds` | simple-react-app/src/App.js:63 | adding with an id not yet in the list keeps all ids distinct, and a non-empty name puts that id in the list |
| `TodoProperties.AddIncompleteCount` | simple-react-app/src/App.js:59-63 | adding a non-empty name raises the incomplete count by one; the empty name leaves it unchanged |
| `TodoProperties.ToggleInvolution` | simple-react-app/src/App.js:44-45 | toggling the same present id twice gives back the original list |
| `TodoProperties.TogglePreservesUniqueIds` | simple-react-app/src/App.js:38-46 | toggling keeps distinct ids distinct |
| `TodoProperties.ToggleFlipsExactlyTheMatchingRecord` | simple-react-app/src/App.js:44-45 | when ids are distinct, the toggled record is the only record carrying the id, and every other record is unchanged |
| `TodoProperties.ToggleIncompleteCount` | simple-react-app/src/App.js:45 | toggling a complete record raises the incomplete count by one, and toggling an incomplete record lowers it by one |
| `TodoProperties.CountAfterUpdate` | simple-react-app/src/App.js:88 | replacing one record changes the incomplete count only by the difference between the old record's contribution and the new one's |
| `TodoProperties.ClearCompletedAppend` | simple-react-app/src/App.js:73 | filtering a concatenation is the concatenation of the filtered parts |
| `TodoProperties.ClearCompletedIdempotent` | simple-react-app/src/App.js:73 | clearing completed records twice gives the same list as clearing once |
| `TodoProperties.ClearCompletedLeavesOnlyOpen` | simple-react-app/src/App.js:88 | after a clear, the incomplete count equals the list length and equals the count before the clear |
| `TodoProperties.ClearCompletedPreservesUniqueIds` | simple-react-app/src/App.js:72-75 | clearing keeps distinct ids distinct |
| `TodoProperties.ClearCompletedKeepsOrder` | simple-react-app/src/App.js:73 | the records that survive a clear keep their original relative order |
| `TodoProperties.OpenSubsequenceBound` | simple-react-app/src/App.js:73 | a list of incomplete records picked in order from the list is no longer than the incomplete count |
| `TodoProperties.MaximalOpenSubsequenceIsClear` | simple-react-app/src/App.js:73 | a list that picks incomplete records from the list in order, and is as long as the incomplete count, is the clear's result |
| `TodoProperties.ClearCompletedIsTheFilter` | simple-react-app/src/App.js:73 | a list is the clear's result iff it picks records from the list in order, all of them incomplete, and no such in-order selection of incomplete records is longer; so the clear returns exactly the incomplete records, duplicates included, in their original order |
| `Session.Step` | simple-react-app/src/App.js:36-75 | one add, toggle or clear keeps ids distinct when an added id is fresh; after a clear the count equals the length; add and toggle never shorten the list |
| `Session.Run` | simple-react-app/src/App.js:36-75 | over any run of enabled intents whose adds bring fresh ids, distinct ids stay distinct |
| `Session.BuyMilkWalkDog` | simple-react-app/src/App.js:36-88 | adding "Buy milk" and "Walk dog", ticking "Buy milk" and clearing leaves only the incomplete "Walk dog", with a count of 1 |

## Left out

- Persistence (simple-react-app/src/App.js:25-32) is left out. It reads and writes the browser's `localStorage` through `JSON.parse` and `JSON.stringify`, which are foreign calls. The load effect also passes `null` to `setTodos` when the key is absent.
- `uuidv4()` is left out because it is a foreign random source. Its result is the `freshId` parameter of `Todos.Add`.
- Reading and clearing the input field through `useRef` (simple-react-app/src/App.js:56, 69) is DOM access. The text read is the `name` parameter of `Todos.Add`.
- The JSX (simple-react-app/src/App.js:78-99), `TodoList.js` and `Todo.js` are left out. They render the list and forward a record's id to `toggleTodo`, and do no state logic.
- React's update scheduling is left out: the functional `setTodos` updater of the add handler versus the direct value of the other two. Each handler is one atomic step from old list to new list.
- `Todos.Toggle` uses value semantics. The source copies the array shallowly and then mutates the shared record object in place, so the previous state's record changes too. Only the new list is modelled.
- `Async JavaScript/callbacks.js` is left out. It is an unfinished timer stub with no behaviour.
