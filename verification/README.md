# Todo list state machine

A Dafny model of the state logic of a small single-page todo application
written in Rust with the Dioxus UI framework. Stripped of its markup, the
application is a sequential state machine over three pieces of state owned by
the root component:

- `todos`: an immutable keyed collection from numeric id to `TodoItem { id, contents }`;
- `new_todo_item`: the text currently typed in the input field;
- `todo_id`: the counter that supplies the id of the next item.

Three event handlers change it: typing replaces the buffer, pressing Enter on a
non-empty buffer stores the buffer under the counter's value, advances the
counter and clears the buffer, and a row's remove button deletes that row's
key. The list view enumerates the collection's keys and each row indexes the
collection with its own key.

Modules, following the source's components:

- `TodoModel` (`todo_model.dfy`): the item record, the collection, the state
  triple, the initial state and the state invariant `Valid` (every entry is
  stored under its own id, and every key is below the counter).
- `TodoInput` (`todo_input.dfy`): the input field's `oninput` and `onkeydown`
  handlers.
- `TodoList` (`todo_list.dfy`): the list rendering, the row lookup and the
  row's remove handler.
- `TodoApp` (`todo_app.dfy`): events, runs of the application as a fold of the
  handlers over an event sequence, and the lemmas about such runs (the
  invariant, ids issued as 0, 1, 2, … and never reused, removed ids never
  returning, items never edited).
- `TodoScenarios` (`todo_scenarios.dfy`): concrete runs from the initial state.

The collection is modelled as a Dafny `map`, which is a value: every mutation
yields a new map and earlier snapshots are unaffected, as with the persistent
hash map the source uses. Its iteration order is not modelled; the list
rendering picks keys in an arbitrary order and its contract says only which
rows appear. Keyboard decoding is abstracted to one boolean, "the key was
Enter".

A row indexes the collection directly (src/lib.rs:110), which panics on an
absent key; `TodoList.RowLookup` therefore requires the key to be present, and
`TodoList.ListRows` shows that every row the list creates meets that.

## Model

| member | source | states |
|---|---|---|
| `TodoModel.Init` | src/lib.rs:17-25 | The application starts with no entries, an empty buffer and a counter of 0, and this state satisfies the invariant. |
| `TodoModel.CounterIsFresh` | src/lib.rs:65-72 | In a valid state the counter is not a key and no entry carries it as id, so the insert at the counter never overwrites. |
| `TodoInput.OnInput` | src/lib.rs:62 | Typing sets the buffer to exactly the field's full value; collection and counter are unchanged; the invariant is kept. |
| `TodoInput.OnKeyDown` | src/lib.rs:63-74 | The counter moves if and only if the key is Enter and the buffer is not the empty string; otherwise the state is unchanged. On a submit, the keys grow by exactly the old counter, whose entry has that id and the buffer verbatim (whitespace included); the counter rises by one and the buffer is cleared; every other entry is unchanged; the invariant is kept. |
| `TodoInput.SubmitNeverOverwrites` | src/lib.rs:65-71 | From a valid state a submit grows the collection by exactly one entry and every earlier entry survives unchanged. |
| `TodoList.RowLookup` | src/lib.rs:109-110 | A row's lookup needs its key to be present (indexing panics otherwise); it returns a stored entry, and under the invariant that entry's id is the row's key. |
| `TodoList.ListRows` | src/lib.rs:90-93 | Through `RendersKeys` over all the keys: the list renders one row per key of the collection, no key twice, each row's key present (so its lookup is safe) and each row showing its own entry's text. |
| `TodoList.OnRemove` | src/lib.rs:118-120 | Removing deletes exactly the given key, leaves the other entries, the counter and the buffer untouched, is a no-op on an absent key, and keeps the invariant. |
| `TodoList.RemoveIdempotent` | src/lib.rs:119 | Removing the same id twice equals removing it once. |
| `TodoList.RemoveCommutes` | src/lib.rs:119 | Removals of two ids give the same state in either order. |
| `TodoApp.RunAppend` | src/lib.rs:62-119 | Handling two event sequences back to back is handling the first, then the second from the state it left. |
| `TodoApp.StepPreservesValid` | src/lib.rs:62-119 | Each of the three handlers keeps the invariant and never lowers the counter. |
| `TodoApp.RunPreservesValid` | src/lib.rs:62-119 | Any sequence of events from a valid state ends in a valid state. |
| `TodoApp.ReachableIsValid` | src/lib.rs:17-119 | Every state reachable from the initial state stores each entry under its own id with every key below the counter. |
| `TodoApp.IssuedIsConsecutive` | src/lib.rs:65-72 | The ids created by a run are the consecutive counter values in creation order, and the counter ends exactly that many further on, whatever removals happen in between. |
| `TodoApp.IssuedFromInit` | src/lib.rs:25-72 | From the start, the n items created get ids 0, 1, …, n-1, and the counter equals n. |
| `TodoApp.IdsNeverReused` | src/lib.rs:65-72 | Ids created by a run are pairwise distinct and none is below the counter the run began with, so no earlier id, even a removed one, is reissued. |
| `TodoApp.RemovedStaysRemoved` | src/lib.rs:65-119 | A key below the counter that is absent stays absent after any sequence of events. |
| `TodoApp.ItemsNeverChange` | src/lib.rs:65-119 | An entry present in a valid state is, in any later state, either gone or exactly as it was. |
| `TodoApp.IgnoredKeyIsNoOp` | src/lib.rs:63-64 | A non-Enter key, or Enter on an empty buffer, leaves the whole state unchanged. |
| `TodoScenarios.SubmitOne` | src/lib.rs:62-73 | Typing "Buy milk" then Enter yields exactly `{0: "Buy milk"}`, an empty buffer and counter 1. |
| `TodoScenarios.SubmitTwoRemoveOneSubmitAgain` | src/lib.rs:62-119 | Submitting "A" and "B" yields `{0: "A", 1: "B"}` with counter 2; removing 0 and submitting "C" yields `{1: "B", 2: "C"}`, so id 0 is not reused. |
| `TodoScenarios.SubmitEmpty` | src/lib.rs:64 | Enter on an empty field leaves the initial state unchanged. |
| `TodoScenarios.SubmitWhitespace` | src/lib.rs:64-69 | A whitespace-only entry is stored, untrimmed. |
| `TodoScenarios.RemoveAbsent` | src/lib.rs:119 | Removing an id that does not exist leaves the state unchanged. |

## Left out

- Rendering: the `rsx!`/`render!` markup, the stylesheet, `autofocus` and `cx.render` have no state behaviour; only which rows the list produces and what text each shows is modelled.
- Hook semantics of `use_ref`/`use_state`: re-render scheduling, borrow guards and keyed reconciliation belong to the framework. The model assumes each handler sees the state left by the previous one; in particular it does not model a `use_state` value read before the root component re-renders. `todo_id` is a `use_state` whose `get()` returns the value from the root's last render (src/lib.rs:25, 66-68). The buffer is a `use_ref` that a submit clears at once (src/lib.rs:73). So if an Enter, a new input and a second Enter are all handled before `app` re-renders, the second submit inserts at the same counter value and overwrites the first item, and the counter advances only once. `TodoInput.OnKeyDown`'s submit clause, `TodoInput.SubmitNeverOverwrites`, `TodoApp.ItemsNeverChange`, `TodoApp.IssuedIsConsecutive`, `TodoApp.IssuedFromInit` and `TodoApp.IdsNeverReused` describe the program only when the root re-renders between submits.
- The persistent hash map's internals and iteration order: the collection is a Dafny `map`, and the list's order is arbitrary.
- Keyboard event decoding (`event.key()`, `Key::Enter`): abstracted to a boolean.
- `TodoInput.OnKeyDown`: the counter is unbounded; the source's counter is a `u32`, and `todo_id + 1` at 4294967295 would panic in a debug build or wrap to 0 in a release build. Reaching it takes 2^32 submits, so the model does not bound it.
- `TodoList.RowLookup`: the panic of a row whose key is absent is not modelled as an outcome; the lookup requires the key instead.
