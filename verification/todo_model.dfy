/**
 The state of the todo application: the item record, the keyed collection of
 items, and the triple of shared state (collection, input buffer, id counter)
 that the root component owns.

 The collection is an immutable keyed map, so every mutation yields a new
 value and earlier snapshots are untouched; Dafny's `map` has exactly this
 value semantics. Iteration order of the collection is unspecified, so the
 model never exposes one.
 */
module TodoModel {

  /** One todo entry: the id it was created under and its text. */
  datatype TodoItem = TodoItem(id: nat, contents: string)

  /** The collection of entries, keyed by id. */
  type Todos = map<nat, TodoItem>

  /** The three pieces of state the root component owns:
      the collection, the text being typed, and the next id to hand out. */
  datatype State = State(todos: Todos, newTodoItem: string, todoId: nat)

  /** Every stored entry carries the id it is stored under. */
  ghost predicate KeysMatchIds(todos: Todos)
  {
    forall k :: k in todos ==> todos[k].id == k
  }

  /** Every stored key has already been handed out by the counter. */
  ghost predicate KeysBelow(todos: Todos, bound: nat)
  {
    forall k :: k in todos ==> k < bound
  }

  /** The state invariant every transition preserves. */
  ghost predicate Valid(s: State)
  {
    KeysMatchIds(s.todos) && KeysBelow(s.todos, s.todoId)
  }

  /** The state the application starts in: no entries, nothing typed, and
      the counter at zero. */
  function Init(): (s: State)
    ensures Valid(s)
    ensures |s.todos| == 0 && |s.newTodoItem| == 0 && s.todoId == 0
  {
    State(map[], "", 0)
  }

  /** In a valid state the counter is a fresh key: inserting at it can never
      overwrite an existing entry. */
  lemma CounterIsFresh(s: State)
    requires Valid(s)
    ensures s.todoId !in s.todos
    ensures forall k :: k in s.todos ==> s.todos[k].id != s.todoId
  {
  }
}
