/**
 The input component: the text field's two event handlers.

 Typing replaces the buffer with the field's whole current value. Pressing a
 key submits only when the key is Enter and the buffer is not the empty
 string; a submit stores the buffer, untrimmed, under the current counter,
 advances the counter by one and clears the buffer. Key decoding is
 abstracted to one boolean saying whether the key was Enter.
 */
module TodoInput {
  import opened TodoModel

  /** The guard of the key handler: Enter on a non-empty buffer.
      Only the exact empty string is rejected. */
  predicate Submits(s: State, isEnter: bool)
  {
    isEnter && s.newTodoItem != ""
  }

  /** The field's input handler: the buffer becomes the event's value. */
  function OnInput(s: State, value: string): (r: State)
    ensures r.newTodoItem == value
    ensures r.todos == s.todos && r.todoId == s.todoId
    ensures Valid(s) ==> Valid(r)
  {
    s.(newTodoItem := value)
  }

  /** The field's key handler. */
  function OnKeyDown(s: State, isEnter: bool): (r: State)
    // the counter moves exactly when an item is created
    ensures r.todoId != s.todoId <==> isEnter && |s.newTodoItem| > 0
    // otherwise nothing at all changes, so no id is consumed
    ensures !(isEnter && |s.newTodoItem| > 0) ==> r == s
    // a submit adds exactly the counter's key, holding the buffer verbatim
    ensures isEnter && |s.newTodoItem| > 0 ==>
              && r.todos.Keys == s.todos.Keys + {s.todoId}
              && r.todos[s.todoId].id == s.todoId
              && r.todos[s.todoId].contents == s.newTodoItem
              && r.todoId == s.todoId + 1
              && r.newTodoItem == ""
    // and leaves every other entry as it was
    ensures forall k :: k in s.todos && k != s.todoId ==> k in r.todos && r.todos[k] == s.todos[k]
    ensures Valid(s) ==> Valid(r)
  {
    if Submits(s, isEnter) then
      State(s.todos[s.todoId := TodoItem(s.todoId, s.newTodoItem)], "", s.todoId + 1)
    else
      s
  }

  /** From a valid state a submit never overwrites: the collection grows by
      one entry and every earlier entry survives unchanged. The second clause
      restates `OnKeyDown`'s frame clause with `CounterIsFresh` folded in. */
  lemma SubmitNeverOverwrites(s: State)
    requires Valid(s) && |s.newTodoItem| > 0
    ensures |OnKeyDown(s, true).todos| == |s.todos| + 1
    ensures forall k :: k in s.todos ==> OnKeyDown(s, true).todos[k] == s.todos[k]
  {
  }
}
