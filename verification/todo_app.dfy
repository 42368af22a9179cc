/**
 The application as a whole: a sequential state machine driven by the three
 kinds of user event the components handle. Each handler runs to completion
 before the next event, so a run of the application is a left fold of the
 handlers over a sequence of events, starting from `Init()`.
 */
module TodoApp {
  import opened TodoModel
  import opened TodoInput
  import opened TodoList

  /** The user events that reach a handler. */
  datatype Event =
    | Input(value: string)     // the text field's value changed
    | KeyDown(isEnter: bool)   // a key was pressed in the text field
    | Remove(id: nat)          // the remove control of row `id` was clicked

  /** Dispatches one event to its handler. */
  function Step(s: State, e: Event): (r: State)
  {
    match e
    case Input(value) => OnInput(s, value)
    case KeyDown(isEnter) => OnKeyDown(s, isEnter)
    case Remove(id) => OnRemove(s, id)
  }

  /** True when event `e` creates an item in state `s`. */
  predicate Creates(s: State, e: Event)
  {
    e.KeyDown? && Submits(s, e.isEnter)
  }

  /** The state after handling `events` in order. */
  function Run(s: State, events: seq<Event>): (r: State)
    decreases |events|
  {
    if |events| == 0 then s else Run(Step(s, events[0]), events[1..])
  }

  /** The ids of the items `events` create, in the order they are created. */
  function Issued(s: State, events: seq<Event>): (ids: seq<nat>)
    decreases |events|
  {
    if |events| == 0 then []
    else (if Creates(s, events[0]) then [s.todoId] else []) + Issued(Step(s, events[0]), events[1..])
  }

  /** Handling `a + b` is handling `a`, then `b` from where `a` left off. */
  lemma {:induction false} RunAppend(s: State, a: seq<Event>, b: seq<Event>)
    ensures Run(s, a + b) == Run(Run(s, a), b)
    decreases |a|
  {
    if |a| > 0 {
      assert (a + b)[0] == a[0];
      assert (a + b)[1..] == a[1..] + b;
      RunAppend(Step(s, a[0]), a[1..], b);
    } else {
      assert a + b == b;
    }
  }

  /** Every handler keeps the state invariant: each entry is stored under its
      own id and every key lies below the counter. */
  lemma StepPreservesValid(s: State, e: Event)
    requires Valid(s)
    ensures Valid(Step(s, e))
    ensures Step(s, e).todoId >= s.todoId
  {
  }

  /** Any run from a valid state ends in a valid state. */
  lemma {:induction false} RunPreservesValid(s: State, events: seq<Event>)
    requires Valid(s)
    ensures Valid(Run(s, events))
    decreases |events|
  {
    if |events| > 0 {
      StepPreservesValid(s, events[0]);
      RunPreservesValid(Step(s, events[0]), events[1..]);
    }
  }

  /** Every state the application can reach satisfies the invariant. */
  lemma ReachableIsValid(events: seq<Event>)
    ensures Valid(Run(Init(), events))
  {
    RunPreservesValid(Init(), events);
  }

  /** The created ids are consecutive counter values in creation order, and
      the counter ends exactly that many ids further on; removals in between
      change nothing about this. */
  lemma {:induction false} IssuedIsConsecutive(s: State, events: seq<Event>)
    ensures Run(s, events).todoId == s.todoId + |Issued(s, events)|
    ensures forall i :: 0 <= i < |Issued(s, events)| ==> Issued(s, events)[i] == s.todoId + i
    decreases |events|
  {
    if |events| > 0 {
      var s' := Step(s, events[0]);
      IssuedIsConsecutive(s', events[1..]);
      assert s'.todoId == if Creates(s, events[0]) then s.todoId + 1 else s.todoId;
    }
  }

  /** From the start, the n created items get ids 0, 1, ..., n-1. */
  lemma IssuedFromInit(events: seq<Event>)
    ensures |Issued(Init(), events)| == Run(Init(), events).todoId
    ensures forall i :: 0 <= i < |Issued(Init(), events)| ==> Issued(Init(), events)[i] == i
  {
    IssuedIsConsecutive(Init(), events);
  }

  /** Ids are never reused: created ids are pairwise distinct, and none of
      them was handed out before the run began, even if the item it named
      has since been removed. */
  lemma IdsNeverReused(s: State, events: seq<Event>)
    ensures forall i, j :: 0 <= i < j < |Issued(s, events)| ==> Issued(s, events)[i] != Issued(s, events)[j]
    ensures forall i :: 0 <= i < |Issued(s, events)| ==> Issued(s, events)[i] >= s.todoId
  {
    IssuedIsConsecutive(s, events);
  }

  /** A removed id never comes back: once a key below the counter is absent,
      no later event puts it back in the collection. */
  lemma {:induction false} RemovedStaysRemoved(s: State, events: seq<Event>, k: nat)
    requires k < s.todoId && k !in s.todos
    ensures k !in Run(s, events).todos
    decreases |events|
  {
    if |events| > 0 {
      RemovedStaysRemoved(Step(s, events[0]), events[1..], k);
    }
  }

  /** Items are never edited: an entry present now is, in any later state,
      either gone or exactly as it was. */
  lemma {:induction false} ItemsNeverChange(s: State, events: seq<Event>, k: nat)
    requires Valid(s) && k in s.todos
    ensures k in Run(s, events).todos ==> Run(s, events).todos[k] == s.todos[k]
    decreases |events|
  {
    if |events| > 0 {
      var s' := Step(s, events[0]);
      StepPreservesValid(s, events[0]);
      if k in s'.todos {
        ItemsNeverChange(s', events[1..], k);
      } else {
        RemovedStaysRemoved(s', events[1..], k);
      }
    }
  }

  /** An Enter on an empty buffer, or any other key, changes nothing on any
      state, so no id is consumed: `OnKeyDown`'s no-op clause restated for a
      run of one event. */
  lemma IgnoredKeyIsNoOp(s: State, isEnter: bool)
    requires !isEnter || s.newTodoItem == ""
    ensures Run(s, [KeyDown(isEnter)]) == s
  {
  }
}
