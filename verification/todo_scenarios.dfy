/**
 Concrete runs of the application from its initial state, one per usage
 scenario: typing then pressing Enter, removing, and the ignored inputs.
 */
module TodoScenarios {
  import opened TodoModel
  import opened TodoApp

  /** Typing "Buy milk" and pressing Enter stores it under id 0 and clears
      the buffer. */
  lemma SubmitOne()
    ensures Run(Init(), [Input("Buy milk"), KeyDown(true)])
            == State(map[0 := TodoItem(0, "Buy milk")], "", 1)
  {
  }

  /** Two submits get ids 0 and 1; removing 0 and submitting again uses id 2,
      never 0. */
  lemma SubmitTwoRemoveOneSubmitAgain()
    ensures Run(Init(), [Input("A"), KeyDown(true), Input("B"), KeyDown(true)])
            == State(map[0 := TodoItem(0, "A"), 1 := TodoItem(1, "B")], "", 2)
    ensures Run(Init(), [Input("A"), KeyDown(true), Input("B"), KeyDown(true), Remove(0), Input("C"), KeyDown(true)])
            == State(map[1 := TodoItem(1, "B"), 2 := TodoItem(2, "C")], "", 3)
  {
    var first := [Input("A"), KeyDown(true), Input("B"), KeyDown(true)];
    var rest := [Remove(0), Input("C"), KeyDown(true)];
    var s2 := State(map[0 := TodoItem(0, "A"), 1 := TodoItem(1, "B")], "", 2);
    assert Run(Init(), first) == s2;
    RunAppend(Init(), first, rest);
    assert first + rest == [Input("A"), KeyDown(true), Input("B"), KeyDown(true), Remove(0), Input("C"), KeyDown(true)];
    assert Step(s2, Remove(0)).todos == map[1 := TodoItem(1, "B")];
  }

  /** Enter on an empty field stores nothing and keeps the counter at 0. */
  lemma SubmitEmpty()
    ensures Run(Init(), [Input(""), KeyDown(true)]) == Init()
  {
  }

  /** A whitespace-only entry is accepted and stored as typed. */
  lemma SubmitWhitespace()
    ensures Run(Init(), [Input("  "), KeyDown(true)]).todos == map[0 := TodoItem(0, "  ")]
  {
  }

  /** Removing an id that was never created leaves the state as it was. */
  lemma RemoveAbsent()
    ensures Run(Init(), [Remove(99)]) == Init()
  {
  }
}
