/**
 * What the toggler and the footer display, derived from the todo list alone
 * on every render.
 */
module Views {
  import opened Todos
  import opened TodoLists

  /** The "mark all as complete" toggle: hidden, or shown with its checkbox state. */
  datatype TogglerView = TogglerHidden | TogglerShown(checked: bool)

  /** The toggle is hidden on an empty list; its box is checked when no todo is active. */
  function Toggler(ts: TodoList): (v: TogglerView)
    ensures v.TogglerHidden? <==> ts == []
    ensures v.TogglerShown? ==> (v.checked <==> ActiveCount(ts) == 0)
  {
    AllCompletedIff(ts);
    if |ts| == 0 then TogglerHidden else TogglerShown(AllCompleted(ts))
  }

  /**
   * The footer: hidden, or shown with the number of items left, the word
   * after it and whether the clear-completed button appears.
   */
  datatype FooterView = FooterHidden | FooterShown(itemsLeft: nat, word: string, clearButton: bool)

  /**
   * The footer is hidden on an empty list. Otherwise the items left and the
   * completed todos add up to the list's length, the word is the singular
   * exactly when one item is left, and the clear button appears exactly when
   * some todo is completed.
   */
  function Footer(ts: TodoList): (v: FooterView)
    ensures v.FooterHidden? <==> ts == []
    ensures v.FooterShown? ==> v.itemsLeft + CompletedCount(ts) == |ts|
    ensures v.FooterShown? ==> (v.word == "item" <==> v.itemsLeft == 1) && (v.word == "item" || v.word == "items")
    ensures v.FooterShown? ==> (v.clearButton <==> exists t :: t in ts && t.completed)
  {
    ActiveCompletedPartition(ts);
    if |ts| == 0 then FooterHidden
    else
      var aLen := ActiveCount(ts);
      var cLen := CompletedCount(ts);
      assert cLen > 0 ==> CompletedTodos(ts)[0] in CompletedTodos(ts);
      FooterShown(aLen, if aLen == 1 then "item" else "items", cLen > 0)
  }

  /**
   * In the initial state every todo is vacuously completed, both counts are
   * zero and the toggler and the footer are hidden.
   */
  lemma InitialViews()
    ensures AllCompleted(InitialTodos)
    ensures ActiveCount(InitialTodos) == 0 && CompletedCount(InitialTodos) == 0
    ensures Toggler(InitialTodos) == TogglerHidden && Footer(InitialTodos) == FooterHidden
  {
  }
}
