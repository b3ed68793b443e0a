/**
 * The application state and its handlers. Each handler is one atomic
 * transition of the todo list, the filter and the header text.
 */
module App {
  import opened Todos
  import opened Filters
  import opened TodoLists
  import opened EditDrafts

  class TodoApp {
    var todos: TodoList
    var filter: Filter
    var headerText: string

    /** The todos carry distinct ids, so each item names exactly one todo. */
    ghost predicate Valid()
      reads this
    {
      UniqueIds(todos)
    }

    /** The stores' initial values: no todos, every todo shown, an empty header. */
    constructor ()
      ensures Valid()
      ensures todos == InitialTodos && filter == InitialFilter && headerText == ""
      ensures VisibleTodos() == todos
    {
      todos := InitialTodos;
      filter := InitialFilter;
      headerText := "";
    }

    /**
     * The todos the list view renders: an order-preserving subsequence of
     * the list holding exactly the todos the current filter lets through,
     * the whole list under the `All` filter.
     */
    function VisibleTodos(): (r: TodoList)
      reads this
      ensures IsSubsequence(r, todos)
      ensures forall t :: t in r <==> t in todos && Shows(filter, t)
      ensures filter == All ==> r == todos
    {
      VisibleAllIsWhole(todos);
      Visible(todos, filter)
    }

    /** Typing in the header field. */
    method HeaderInput(text: string)
      requires Valid()
      modifies this
      ensures Valid()
      ensures headerText == text && todos == old(todos) && filter == old(filter)
    {
      headerText := text;
    }

    /**
     * A key released in the header field. Enter with a non-empty header text
     * appends one active todo with that text under the fresh id and clears
     * the header; Enter with an empty text raises the alert (`alerted`) and
     * changes nothing; any other key changes nothing.
     */
    method HeaderKeyUp(key: string, freshId: TodoId) returns (alerted: bool)
      requires Valid()
      requires !HasId(todos, freshId)
      modifies this
      ensures Valid()
      ensures filter == old(filter)
      ensures alerted <==> key == "Enter" && old(headerText) == ""
      ensures key == "Enter" && old(headerText) != "" ==>
        todos == old(todos) + [Todo(freshId, old(headerText), false)] && headerText == ""
      ensures key != "Enter" || old(headerText) == "" ==>
        todos == old(todos) && headerText == old(headerText)
    {
      alerted := false;
      if key != "Enter" {
        return;
      }
      if headerText == "" {
        alerted := true;
        return;
      }
      var todo := Todo(freshId, headerText, false);
      todos := todos + [todo];
      headerText := "";
    }

    /** The item's checkbox: flip the completion flag of the todo with this id. */
    method Toggle(id: TodoId)
      requires Valid()
      modifies this
      ensures Valid()
      ensures todos == Toggled(old(todos), id)
      ensures filter == old(filter) && headerText == old(headerText)
    {
      ToggleFlipsOnlyTarget(todos, id);
      var i := IndexOf(todos, id);
      if i >= 0 {
        todos := todos[i := todos[i].(completed := !todos[i].completed)];
      }
    }

    /** The item's destroy button: remove the todo with this id, if it is still there. */
    method Remove(id: TodoId)
      requires Valid()
      modifies this
      ensures Valid()
      ensures todos == Removed(old(todos), id)
      ensures filter == old(filter) && headerText == old(headerText)
    {
      RemoveExactlyTarget(todos, id);
      var i := IndexOf(todos, id);
      if i >= 0 {
        todos := todos[..i] + todos[i + 1..];
      }
    }

    /**
     * Submitting an item's edit (Enter or leaving the field). An empty draft
     * removes the todo and leaves the draft alone; otherwise the todo's
     * content becomes the draft and editing ends with an empty draft.
     */
    method SubmitEdit(id: TodoId, draft: EditDraft)
      requires Valid()
      modifies this, draft
      ensures Valid()
      ensures old(draft.content) == "" ==>
        todos == Removed(old(todos), id) && draft.enable == old(draft.enable) && draft.content == ""
      ensures old(draft.content) != "" ==>
        todos == Edited(old(todos), id, old(draft.content)) && !draft.enable && draft.content == ""
      ensures filter == old(filter) && headerText == old(headerText)
    {
      if draft.content == "" {
        Remove(id);
        return;
      }
      EditChangesOnlyTarget(todos, id, draft.content);
      var i := IndexOf(todos, id);
      if i >= 0 {
        todos := todos[i := todos[i].(content := draft.content)];
      }
      draft.Disable();
    }

    /** A key released in an item's edit field: Enter submits, Escape abandons the edit. */
    method EditKeyUp(key: string, id: TodoId, draft: EditDraft)
      requires Valid()
      modifies this, draft
      ensures Valid()
      ensures key == "Enter" && old(draft.content) == "" ==>
        todos == Removed(old(todos), id) && draft.enable == old(draft.enable) && draft.content == ""
      ensures key == "Enter" && old(draft.content) != "" ==>
        todos == Edited(old(todos), id, old(draft.content)) && !draft.enable && draft.content == ""
      ensures key == "Escape" ==> todos == old(todos) && !draft.enable && draft.content == ""
      ensures key != "Enter" && key != "Escape" ==>
        todos == old(todos) && draft.enable == old(draft.enable) && draft.content == old(draft.content)
      ensures filter == old(filter) && headerText == old(headerText)
    {
      if key == "Enter" {
        SubmitEdit(id, draft);
      }
      if key == "Escape" {
        draft.Disable();
      }
    }

    /**
     * The "mark all as complete" toggle. Whether every todo was completed is
     * read from the list before the action; every flag is then set to the
     * negation of that value, one todo after another.
     */
    method ToggleAll()
      requires Valid()
      modifies this
      ensures Valid()
      ensures todos == ToggledAll(old(todos))
      ensures filter == old(filter) && headerText == old(headerText)
    {
      var isAllCompleted := AllCompleted(todos);
      var i := 0;
      while i < |todos|
        invariant 0 <= i <= |todos| == |old(todos)|
        invariant forall j :: 0 <= j < i ==> todos[j] == old(todos)[j].(completed := !isAllCompleted)
        invariant forall j :: i <= j < |todos| ==> todos[j] == old(todos)[j]
        invariant filter == old(filter) && headerText == old(headerText)
      {
        todos := todos[i := todos[i].(completed := !isAllCompleted)];
        i := i + 1;
      }
      assert todos == WithAllCompleted(old(todos), !isAllCompleted);
    }

    /**
     * The footer's filter links: the filter becomes the selected one and
     * nothing else changes; selecting the same filter again changes nothing.
     */
    method SetFilter(selected: Filter)
      requires Valid()
      modifies this
      ensures Valid()
      ensures filter == selected
      ensures todos == old(todos) && headerText == old(headerText)
    {
      filter := selected;
    }

    /**
     * Clear completed: the active todos are taken from the list before the
     * action, the list is emptied and they are pushed back in order.
     */
    method ClearCompleted()
      requires Valid()
      modifies this
      ensures Valid()
      ensures todos == ActiveTodos(old(todos))
      ensures filter == old(filter) && headerText == old(headerText)
    {
      VisibleKeepsUniqueIds(todos, Active);
      var activeTodos := ActiveTodos(todos);
      todos := [];
      todos := todos + activeTodos;
    }
  }
}
