# TodoMVC state machine in Dafny

A model of the TodoMVC application built on `create-react-store`. The
application keeps three stores: the todo list, the filter (`all`, `active` or
`completed`) and the header text. Each user action is an event handler that
updates these stores in place. This project models:

- the handlers, as methods of the class `App.TodoApp`;
- the per-item edit draft `{enable, content}`, as the class `EditDrafts.EditDraft`;
- the pure derivations the views compute on every render, in the modules
  `TodoLists` and `Views`: the visible list, the active and completed todos,
  "all completed", and what the toggler and the footer display.

Module layout:

- `todos.dfy` (`Todos`): the `Todo` record, the `TodoList` sequence and the
  empty initial list.
- `filter.dfy` (`Filters`): the three-valued `Filter` and its initial value `All`.
- `todo_lists.dfy` (`TodoLists`): the filter rule, the list each handler
  produces, and the lemmas about them.
- `sets.dfy` (`Sets`): a lemma on the size of integer sets, which the counting proofs use.
- `views.dfy` (`Views`): what the toggler and the footer show.
- `edit_draft.dfy` (`EditDrafts`): the per-item edit draft.
- `app.dfy` (`App`): the application state and its handlers.

Each handler method is tied by its `ensures` to a function of the state
before the action (`todos == Toggled(old(todos), id)`). The lemmas in
`TodoLists` state what those functions promise.

Two modelling choices follow from the application:

- Todo identity. Each item's handlers act on the todo object the item was
  rendered from. The model names that todo by its id. The class invariant
  `Valid()` keeps ids distinct, and adding a todo takes a fresh id from the
  caller.
- Pre-action snapshots. "Every todo is completed" (for toggle-all) and "the
  active todos" (for clear-completed) are read from the list as it was before
  the action, as the components compute them at render time.

The defensive `return false` of the filter callback cannot be reached,
because `Filter` has exactly three constructors.

## Model

| member | source | states |
|---|---|---|
| `TodoLists.Shows` | src/App.tsx:79-93 | The filter callback: `All` shows every todo, `Active` exactly the not-completed ones, `Completed` exactly the completed ones. There is no fourth case. |
| `TodoLists.Visible` | src/App.tsx:79-93 | The visible list is an order-preserving subsequence of the todos, no longer than the list. Its elements are exactly the todos the filter lets through. How often each todo occurs is fixed by `ActiveCompletedPartition` and `VisibleIsWholeIff`, not by this contract alone. |
| `App.TodoApp.VisibleTodos` | src/App.tsx:79 | The list view renders an order-preserving subsequence of the todos. Its elements are exactly the todos the current filter lets through: the not-completed ones under `active`, the completed ones under `completed`, and the whole list under `All`. |
| `TodoLists.VisibleIsWholeIff` | src/App.tsx:79-93 | Filtering returns the list unchanged if and only if the filter lets every todo through. |
| `TodoLists.VisibleAllIsWhole` | src/App.tsx:80-82 | Under the `All` filter, and so under the initial filter, the visible list is the whole list. |
| `TodoLists.VisibleIdempotent` | src/App.tsx:79-93 | Deriving the visible list again from a visible list changes nothing. |
| `TodoLists.ActiveTodos` | src/App.tsx:209 | The footer's active todos are, in list order, exactly the todos that are not completed. |
| `TodoLists.CompletedTodos` | src/App.tsx:210 | The footer's completed todos are, in list order, exactly the completed todos. |
| `TodoLists.ActiveCount` | src/App.tsx:225 | The number of items left is at most the length. It is 0 exactly when every todo is completed. Its exact value is given by `CountsArePositions`. |
| `TodoLists.CompletedCount` | src/App.tsx:226 | The completed count is at most the length. It is 0 exactly when no todo is completed. Its exact value is given by `CountsArePositions`. |
| `TodoLists.VisibleLength` | src/App.tsx:79-93 | The visible list has exactly as many todos as there are positions in the list whose todo the filter lets through. |
| `TodoLists.CountsArePositions` | src/App.tsx:225-226 | `aLen` is the number of positions holding a todo that is not completed. `cLen` is the number holding a completed todo. |
| `TodoLists.AllCompleted` | src/App.tsx:180 | "Every todo is completed" holds on the empty list. It holds exactly when no item is left. |
| `TodoLists.ActiveCompletedPartition` | src/App.tsx:209-210 | The active and the completed todos together hold every todo exactly as often as the list does (multiset equality), so the active count plus the completed count is the list's length. |
| `TodoLists.AllCompletedIff` | src/App.tsx:180 | "Every todo is completed" holds exactly when the completed count equals the length. |
| `TodoLists.IndexOf` | src/App.tsx:147 | Returns the position of the first todo with the id, or -1 exactly when no todo has that id. |
| `TodoLists.IndexOfUnique` | src/App.tsx:98 | When ids are distinct, the todo with the id is the one at the position `IndexOf` returns, and no other. |
| `TodoLists.Toggled` | src/App.tsx:142-144 | Toggling keeps the length, order, ids and contents. The completion flag changes at exactly one position: the one `IndexOf` returns. |
| `TodoLists.ToggleFlipsOnlyTarget` | src/App.tsx:142-144 | When ids are distinct, only the todo with that id has its flag flipped, and the ids stay distinct. |
| `TodoLists.ToggleTwice` | src/App.tsx:142-144 | Toggling the same todo twice restores the original list. |
| `TodoLists.Removed` | src/App.tsx:146-148 | Removal shortens the list by one when the id is present. It is the identity when the id is absent. Its result is a sub-multiset of the list and keeps every todo with another id. |
| `TodoLists.RemoveExactlyTarget` | src/App.tsx:146-148 | When ids are distinct, the result is an order-preserving subsequence. It holds exactly the todos with other ids, none with the removed id, and its ids stay distinct. |
| `TodoLists.Edited` | src/App.tsx:129 | Setting the content keeps the length, ids and flags. Only the content at `IndexOf`'s position becomes the new text. |
| `TodoLists.EditChangesOnlyTarget` | src/App.tsx:124-131 | When ids are distinct, exactly the todo with that id gets the new content. Every other todo is unchanged, and the ids stay distinct. |
| `TodoLists.WithAllCompleted` | src/App.tsx:183-185 | Every position keeps its todo, with the flag set to the given value. |
| `TodoLists.ToggledAll` | src/App.tsx:180-186 | Every flag is set to the negation of "all completed" of the list before the action. So every todo ends completed exactly when some todo was active. Length, ids and contents are unchanged. |
| `TodoLists.ToggleAllOutcome` | src/App.tsx:180-186 | Toggle-all does nothing on an empty list. If some todo was active, every todo becomes completed. If all were completed, every todo becomes active. Ids and contents stay in place. |
| `TodoLists.ToggleAllTwice` | src/App.tsx:180-186 | Toggling all twice sets every flag to "all were completed". A fully completed list comes back unchanged. |
| `TodoLists.ClearCompletedProperties` | src/App.tsx:216-219 | The kept todos are an order-preserving subsequence with no completed todo. Clearing again changes nothing. Clearing leaves a list unchanged exactly when it had no completed todo. |
| `TodoLists.VisibleKeepsUniqueIds` | src/App.tsx:209 | Filtering a list with distinct ids gives a list with distinct ids. |
| `Views.Toggler` | src/App.tsx:180-199 | The toggler is hidden exactly when the list is empty. Otherwise its box is checked exactly when no todo is active. |
| `Views.Footer` | src/App.tsx:221-257 | The footer is hidden exactly when the list is empty. Otherwise the items left plus the completed count is the length. The word is "item" exactly when one item is left, and "items" otherwise. The clear button shows exactly when some todo is completed. |
| `Views.InitialViews` | src/stores/todos.ts:11 | On the initial empty list, "all completed" holds vacuously, both counts are 0, and the toggler and the footer are hidden. |
| `EditDrafts.EditDraft.constructor` | src/App.tsx:105-108 | A new draft is not editing and is empty. |
| `EditDrafts.EditDraft.Enable` | src/App.tsx:110-113 | Starting to edit turns editing on and copies the todo's content into the draft. |
| `EditDrafts.EditDraft.Disable` | src/App.tsx:115-118 | Leaving edit mode turns editing off and empties the draft. |
| `EditDrafts.EditDraft.Input` | src/App.tsx:120-122 | Typing sets the draft's content and keeps the editing flag. |
| `App.TodoApp.constructor` | src/stores/filter.ts:5-7 | The app starts with no todos, the `All` filter and an empty header. The visible list is then the whole list. |
| `App.TodoApp.HeaderInput` | src/App.tsx:38-40 | Typing in the header sets the header text. Todos and filter are unchanged, and ids stay distinct. |
| `App.TodoApp.HeaderKeyUp` | src/App.tsx:42-58 | Enter with non-empty header text appends exactly one active todo whose content is that text, then clears the header. Enter with empty text raises the alert and changes nothing. Any other key changes nothing. Ids stay distinct. |
| `App.TodoApp.Toggle` | src/App.tsx:142-144 | The new list is `Toggled` of the old one. Filter and header are unchanged, and ids stay distinct. |
| `App.TodoApp.Remove` | src/App.tsx:146-148 | The new list is `Removed` of the old one. Filter and header are unchanged. |
| `App.TodoApp.SubmitEdit` | src/App.tsx:124-131 | An empty draft removes the todo and leaves the draft as it was. A non-empty draft becomes the todo's content only, and the draft resets to not editing and empty. |
| `App.TodoApp.EditKeyUp` | src/App.tsx:133-140 | Enter submits the edit. Escape ends editing with an empty draft and leaves the todos unchanged. Any other key changes nothing. |
| `App.TodoApp.ToggleAll` | src/App.tsx:182-186 | Reads "all completed" from the list before the action, then sets every flag to the negation of that value in a loop. The result is `ToggledAll` of the old list. |
| `App.TodoApp.SetFilter` | src/App.tsx:212-214 | The filter becomes the selected value and nothing else changes, so ids stay distinct. The final state depends only on the selection, so selecting the same filter twice is the same as selecting it once. |
| `App.TodoApp.ClearCompleted` | src/App.tsx:216-219 | Empties the list and pushes back the active todos taken from the list before the action. The result is `ActiveTodos` of the old list, and ids stay distinct. |

## Left out

- React rendering: JSX, `Provider`, the `App` and `Info` components, `FilterItem`'s `preventDefault`, class names and focus. This is view glue with no state logic. The toggler and footer contents are modelled as values (`Views`).
- The `create-react-store` library is not part of this model: stores, `useAction`, `useReactive`, subscriptions, batching and rollback. Each handler is modelled as one atomic state change. Notification counts and rollback on a throwing action are therefore not modelled.
- `remove` is part of that library. It is modelled as removing the first todo with the item's id, or nothing when the id is gone.
- Object identity: an item's handlers act on the todo object it was rendered from. The model names that todo by its id. Toggling, editing or removing an absent id changes nothing, which matches changing a detached object.
- Id generation: `Math.random()` is replaced by a caller-supplied id. `App.TodoApp.HeaderKeyUp` requires that id to be absent from the list. The application does not guarantee this; the model needs it to keep ids distinct.
- The alert is modelled only as the `alerted` result, not its message or its blocking dialog. Development-mode tracing is diagnostics and is not modelled.
- The header store is not part of this model. The header text is assumed to start as the empty string.
- Keys are compared as the strings `"Enter"` and `"Escape"`, as the application does. Other keyboard event data is not modelled.
