/** The per-item edit draft: whether the item is being edited and the text typed so far. */
module EditDrafts {
  import opened Todos

  class EditDraft {
    var enable: bool
    var content: string

    /** A fresh item is not being edited and has an empty draft. */
    constructor ()
      ensures !enable && content == ""
    {
      enable := false;
      content := "";
    }

    /** Double-click on the label: start editing from the todo's content. */
    method Enable(todo: Todo)
      modifies this
      ensures enable && content == todo.content
    {
      enable := true;
      content := todo.content;
    }

    /** Leave editing and discard the draft. */
    method Disable()
      modifies this
      ensures !enable && content == ""
    {
      enable := false;
      content := "";
    }

    /** Typing in the edit field: the draft becomes the field's text. */
    method Input(text: string)
      modifies this
      ensures content == text && enable == old(enable)
    {
      content := text;
    }
  }
}
