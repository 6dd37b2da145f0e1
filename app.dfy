/**
 * The notes screen's state machine: the note list, the selected note, the
 * draft title and content, and whether the editor is shown.  Each event
 * handler is one atomic transition; every new value it writes is computed
 * from the state as it was when the handler was invoked.
 */
module NotesApp {
  import opened NoteList

  datatype Option<T> = None | Some(value: T)

  class App {
    var notes: seq<Note>
    var selected: Option<Note>
    var title: string
    var content: string
    var visible: bool

    /** The list never holds two notes with the same id. */
    ghost predicate Valid()
      reads this
    {
      DistinctIds(notes)
    }

    /** The selected note, if any, is still in the list (by id). */
    ghost predicate SelectionLive()
      reads this
    {
      selected.Some? ==> HasId(notes, selected.value.id)
    }

    /** The initial state: no notes, nothing selected, empty draft, editor hidden. */
    constructor ()
      ensures notes == [] && selected == None
      ensures title == "" && content == "" && !visible
      ensures Valid() && SelectionLive()
    {
      notes := [];
      selected := None;
      title := "";
      content := "";
      visible := false;
    }

    /**
     * The Save button.  With a selected note, every note carrying its id takes
     * the draft and the selection is dropped; otherwise a note with the
     * supplied id (the creation timestamp) and the draft is appended.  Either
     * way the draft is emptied and the editor hidden.
     */
    method Save(newId: Id)
      modifies this
      ensures old(SelectionLive()) ==> SelectionLive()
      ensures old(selected).Some? ==>
        notes == Revise(old(notes), old(selected).value.id, old(title), old(content))
      ensures old(selected).None? ==>
        notes == old(notes) + [Note(newId, old(title), old(content))]
      ensures selected == None
      ensures title == "" && content == "" && !visible
      ensures old(Valid()) && (old(selected).None? ==> !HasId(old(notes), newId)) ==> Valid()
    {
      if selected.Some? {
        RevisePreservesDistinct(notes, selected.value.id, title, content);
        notes := Revise(notes, selected.value.id, title, content);
        selected := None;
      } else {
        AppendDistinct(notes, Note(newId, title, content));
        notes := notes + [Note(newId, title, content)];
      }
      title := "";
      content := "";
      visible := false;
    }

    /** Tapping a note in the list: select it, load it into the draft, show the editor. */
    method Edit(note: Note)
      modifies this
      ensures notes == old(notes)
      ensures selected == Some(note)
      ensures title == note.title && content == note.content && visible
      ensures old(Valid()) ==> Valid()
      ensures note in notes ==> SelectionLive()
    {
      selected := Some(note);
      title := note.title;
      content := note.content;
      visible := true;
    }

    /**
     * The Delete button: drop every note carrying the id of `note`, drop the
     * selection and hide the editor.  The draft is left as it was.
     */
    method Delete(note: Note)
      modifies this
      ensures old(SelectionLive()) ==> SelectionLive()
      ensures notes == RemoveId(old(notes), note.id)
      ensures selected == None && !visible
      ensures title == old(title) && content == old(content)
      ensures old(Valid()) ==> Valid()
    {
      if DistinctIds(notes) {
        RemoveIdPreservesDistinct(notes, note.id);
      }
      notes := RemoveId(notes, note.id);
      selected := None;
      visible := false;
    }

    /** The Add Note button: empty the draft and show the editor; the selection is kept. */
    method AddNote()
      modifies this
      ensures old(SelectionLive()) ==> SelectionLive()
      ensures notes == old(notes) && selected == old(selected)
      ensures title == "" && content == "" && visible
    {
      title := "";
      content := "";
      visible := true;
    }

    /** The Cancel button: hide the editor and nothing else. */
    method Cancel()
      modifies this
      ensures old(SelectionLive()) ==> SelectionLive()
      ensures notes == old(notes) && selected == old(selected)
      ensures title == old(title) && content == old(content)
      ensures !visible
    {
      visible := false;
    }

    /** Typing in the title field. */
    method SetTitle(text: string)
      modifies this
      ensures old(SelectionLive()) ==> SelectionLive()
      ensures title == text
      ensures notes == old(notes) && selected == old(selected)
      ensures content == old(content) && visible == old(visible)
    {
      title := text;
    }

    /** Typing in the content field. */
    method SetContent(text: string)
      modifies this
      ensures old(SelectionLive()) ==> SelectionLive()
      ensures content == text
      ensures notes == old(notes) && selected == old(selected)
      ensures title == old(title) && visible == old(visible)
    {
      content := text;
    }
  }

  /**
   * Add Note, type a title and a content, Save; then tap that note, change
   * the title, Save.  The first save creates the note; the second revises it
   * in place and keeps its id, whatever timestamp the second save reads.
   */
  method CreateThenEdit(id: Id, t: string, c: string, t2: string, laterId: Id)
    returns (created: seq<Note>, edited: seq<Note>)
    ensures created == [Note(id, t, c)]
    ensures edited == [Note(id, t2, c)]
  {
    var app := new App();
    app.AddNote();
    app.SetTitle(t);
    app.SetContent(c);
    app.Save(id);
    created := app.notes;
    app.Edit(app.notes[0]);
    app.SetTitle(t2);
    app.Save(laterId);
    edited := app.notes;
  }

  /**
   * Tap a listed note, Cancel, then Add Note, type and Save.  Cancel and Add
   * Note both keep the selection, so the save revises the note tapped first
   * instead of appending a new one.
   */
  method EditCancelAddSave(n: Note, t: string, c: string, laterId: Id)
    returns (before: seq<Note>, after: seq<Note>)
    ensures before == [n]
    ensures after == [Note(n.id, t, c)]
  {
    var app := new App();
    app.AddNote();
    app.SetTitle(n.title);
    app.SetContent(n.content);
    app.Save(n.id);
    before := app.notes;
    app.Edit(n);
    app.Cancel();
    app.AddNote();
    app.SetTitle(t);
    app.SetContent(c);
    app.Save(laterId);
    after := app.notes;
  }

  /**
   * Create two notes, tap the first and Delete it.  Only the first is
   * removed, the selection is gone, and the draft still holds the deleted
   * note's text until the next Add Note or tap replaces it.
   */
  method CreateTwoDeleteFirst(a: Note, b: Note)
    returns (after: seq<Note>, draftTitle: string, draftContent: string, hasSelection: bool)
    requires a.id != b.id
    ensures after == [b]
    ensures draftTitle == a.title && draftContent == a.content
    ensures !hasSelection
  {
    var app := new App();
    app.AddNote();
    app.SetTitle(a.title);
    app.SetContent(a.content);
    app.Save(a.id);
    app.AddNote();
    app.SetTitle(b.title);
    app.SetContent(b.content);
    app.Save(b.id);
    app.Edit(a);
    app.Delete(a);
    after := app.notes;
    draftTitle, draftContent := app.title, app.content;
    hasSelection := app.selected.Some?;
  }
}
