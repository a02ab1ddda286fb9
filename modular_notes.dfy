/** js/notas.js: the `Notes` module, which edits `app.notes` through the application object
    it is constructed with. */
module ModularNotes {
  import opened JsBuiltins
  import opened Records
  import opened ModularApp

  /** The title a note gets when its title input is blank. */
  const DefaultTitle: string := "Nota sem t\U{00ED}tulo"

  /** The record `addNote` pushes: the trimmed title, or the default title when it is blank,
      and the trimmed content; both times are `now`. */
  function NewNote(id: Id, titleInput: string, contentInput: string, now: Timestamp): (n: Note)
    ensures n.id == id && n.createdAt == now && n.updatedAt == now
    ensures n.content == Trim(contentInput)
  {
    var title := Trim(titleInput);
    Note(id, if title != [] then title else DefaultTitle, Trim(contentInput), now, now)
  }

  /** A new note's title is never blank and has no surrounding whitespace: it is the trimmed
      title input when that is not blank, the default title otherwise. */
  lemma NewNoteTitle(id: Id, titleInput: string, contentInput: string, now: Timestamp)
    ensures var n := NewNote(id, titleInput, contentInput, now);
      && n.title != [] && Trim(n.title) == n.title
      && (Trim(titleInput) != [] ==> n.title == Trim(titleInput))
      && (Trim(titleInput) == [] ==> n.title == DefaultTitle)
  {
    var title := Trim(titleInput);
    if title != [] {
      TrimIdempotent(titleInput);
    } else {
      DefaultTitleIsTrimmed();
    }
  }

  lemma DefaultTitleIsTrimmed()
    ensures Trim(DefaultTitle) == DefaultTitle
  {
    assert !IsTrimmable(DefaultTitle[0]);
    assert !IsTrimmable(DefaultTitle[|DefaultTitle| - 1]);
    assert TrimStart(DefaultTitle) == DefaultTitle;
  }

  /** `note.content = text; note.updatedAt = now`. */
  function SetContent(text: string, now: Timestamp): Note -> Note {
    (n: Note) => n.(content := text, updatedAt := now)
  }

  /** `n => n.id != id`, the test `deleteNote` filters with. */
  function NoteLacksId(id: Id): Note -> bool {
    (n: Note) => n.id != id
  }

  /** The notes `deleteNote` keeps: every note without the id, in their order. */
  function WithoutNote(notes: seq<Note>, id: Id): (r: seq<Note>)
    ensures NoteIdFree(r, id)
    ensures forall n :: n in r <==> n in notes && n.id != id
    ensures IsSubsequence(r, notes)
  {
    KeepIsSubsequence(notes, NoteLacksId(id));
    Keep(notes, NoteLacksId(id))
  }

  /** Deleting an id no note carries changes nothing. */
  lemma DeleteUnknownNote(notes: seq<Note>, id: Id)
    requires NoteIdFree(notes, id)
    ensures WithoutNote(notes, id) == notes
  {
    KeepEverything(notes, NoteLacksId(id));
  }

  /** Deleting the note just added, whose id was new, gives the notes back. */
  lemma AddThenDelete(notes: seq<Note>, n: Note)
    requires NoteIdFree(notes, n.id)
    ensures WithoutNote(notes + [n], n.id) == notes
  {
    KeepAppend(notes, [n], NoteLacksId(n.id));
    DeleteUnknownNote(notes, n.id);
  }

  /** Editing a note and then deleting it is deleting it. */
  lemma EditThenDelete(notes: seq<Note>, id: Id, text: string, now: Timestamp)
    ensures WithoutNote(UpdateFirst(notes, NoteHasId(id), SetContent(text, now)), id) == WithoutNote(notes, id)
  {
    var i := FindIndex(notes, NoteHasId(id));
    if i >= 0 {
      KeepReplaceRejected(notes, i, SetContent(text, now)(notes[i]), NoteLacksId(id));
    }
  }

  /** Filtering keeps note ids unique. */
  lemma {:induction false} WithoutNoteKeepsUnique(notes: seq<Note>, id: Id)
    requires UniqueNoteIds(notes)
    ensures UniqueNoteIds(WithoutNote(notes, id))
  {
    if notes != [] {
      var rest := WithoutNote(notes[1..], id);
      WithoutNoteKeepsUnique(notes[1..], id);
      if notes[0].id != id {
        forall k | 0 <= k < |rest| ensures rest[k].id != notes[0].id {
          assert rest[k] in notes[1..];
        }
      }
    }
  }

  /** With unique note ids, an edit by id gives exactly the note carrying the id the new
      content and update time, and leaves every other note as it was. */
  lemma EditUnique(notes: seq<Note>, id: Id, text: string, now: Timestamp)
    requires UniqueNoteIds(notes)
    ensures var r := UpdateFirst(notes, NoteHasId(id), SetContent(text, now));
      && |r| == |notes|
      && forall k :: 0 <= k < |notes| ==>
           r[k] == if notes[k].id == id then notes[k].(content := text, updatedAt := now) else notes[k]
  {
  }

  /** An edit that keeps the note's id keeps every id in place, hence their uniqueness. */
  lemma EditKeepsUnique(notes: seq<Note>, id: Id, text: string, now: Timestamp)
    requires UniqueNoteIds(notes)
    ensures UniqueNoteIds(UpdateFirst(notes, NoteHasId(id), SetContent(text, now)))
  {
    var r := UpdateFirst(notes, NoteHasId(id), SetContent(text, now));
    assert forall k :: 0 <= k < |r| ==> r[k].id == notes[k].id;
  }

  class Notes {
    const app: TodoApp

    constructor(app: TodoApp)
      ensures this.app == app
    {
      this.app := app;
    }

    /** `addNote` with the two inputs' values, a fresh `Date.now()` id and the
        `toISOString()` of now: nothing happens when both are blank. */
    method AddNote(titleInput: string, contentInput: string, id: Id, now: Timestamp)
      requires app.Valid() && NoteIdFree(app.notes, id)
      modifies app
      ensures app.Valid()
      ensures Trim(titleInput) == [] && Trim(contentInput) == [] ==> app.notes == old(app.notes)
      ensures Trim(titleInput) != [] || Trim(contentInput) != [] ==>
        app.notes == old(app.notes) + [NewNote(id, titleInput, contentInput, now)]
      ensures app.TodosUnchanged() && app.ViewUnchanged() && app.TimersUnchanged()
    {
      var title := Trim(titleInput);
      var content := Trim(contentInput);
      if title != [] || content != [] {
        var note := NewNote(id, titleInput, contentInput, now);
        app.notes := app.notes + [note];
      }
    }

    /** `editNote`: the content is replaced by the text as given, untrimmed. */
    method EditNote(id: Id, newText: string, now: Timestamp)
      requires app.Valid()
      modifies app
      ensures app.Valid()
      ensures app.notes == UpdateFirst(old(app.notes), NoteHasId(id), SetContent(newText, now))
      ensures |app.notes| == |old(app.notes)|
      ensures forall k :: 0 <= k < |app.notes| ==>
                app.notes[k] == if old(app.notes)[k].id == id
                  then old(app.notes)[k].(content := newText, updatedAt := now)
                  else old(app.notes)[k]
      ensures app.TodosUnchanged() && app.ViewUnchanged() && app.TimersUnchanged()
    {
      EditKeepsUnique(app.notes, id, newText, now);
      EditUnique(app.notes, id, newText, now);
      var i := FindIndex(app.notes, NoteHasId(id));
      if i != -1 {
        var note := app.notes[i];
        app.notes := app.notes[i := note.(content := newText, updatedAt := now)];
      }
    }

    method DeleteNote(id: Id)
      requires app.Valid()
      modifies app
      ensures app.Valid()
      ensures app.notes == WithoutNote(old(app.notes), id)
      ensures app.TodosUnchanged() && app.ViewUnchanged() && app.TimersUnchanged()
    {
      WithoutNoteKeepsUnique(app.notes, id);
      app.notes := Keep(app.notes, NoteLacksId(id));
    }

    /** `finishEditNote`: a non-blank edit replaces the content by its trimmed text; a blank
        one only restores the display. */
    method FinishEditNote(id: Id, newText: string, now: Timestamp)
      requires app.Valid()
      modifies app
      ensures app.Valid()
      ensures Trim(newText) == [] ==> app.notes == old(app.notes)
      ensures Trim(newText) != [] ==> app.notes == UpdateFirst(old(app.notes), NoteHasId(id), SetContent(Trim(newText), now))
      ensures |app.notes| == |old(app.notes)|
      ensures Trim(newText) != [] ==>
                forall k :: 0 <= k < |app.notes| ==>
                  app.notes[k] == if old(app.notes)[k].id == id
                    then old(app.notes)[k].(content := Trim(newText), updatedAt := now)
                    else old(app.notes)[k]
      ensures app.TodosUnchanged() && app.ViewUnchanged() && app.TimersUnchanged()
    {
      var trimmedText := Trim(newText);
      EditKeepsUnique(app.notes, id, trimmedText, now);
      EditUnique(app.notes, id, trimmedText, now);
      var i := FindIndex(app.notes, NoteHasId(id));
      if i != -1 && trimmedText != [] {
        var note := app.notes[i];
        app.notes := app.notes[i := note.(content := trimmedText, updatedAt := now)];
      }
    }
  }
}
