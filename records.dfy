/** The records both versions of the app keep in their arrays: todos and notes. */
module Records {
  import opened JsBuiltins

  /** A todo's or note's id: the `Date.now()` value at its creation. Both `===` on its string
      form (script.js) and `==` between the number and a dataset string (js/) are equality
      of this number. */
  type Id = nat

  /** An ISO-8601 instant as `toISOString()` writes it; never inspected. */
  type Timestamp = string

  /** A todo. `date` is the YYYY-MM-DD string the record stores; `deleted` stands for a
      missing field too (a falsy `undefined`); `deletedAt` is None where the field is absent. */
  datatype Todo = Todo(
    id: Id,
    text: string,
    date: string,
    category: Option<string>,
    completed: bool,
    deleted: bool,
    deletedAt: Option<Timestamp>,
    createdAt: Timestamp)

  /** A note of js/notas.js. */
  datatype Note = Note(id: Id, title: string, content: string, createdAt: Timestamp, updatedAt: Timestamp)

  /** `t => t.id == id`, the test every lookup by id uses. */
  function TodoHasId(id: Id): Todo -> bool {
    (t: Todo) => t.id == id
  }

  function NoteHasId(id: Id): Note -> bool {
    (n: Note) => n.id == id
  }

  /** The test both versions use to show one side of the deleted flag:
      `todo.deleted === showDeleted` in script.js, `showDeleted ? todo.deleted : !todo.deleted`
      in js/app.js. */
  function DeletedSide(showDeleted: bool): Todo -> bool {
    (t: Todo) => t.deleted == showDeleted
  }

  /** No todo of the list carries `id`. */
  predicate IdFree(todos: seq<Todo>, id: Id) {
    forall k :: 0 <= k < |todos| ==> todos[k].id != id
  }

  /** No two todos of the list share an id. */
  predicate UniqueIds(todos: seq<Todo>) {
    forall i, j :: 0 <= i < j < |todos| ==> todos[i].id != todos[j].id
  }

  /** No note of the list carries `id`. */
  predicate NoteIdFree(notes: seq<Note>, id: Id) {
    forall k :: 0 <= k < |notes| ==> notes[k].id != id
  }

  /** No two notes of the list share an id. */
  predicate UniqueNoteIds(notes: seq<Note>) {
    forall i, j :: 0 <= i < j < |notes| ==> notes[i].id != notes[j].id
  }

  /** A todo carries a deletion time exactly when it is deleted. */
  predicate StampedIffDeleted(t: Todo) {
    t.deletedAt.Some? <==> t.deleted
  }

  /** `deletedAt` is present exactly on the deleted todos. */
  predicate DeletedAtTracksDeleted(todos: seq<Todo>) {
    forall t :: t in todos ==> StampedIffDeleted(t)
  }

  /** Replacing one record by one with the same id keeps the ids unique. */
  lemma UniqueIdsAfterUpdate(todos: seq<Todo>, i: nat, t: Todo)
    requires UniqueIds(todos) && i < |todos| && t.id == todos[i].id
    ensures UniqueIds(todos[i := t])
  {
  }

  /** An id found by lookup in a list of unique ids belongs to that record alone. */
  lemma {:induction false} FindIndexOfUniqueId(todos: seq<Todo>, k: nat)
    requires UniqueIds(todos) && k < |todos|
    ensures FindIndex(todos, TodoHasId(todos[k].id)) == k
  {
  }

  /** Taking a todo out of a list of unique ids keeps them unique, and its id is then free. */
  lemma RemoveKeepsUnique(todos: seq<Todo>, i: nat)
    requires UniqueIds(todos) && i < |todos|
    ensures UniqueIds(RemoveAt(todos, i)) && IdFree(RemoveAt(todos, i), todos[i].id)
  {
    var r := RemoveAt(todos, i);
    forall a, b | 0 <= a < b < |r| ensures r[a].id != r[b].id {
      var a' := if a < i then a else a + 1;
      var b' := if b < i then b else b + 1;
      assert r[a] == todos[a'] && r[b] == todos[b'] && a' < b';
    }
  }

  /** Putting a todo with a free id anywhere into a list of unique ids keeps them unique. */
  lemma InsertKeepsUnique(todos: seq<Todo>, i: nat, t: Todo)
    requires UniqueIds(todos) && IdFree(todos, t.id) && i <= |todos|
    ensures UniqueIds(InsertAt(todos, i, t))
  {
    var r := InsertAt(todos, i, t);
    forall a, b | 0 <= a < b < |r| ensures r[a].id != r[b].id {
      if a != i && b != i {
        var a' := if a < i then a else a - 1;
        var b' := if b < i then b else b - 1;
        assert r[a] == todos[a'] && r[b] == todos[b'] && a' < b';
      }
    }
  }
}
