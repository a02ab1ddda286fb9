/** The edits both versions make to one todo found by id: `const todo = todos.find(t =>
    t.id == id); if (todo) { ... }` followed by assignments to the fields of that record. */
module TodoStore {
  import opened JsBuiltins
  import opened Records

  /** An id no todo carries changes nothing. */
  lemma UpdateUnknownId(todos: seq<Todo>, id: Id, f: Todo -> Todo)
    requires IdFree(todos, id)
    ensures UpdateFirst(todos, TodoHasId(id), f) == todos
  {
  }

  /** When ids are unique, the one todo carrying `id` is the one changed, by `f`. */
  lemma UpdateUnique(todos: seq<Todo>, id: Id, f: Todo -> Todo)
    requires UniqueIds(todos)
    ensures forall k :: 0 <= k < |todos| ==>
      UpdateFirst(todos, TodoHasId(id), f)[k] == if todos[k].id == id then f(todos[k]) else todos[k]
  {
    forall k | 0 <= k < |todos| && todos[k].id == id
      ensures UpdateFirst(todos, TodoHasId(id), f)[k] == f(todos[k])
    {
      FindIndexOfUniqueId(todos, k);
    }
  }

  /** Lists carrying the same ids position by position find the same index for an id. */
  lemma {:induction false} FindIndexSameIds(a: seq<Todo>, b: seq<Todo>, id: Id)
    requires |a| == |b| && forall k :: 0 <= k < |a| ==> a[k].id == b[k].id
    ensures FindIndex(a, TodoHasId(id)) == FindIndex(b, TodoHasId(id))
  {
    if a != [] {
      FindIndexSameIds(a[1..], b[1..], id);
    }
  }

  /** An edit that keeps the record's id keeps every id in place, hence their uniqueness. */
  lemma UpdateKeepsIds(todos: seq<Todo>, id: Id, f: Todo -> Todo)
    requires forall t :: f(t).id == t.id
    ensures var r := UpdateFirst(todos, TodoHasId(id), f);
      && (forall k :: 0 <= k < |r| ==> r[k].id == todos[k].id)
      && (UniqueIds(todos) ==> UniqueIds(r))
  {
  }

  /** Applying `g` after `f` to the todo found by id is applying their composition once. */
  lemma UpdateTwice(todos: seq<Todo>, id: Id, f: Todo -> Todo, g: Todo -> Todo)
    requires forall t :: f(t).id == t.id
    ensures UpdateFirst(UpdateFirst(todos, TodoHasId(id), f), TodoHasId(id), g) == UpdateFirst(todos, TodoHasId(id), Then(f, g))
  {
    var r := UpdateFirst(todos, TodoHasId(id), f);
    UpdateKeepsIds(todos, id, f);
    FindIndexSameIds(todos, r, id);
  }

  /** `f` followed by `g`. */
  function Then(f: Todo -> Todo, g: Todo -> Todo): Todo -> Todo {
    (t: Todo) => g(f(t))
  }

  /** `todo.completed = !todo.completed` (toggleTodo, both versions). */
  function Flip(t: Todo): Todo {
    t.(completed := !t.completed)
  }

  /** `todo.deleted = true; todo.deletedAt = now` (script.js deleteTodo). */
  function StampDeleted(now: Timestamp): Todo -> Todo {
    (t: Todo) => t.(deleted := true, deletedAt := Some(now))
  }

  /** `if (todo.deleted) { todo.deleted = false; delete todo.deletedAt; }` (script.js
      restoreTodo). */
  function RestoreDeleted(t: Todo): Todo {
    if t.deleted then t.(deleted := false, deletedAt := None) else t
  }

  /** `if (!todo.deleted) todo.text = text` (script.js finishEditTodo). */
  function SetTextUnlessDeleted(text: string): Todo -> Todo {
    (t: Todo) => if t.deleted then t else t.(text := text)
  }

  /** `todo.deleted = true` (js/todo-list.js deleteTodo). */
  function MarkDeleted(t: Todo): Todo {
    t.(deleted := true)
  }

  /** `todo.deleted = false` (js/todo-list.js restoreTodo). */
  function MarkRestored(t: Todo): Todo {
    t.(deleted := false)
  }

  /** `todo.text = text` (js/todo-list.js finishEditTodo). */
  function SetText(text: string): Todo -> Todo {
    (t: Todo) => t.(text := text)
  }

  /** Toggling the same todo twice gives the list back. */
  lemma ToggleTwice(todos: seq<Todo>, id: Id)
    ensures UpdateFirst(UpdateFirst(todos, TodoHasId(id), Flip), TodoHasId(id), Flip) == todos
  {
    UpdateTwice(todos, id, Flip, Flip);
    var r := UpdateFirst(todos, TodoHasId(id), Then(Flip, Flip));
    forall k | 0 <= k < |todos| ensures r[k] == todos[k] {
      assert Then(Flip, Flip)(todos[k]) == todos[k];
    }
  }

  /** script.js: restoring a todo just deleted gives the list back, provided that todo was
      not deleted before (and so, by the invariant, carried no deletion time). */
  lemma StampedDeleteThenRestore(todos: seq<Todo>, id: Id, now: Timestamp)
    requires DeletedAtTracksDeleted(todos)
    requires forall t :: t in todos && t.id == id ==> !t.deleted
    ensures UpdateFirst(UpdateFirst(todos, TodoHasId(id), StampDeleted(now)), TodoHasId(id), RestoreDeleted) == todos
  {
    UpdateTwice(todos, id, StampDeleted(now), RestoreDeleted);
    var r := UpdateFirst(todos, TodoHasId(id), Then(StampDeleted(now), RestoreDeleted));
    forall k | 0 <= k < |todos| ensures r[k] == todos[k] {
      if todos[k].id == id {
        assert StampedIffDeleted(todos[k]);
        assert Then(StampDeleted(now), RestoreDeleted)(todos[k]) == todos[k];
      }
    }
  }

  /** js/todo-list.js: restoring a todo just deleted gives the list back, provided that todo
      was not deleted before. */
  lemma DeleteThenRestore(todos: seq<Todo>, id: Id)
    requires forall t :: t in todos && t.id == id ==> !t.deleted
    ensures UpdateFirst(UpdateFirst(todos, TodoHasId(id), MarkDeleted), TodoHasId(id), MarkRestored) == todos
  {
    UpdateTwice(todos, id, MarkDeleted, MarkRestored);
    var r := UpdateFirst(todos, TodoHasId(id), Then(MarkDeleted, MarkRestored));
    forall k | 0 <= k < |todos| ensures r[k] == todos[k] {
      if todos[k].id == id {
        assert Then(MarkDeleted, MarkRestored)(todos[k]) == todos[k];
      }
    }
  }

  /** Every script.js edit keeps `deletedAt` present exactly on the deleted todos. */
  lemma ScriptEditsKeepDeletedAt(todos: seq<Todo>, id: Id, now: Timestamp, text: string)
    requires DeletedAtTracksDeleted(todos)
    ensures DeletedAtTracksDeleted(UpdateFirst(todos, TodoHasId(id), Flip))
    ensures DeletedAtTracksDeleted(UpdateFirst(todos, TodoHasId(id), StampDeleted(now)))
    ensures DeletedAtTracksDeleted(UpdateFirst(todos, TodoHasId(id), RestoreDeleted))
    ensures DeletedAtTracksDeleted(UpdateFirst(todos, TodoHasId(id), SetTextUnlessDeleted(text)))
  {
    KeepsStamps(todos, id, Flip);
    KeepsStamps(todos, id, StampDeleted(now));
    KeepsStamps(todos, id, RestoreDeleted);
    KeepsStamps(todos, id, SetTextUnlessDeleted(text));
  }

  lemma KeepsStamps(todos: seq<Todo>, id: Id, f: Todo -> Todo)
    requires DeletedAtTracksDeleted(todos)
    requires forall t :: StampedIffDeleted(t) ==> StampedIffDeleted(f(t))
    ensures DeletedAtTracksDeleted(UpdateFirst(todos, TodoHasId(id), f))
  {
    var r := UpdateFirst(todos, TodoHasId(id), f);
    forall t | t in r ensures StampedIffDeleted(t) {
      var k :| 0 <= k < |r| && r[k] == t;
      assert todos[k] in todos;
    }
  }

  /** js/todo-list.js deleteTodo leaves a todo deleted whatever its state, touching no other
      field; restoreTodo undeletes it whether or not it was deleted. */
  lemma MarkDeletedAndRestored(t: Todo)
    ensures MarkDeleted(t).deleted && MarkDeleted(t).(deleted := t.deleted) == t
    ensures !MarkRestored(t).deleted && MarkRestored(t).(deleted := t.deleted) == t
  {
  }
}
