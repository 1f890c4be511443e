/** The todo.json store and the CLI actions that read, change and write it.
    The file is the only state: `None` when todo.json does not exist, otherwise
    the list it holds. add always writes the list back; rm, done and edit write
    it back whenever their lookup succeeds (edit only for a non-blank answer),
    even when the list comes out the same; ls writes nothing; reset deletes the
    file. */
module TodoStore {
  import opened Text
  import opened TodoList

  /** What an action reports, in place of the message it prints. */
  datatype Outcome =
    | Added | Deleted | NotFound | Marked | Updated | NoChange | Cleared | NothingToReset

  /** What `ls` prints: the "No todos found." message or the selected records. */
  datatype Listing = NoTodos | Shown(items: seq<Todo>)

  class Store {
    /** todo.json in the working directory. */
    var file: Option<seq<Todo>>

    /** The store as a command invocation finds it. */
    constructor (stored: Option<seq<Todo>>)
      ensures file == stored
    {
      file := stored;
    }

    /** `readTodo`: an absent file reads as the empty list. */
    function Load(): (todos: seq<Todo>)
      reads this
      ensures file.None? ==> todos == []
      ensures file.Some? ==> todos == file.value
    {
      match file
      case None => []
      case Some(stored) => stored
    }

    /** `writeTodo`: the file holds exactly `todos`, which reads back unchanged. */
    method Write(todos: seq<Todo>)
      modifies this
      ensures file == Some(todos) && Load() == todos
    {
      file := Some(todos);
    }

    /** `add <task>` */
    method Add(task: string) returns (r: Outcome)
      modifies this
      ensures r == Added
      ensures file == Some(Appended(old(Load()), task))
      ensures Positional(old(Load())) ==> Positional(Load())
    {
      var todos := Load();
      var newTodo := Todo(NatToString(|todos| + 1), task, false);
      todos := todos + [newTodo];
      Write(todos);
      r := Added;
      if Positional(old(Load())) {
        AppendedPositional(old(Load()), task);
      }
    }

    /** `rm <task>` */
    method Remove(task: string) returns (r: Outcome)
      modifies this
      ensures r == Deleted <==> FindTask(old(Load()), task).Some?
      ensures r == Deleted ==> file == Some(Removed(old(Load()), task)) && Positional(Load())
      ensures r != Deleted ==> r == NotFound && file == old(file)
    {
      var todos := Load();
      var index := FindTask(todos, task);
      if index.Some? {
        todos := RemovedAt(todos, index.value);
        todos := Renumbered(todos);
        Write(todos);
        r := Deleted;
      } else {
        r := NotFound;
      }
    }

    /** `done <task>` */
    method MarkDone(task: string) returns (r: Outcome)
      modifies this
      ensures r == Marked <==> FindTask(old(Load()), task).Some?
      ensures r == Marked ==> file == Some(MarkedDone(old(Load()), task))
      ensures r != Marked ==> r == NotFound && file == old(file)
      ensures Positional(old(Load())) ==> Positional(Load())
    {
      var todos := Load();
      var index := FindTask(todos, task);
      if index.Some? {
        var i := index.value;
        todos := MarkedAt(todos, i);
        Write(todos);
        r := Marked;
      } else {
        r := NotFound;
      }
    }

    /** `edit <id>`, where `answer` is what the user types at the prompt. */
    method Edit(id: string, answer: string) returns (r: Outcome)
      modifies this
      ensures r == NotFound <==> FindId(old(Load()), id).None?
      ensures r == NoChange <==> FindId(old(Load()), id).Some? && Blank(answer)
      ensures r == Updated ==> file == Some(Edited(old(Load()), id, answer))
      ensures r != Updated ==> r in {NotFound, NoChange} && file == old(file)
      ensures Positional(old(Load())) ==> Positional(Load())
    {
      var todos := Load();
      var index := FindId(todos, id);
      if index.Some? {
        var i := index.value;
        var newTask := Trim(answer);
        if newTask != [] {
          todos := todos[i := todos[i].(task := newTask)];
          Write(todos);
          r := Updated;
        } else {
          r := NoChange;
        }
      } else {
        r := NotFound;
      }
    }

    /** `ls [status]`: walks the stored records in order and collects those
        the status selects; changes nothing. */
    method List(status: Option<string>) returns (r: Listing)
      ensures Load() == [] <==> r == NoTodos
      ensures r.Shown? ==> r.items == Visible(Load(), status)
    {
      var todos := Load();
      if |todos| == 0 {
        return NoTodos;
      }
      var shown := [];
      var i := 0;
      while i < |todos|
        invariant 0 <= i <= |todos|
        invariant shown == Visible(todos[..i], status)
      {
        var todo := todos[i];
        assert todos[..i + 1][..i] == todos[..i];
        if Listed(status, todo) {
          shown := shown + [todo];
        }
        i := i + 1;
      }
      assert todos[..i] == todos;
      r := Shown(shown);
    }

    /** `reset`: deletes todo.json if it exists. */
    method Reset() returns (r: Outcome)
      modifies this
      ensures r == (if old(file).Some? then Cleared else NothingToReset)
      ensures file == None && Load() == []
    {
      if file.Some? {
        file := None;
        r := Cleared;
      } else {
        r := NothingToReset;
      }
    }
  }

  /** A fresh store: add, then reset twice. */
  method ScenarioAddReset() {
    var store := new Store(None);
    var r := store.Add("buy milk");
    assert NatToString(1) == "1";
    assert store.Load() == [Todo("1", "buy milk", false)];
    r := store.Reset();
    assert r == Cleared && store.Load() == [];
    r := store.Reset();
    assert r == NothingToReset;
  }

  /** add "x", then edit id 1 answering with padded text. */
  method ScenarioEdit() {
    var store := new Store(None);
    var r := store.Add("x");
    assert NatToString(1) == "1";
    var one := [Todo("1", "x", false)];
    assert store.Load() == one;
    EditTrims(false);
    r := store.Edit("1", "  y ");
    assert r == Updated;
    assert store.Load() == [Todo("1", "y", false)];
  }

  /** edit declines a blank answer and an unknown id, and writes nothing. */
  method ScenarioEditDeclined() {
    var stored := [Todo("1", "y", false)];
    var store := new Store(Some(stored));
    assert FindId(stored, "1") == Some(0);
    assert Blank("   ");
    var r := store.Edit("1", "   ");
    assert r == NoChange && store.file == Some(stored);
    assert FindId(stored, "2") == None by {
      assert stored[0].id != "2";
    }
    r := store.Edit("2", "z");
    assert r == NotFound && store.file == Some(stored);
  }
}
