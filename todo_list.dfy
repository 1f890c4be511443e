/** The todo list as a value: the records stored in todo.json and what each
    command of the CLI does to them. The class in module TodoStore performs
    these steps on the stored list; the functions here are their specification
    and the lemmas below state what they guarantee. */
module TodoList {
  import opened Text

  datatype Option<T> = None | Some(value: T)

  /** One stored record. */
  datatype Todo = Todo(id: string, task: string, done: bool)

  /** The id invariant: every record's id is its 1-based position, written in
      decimal. */
  predicate Positional(todos: seq<Todo>) {
    forall i :: 0 <= i < |todos| ==> todos[i].id == NatToString(i + 1)
  }

  /** `a` and `b` agree on everything but the id. */
  predicate SameEntry(a: Todo, b: Todo) {
    a.task == b.task && a.done == b.done
  }

  // ---------------------------------------------------------------------------
  // Lookup

  /** `Array.prototype.findIndex`: the first position whose record satisfies
      `p`, or None when there is none. */
  function FindIndex(todos: seq<Todo>, p: Todo -> bool): (r: Option<nat>)
    ensures r.Some? ==> r.value < |todos| && p(todos[r.value])
    ensures r.Some? ==> forall j :: 0 <= j < r.value ==> !p(todos[j])
    ensures r.None? ==> forall j :: 0 <= j < |todos| ==> !p(todos[j])
  {
    if todos == [] then None
    else if p(todos[0]) then Some(0)
    else match FindIndex(todos[1..], p)
      case None => None
      case Some(i) => Some(i + 1)
  }

  /** The form in which rm and done compare task texts: lowercased, then
      trimmed. */
  function Normalize(s: string): string {
    Trim(ToLower(s))
  }

  /** A normalised text has no capital letters and no white space at either
      end, and is empty exactly when the text was blank. */
  lemma NormalizeShape(s: string)
    ensures var r := Normalize(s);
      && (forall i :: 0 <= i < |r| ==> !('A' <= r[i] <= 'Z'))
      && (r == [] || (!IsSpace(r[0]) && !IsSpace(r[|r| - 1])))
      && (r == [] <==> Blank(s))
  {
    var lower := ToLower(s);
    TrimKeeps(lower);
    forall i | 0 <= i < |s| ensures IsSpace(lower[i]) == IsSpace(s[i]) {
      LowerCharKeepsSpace(s[i]);
    }
  }

  /** Normalising a normalised text changes nothing. */
  lemma NormalizeIdempotent(s: string)
    ensures Normalize(Normalize(s)) == Normalize(s)
  {
    var r := Normalize(s);
    NormalizeShape(s);
    assert ToLower(r) == r;
    TrimIdempotent(ToLower(s));
  }

  /** The record matches the task text a user typed. */
  predicate Matches(t: Todo, key: string) {
    Normalize(t.task) == Normalize(key)
  }

  /** White space around the typed text makes no difference to matching. */
  lemma MatchesTrimmedKey(t: Todo, key: string)
    ensures Matches(t, key) <==> Matches(t, Trim(key))
  {
    ToLowerTrim(key);
    TrimIdempotent(ToLower(key));
  }

  /** The first record whose task matches `key`. */
  function FindTask(todos: seq<Todo>, key: string): (r: Option<nat>)
    ensures r.Some? ==> r.value < |todos| && Matches(todos[r.value], key)
    ensures r.Some? ==> forall j :: 0 <= j < r.value ==> !Matches(todos[j], key)
    ensures r.None? ==> forall j :: 0 <= j < |todos| ==> !Matches(todos[j], key)
  {
    FindIndex(todos, (t: Todo) => Matches(t, key))
  }

  /** The first record whose id is exactly `id`. */
  function FindId(todos: seq<Todo>, id: string): (r: Option<nat>)
    ensures r.Some? ==> r.value < |todos| && todos[r.value].id == id
    ensures r.Some? ==> forall j :: 0 <= j < r.value ==> todos[j].id != id
    ensures r.None? ==> forall j :: 0 <= j < |todos| ==> todos[j].id != id
  {
    FindIndex(todos, (t: Todo) => t.id == id)
  }

  /** When positional, the id `String(k)` names the record at position k - 1,
      and an id that is no position names nothing. */
  lemma PositionalFindId(todos: seq<Todo>, id: string)
    requires Positional(todos)
    ensures FindId(todos, id).Some? <==> exists k :: 1 <= k <= |todos| && id == NatToString(k)
    ensures forall k :: 1 <= k <= |todos| && id == NatToString(k) ==> FindId(todos, id) == Some(k - 1)
  {
    forall k | 1 <= k <= |todos| && id == NatToString(k)
      ensures FindId(todos, id) == Some(k - 1)
    {
      var r := FindId(todos, id);
      assert todos[k - 1].id == id;
      if r.Some? && r.value != k - 1 {
        NatToStringInjective(r.value + 1, k);
      }
    }
    if FindId(todos, id).Some? {
      var k := FindId(todos, id).value + 1;
      assert id == NatToString(k);
    }
  }

  // ---------------------------------------------------------------------------
  // add

  /** The list after `add task`: one new pending record at the end whose id is
      the new length. */
  function Appended(todos: seq<Todo>, task: string): (r: seq<Todo>)
    ensures |r| == |todos| + 1 && r[..|todos|] == todos
    ensures r[|todos|] == Todo(NatToString(|r|), task, false)
  {
    todos + [Todo(NatToString(|todos| + 1), task, false)]
  }

  /** add keeps the id invariant. */
  lemma AppendedPositional(todos: seq<Todo>, task: string)
    requires Positional(todos)
    ensures Positional(Appended(todos, task))
  {
    var r := Appended(todos, task);
    forall i | 0 <= i < |r| ensures r[i].id == NatToString(i + 1) {
      if i < |todos| {
        assert r[i] == r[..|todos|][i];
      }
    }
  }

  // ---------------------------------------------------------------------------
  // rm

  /** `todos.map((todo, idx) => ({...todo, id: String(idx + 1)}))` */
  function Renumbered(todos: seq<Todo>): (r: seq<Todo>)
    ensures |r| == |todos| && Positional(r)
    ensures forall i :: 0 <= i < |r| ==> r[i] == todos[i].(id := r[i].id)
  {
    seq(|todos|, i requires 0 <= i < |todos| => todos[i].(id := NatToString(i + 1)))
  }

  /** `todos.splice(i, 1)` */
  function RemovedAt(todos: seq<Todo>, i: nat): (r: seq<Todo>)
    requires i < |todos|
    ensures |r| == |todos| - 1
    ensures forall j :: 0 <= j < i ==> r[j] == todos[j]
    ensures forall j :: i <= j < |r| ==> r[j] == todos[j + 1]
  {
    todos[..i] + todos[i + 1..]
  }

  /** The list after `rm key`: the first matching record deleted and the ids
      renumbered; the list itself when nothing matches. */
  function Removed(todos: seq<Todo>, key: string): (r: seq<Todo>)
    ensures FindTask(todos, key).None? ==> r == todos
    ensures FindTask(todos, key).Some? ==>
      var i := FindTask(todos, key).value;
      && |r| == |todos| - 1
      && Positional(r)
      && (forall j :: 0 <= j < i ==> SameEntry(r[j], todos[j]))
      && (forall j :: i <= j < |r| ==> SameEntry(r[j], todos[j + 1]))
  {
    match FindTask(todos, key)
    case None => todos
    case Some(i) => Renumbered(RemovedAt(todos, i))
  }

  /** When exactly one record matches, nothing matches after rm. */
  lemma RemovedUniqueNoMatch(todos: seq<Todo>, key: string)
    requires FindTask(todos, key).Some?
    requires forall j :: 0 <= j < |todos| && j != FindTask(todos, key).value ==> !Matches(todos[j], key)
    ensures FindTask(Removed(todos, key), key).None?
  {
    var i := FindTask(todos, key).value;
    var r := Removed(todos, key);
    forall j | 0 <= j < |r| ensures !Matches(r[j], key) {
      if j < i {
        assert SameEntry(r[j], todos[j]);
      } else {
        assert SameEntry(r[j], todos[j + 1]);
      }
    }
  }

  /** A second matching record survives rm, one place further forward. */
  lemma RemovedDuplicateStillMatches(todos: seq<Todo>, key: string, j: nat)
    requires FindTask(todos, key).Some?
    requires j < |todos| && j != FindTask(todos, key).value && Matches(todos[j], key)
    ensures FindTask(Removed(todos, key), key).Some?
  {
    var i := FindTask(todos, key).value;
    var r := Removed(todos, key);
    assert j > i;
    assert SameEntry(r[j - 1], todos[j]);
    assert Matches(r[j - 1], key);
  }

  /** No two records of `todos` match `key`. */
  predicate AtMostOneMatch(todos: seq<Todo>, key: string) {
    forall j, k :: 0 <= j < k < |todos| && Matches(todos[j], key) ==> !Matches(todos[k], key)
  }

  /** After rm, nothing matches exactly when at most one record matched before. */
  lemma RemovedNoMatchIff(todos: seq<Todo>, key: string)
    ensures FindTask(Removed(todos, key), key).None? <==> AtMostOneMatch(todos, key)
  {
    var f := FindTask(todos, key);
    if f.None? {
      assert Removed(todos, key) == todos;
    } else if AtMostOneMatch(todos, key) {
      var i := f.value;
      forall j | 0 <= j < |todos| && j != i ensures !Matches(todos[j], key) {
        if j < i {
          assert !Matches(todos[j], key);
        } else {
          assert Matches(todos[i], key);
        }
      }
      RemovedUniqueNoMatch(todos, key);
    } else {
      var j, k :| 0 <= j < k < |todos| && Matches(todos[j], key) && Matches(todos[k], key);
      RemovedDuplicateStillMatches(todos, key, if j == f.value then k else j);
    }
  }

  // ---------------------------------------------------------------------------
  // done

  /** `todos[i].done = true` */
  function MarkedAt(todos: seq<Todo>, i: nat): (r: seq<Todo>)
    requires i < |todos|
    ensures |r| == |todos|
    ensures forall j :: 0 <= j < |r| ==> r[j].id == todos[j].id && r[j].task == todos[j].task
    ensures forall j :: 0 <= j < |r| ==> r[j].done == (todos[j].done || j == i)
  {
    todos[i := todos[i].(done := true)]
  }

  /** The list after `done key`: the first matching record is done; nothing
      else changes. */
  function MarkedDone(todos: seq<Todo>, key: string): (r: seq<Todo>)
    ensures |r| == |todos|
    ensures forall j :: 0 <= j < |r| ==> r[j].id == todos[j].id && r[j].task == todos[j].task
    ensures forall j :: 0 <= j < |r| ==> r[j].done == (todos[j].done || FindTask(todos, key) == Some(j))
  {
    match FindTask(todos, key)
    case None => todos
    case Some(i) => MarkedAt(todos, i)
  }

  /** A match in `a` is a match in `b` when the tasks agree, so `b`'s first
      match comes no later. */
  lemma FindTaskNoLater(a: seq<Todo>, b: seq<Todo>, key: string)
    requires |a| == |b|
    requires forall j :: 0 <= j < |a| ==> a[j].task == b[j].task
    ensures FindTask(a, key).Some? ==>
      FindTask(b, key).Some? && FindTask(b, key).value <= FindTask(a, key).value
  {
    var ra := FindTask(a, key);
    if ra.Some? {
      assert a[ra.value].task == b[ra.value].task;
      assert Matches(b[ra.value], key);
    }
  }

  /** Two lists with the same tasks at the same positions select the same
      record for a task text. */
  lemma FindTaskSameTasks(a: seq<Todo>, b: seq<Todo>, key: string)
    requires |a| == |b|
    requires forall j :: 0 <= j < |a| ==> a[j].task == b[j].task
    ensures FindTask(a, key) == FindTask(b, key)
  {
    FindTaskNoLater(a, b, key);
    FindTaskNoLater(b, a, key);
  }

  /** Marking a task done twice gives the list marking it once gives. */
  lemma MarkedDoneIdempotent(todos: seq<Todo>, key: string)
    ensures MarkedDone(MarkedDone(todos, key), key) == MarkedDone(todos, key)
  {
    var once := MarkedDone(todos, key);
    FindTaskSameTasks(once, todos, key);
    assert forall j :: 0 <= j < |once| ==> MarkedDone(once, key)[j] == once[j];
  }

  /** done keeps the id invariant. */
  lemma MarkedDonePositional(todos: seq<Todo>, key: string)
    requires Positional(todos)
    ensures Positional(MarkedDone(todos, key))
  {
  }

  // ---------------------------------------------------------------------------
  // edit

  /** The list after `edit id` answered with `answer`: the record with that id
      gets the trimmed answer as its task, unless the answer is blank; nothing
      else changes. */
  function Edited(todos: seq<Todo>, id: string, answer: string): (r: seq<Todo>)
    ensures |r| == |todos|
    ensures forall j :: 0 <= j < |r| ==> r[j].id == todos[j].id && r[j].done == todos[j].done
    ensures forall j :: 0 <= j < |r| ==>
      r[j].task == if FindId(todos, id) == Some(j) && !Blank(answer) then Trim(answer) else todos[j].task
  {
    match FindId(todos, id)
    case None => todos
    case Some(i) =>
      var text := Trim(answer);
      if text != [] then todos[i := todos[i].(task := text)] else todos
  }

  /** A found id and a non-blank answer rewrite exactly that record's task. */
  lemma EditedFound(todos: seq<Todo>, id: string, answer: string)
    requires FindId(todos, id).Some? && !Blank(answer)
    ensures var i := FindId(todos, id).value;
      Edited(todos, id, answer) == todos[i := todos[i].(task := Trim(answer))]
  {
  }

  /** A one-record list edited by that record's id. */
  lemma EditedSingle(t: Todo, answer: string)
    requires !Blank(answer)
    ensures Edited([t], t.id, answer) == [t.(task := Trim(answer))]
  {
    assert FindId([t], t.id) == Some(0);
    EditedFound([t], t.id, answer);
  }

  /** edit keeps the id invariant. */
  lemma EditedPositional(todos: seq<Todo>, id: string, answer: string)
    requires Positional(todos)
    ensures Positional(Edited(todos, id, answer))
  {
  }

  /** After a successful edit, `rm` or `done` with the text as the user typed
      it (untrimmed) finds a record. */
  lemma EditedThenFound(todos: seq<Todo>, id: string, answer: string)
    requires FindId(todos, id).Some? && !Blank(answer)
    ensures FindTask(Edited(todos, id, answer), answer).Some?
  {
    var i := FindId(todos, id).value;
    var r := Edited(todos, id, answer);
    ToLowerTrim(answer);
    TrimIdempotent(ToLower(answer));
    assert Matches(r[i], answer);
  }

  // ---------------------------------------------------------------------------
  // ls

  /** Whether `ls status` prints the record: `p` prints pending ones, `d`
      done ones, an absent (or empty, hence falsy) status all of them, and any
      other status none. */
  predicate Listed(status: Option<string>, t: Todo)
    ensures Listed(status, t) ==> status == None || status.value in {"", "p", "d"}
    ensures status == None || status == Some("") ==> Listed(status, t)
  {
    if status == Some("p") then !t.done
    else if status == Some("d") then t.done
    else status == None || status == Some("")
  }

  /** The records `ls status` prints, in stored order. */
  function Visible(todos: seq<Todo>, status: Option<string>): (r: seq<Todo>)
    ensures |r| <= |todos|
    ensures forall t :: t in r ==> t in todos && Listed(status, t)
  {
    if todos == [] then []
    else
      var init := todos[..|todos| - 1];
      var last := todos[|todos| - 1];
      assert todos == init + [last];
      Visible(init, status) + (if Listed(status, last) then [last] else [])
  }

  /** Listing a concatenation lists each part in turn: the listing keeps the
      stored order. */
  lemma {:induction false} VisibleConcat(a: seq<Todo>, b: seq<Todo>, status: Option<string>)
    ensures Visible(a + b, status) == Visible(a, status) + Visible(b, status)
  {
    if b != [] {
      var init := b[..|b| - 1];
      assert (a + b)[..|a + b| - 1] == a + init;
      assert (a + b)[|a + b| - 1] == b[|b| - 1];
      VisibleConcat(a, init, status);
    } else {
      assert a + b == a;
    }
  }

  /** A record is listed exactly when it is stored and the status selects it. */
  lemma {:induction false} VisibleMembers(todos: seq<Todo>, status: Option<string>, t: Todo)
    ensures t in Visible(todos, status) <==> t in todos && Listed(status, t)
  {
    if todos != [] {
      var init := todos[..|todos| - 1];
      assert todos == init + [todos[|todos| - 1]];
      VisibleMembers(init, status, t);
    }
  }

  /** `ls p` shows exactly the stored records that are not done, and `ls d`
      exactly the stored records that are done. */
  lemma VisiblePendingDone(todos: seq<Todo>, t: Todo)
    ensures t in Visible(todos, Some("p")) <==> t in todos && !t.done
    ensures t in Visible(todos, Some("d")) <==> t in todos && t.done
  {
    VisibleMembers(todos, Some("p"), t);
    VisibleMembers(todos, Some("d"), t);
  }

  /** No status, or an empty one, lists every record. */
  lemma {:induction false} VisibleAll(todos: seq<Todo>, status: Option<string>)
    requires status == None || status == Some("")
    ensures Visible(todos, status) == todos
  {
    if todos != [] {
      var init := todos[..|todos| - 1];
      assert todos == init + [todos[|todos| - 1]];
      VisibleAll(init, status);
    }
  }

  /** A status other than p and d (and not empty) lists nothing. */
  lemma {:induction false} VisibleNone(todos: seq<Todo>, status: Option<string>)
    requires status.Some? && status.value !in {"", "p", "d"}
    ensures Visible(todos, status) == []
  {
    if todos != [] {
      VisibleNone(todos[..|todos| - 1], status);
    }
  }

  /** Every record is listed by exactly one of `ls p` and `ls d`. */
  lemma {:induction false} VisiblePartition(todos: seq<Todo>)
    ensures |Visible(todos, Some("p"))| + |Visible(todos, Some("d"))| == |todos|
  {
    if todos != [] {
      VisiblePartition(todos[..|todos| - 1]);
    }
  }

  /** After `done key` the marked record is listed by `ls d` and not by
      `ls p`. */
  lemma MarkedDoneListed(todos: seq<Todo>, key: string)
    requires FindTask(todos, key).Some?
    ensures var r := MarkedDone(todos, key); var i := FindTask(todos, key).value;
      r[i] in Visible(r, Some("d")) && r[i] !in Visible(r, Some("p"))
  {
    var r := MarkedDone(todos, key);
    var i := FindTask(todos, key).value;
    VisibleMembers(r, Some("d"), r[i]);
    VisibleMembers(r, Some("p"), r[i]);
  }

  // ---------------------------------------------------------------------------
  // Worked examples

  /** Adding "buy milk" to an empty list. */
  lemma AddToEmpty()
    ensures Appended([], "buy milk") == [Todo("1", "buy milk", false)]
  {
    assert NatToString(1) == "1";
  }

  /** The padded answer of the edit example trims to "y". */
  lemma TrimPaddedAnswer()
    ensures !Blank("  y ") && Trim("  y ") == "y"
  {
    assert !IsSpace("  y "[2]);
    assert "  y " == "  " + "y" + " ";
    TrimExact("  ", "y", " ");
  }

  /** edit of id "1" answered with padded text stores the trimmed text and
      keeps the id and the done flag. */
  lemma EditTrims(done: bool)
    ensures Edited([Todo("1", "x", done)], "1", "  y ") == [Todo("1", "y", done)]
  {
    TrimPaddedAnswer();
    EditedSingle(Todo("1", "x", done), "  y ");
  }

  /** In a two-record list whose first record matches, rm keeps the second
      record and gives it id "1". */
  lemma RemovedFirstOfTwo(a: Todo, b: Todo, key: string)
    requires Matches(a, key)
    ensures Removed([a, b], key) == [b.(id := "1")]
  {
    assert FindTask([a, b], key) == Some(0);
    assert RemovedAt([a, b], 0) == [b];
    assert NatToString(1) == "1";
  }

  /** The texts of the rm examples normalise to "a". */
  lemma NormalizeLowerA()
    ensures Normalize("a") == "a"
  {
    assert ToLower("a") == "a";
    assert "a" == "" + "a" + "";
    TrimExact("", "a", "");
  }

  lemma NormalizePaddedA()
    ensures Normalize(" A ") == "a"
  {
    var lower := ToLower(" A ");
    assert lower[0] == ' ' && lower[1] == 'a' && lower[2] == ' ';
    assert lower == " " + "a" + " ";
    TrimExact(" ", "a", " ");
  }

  /** add "a", add "b", rm "a": "b" moves to id "1". */
  lemma RemoveRenumbers()
    ensures Removed(Appended(Appended([], "a"), "b"), "a") == [Todo("1", "b", false)]
  {
    assert NatToString(1) == "1" && NatToString(2) == "2";
    assert Appended(Appended([], "a"), "b") == [Todo("1", "a", false), Todo("2", "b", false)];
    NormalizeLowerA();
    RemovedFirstOfTwo(Todo("1", "a", false), Todo("2", "b", false), "a");
  }

  /** rm deletes only the first of two records that match: the second stays,
      and still matches. */
  lemma RemoveLeavesLaterDuplicate()
    ensures var r := Removed([Todo("1", "a", false), Todo("2", " A ", true)], "a");
      r == [Todo("1", " A ", true)] && FindTask(r, "a") == Some(0)
  {
    NormalizeLowerA();
    NormalizePaddedA();
    RemovedFirstOfTwo(Todo("1", "a", false), Todo("2", " A ", true), "a");
    assert Matches(Todo("1", " A ", true), "a");
  }
}
