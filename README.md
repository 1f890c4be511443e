# TodoPro store, modelled in Dafny

TodoPro is a command-line todo manager. It keeps an ordered list of records
`{id, task, done}` in `todo.json` in the working directory. `add` always
writes the list back. `rm`, `done` and `edit` write the whole list back
whenever their lookup succeeds (`edit` only for a non-blank answer), even if
the list comes out the same. `ls` writes nothing, and `reset` only deletes the
file:

- `add <task>` appends a pending record. Its id is the new length.
- `rm <task>` deletes the first record whose task matches, then renumbers the ids.
- `done <task>` marks the first matching record done.
- `edit <id>` replaces the task of the record with that id by the trimmed answer to a prompt. A blank answer changes nothing.
- `ls [p|d]` prints the pending records, the done records, or all of them.
- `reset` deletes the file.

Two task texts match when they are equal after lowercasing and trimming.

The model has three modules:

- `Text` (text.dfy) holds the string operations the commands use:
  JavaScript's `trim` (the whole ECMAScript white-space and line-terminator
  set), `toLowerCase` on ASCII letters, and `String(n)` for the decimal ids.
  It also proves that trimming and lowercasing commute and that decimal
  strings read back to their numbers.
- `TodoList` (todo_list.dfy) works on values. It defines the record, the
  positional-id invariant (`todos[i].id == String(i + 1)`) and one function per
  command giving the list that command produces. Lemmas state what each command
  guarantees.
- `TodoStore` (todo_store.dfy) is the imperative layer. Class `Store` has one
  field, `file: Option<seq<Todo>>`, where `None` means todo.json does not exist.
  Each CLI action is a method that reads, updates and writes that field the way
  the action body does. Each method's postcondition ties the new file and the
  reported `Outcome` to the `TodoList` functions. An action that finds nothing,
  or an edit that is declined, leaves `file` exactly as it was. So a store that
  was absent stays absent.

The console messages are replaced by result values. `Outcome` is `Added`,
`Deleted`, `NotFound`, `Marked`, `Updated`, `NoChange`, `Cleared` or
`NothingToReset`. `Listing` is either `NoTodos` ("No todos found.") or
`Shown(records)`. The answer to the edit prompt is a parameter of `Edit`.

The methods `ScenarioAddReset`, `ScenarioEdit` and `ScenarioEditDeclined` in
todo_store.dfy are worked examples of the `Store` methods. They have no
contract of their own. Each one runs a short command sequence on a new store
and asserts the outcomes and the file contents that the `Store` contracts give
(add then reset twice; add then edit with a padded answer; edit declined for a
blank answer and for an unknown id).

Where the code falls short of the behaviour one would expect of a todo manager,
the model follows the code:

- One would expect that after `rm <task>`, `ls` shows no record matching the
  task. That holds exactly when at most one record matches
  (`RemovedNoMatchIff`). `rm` and `done` act on the first matching record
  only. So when two records normalise to the same text, the second one is
  still listed after `rm` (`RemovedDuplicateStillMatches`,
  `RemoveLeavesLaterDuplicate`) and still pending after `done`.
- `add` does not check its text and stores it verbatim, so a record's task
  can be blank.
- Any `ls` status other than `p` and `d` lists nothing. The exception is the
  empty string: it is falsy in JavaScript, so it lists everything, like no
  status at all.

## Model

| member | source | states |
|---|---|---|
| Text.TrimStart | index.js:150-151 | the result is a suffix of the input, what was dropped is all white space, and the result does not start with white space |
| Text.TrimEnd | index.js:150-151 | the result is a prefix of the input, what was dropped is all white space, and the result does not end with white space |
| Text.IsSpace | index.js:150-151 | the white space `trim` removes contains no ASCII letter or digit |
| Text.Trim | index.js:150-151 | `trim()` is empty exactly when the text is blank; otherwise it starts and ends with a non-space and is no longer than the input |
| Text.TrimKeeps | index.js:150-151 | every character `trim` keeps comes from the input |
| Text.TrimStartBlankPrefix | index.js:150-151 | stripping leading white space removes exactly a blank prefix in front of a non-space |
| Text.TrimEndBlankSuffix | index.js:150-151 | stripping trailing white space removes exactly a blank suffix after a non-space |
| Text.TrimExact | index.js:150-151 | `trim` of blank text, a core that starts and ends with a non-space, and blank text is exactly the core |
| Text.TrimIdempotent | index.js:150-151 | trimming an already trimmed text changes nothing |
| Text.LowerChar | index.js:111 | lowercasing one character maps a capital ASCII letter to the matching small letter, leaves every other character as it is, and never yields a capital |
| Text.ToLower | index.js:111 | the model's lowercasing keeps the length, leaves no capital ASCII letter, and changes only capital letters |
| Text.LowerCharKeepsSpace | index.js:111 | lowercasing a character neither creates nor removes white space |
| Text.ToLowerTrimStart | index.js:111 | lowercasing commutes with stripping leading white space |
| Text.ToLowerTrimEnd | index.js:111 | lowercasing commutes with stripping trailing white space |
| Text.ToLowerTrim | index.js:111 | lowercasing commutes with `trim` |
| Text.DigitChar | index.js:96 | the digit character for a digit value denotes that value |
| Text.NatToString | index.js:96 | `String(n)` is a non-empty run of decimal digits with no leading zero (unless n is 0), and has one digit exactly when n < 10 |
| Text.DecimalValueOfNatToString | index.js:96 | reading the decimal string of n back gives n |
| Text.NatToStringInjective | index.js:146 | two ids `String(a)` and `String(b)` are equal exactly when a == b |
| TodoList.NormalizeShape | index.js:111 | the text a match compares has no capitals and no white space at either end, and is empty exactly when the original text is blank |
| TodoList.NormalizeIdempotent | index.js:111 | normalising twice gives what normalising once gives |
| TodoList.MatchesTrimmedKey | index.js:110-112 | white space typed around the task makes no difference to which records match |
| TodoList.FindTask | index.js:110-112 | rm, and done with the same test at index.js:129-131, pick the first record whose task matches the typed text, or none when no record matches |
| TodoList.FindId | index.js:146 | edit picks the first record whose id is exactly the given string, or none when no record has it |
| TodoList.Listed | index.js:61-67 | ls selects a record only for no status, the empty status, `p` or `d`; no status or the empty one selects every record |
| TodoList.Normalize | index.js:111 | lowercase then trim, in the source's order; its properties are NormalizeShape and NormalizeIdempotent |
| TodoList.Matches | index.js:111 | a record matches the typed text when both are equal after lowercasing and trimming, the test rm uses here and done uses at index.js:130; MatchesTrimmedKey states that padding the typed text changes nothing |
| TodoList.Positional | index.js:116 | the id invariant: record i has id `String(i + 1)`. rm's renumbering establishes it whatever the ids were (`Removed`); add, done and edit preserve it (`AppendedPositional`, `MarkedDonePositional`, `EditedPositional`); the contracts of `Store.Add`, `Store.Remove`, `Store.MarkDone` and `Store.Edit` state it |
| TodoList.FindIndex | index.js:110-112 | `findIndex` gives the first position whose record satisfies the test, or none when no record does |
| TodoList.PositionalFindId | index.js:146 | with positional ids, `edit` finds an id exactly when it is `String(k)` for a position k, and then picks record k - 1 |
| TodoList.Appended | index.js:94-100 | add gives one more record; the earlier records are unchanged and in order; the new last record is `{id: String(new length), task verbatim, done: false}` |
| TodoList.AppendedPositional | index.js:96-100 | add keeps the ids positional |
| TodoList.Renumbered | index.js:116 | renumbering makes the ids positional whatever they were, keeps the length and changes nothing but the ids |
| TodoList.RemovedAt | index.js:114 | `splice(i, 1)` drops record i and keeps the others in order |
| TodoList.Removed | index.js:110-117 | rm with no match leaves the list as it is; otherwise the list is one shorter, its ids are positional, and the records before the first match and after it keep their tasks, done flags and order |
| TodoList.RemovedUniqueNoMatch | index.js:110-117 | when exactly one record matches, no record matches after rm |
| TodoList.RemovedDuplicateStillMatches | index.js:110-117 | when a second record matches besides the first match, some record still matches after rm |
| TodoList.RemovedNoMatchIff | index.js:110-117 | after rm no record matches exactly when at most one record matched before, including the case where none did |
| TodoList.MarkedAt | index.js:133 | setting `done` on record i changes no id or task, and afterwards a record is done exactly when it was done before or is record i |
| TodoList.MarkedDone | index.js:129-134 | done keeps every id and task; a record is done afterwards exactly when it was done before or is the first match |
| TodoList.FindTaskNoLater | index.js:129-131 | when two lists agree on their tasks, a match in one is a match in the other, so the other's first match comes no later |
| TodoList.FindTaskSameTasks | index.js:129-131 | two lists with the same tasks at the same positions have the same first match |
| TodoList.MarkedDoneIdempotent | index.js:129-134 | applying done twice gives the same list as applying it once |
| TodoList.MarkedDonePositional | index.js:133 | done keeps the ids positional |
| TodoList.Edited | index.js:146-156 | edit keeps every id and done flag; only the record with that id gets a new task, the trimmed answer, and only if the answer is not blank |
| TodoList.EditedFound | index.js:150-152 | a found id and a non-blank answer rewrite exactly that record's task |
| TodoList.EditedSingle | index.js:146-152 | editing a one-record list by its own id replaces its task by the trimmed answer |
| TodoList.EditedPositional | index.js:151 | edit keeps the ids positional |
| TodoList.EditedThenFound | index.js:146-152 | after a successful edit, rm or done given the same text as typed (untrimmed) finds a record |
| TodoList.Visible | index.js:59-68 | ls yields only stored records that its status selects, and never more records than are stored |
| TodoList.VisibleConcat | index.js:59-68 | listing a concatenation lists the parts one after the other, so stored order is kept |
| TodoList.VisibleMembers | index.js:61-67 | a record is listed exactly when it is stored and the status selects it (p: not done, d: done) |
| TodoList.VisiblePendingDone | index.js:61-64 | `ls p` shows exactly the stored records that are not done, `ls d` exactly those that are done |
| TodoList.VisibleAll | index.js:65-66 | no status, or an empty one, lists every record in stored order |
| TodoList.VisibleNone | index.js:59-68 | a status other than p, d and the empty string lists nothing |
| TodoList.VisiblePartition | index.js:61-64 | `ls p` and `ls d` between them list every record exactly once |
| TodoList.MarkedDoneListed | index.js:129-134 | after done, the marked record is listed by `ls d` and not by `ls p` |
| TodoList.AddToEmpty | index.js:94-100 | adding "buy milk" to an empty list gives `[{id: "1", task: "buy milk", done: false}]` |
| TodoList.TrimPaddedAnswer | index.js:150-151 | the answer "  y " is not blank and trims to "y" |
| TodoList.EditTrims | index.js:146-152 | editing id "1" with the answer "  y " stores "y" and keeps the id and the done flag |
| TodoList.RemovedFirstOfTwo | index.js:110-117 | when the first of two records matches, rm leaves only the second, renumbered to id "1" |
| TodoList.NormalizeLowerA | index.js:111 | the text "a" normalises to "a" |
| TodoList.NormalizePaddedA | index.js:111 | the text " A " normalises to "a" |
| TodoList.RemoveRenumbers | index.js:110-117 | add "a", add "b", rm "a" leaves `[{id: "1", task: "b", done: false}]` |
| TodoList.RemoveLeavesLaterDuplicate | index.js:110-114 | rm deletes only the first of two matching records; the second one still matches afterwards |
| TodoStore.Store.constructor | index.js:10 | the store starts in whatever state todo.json is in when a command is invoked |
| TodoStore.Store.Load | index.js:12-18 | an absent file reads as the empty list; an existing one reads as the list it holds |
| TodoStore.Store.Write | index.js:20-22 | after a write the file holds the list, and reading it back gives that list |
| TodoStore.Store.Add | index.js:93-103 | add always reports Added and stores the appended list; positional ids stay positional |
| TodoStore.Store.Remove | index.js:108-121 | Deleted exactly when some task matches; then the stored list is the rm result and its ids are positional; otherwise NotFound and the file is untouched |
| TodoStore.Store.MarkDone | index.js:127-138 | Marked exactly when some task matches; then the stored list is the done result; otherwise NotFound and the file is untouched; positional ids stay positional |
| TodoStore.Store.Edit | index.js:144-159 | NotFound exactly when no record has the id; NoChange exactly when it is found but the answer is blank; both leave the file untouched; Updated stores the edit result; positional ids stay positional |
| TodoStore.Store.List | index.js:52-69 | NoTodos exactly when the store reads as empty; otherwise the records the status selects, in stored order; the store is not changed |
| TodoStore.Store.Reset | index.js:72-79 | Cleared when the file existed, NothingToReset otherwise; afterwards there is no file and reading gives the empty list |

## Left out

- JSON parsing and serialisation and the file-system calls (index.js:12-22, 73-74) are left out. The file is modelled as an optional list of records. A file that does not parse, which makes `JSON.parse` throw, is not modelled. Nor is a record whose fields have the wrong types. Nor is a file that parses to something other than an array: for `{}`, `String(todos.length + 1)` gives "NaN" and `todos.push` throws (index.js:96, 100).
- Writing todo.json back with the same list it held is not told apart from not writing it. `done` on an already done record and `edit` with the record's own task both rewrite the file (index.js:132-134, 150-152). In the model both leave `file` holding the same list.
- Text.LowerChar, Text.ToLower: lowercase ASCII letters only, one character for one. JavaScript's `toLowerCase` applies full Unicode case mapping, which can change the length ("İ" lowercases to two characters); the model does not capture that.
- The banner and help text (index.js:25-49), the `h` command, and all `chalk` colouring and console output are left out. The printed messages are replaced by `Outcome` and `Listing` values. The `[x] id: task` line format of `ls` is not modelled.
- The interactive prompt of `edit` (index.js:149) is a terminal read. Its answer is the `answer` parameter of `Store.Edit`.
- Commander argument parsing, the version string, invalid-command handling and `process.exit(1)` (index.js:87-93, 162-181) are left out.
- Two invocations racing on todo.json are not modelled. The model runs one action at a time.
