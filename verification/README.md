# To-do list task store, in Dafny

A model of the task collection behind the single-screen React Native to-do
app in `App.js`: the state updaters that add, complete/uncomplete and delete
entries, the validation that blocks blank entries, the confirm/cancel gate
in front of deletion, and the guard that decides whether the value read
from storage at start-up replaces the collection.

Three modules:

- `JsString` (`js_string.dfy`): the white-space trimming the add handler
  applies to the input. `IsWhitespace` lists the code points of the
  WhiteSpace and LineTerminator productions of ECMAScript, which is what
  `String.prototype.trim` strips. `Trim` is characterised in three ways: the
  result has no white space at either end, it is empty exactly when the input
  is all white space, and it is a contiguous slice with only white space
  around it. `TrimUnique` shows that any such slice is `Trim`'s.
- `Tasks` (`tasks.dfy`): the `Task` record `{id, text, completed}` and the
  two per-entry rewrites. `Toggle` is the `map` that flips `completed` on
  every entry whose id matches. `Remove` is the `filter` that drops every
  entry whose id matches. `Kept` lists the positions a removal keeps and
  serves as an independent definition of `Remove`'s result.
- `App` (`app.dfy`): the screen state `Screen(tasks, input)`, the handlers
  `AddTask`, `DeleteTask` and `Hydrate`, and the user `Event`s with `Step`
  and `Run`. These are used to state invariants across any sequence of
  actions and to replay a sample session.

Points where the code behaves differently from what a reader might expect.
The model follows the code in each case:

- The comment on the new entry at App.js:53 promises a unique id ("Cria uma
  nova tarefa com id unico", "creates a new task with a unique id"). The id
  is `Date.now().toString()`, a millisecond clock reading that nothing
  checks, so it does not keep that promise. A submit that passes validation
  with an id already in use stores a duplicate (`App.AddUsedIdDuplicates`),
  and two submits in the same millisecond store the same id twice
  (`App.SameIdTwice`). Toggle and delete then act on every entry with that
  id, and the model proves their properties for duplicate ids too. An add
  with an unused id keeps distinct ids distinct
  (`App.AddFreshKeepsIdsDistinct`).
- Loading at start-up (App.js:23-26) leaves the current collection
  unchanged when the stored value is `null` (nothing stored), when it is
  `""` (falsy, so the guard at App.js:24 skips it), and when `JSON.parse`
  throws (the error is caught and logged at App.js:25-26). Only a stored
  string that parses replaces the collection.
- The `filter` at App.js:80 drops every entry carrying the deleted id, not
  just one.

## Model

| member | source | states |
|---|---|---|
| JsString.Trim | App.js:49 | the trimmed text has no white space at either end, is empty exactly when the input is all white space, and is a contiguous slice of the input with only white space before and after it |
| JsString.TrimUnique | App.js:49 | any cut of the input into white space, a middle without white space at its ends, and white space has `Trim`'s result as its middle, so trimming is fully determined |
| JsString.TrimIdempotent | App.js:53 | trimming the stored text again changes nothing |
| JsString.TrimOfTrimmed | App.js:53 | a text with no white space at either end is its own trim |
| Tasks.Count | App.js:80 | the number of entries with a given id is at most the length, and is zero exactly when no entry has that id |
| Tasks.Toggle | App.js:62-67 | the result has the same length and order; each entry keeps its id and text; `completed` is negated exactly at the positions whose id matches and is kept everywhere else, for every matching entry |
| Tasks.ToggleInvolution | App.js:62-67 | toggling the same id twice gives back the original collection |
| Tasks.ToggleAbsent | App.js:64-65 | toggling an id no entry carries leaves the collection unchanged; it is not an error |
| Tasks.ToggleCommutes | App.js:62-67 | toggles of two ids commute |
| Tasks.Kept | App.js:80 | the positions whose id differs from the deleted one, strictly increasing and each in range; every such position is listed |
| Tasks.CountIsDropped | App.js:80 | the number of entries carrying the id equals the length minus the number of kept positions, which pins `Count` to the number of matches |
| Tasks.Remove | App.js:80 | no entry of the result carries the id; the length drops by exactly the number of matching entries; every entry of the result comes from the input |
| Tasks.RemoveSelectsKept | App.js:80 | the result is exactly the input's non-matching entries in their original relative order: its k-th entry is the input's entry at the k-th kept position |
| Tasks.RemoveAbsent | App.js:80 | deleting an id no entry carries leaves the collection unchanged |
| Tasks.RemoveIdempotent | App.js:80 | deleting the same id a second time changes nothing |
| Tasks.RemoveAfterToggle | App.js:62-80 | completing entries and then deleting them gives the same collection as deleting them directly |
| App.Step | App.js:86-126 | typing into the field changes only the input; only a submit can grow the collection, and by at most one entry; pressing an entry or answering the delete dialog never grows it and leaves the input alone |
| App.AddTask | App.js:48-60 | the alert is raised exactly when the input is empty or all white space, and then the screen is unchanged; otherwise the collection grows by one, the old collection is an unchanged prefix, the new last entry holds the given id, the trimmed input and `completed == false`, and the input field is cleared |
| App.SubmitAppends | App.js:51-55 | a submit that passes validation appends exactly one open entry holding the trimmed input and clears the field |
| App.DeleteTask | App.js:70-84 | cancelling leaves the collection unchanged; confirming leaves no entry with the id and shortens the collection by the number of matches; every remaining entry was already there |
| App.Hydrate | App.js:23-24 | an absent or empty stored string leaves the collection unchanged, and so does one that fails to parse; a stored string that parses replaces the collection; the result is either the current collection or the parsed one |
| App.HydrateDiscardsEarlierEdits | App.js:20-31 | once the stored value parses, the collection after loading does not depend on what it held before, so edits made before the load completes are lost |
| App.StepKeepsTextsTrimmed | App.js:48-84 | typing, submitting, toggling and answering the delete dialog all keep every stored text non-empty and free of white space at both ends |
| App.RunKeepsTextsTrimmed | App.js:48-84 | every sequence of user actions keeps every stored text non-empty and free of white space at both ends |
| App.DeleteUndoesAdd | App.js:48-84 | a successful add followed by a confirmed delete of the new entry's id gives back the old collection, provided no older entry carried that id |
| App.AddFreshKeepsIdsDistinct | App.js:53 | an add with an unused id keeps distinct ids distinct |
| App.AddUsedIdDuplicates | App.js:53 | a submit that passes validation with an id already in use leaves two entries sharing that id, so the unique id promised by the comment at App.js:53 is not guaranteed |
| App.SameIdTwice | App.js:53 | two submits that read the same clock value store two entries with that id |
| App.Walkthrough | App.js:48-84 | in a sample session, typing and submitting "Buy milk" with id 1, then "  Call mom " with id 2, then completing 1 and confirming the deletion of 2 leaves exactly one completed "Buy milk" entry and an empty input field |

## Left out

- Reading and writing the stored value through AsyncStorage, the two
  `useEffect` hooks that load once and save on every change, and their
  try/catch logging (App.js:20-45). These are asynchronous I/O through an
  external library. The race between a late load and earlier edits is
  stated only as `App.HydrateDiscardsEarlierEdits`.
- `JSON.stringify` and `JSON.parse`. They are foreign library calls. `Hydrate`
  takes the parser as a parameter. Its result is either a task collection or
  a failure that stands for a thrown exception. A stored value that parses to
  something other than an array of tasks is not modelled. No round trip
  through serialisation is claimed.
- `Date.now().toString()`. The new entry's id is a parameter of `AddTask`,
  because the clock is nondeterministic.
- `Alert.alert` and the confirmation dialog. The validation alert is the
  `EmptyTaskAlert` feedback value. The dialog's answer is the `confirmed`
  argument of `DeleteTask`.
- `Keyboard.dismiss`, the dark-mode flag, list rendering, the empty-list
  message and the style sheet (App.js:56, App.js:86-260). These are
  presentation only.
- JavaScript strings are UTF-16 code units, while Dafny strings are Unicode
  scalar values. None of the characters `trim` strips lies outside the Basic
  Multilingual Plane, so trimming gives the same result either way.
