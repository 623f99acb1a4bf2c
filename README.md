# ProductivityManager task collection, in Dafny

This project models the in-memory core of the browser to-do list in
`script.js`: the `ProductivityManager` object that owns an ordered, newest-first
sequence of tasks and a current filter. It covers the three mutators
(`addTask`, `toggleTask`, `deleteTask`), the filter and the empty-state choice
made by `render`, and the counters computed by `updateStats`.

Layout, one module per file:

- `text.dfy`, module `Text`: JavaScript's `String.prototype.trim` over
  ECMAScript white space and line terminators, and the blank-text guard of
  `addTask`.
- `tasks.dfy`, module `Tasks`: the `Task` record; `Filter` for
  `Array.prototype.filter` with the three callbacks the manager uses, a
  first-order `Keep` datatype; `FindIndex` for `Array.prototype.find`; and
  `Added`, `Toggled`, `Deleted`, the new task sequence after each mutator,
  with the lemmas about them.
- `view.dfy`, module `View`: the list `render` shows (`Visible`), the three
  empty-state messages with their exact markup (`MessageText`), the screen
  `render` produces (`RenderView`), and the counters (`ComputeStats`), with
  lemmas on how each mutator moves the counters.
- `manager.dfy`, module `Manager`: the class `ProductivityManager`, whose
  fields `tasks` and `currentFilter` are updated in place by `AddTask`,
  `ToggleTask`, `DeleteTask` and `SetFilter`. Its read-only methods `Render`
  and `UpdateStats` are proved equal to the `View` functions.

Modelling choices:

- Task ids are `int`. The source only compares them with `===`. The id that
  `Date.now() + Math.random()` yields is a parameter of `AddTask`, and so is
  the `createdAt` ISO-8601 text. Freshness is not a precondition. Instead,
  `AddTask` promises unique ids afterwards whenever they were unique before
  and the given id is fresh.
- `currentFilter` is kept as a string, as in the source. "completed" and
  "pending" select, and every other value, "all" included, shows every task.
- `render` returns a `Screen` value, either an empty-state message or the
  rows it would draw, instead of writing HTML.
- `toggleTask` assigns `completed` on an element of the array. The model
  replaces that element of the `tasks` sequence with an updated copy. No
  other reference to a task object exists in the core, so nothing can see
  the difference.
- Loading is left out, and so is any recovery from malformed stored data.
  `JSON.parse` at script.js:19 throws on such data, so the model does not add
  an "empty on error" rule. The constructor takes the loaded sequence as
  given.

## Model

| member | source | states |
|---|---|---|
| Text.Trim | script.js:27-31 | `text.trim()`: what it returns is stated by `TrimSpec` (the unique slice with no white space at either end and only white space cut off), and `IsBlank` ties an empty result to all-white-space text |
| Text.IsBlank | script.js:27 | `!text.trim()` holds exactly when every character of the text is ECMAScript white space (the empty text included) |
| Text.TrimStartSpec | script.js:31 | the leading part `trim` removes is all white space, and what remains starts with a non-white-space character |
| Text.TrimEndSpec | script.js:31 | the trailing part `trim` removes is all white space, and what remains ends with a non-white-space character |
| Text.LeadingWhitespace | script.js:31 | the count of leading white-space characters: all of them white space, and the next character is not |
| Text.TrimSpec | script.js:31 | `trim` yields the slice left after the leading white space, with only white space cut off on the right, and neither end of the result is white space |
| Text.TrimIdempotent | script.js:27-31 | trimming the already-trimmed text changes nothing |
| Text.TrimKeepsTrimmed | script.js:31 | text that neither starts nor ends with white space passes the guard and is stored exactly as typed |
| Text.TrimmedNotBlank | script.js:27-31 | text that passes the guard trims to a non-empty, non-blank string |
| Tasks.Keep.Admits | script.js:65-67 | the three callbacks `t => t.completed`, `t => !t.completed` and `t => t.id !== id` (script.js:53, 65, 67, 124); `Filter`, `FilterMembers` and `FilterPartition` state what filtering with them yields |
| Tasks.Filter | script.js:53 | `filter` returns no more elements than it was given, each of them passing the callback |
| Tasks.FilterMembers | script.js:53 | an element is in the result of `filter` exactly when it is in the input and passes the callback |
| Tasks.FilterIsSubsequence | script.js:65-67 | `filter` returns an order-preserving subsequence of its input |
| Tasks.FilterAppend | script.js:65-67 | filtering a concatenation is concatenating the filtered parts, so relative order is kept |
| Tasks.FilterKeepsAll | script.js:53 | when every element passes, `filter` returns its input unchanged |
| Tasks.FilterEmpty | script.js:70 | the filtered list is empty exactly when no element passes the callback |
| Tasks.FilterCountAt | script.js:124 | the count of passing elements is the count before position i, plus the element at i if it passes, plus the count after i |
| Tasks.FilterPartition | script.js:65-67 | the completed and the pending filter together hold every task exactly as often as the collection does: no loss, no overlap |
| Tasks.FilterPartitionLength | script.js:123-125 | the completed and the pending counts add up to the total |
| Tasks.FindIndex | script.js:43 | `find` locates the first task with the id: every earlier task has another id, and the result is the length exactly when no task has the id |
| Tasks.Added | script.js:26-36 | blank text leaves the tasks unchanged (and only blank text does); otherwise the length grows by one, the old tasks follow unchanged, and the new front task has the given id and timestamp, is not completed, and holds the trimmed, non-empty text |
| Tasks.AddPreservesUnique | script.js:29-36 | adding under an id no task has keeps ids unique |
| Tasks.AddIds | script.js:29-36 | after adding, the ids present are the old ones, plus the new id when the text is not blank |
| Tasks.AddedAll | script.js:26-36 | a run of `addTask` calls applied in order; `AddedAllNewestFirst` proves that non-blank texts end up newest first in front of the old tasks |
| Tasks.NewestFirst | script.js:36 | the tasks created for a run of requests, listed last request first |
| Tasks.AddedAllNewestFirst | script.js:36 | adding non-blank texts one after another leaves them in reverse insertion order, in front of the old tasks |
| Tasks.Toggled | script.js:42-45 | only the first task with the id changes, and only its `completed` flag flips; the length is kept, and with no such task nothing changes |
| Tasks.TogglePreservesIds | script.js:45 | toggling keeps the set of ids and keeps them unique exactly when they were |
| Tasks.ToggleTwice | script.js:43-45 | toggling the same id twice restores the original collection |
| Tasks.Deleted | script.js:53 | no task with the id remains, and deleting an absent id changes nothing |
| Tasks.DeleteMembers | script.js:53 | a task remains exactly when it was there and its id differs |
| Tasks.DeleteKeepsOrder | script.js:53 | the remaining tasks keep their original order |
| Tasks.DeleteIdempotent | script.js:53 | deleting the same id again is a no-op |
| Tasks.UniqueTail | script.js:53 | with unique ids, the tail has unique ids and none of them is the head's id |
| Tasks.DeleteRemovesOne | script.js:53 | with unique ids, deleting a present id removes exactly the task found by `find` and keeps all the others in place |
| Tasks.DeleteRemovesOneStep | script.js:53 | a head with another id stays in front of what deletion leaves of the tail |
| Tasks.DeletePreservesUnique | script.js:53 | deleting keeps ids unique |
| Tasks.FilterUnique | script.js:53 | no filter makes two tasks share an id |
| View.Visible | script.js:63-68 | the shown list is never longer than the collection |
| View.VisibleMembers | script.js:63-68 | a task is shown exactly when it is in the collection and matches "completed" or "pending"; every other filter value shows the collection itself |
| View.VisibleKeepsOrder | script.js:63-68 | the shown list is an order-preserving subsequence of the collection, whatever the filter |
| View.IsSubsequenceRefl | script.js:63 | the unfiltered list is trivially a subsequence of itself |
| View.VisibleAppend | script.js:63-68 | the filter distributes over concatenation |
| View.VisiblePartition | script.js:63-68 | the "completed" and "pending" views partition the "all" view, and their lengths sum to the number of tasks |
| View.MessageText | script.js:71-76 | the three empty-state strings exactly as the source writes them: "canvas awaits", "No completed tasks yet" and "All tasks completed!" with the party-popper emoji |
| View.ChooseEmptyMessage | script.js:70-77 | the message choice once the filtered list is empty; `CanvasAwaitsIffNoTasks`, `NoCompletedYetIff` and `AllTasksCompletedIff` characterise each message in both directions |
| View.RenderView | script.js:59-86 | `render` shows an empty state exactly when the filtered list is empty, and otherwise one row per filtered task |
| View.CanvasAwaitsIffNoTasks | script.js:70-77 | the default "canvas awaits" message is shown exactly when there are no tasks, whatever the filter |
| View.NoCompletedYetIff | script.js:70-77 | "No completed tasks yet" is shown exactly when the filter is "completed", there are tasks, and none is completed |
| View.AllTasksCompletedIff | script.js:70-77 | "All tasks completed!" is shown exactly when the filter is "pending", there are tasks, and all are completed |
| View.ComputeStats | script.js:122-125 | the total is the number of tasks; 0 <= completed <= total; pending equals total - completed, which is the number of pending tasks; counted on the unfiltered collection |
| View.AddedStats | script.js:26-40 | a non-blank add raises total and pending by one and keeps completed; a blank add changes no counter |
| View.ToggledStats | script.js:42-50 | toggling a present id moves exactly one task between completed and pending; the total stays, and an absent id changes nothing |
| View.DeletedStats | script.js:52-57 | with unique ids, deleting a present id lowers the total by one, and lowers completed by one only if that task was completed |
| View.BuyMilkWalkthrough | script.js:26-57 | from empty, adding "Buy milk" and "Write spec" and then toggling "Buy milk" gives ["Write spec" pending, "Buy milk" completed] with counters 2/1/1 |
| Manager.ProductivityManager.constructor | script.js:3-5 | the manager starts with the loaded tasks and the filter "all" |
| Manager.ProductivityManager.AddTask | script.js:26-40 | blank text leaves `tasks` unchanged; otherwise the new pending task with trimmed text goes in front of the old tasks; a fresh id keeps ids unique; the filter is untouched |
| Manager.ProductivityManager.ToggleTask | script.js:42-50 | `tasks` becomes `Toggled(old tasks, id)`; an absent id changes nothing; length and id uniqueness are kept |
| Manager.ProductivityManager.DeleteTask | script.js:52-57 | `tasks` becomes `Deleted(old tasks, id)`: no task with the id remains, an absent id changes nothing, uniqueness is kept |
| Manager.ProductivityManager.SetFilter | script.js:209-213 | a stat-item click stores its filter value and leaves the tasks alone |
| Manager.ProductivityManager.Render | script.js:59-86 | the screen equals `RenderView(tasks, currentFilter)`; rows are a non-empty order-preserving subsequence of the tasks; the default message appears exactly when there are no tasks |
| Manager.ProductivityManager.UpdateStats | script.js:122-130 | the counters equal `ComputeStats(tasks)`, which reads `tasks` and not `currentFilter`; pending = total - completed |

## Left out

- `loadFromStorage` and `saveToStorage` (script.js:17-24): `localStorage` I/O and JSON (de)serialisation are browser I/O. For the same reason, the save-then-reload round trip is not stated.
- Id generation and the creation timestamp (script.js:30, 33): clock, randomness and floating point. Both are parameters of `AddTask`.
- The HTML built by `render`, `escapeHtml`, the staggered animation delays and `bindTaskEvents` with its `parseFloat` of `data-id` (script.js:79-120, 235-239): DOM and float parsing. The model stops at the `Screen` value and the message text.
- `animateNumber` (script.js:132-150): cosmetic counting animation driven by a timer.
- `bindEvents`: the quick-add input, the accordion and keyboard shortcuts (script.js:152-190). Also `enableCardMouseTracking` (float coordinates), the filter-indicator text and active classes in `bindStatFilters`, and all of `ModalManager` (script.js:192-289). These are UI glue. The one state change among them, the `currentFilter` assignment, is `SetFilter`.
- The calls to `saveToStorage`, `render` and `updateStats` at the end of each mutator are not chained inside the model's methods. `Render` and `UpdateStats` are separate methods that read the state the mutator left.
- Unpaired UTF-16 surrogates: a JavaScript string such as `input.value` (script.js:157, 281) can hold them, but a Dafny `string` cannot. Trimming is unaffected, because every character `trim` strips lies in the Basic Multilingual Plane.
