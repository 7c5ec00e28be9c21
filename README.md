# Student task list: the task-list state

This project models the state behind a single-page student to-do list. The list
is an ordered sequence of tasks. Each task has an identifier, a text, a subject
category, a priority, a completion flag and a due-date string. The user changes
the list in five ways:

- **add** a task from the form. Whitespace-only text is refused. Otherwise the
  task is given trimmed text and is not completed, and it goes to the front.
- **toggle** a task's completion.
- **delete** a task.
- **drag** one task onto another. This moves it with two `splice` calls.
- **filter** the view, by a case-insensitive search and by subject, priority
  and status (All, Active, Completed).

A progress bar shows the completed share as a percentage.

The modules:

- `Text` holds the string operations the list uses: `trim` (with the
  ECMAScript whitespace set), ASCII `toLowerCase` and `includes`.
- `Lists` holds the array operations: `filter` (`Keep`) and `splice`
  (`Splice`). `splice` clamps an out-of-range start and counts a negative start
  from the end. The module also gives an independent index formula for moving
  one element (`Move`).
- `Tasks` holds the entities: the six categories, the three priorities, and
  the task record.
- `TaskList` holds each list operation as a function of the list, together
  with its properties.
- `Store` holds `TaskStore`, a class that owns the list. Its methods replace
  the list the way the component's state setter does, and each one keeps the
  identifiers unique. `Store` also holds the seed list and worked scenarios.

## Drops with a missing identifier

A drop whose dragged or target identifier is no longer in the list is not a
no-op. `findIndex` returns -1, and `splice(-1, …)` counts from the end of the
list. The model follows the code:

- When the dragged task is gone, the last task is moved to the target's index
  (`TaskList.ReorderStaleDrag`). This can happen: the dragged-task state is
  cleared only after a successful drop, so a later drop that no drag start
  preceded still sees a task that may have been deleted since.
- When the target is gone, the dragged task is reinserted before the last
  element of the shortened list (`TaskList.ReorderMissingTarget`). The user
  interface does not produce this case. Drop targets are rendered from the
  filtered view of the same list the drop handler reads, so the target is
  always found. The lemma states what the code as written would do.

## Model

| member | source | states |
|---|---|---|
| Tasks.ParseCategory | src/App.js:5 | a subject name parses only to the category with that name |
| Tasks.CategoryNamesRoundTrip | src/App.js:5 | each category's name parses back to it, is not the filter sentinel "All", and the category is in the subject list |
| Tasks.ParsePriority | src/App.js:6-10 | a priority key parses only to the priority with that key |
| Tasks.PriorityNamesRoundTrip | src/App.js:6-10 | each priority's key parses back to it, is not "All", and the priority is in the priority table |
| Store.SeedTasks | src/App.js:13-18 | the initial list has four tasks with the unique identifiers 1 to 4 |
| Text.TrimStart | src/App.js:32 | the result is a suffix of the input, everything dropped is whitespace, and the result does not start with whitespace |
| Text.TrimEnd | src/App.js:32 | the result is a prefix of the input, everything dropped is whitespace, and the result does not end with whitespace |
| Text.Trim | src/App.js:32 | the result is a slice of the input with only whitespace around it, and it neither starts nor ends with whitespace |
| Text.TrimEmptyIffBlank | src/App.js:32 | trimming gives the empty string exactly when every character is whitespace |
| Text.TrimmedAtIsTrim | src/App.js:35 | any slice with only whitespace around it and none at its ends is the trimmed text, so that shape determines `trim` |
| Text.TrimIdempotent | src/App.js:35 | trimming twice is trimming once |
| TaskList.AddTask | src/App.js:30-44 | blank text leaves the list unchanged; otherwise the list grows by one, index 0 holds the new task (trimmed text, given category, priority and due date, not completed), and the old list follows unchanged |
| TaskList.TrimmedTextIsClean | src/App.js:32-35 | a non-blank text trims to a non-empty text with no whitespace at either end and nothing left to trim |
| TaskList.AddedTextIsTrimmed | src/App.js:35 | the added task's text is non-empty, has no whitespace at either end and is its own trim |
| TaskList.AddKeepsUnique | src/App.js:34 | adding under an identifier not yet in the list keeps the identifiers unique |
| Store.AddFinishLab | src/App.js:30-41 | submitting "Finish lab" puts the new, open task in front of any list |
| Store.TaskStore.Add | src/App.js:30-44 | under a fresh identifier, the new list is `AddTask` of the old list and the identifiers stay unique |
| TaskList.ToggleTask | src/App.js:47-50 | same length and order; tasks with the identifier have `completed` flipped and every other field kept; all other tasks are untouched |
| TaskList.ToggleTwice | src/App.js:47-50 | toggling the same identifier twice restores the list |
| TaskList.ToggleAbsent | src/App.js:47-50 | toggling an identifier not in the list changes nothing |
| TaskList.ToggleKeepsIds | src/App.js:47-50 | toggling keeps the set of identifiers, and keeps unique identifiers unique |
| Store.TaskStore.Toggle | src/App.js:46-52 | the new list is `ToggleTask` of the old one and the identifiers stay unique |
| Lists.Keep | src/App.js:55 | `filter` gives a subsequence of the input; it holds exactly the elements satisfying the predicate, each as often as in the input |
| Lists.KeepUnique | src/App.js:55 | any subsequence with exactly those multiplicities is the filter's result, so the contract of `Keep` determines it |
| Lists.KeepAll | src/App.js:55 | filtering by a predicate every element satisfies changes nothing |
| TaskList.Survives | src/App.js:55 | (definition, no contract) the filter predicate of delete: the task carries another identifier |
| TaskList.DeleteTask | src/App.js:55 | the result is a subsequence of the list with no task carrying the identifier, and every other task appears as often as before |
| TaskList.DeleteAbsent | src/App.js:55 | deleting an identifier not in the list changes nothing |
| TaskList.DeleteTwice | src/App.js:55 | deleting the same identifier a second time changes nothing |
| TaskList.DeleteKeepsUnique | src/App.js:55 | deleting keeps unique identifiers unique |
| TaskList.DeletePresentRemovesOne | src/App.js:55 | with unique identifiers, deleting a present identifier removes exactly the task at its index |
| Store.TaskStore.Delete | src/App.js:54-56 | the new list is `DeleteTask` of the old one and the identifiers stay unique |
| Text.LowerChar | src/App.js:60 | an ASCII upper-case letter maps to its lower-case letter; every other character is kept; no upper-case letter remains |
| Text.ToLower | src/App.js:60 | the result has the same length, and each character is lower-cased in place |
| Text.ToLowerIdempotent | src/App.js:60 | lower-casing twice is lower-casing once |
| Text.Includes | src/App.js:60 | `includes`: the term is a prefix of the text or is included in its tail; a term that is found is no longer than the text |
| Text.IncludesIffOccurs | src/App.js:60 | `includes` holds exactly when the term occurs at some index of the text |
| Text.IncludesEmpty | src/App.js:60 | the empty search term is found in every text |
| TaskList.MatchesSearch | src/App.js:60 | a task matches the search exactly when the lower-cased term occurs at some index of the lower-cased text; the empty term matches every task |
| TaskList.MatchesCategory | src/App.js:61 | a task matches the subject control exactly when it is "All" or names the task's subject |
| TaskList.MatchesPriority | src/App.js:62 | a task matches the priority control exactly when it is "All" or names the task's priority |
| TaskList.MatchesStatus | src/App.js:63-65 | (definition, no contract) "All" matches every task, "Active" the uncompleted ones, "Completed" the completed ones |
| TaskList.Matches | src/App.js:66 | (definition, no contract) the conjunction of the four controls; its meaning for the view is stated by `FilteredTasks` |
| TaskList.FilteredTasks | src/App.js:58-68 | the view is a subsequence of the list; a task is in it exactly when it is in the list and passes all four controls; each shown task appears as often as in the list |
| TaskList.OnlyStatusFilters | src/App.js:60-66 | with an empty search and subject and priority on "All", a task matches exactly when its status matches |
| TaskList.FilterShowEverything | src/App.js:59-67 | with an empty search and every control on "All" the view is the whole list |
| Lists.KeepKeep | src/App.js:63-65 | filtering twice is filtering once by the conjunction |
| TaskList.ActiveIsActivePartOfAll | src/App.js:63-65 | for fixed search, subject and priority, "Active" shows the uncompleted tasks of the "All" view, in order |
| TaskList.CompletedIsCompletedPartOfAll | src/App.js:63-65 | for fixed search, subject and priority, "Completed" shows the completed tasks of the "All" view, in order |
| TaskList.StatusFiltersSplitAll | src/App.js:63-65 | the "Active" and "Completed" views share no task, and together they hold every task of the "All" view exactly as often |
| Store.TwoTaskActive | src/App.js:63-65 | for a list of an open task and a done task, "Active" shows just the open one |
| Store.TwoTaskCompleted | src/App.js:63-65 | for the same list, "Completed" shows just the done one |
| TaskList.IsCompleted | src/App.js:71 | (definition, no contract) the filter predicate of the completed count |
| TaskList.CompletedCount | src/App.js:71 | the number of completed tasks is at most the number of tasks |
| TaskList.CompletedCountIsFilterLength | src/App.js:71 | the count is the length of the list filtered to its completed tasks |
| Lists.KeepKeepsLength | src/App.js:71 | the filter keeps every element exactly when all of them satisfy the predicate |
| Lists.KeepEmpty | src/App.js:71 | the filter drops every element exactly when none of them satisfies the predicate |
| TaskList.CompletedCountExtremes | src/App.js:71 | the count equals the list length exactly when all tasks are done, and is 0 exactly when none is |
| TaskList.Percent | src/App.js:72 | the percentage lies in [0, 100]; it is 0 for a total of 0; otherwise, times the total, it is 100 times the completed count |
| TaskList.PercentExtremes | src/App.js:72 | the percentage is 100 exactly for all of a non-empty total, and 0 exactly for none completed |
| TaskList.Progress | src/App.js:70-73 | progress lies in [0, 100] and is 0 for the empty list |
| TaskList.ProgressRatio | src/App.js:71-72 | for a non-empty list, progress times the number of tasks is 100 times the completed count |
| TaskList.ProgressFull | src/App.js:71-72 | progress is 100 exactly when the list is non-empty and every task is done |
| TaskList.ProgressEmpty | src/App.js:71-72 | progress is 0 exactly when no task is done |
| Store.SeedProgress | src/App.js:13-18 | one of the four seed tasks is done, so progress is 25 |
| Store.TwoTaskProgress | src/App.js:71-72 | with one of two tasks done, progress is 50 |
| Store.AddFinishLabProgress | src/App.js:70-73 | after adding an open task to one open and one done task, progress times 3 is 100 |
| Store.TaskStore.constructor | src/App.js:13-18 | the store starts with the seed list and unique identifiers |
| TaskList.FindIndex | src/App.js:89-90 | `findIndex` gives -1 exactly when no task has the identifier; otherwise it gives the first index holding it |
| TaskList.FindIndexUnique | src/App.js:89-90 | under unique identifiers, the identifier at index k is found at k |
| Lists.SpliceStart | src/App.js:93-94 | the position a `splice` start clamps to lies within the list |
| Lists.SpliceCount | src/App.js:93-94 | `splice` deletes at most the elements that follow the start, and exactly the requested number when that many follow |
| Lists.Splice | src/App.js:93-94 | with k the clamped start: the deleted elements are the slice of the requested count (clamped to what follows k) at k; the new array keeps the elements before k, holds the inserted items at k and then the elements after the deleted slice; together with the deleted elements it holds exactly the old elements and the inserted ones |
| Lists.SpliceAtStart | src/App.js:93-94 | a splice at any start is the splice at the position that start clamps to |
| Lists.SpliceRoundTrip | src/App.js:93-94 | cutting out the element at an index and splicing it back in at the same index restores the list |
| TaskList.DragSource | src/App.js:89-93 | the index the first splice removes is the dragged task's index when it is present, and the last index otherwise |
| TaskList.DropTarget | src/App.js:90-94 | the index the second splice inserts at is the target's index when the target is present, and the second-to-last index otherwise |
| Lists.SpliceRemovesAt | src/App.js:93 | deleting one element at an index in range returns the list without it and the element itself |
| Lists.SpliceInsertsAt | src/App.js:94 | inserting one element at an index in range puts it there, with the elements before and after kept |
| Lists.ReinsertIsMove | src/App.js:93-94 | removing the element at `from` and reinserting it at `to` gives `Move` |
| Lists.MoveIsTwoSplices | src/App.js:92-94 | removing an element with one splice and reinserting it with another is `Move` |
| Lists.MovePermutes | src/App.js:92-94 | a move is a permutation |
| Lists.MoveLandsAtTarget | src/App.js:94 | the moved element lands at the target index |
| Lists.MoveKeepsOthersInOrder | src/App.js:93-94 | without the moved element, the list after the move equals the list before it |
| Lists.MoveToSelf | src/App.js:93-94 | moving an element to its own index changes nothing |
| TaskList.Moves | src/App.js:87 | (definition, no contract) the negation of the early-return guard: a task is dragged and it is not the target |
| TaskList.Reordered | src/App.js:85-98 | a drop keeps the length and is a permutation of the list |
| TaskList.ReorderNoop | src/App.js:87 | with no dragged task, or when a task is dropped onto itself, nothing moves |
| TaskList.ReorderMovesToTarget | src/App.js:89-94 | when both tasks are present and the identifiers are unique, the dragged task sits at the target's former index and is found there, and all other tasks keep their relative order |
| TaskList.ReorderKeepsUnique | src/App.js:92-94 | a drop keeps the set of identifiers and keeps them unique |
| TaskList.ReorderStaleDrag | src/App.js:89-94 | when the dragged task is no longer in the list, the last task is moved to the target's index |
| TaskList.ReorderMissingTarget | src/App.js:89-94 | when the target is no longer in the list, the dragged task is moved to the second-to-last index |
| Store.DropIsMoveNotSwap | src/App.js:92-94 | dropping the first of four tasks onto the third gives [s1, s2, s0, s3], a move and not a swap |
| Store.StaleDropMovesLastTask | src/App.js:89-94 | a drop of a deleted task onto the first of four moves the last task to the front |
| Store.DropOntoMissingTask | src/App.js:89-94 | dropping the first of four tasks onto a deleted task moves it to the third position |
| Store.SeedDrops | src/App.js:85-98 | the three drops above, on the seed list |
| Store.TaskStore.Drop | src/App.js:85-98 | the method copies the list, removes the dragged task with one splice and reinserts it with another; the new list is `Reordered` of the old one and the identifiers stay unique |

## Left out

- Rendering, the `TaskItem` component, CSS classes and icons: these are presentation only.
- The drag-event plumbing (`dataTransfer`, `preventDefault`, drag start and drag over). The dragged task's identifier is a parameter (`None` when no drag is under way), and its reset after a drop is not modelled.
- `Date.now()` identifiers: the caller supplies the identifier, and `Store.TaskStore.Add` requires that it is not yet in the list.
- Due-date parsing and locale formatting: the due date is the raw input string.
- The form's input state and its reset after an add, the filter controls' own state, and React memoisation.
- TaskList.Progress: its value is modelled over `real`, not IEEE floating point, and the `Math.round` of the displayed label is left out. The ratio to the completed count is stated by `TaskList.ProgressRatio` and `TaskList.Percent`, not in the function's own contract.
- Text.LowerChar, Text.ToLower: lower-cases ASCII letters only, not the full Unicode case mapping.
- Strings are sequences of Unicode scalar values, while the source's strings are sequences of UTF-16 code units. The two agree for `trim` and `includes` on well-formed text, but a lone surrogate cannot be represented.
- TaskList.Reordered: requires a non-empty list when a task is moved, because a drop needs a rendered task to land on. On an empty list the source would insert `undefined`.
- Store.TaskStore.Drop: the copied list is a sequence value, and each `splice` is a function returning the new list and the deleted elements. A Dafny array cannot change length, so the in-place editing is not modelled.
- Task text, categories and priorities are compared as values. The string names of categories and priorities appear only in `Tasks.CategoryName` and `Tasks.PriorityName`.
