# To-do list: task collection model

A Dafny model of the task-collection logic of a browser to-do list application
(`script.js`). The application keeps an ordered array of tasks. Each task has:

- an id, a text, a category and a priority;
- an optional due date;
- a completion flag and a creation timestamp.

The user changes the collection through a few operations:

- a creation form;
- a checkbox and a delete button on each row;
- an edit dialog;
- a "clear completed" button;
- dragging rows into a new order.

The list on screen is a view of the collection: a search box and two filter
dropdowns narrow it, and a sort dropdown orders it. Counters under the list show
the total, completed and pending numbers.

Here the collection is an immutable `seq<Task>`, and every operation is a pure
function from the old collection and the user's input to the new collection.
Anything the program reads from the page becomes a parameter:

- form values;
- the answer to the confirmation prompt;
- the ids of the rows in on-screen order;
- the clock's id and timestamp.

Modules, one per file:

- `Wrappers` (wrappers.dfy): `Option`.
- `Seqs` (seqs.dfy): an order-preserving filter `Keep`, with its multiset characterisation; subsequences; distinctness.
- `Text` (text.dfy): JavaScript's `trim` and `includes`.
- `Sorting` (sorting.dfy): a stable insertion sort by a lexicographic integer key, proved to be a permutation, sorted and stable.
- `Tasks` (tasks.dfy): the task record, the form, and lookups by id (`find`, `findIndex`).
- `Store` (store.dfy): add, toggle, delete, edit, clear completed, statistics.
- `Query` (query.dfy): `getFilteredTasks`, the three filters followed by one of the sorts.
- `DragReorder` (reorder.dfy): the drag-end rebuild of the collection, the defect it has while a filter is active, and a corrected version.

## Model

| member | source | states |
|---|---|---|
| Text.Trim | script.js:73 | the trimmed text is the input minus leading and trailing whitespace runs; it neither starts nor ends with whitespace; it is empty exactly when the input is all whitespace |
| Text.TrimIdempotent | script.js:73 | trimming an already trimmed text changes nothing |
| Tasks.FirstIndexOf | script.js:205 | `findIndex` by id: absent exactly when no task has the id, otherwise the position of the first task with it |
| Tasks.FindById | script.js:162 | `find` by id: absent exactly when the id is not among the collection's ids, otherwise a task of the collection carrying that id |
| Tasks.FindFirst | script.js:334 | the task `find` returns is the first one with the id |
| Store.AddTask | script.js:70-94 | text that trims to nothing leaves the collection unchanged; otherwise the collection grows by one, the old collection is exactly the tail, and the head is a new incomplete task with the trimmed, non-empty text, the form's category, priority and due date, and the given id and timestamp |
| Store.AddPreservesUniqueIds | script.js:76-86 | adding under an id not yet used keeps ids unique |
| Store.AddStats | script.js:86 | an added task raises the total and the pending count by one and leaves the completed count alone |
| Store.SetCompleted | script.js:161-166 | the first task with the id takes the checkbox state and every other position is unchanged; an unknown id is an error (the program dereferences `undefined`) |
| Store.SetCompletedFrame | script.js:164-173 | ticking keeps the id list and uniqueness; the total is unchanged; the completed count moves by the change in that one task's flag |
| Store.DeleteTask | script.js:180-181 | the result is a subsequence of the collection and holds exactly the tasks whose id is not the target, each as often as before; an unknown id changes nothing |
| Store.DeleteRemovesOne | script.js:181 | with unique ids, deleting a present id shortens the collection by exactly one and keeps ids unique |
| Store.SaveEdit | script.js:202-216 | the first task with the edited id takes the trimmed text (even when empty), category, priority and due date, and keeps its id, completion and creation time; every other position is unchanged; nothing changes when no task is being edited or none has the id |
| Store.SaveEditFrame | script.js:205-211 | editing keeps the id list, uniqueness and all three counters |
| Store.Stats | script.js:301-309 | total is the length; completed is the number of completed tasks, counted one position at a time; 0 ≤ completed ≤ total; pending = total − completed; completed is 0 exactly when no task is done, and pending is 0 exactly when every task is |
| Store.ClearCompleted | script.js:274-285 | unchanged when nothing is completed or the prompt is declined; otherwise exactly the incomplete tasks remain, in their order, and the length drops by the completed count |
| Store.ClearCompletedPreservesUniqueIds | script.js:280 | clearing keeps ids unique |
| Sorting.SortBy | script.js:245-263 | the sorted sequence is a permutation of its input and is in key order |
| Sorting.SortByStable | script.js:256-258 | for every key value, the tasks with that key keep their input order |
| Query.Filtered | script.js:225-242 | the filtered tasks are a subsequence of the collection holding exactly the tasks that pass the search term, category and priority filters; an empty term or "all" removes nothing on its dimension |
| Query.SortedInOrder | script.js:245-263 | key order means: newest first by creation time; every dated task before every undated one, with dated tasks ascending; high before medium before low; ascending collation position |
| Query.View | script.js:219-266 | the view is a permutation of exactly the tasks passing all three filters, in the chosen option's order; an unrecognised option keeps collection order |
| Query.ViewPriorityStable | script.js:256-258 | under "priority", tasks of one priority appear in their filtered (collection) order |
| Query.ViewDateAddedStable | script.js:246-247 | under "date-added", tasks with one creation time appear in their filtered order |
| Query.ViewUnfiltered | script.js:225-242 | with no search term and both filters on "all" the view holds every task, and with no recognised sort it is the collection itself |
| Query.ViewPreservesUniqueIds | script.js:225 | the view shows no task twice and no two tasks with one id, given a collection without such |
| Query.ViewWithin | script.js:225-242 | every task in the view is a task of the collection that passes the filters |
| DragReorder.Reorder | script.js:330-338 | the rebuilt collection is no longer than the id list; each element is the first task with one of the listed ids |
| DragReorder.ReorderOrder | script.js:331-336 | the rebuilt collection follows the on-screen order: its ids are exactly the listed ids that name a task, in list order |
| DragReorder.ReorderIncludes | script.js:332-335 | every listed id that names a task brings that task in |
| DragReorder.ReorderPlusUnlisted | script.js:330-338 | with unique ids and distinct listed ids that all name tasks, the rebuilt collection together with the unlisted tasks is the old collection |
| DragReorder.ReorderPermutes | script.js:330-338 | when the listed ids are distinct and are exactly the collection's ids, the rebuilt collection is a permutation of the old one, with no task changed |
| DragReorder.DragWhileFilteredDropsHidden | script.js:331-338 | when the rows on screen are a filtered view, every task the view hides is missing from the rebuilt collection |
| DragReorder.DragWhileFilteredExample | script.js:331-338 | a two-task instance: with the category filter on "work", ending a drag deletes the shopping task |
| DragReorder.ReorderKeepingHidden | script.js:330-338 | corrected rebuild: first the listed ids that name a task, in list order, each with the first task carrying it, then the unlisted tasks in collection order; no task is lost under unique ids; it is a permutation when the listed ids are distinct ids of tasks; it is the program's result when every task is listed |
| DragReorder.DragWhileFilteredKeepsAll | script.js:331-338 | with the correction, a drag that ends while the view is filtered permutes the collection |

## Left out

- Persistence: the local-storage reads and writes and the JSON encoding are I/O. The model does not claim that loading survives a malformed stored value.
- Rendering: element creation, icons, overdue styling, the delete animation and the modal are presentation. The delete is modelled as the filter that runs when the animation ends.
- Theme toggle: it only flips a stored preference and a CSS class.
- Drag geometry: the `dragover` midpoint test depends on layout. Only the resulting id sequence is modelled, as the parameter `ids`.
- Clock: `Date.now()` and `new Date().toISOString()` become the parameters `id` and `now`. Id freshness is an explicit precondition of `Store.AddPreservesUniqueIds`, because the program cannot guarantee it.
- Date parsing: due dates are integer day numbers, and creation times are integer milliseconds. The program subtracts the two parsed dates, which gives the same order.
- Query.Passes: `toLowerCase` is the abstract parameter `Locale.lower`; Unicode case mapping is not modelled.
- Query.SortKey: `localeCompare` is modelled as an abstract integer position `Locale.collate` for each string. That is a total preorder, which real collation need not be exactly.
- Query.InOrder: under "due-date" the program's comparator returns 1 for every pair of undated tasks, in both argument orders. The engine may therefore arrange undated tasks in any order. The model sorts stably, but the contract states only that dated tasks come first, in ascending order.
- Category values outside the five known values, and priorities outside high/medium/low, are not modelled: both are closed enumerations. Under "priority" an unknown priority makes the program's comparator yield `NaN`.
- Text.IsWhitespace: strings are sequences of Unicode scalar values, not UTF-16 code units. Every character `trim` strips is a single code unit, so trimming agrees. Search on texts containing unpaired surrogates is not modelled.
- Tasks are values here, while the program shares task objects by reference. A drag that ends while two tasks share an id (the clock-made id at script.js:77 is not guaranteed fresh) puts the object `find` returns at both rows' positions (script.js:334-335). A later tick (script.js:166) or edit (script.js:207-210) then changes both positions. `Store.SetCompleted` and `Store.SaveEdit` change only the first position. The two agree whenever ids are unique, which is what the lemmas about uniqueness assume.
- Store.SetCompleted: the program throws a `TypeError` when no task has the id. The model returns `None` and does not model what the event loop does after the throw.
- The edit branch of `handleTaskActions` only opens the dialog, which is presentation. Its effect on the collection is `Store.SaveEdit`, with the dialog's remembered id as `current`.

## Findings

| source | as written | input that shows it | evidently intended | confidence | as-written member | corrected member |
|---|---|---|---|---|---|---|
| script.js:331-338 | after a drag, the collection is rebuilt from the rows on screen only, and those rows are the filtered view (script.js:98) | tasks "Buy milk" (shopping) and "Finish report" (work), category filter on "work", any drag ending: the collection becomes just "Finish report" | reorder the visible tasks and keep the hidden ones | not executed | DragReorder.DragWhileFilteredDropsHidden | DragReorder.DragWhileFilteredKeepsAll |
