# To-do app task store, in Dafny

This project models the state logic of a browser to-do list written as one React component,
`App`. The component keeps an ordered list of tasks (`todos`), a draft shared by the add and
edit forms (`formState`), the form's validation errors (`formErrors`), the id of the task being
edited (`editingTodoId`) and a queue of short-lived notifications (`toasts`).

- `types.dfy` (`TodoTypes`): the task record, the draft, the initial draft and the toast record.
- `lists.dfy` (`Lists`): `filter` over sequences, order-preserving sub-sequences and unique keys,
  with the lemmas the task list and the toast queue share.
- `order.dfy` (`TodoOrder`): the sort order of the add handler as a total preorder `Before`; the
  comparator as written and the corrected comparator; an insertion sort proved to produce an
  ordered permutation.
- `tasks.dfy` (`Tasks`): the list transforms of the handlers as functions on `seq<Todo>`:
  id-keyed updates, the edit merge, `find`, removal, clearing completed tasks, the uncompleted
  count, name validation and the add-then-sort.
- `toasts.dfy` (`Toasts`): the toast queue's append and expiry.
- `storage.dfy` (`Storage`): the guard on the effect that writes the list to local storage.
- `app.dfy` (`AppState.App`): the component as a class; each state hook is a field, each
  handler a method whose contract gives the whole new state. `Valid()` says task ids and toast
  ids are unique; every handler keeps it.

Ids are strings. Ids that the source draws from `uuid()` are method parameters required not to
be in use. A deadline is a millisecond timestamp (`Option<int>`, None for `null`); JavaScript
compares `Date` values by that number. The timer that removes a toast after 3000 ms is the method
`ExpireToast`, called with the toast's id.

The sort is specified, not reproduced: the contract of the add says the new list is ordered by
`Before` and is a permutation of the old list plus the new task. It says nothing about the
relative order of tied tasks.

The list is written to storage only when it is non-empty (src/App.tsx:196). A toast has no
close control; it leaves the queue only when its timer fires. The form offers priorities 1 to 3
(src/App.tsx:261-263).

## Model

| member | source | states |
|---|---|---|
| TodoOrder.Compare | src/App.tsx:99-104 | the corrected comparator answers at most 0 exactly when `a` may precede `b` and at least 0 exactly when `b` may precede `a` |
| TodoOrder.CompareConsistent | src/App.tsx:99-104 | the corrected comparator is antisymmetric in sign and agrees with the written one on every pair that is not a deadline tie |
| TodoOrder.CompareAsWrittenTieInconsistent | src/App.tsx:100 | on two tasks with the same deadline the written comparator answers 1 in both directions |
| TodoOrder.CompareAsWritten | src/App.tsx:99-104 | the comparator as written answers below 0 exactly when `b` may not precede `a`, above 0 only when `b` may precede `a`, and 0 only when both orders are allowed |
| TodoOrder.BeforeTotal | src/App.tsx:99-104 | any two tasks are comparable |
| TodoOrder.BeforeTransitive | src/App.tsx:99-104 | the order is transitive |
| TodoOrder.OrderedIff | src/App.tsx:99-104 | a list is ordered exactly when deadlined tasks come first, their deadlines ascend and undeadlined priorities ascend |
| TodoOrder.Insert | src/App.tsx:97-105 | inserting a task adds exactly that task to the multiset of tasks |
| TodoOrder.Sort | src/App.tsx:97-105 | sorting yields a permutation of the list |
| TodoOrder.InsertOrdered | src/App.tsx:97-105 | inserting into an ordered list keeps it ordered |
| TodoOrder.SortOrdered | src/App.tsx:97-105 | the sorted list is ordered |
| TodoOrder.SameIds | src/App.tsx:97-105 | a permutation has the same set of ids |
| TodoOrder.InsertKeepsIdsUnique | src/App.tsx:89-105 | inserting a task with a fresh id keeps ids unique |
| TodoOrder.SortKeepsIdsUnique | src/App.tsx:97-105 | sorting keeps ids unique |
| Tasks.Apply | src/App.tsx:50 | the spread keeps the id; each key present in the patch overrides its field and each absent key keeps the task's value, so an empty patch changes nothing |
| Tasks.UpdateTodo | src/App.tsx:47-53 | same length and ids at every position; tasks with other ids unchanged; tasks with the id get the patch spread over them |
| Tasks.UpdateTodoAbsentIsNoop | src/App.tsx:47-53 | an update for an id not in the list returns the list unchanged |
| Tasks.UpdateTodoKeepsIds | src/App.tsx:47-53 | an update keeps the set of ids and their uniqueness |
| Tasks.UpdateIsDone | src/App.tsx:29-35 | only the task with the id changes, and only in `isDone` |
| Tasks.CancelEditing | src/App.tsx:38-44 | only the task with the id changes, and only in `isEditing`, which becomes false |
| Tasks.MergeForm | src/App.tsx:128-135 | the task with the id takes the draft's name, priority and deadline and keeps id, `isDone` and `isEditing`; the others are unchanged |
| Tasks.SaveUnchangedFormIsNoop | src/App.tsx:113-135 | saving a draft loaded from a task, unchanged, leaves the list as it was |
| Tasks.EditCanBreakOrder | src/App.tsx:126-139 | saving an edit does not sort: an ordered list can become unordered |
| Tasks.Find | src/App.tsx:115 | `find` fails exactly when no task has the id; otherwise it returns the first task of the list with that id |
| Tasks.FindUnique | src/App.tsx:115-122 | with unique ids `find` returns the one task with the id |
| Tasks.Remove | src/App.tsx:148-154 | exactly the tasks with other ids remain, with their multiplicities and in their relative order; the id is gone |
| Tasks.RemoveAbsentIsNoop | src/App.tsx:150 | removing an absent id returns the list unchanged |
| Tasks.RemovePresentShrinksByOne | src/App.tsx:150 | with unique ids removing a present id shortens the list by one |
| Tasks.RemoveKeepsIdsUnique | src/App.tsx:150 | removing keeps ids unique |
| Tasks.RemoveCompleted | src/App.tsx:156-159 | exactly the tasks that are not done remain, with their multiplicities and in their relative order |
| Tasks.RemoveCompletedKeepsIdsUnique | src/App.tsx:157 | clearing completed tasks keeps ids unique |
| Tasks.UncompletedCount | src/App.tsx:169-172 | the count is at most the length and equals it exactly when no task is done |
| Tasks.RemoveCompletedCount | src/App.tsx:156-172 | after clearing completed tasks the count equals the list length and is what it was before |
| Tasks.ValidateForm | src/App.tsx:161-167 | no error key for a name of 2 to 32 characters, otherwise exactly the key "name" with the length message |
| Tasks.NewTodo | src/App.tsx:89-95 | the new task has the fresh id and the draft's name, priority and deadline, is not done and has no `isEditing` key |
| Tasks.AddTodo | src/App.tsx:89-105 | the new list is ordered, holds the old tasks plus the new one and is one longer |
| Tasks.AddTodoKeepsIdsUnique | src/App.tsx:89-105 | with a fresh id the ids stay unique and gain exactly the new id |
| Tasks.EarliestDeadlineFirst | src/App.tsx:97-105 | a task with a deadline earlier than every existing deadline is placed first |
| Tasks.HigherPriorityFirst | src/App.tsx:97-105 | an undeadlined task with a smaller priority number is placed ahead of an undeadlined task with a larger one |
| Lists.Filter | src/App.tsx:150 | `filter` keeps exactly the elements that pass the test, is no longer than its input, and is as long exactly when every element passes |
| Toasts.AppendFreshKeepsUnique | src/App.tsx:68-69 | appending a toast with a fresh id keeps toast ids unique and adds that id |
| Toasts.Expire | src/App.tsx:70-74 | exactly the toasts with other ids remain, with their multiplicities and in their order; the id is gone |
| Toasts.ExpireAbsentIsNoop | src/App.tsx:72 | expiring an id that is already gone changes nothing |
| Toasts.ExpireTwiceIsExpireOnce | src/App.tsx:72 | a second expiry of the same id changes nothing |
| Toasts.ShowThenExpire | src/App.tsx:66-77 | the expiry of a shown toast gives back the queue before it, and removes from later toasts only those with its id |
| Toasts.ExpireKeepsUnique | src/App.tsx:72 | expiry keeps toast ids unique |
| Storage.WriteSlot | src/App.tsx:195-199 | a non-empty list is written; an empty list leaves the slot as it was |
| Storage.WriteAll | src/App.tsx:195-199 | after a history of lists the slot is unchanged when every list was empty, and otherwise holds the old content or one of the non-empty lists |
| Storage.WriteAllSnoc | src/App.tsx:195-199 | running the effect once more after a history is one more write |
| Storage.SlotHoldsLastNonEmpty | src/App.tsx:195-199 | after any history of lists the slot holds the last non-empty one |
| Storage.LastNonEmptyIsNonEmpty | src/App.tsx:195-199 | the last non-empty list of a history that starts from a non-empty slot is non-empty |
| Storage.SlotNeverEmptied | src/App.tsx:195-199 | once the slot holds a non-empty list it never holds an empty one, so deleting the last task is not persisted |
| AppState.IsTruthy | src/App.tsx:127 | `null` and the empty string are falsy, every non-empty id is truthy |
| AppState.App.constructor | src/App.tsx:57-62 | the first render: no tasks, no toasts, the initial draft, no errors, nothing being edited |
| AppState.App.ShowToast | src/App.tsx:66-69 | one toast with the fresh id appended at the end; nothing else changes |
| AppState.App.ExpireToast | src/App.tsx:70-74 | the toasts with the id are filtered out; an id already gone is a no-op; nothing else changes |
| AppState.App.UpdateIsDone | src/App.tsx:29-35 | the list becomes the `isDone` update; ids stay unique; nothing else changes |
| AppState.App.CancelEditing | src/App.tsx:38-44 | the list becomes the `isEditing` update; nothing else changes |
| AppState.App.UpdateTodo | src/App.tsx:47-53 | the list becomes the patched list; nothing else changes |
| AppState.App.ChangeName | src/App.tsx:246-248 | only the draft's name changes |
| AppState.App.ChangePriority | src/App.tsx:254-259 | only the draft's priority changes |
| AppState.App.ChangeDeadline | src/App.tsx:273-278 | only the draft's deadline changes |
| AppState.App.AddNewTodo | src/App.tsx:83-110 | an invalid name sets only the errors; a valid one gives an ordered list of the old tasks plus the new one, the new id added, the draft and errors reset, one success toast |
| AppState.App.StartEditing | src/App.tsx:113-123 | the id becomes the edited one; the task with it, if any, is loaded into the draft, otherwise the draft is kept |
| AppState.App.SaveEdit | src/App.tsx:126-139 | with no (truthy) edited id nothing changes; otherwise the task takes the draft's fields, the edited id is cleared and a toast is shown; the draft is kept |
| AppState.App.CancelEdit | src/App.tsx:142-145 | the edited id is cleared and the draft reset; the tasks are untouched |
| AppState.App.Remove | src/App.tsx:148-154 | the list loses the task with the id (one task fewer if present, unchanged if not); one toast appended |
| AppState.App.RemoveCompletedTodos | src/App.tsx:156-159 | only the not-done tasks remain and the uncompleted count equals the length; one toast appended |

## Left out

- Rendering, styling and `twMerge` (src/App.tsx:201-372), the list view src/TodoList.tsx, src/WelcomeMessage.tsx and vite.config.ts: presentation and build tooling.
- The dark-mode flag and `window.matchMedia` (src/App.tsx:54-56, 79-81): a browser query with no bearing on the tasks.
- Loading from storage (src/App.tsx:174-193): reading local storage, `JSON.parse`, rebuilding `Date` values, the error toast on a parse failure and the loading flag are browser I/O and foreign parsing. Storage itself is not a field of the class; only the guard of the write effect is modelled, as `Storage.WriteSlot`, with the JSON text abstracted to the list it encodes.
- The 3000 ms timer: time is not modelled; expiry is an explicit call.
- `uuid()`: freshness is a precondition on the id parameters.
- `dayjs` formatting and the datetime input's parsing: deadlines are integers.
- Invalid dates: a `Date` whose value is NaN is not modelled.
- Patches whose keys are present with the value `undefined`: a patch key is either absent or has a value.
- Name length: JavaScript counts UTF-16 code units, the model counts Dafny characters (Unicode scalar values); the two differ for characters outside the Basic Multilingual Plane.
- Task priorities are not constrained; the select offers only 1 to 3, but stored tasks could hold anything.
- `Tasks.AddTodo`: states that the result is ordered and a permutation of the old list plus the new task, not which ordered permutation, because the output of `Array.prototype.sort` under a comparator that is inconsistent on ties is implementation-defined.
- AppState.App.AddNewTodo: the same weakening as `Tasks.AddTodo` for the new list.

## Findings

| source | as written | input that shows it | evidently intended | confidence | as-written member | corrected member |
|---|---|---|---|---|---|---|
| src/App.tsx:100 | `a.deadline < b.deadline ? -1 : 1` returns 1 for equal deadlines in both argument orders, so the comparator is inconsistent and the sort order is implementation-defined | two tasks whose deadlines are the same instant | return 0 for equal deadlines | high; not executed | TodoOrder.CompareAsWrittenTieInconsistent | TodoOrder.Compare |
