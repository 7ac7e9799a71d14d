# RealmApp task lists: storage service and list screen, in Dafny

RealmApp is an iOS to-do app. It keeps task lists in an embedded object
database (Realm). A `TaskList` has a title, a creation date and an ordered
to-many link `tasks`. A `Task` has a title, a note and an `isComplete` flag.

This project models two pieces of the app:

- **`StorageManager`, the storage service.** Every public method except
  `fetchData`, which only reads, runs one write transaction.
- **`TaskListViewController`, the list screen.** This is the decision logic
  that turns the stored lists into table rows:
  - which ordering the segmented control selects;
  - the row count, and which list each row shows;
  - each row's summary, which is a count badge, a checkmark, or "0";
  - the row a newly created list is animated into.

The model has four modules:

- `Model` (`model.dfy`) is the database. It has two tables:
  - the TaskList objects in table order, each with its `tasks` link as a
    sequence of object identities;
  - the Task objects, filed by identity.

  Identities come from one counter and are never reused. The database
  invariant `Valid` says:
  - list identities are unique;
  - every task is linked at most once, by one list;
  - every link leads to a stored task;
  - no task outlives its list;
  - every identity was issued.
- `Transactions` (`transactions.dfy`) has one pure function per write,
  giving the state after the write.
  - `ApplyKeepsValid` proves that every write keeps `Valid`.
  - One lemma per write states what the write changes and what it leaves
    alone.
- `Services` (`storage_manager.dfy`) is the `StorageManager` class. It has
  the two tables and the identity counter as mutable fields. Each method:
  - makes its change in place;
  - promises the new state is the matching `Transactions` function of the
    old state;
  - keeps `Valid`.
- `Screen` (`task_list_screen.dfy`) has the screen's rules as pure functions
  over the stored lists. Its lemmas connect them to the writes, for example
  the row summary after "done".

A method takes an object handle in the app. Here a handle is the object's
identity.

## Model

| member | source | states |
|---|---|---|
| Services.StorageManager.constructor | RealmApp/Services/StorageManager.swift:17-23 | The service starts on a database that satisfies the invariant. |
| Services.StorageManager.FetchTaskLists | RealmApp/Services/StorageManager.swift:26-28 | The query returns the stored TaskList objects in table order. |
| Services.StorageManager.SaveTaskLists | RealmApp/Services/StorageManager.swift:31-35 | Adds the given lists one after another. The new state is `AddLists` of the old one, and the invariant still holds. |
| Services.StorageManager.SaveTaskList | RealmApp/Services/StorageManager.swift:38-44 | Adds one list with the given title and no tasks, after the stored lists. The new state is `AddList` of the old one. The object handed back is that new last list. |
| Services.StorageManager.DeleteTaskList | RealmApp/Services/StorageManager.swift:47-52 | Deletes the list's tasks, then the list. The new state is `RemoveList` of the old one. It commits exactly when the list is stored. |
| Services.StorageManager.EditTaskList | RealmApp/Services/StorageManager.swift:55-59 | Sets the list's title in place. The new state is `RetitleList` of the old one. It commits exactly when the list is stored. |
| Services.StorageManager.DoneTaskList | RealmApp/Services/StorageManager.swift:62-66 | Sets the flag on each linked task. The new state is `CompleteAll` of the old one. It commits exactly when the list is stored. |
| Services.StorageManager.SaveTask | RealmApp/Services/StorageManager.swift:69-75 | Files a new task and links it at the end of the list. The new state is `AppendTask` of the old one. The identity handed back was not in use and names the new task: given title and note, not done. |
| Services.StorageManager.EditTask | RealmApp/Services/StorageManager.swift:78-83 | Overwrites the title, then the note. The new state is `UpdateTask` of the old one. It commits exactly when the task is stored. |
| Services.StorageManager.DeleteTask | RealmApp/Services/StorageManager.swift:86-90 | Removes the link from its owning list and deletes the object. The new state is `RemoveTask` of the old one. It commits exactly when the task is stored. |
| Services.StorageManager.DoneTask | RealmApp/Services/StorageManager.swift:93-97 | The new state is `SetComplete(_, task, true)` of the old one. It commits exactly when the task is stored. |
| Services.StorageManager.UndoneTask | RealmApp/Services/StorageManager.swift:100-104 | The new state is `SetComplete(_, task, false)` of the old one. It commits exactly when the task is stored. |
| Services.DeleteAll | RealmApp/Services/StorageManager.swift:49 | Deleting the tasks behind a list's links leaves exactly the tasks that are not linked, unchanged. |
| Services.SetAllComplete | RealmApp/Services/StorageManager.swift:64 | Every linked task has its flag set. Every other task is unchanged, and no task is added or removed. |
| Transactions.ApplyKeepsValid | RealmApp/Services/StorageManager.swift:31-104 | Every write keeps the database invariant: unique identities, links that resolve, no task linked twice, no orphaned task. |
| Transactions.Replay | RealmApp/Services/StorageManager.swift:106-114 | Running writes one after another, each as an atomic step, keeps the invariant after every step. |
| Transactions.AddListsEffect | RealmApp/Services/StorageManager.swift:31-35 | The bulk save appends every given list in order. Each list keeps its title, date and tasks in order. Stored lists and tasks are unchanged. |
| Transactions.AddNewListEffect | RealmApp/Services/StorageManager.swift:33 | Adding one new list appends it with its tasks under fresh identities. Every stored task keeps its value. |
| Transactions.AddListEffect | RealmApp/Services/StorageManager.swift:38-44 | Creating a list adds exactly one list, last, under an identity no stored list has, with the given title and date and no tasks. The other lists and all tasks are unchanged. |
| Transactions.RemoveListCascade | RealmApp/Services/StorageManager.swift:47-52 | Deleting a list removes the list and every task it owned. The other lists keep their order and their tasks. A list with no tasks is simply removed. |
| Transactions.DeletingListAloneOrphans | RealmApp/Services/StorageManager.swift:49-50 | Deleting the list without first deleting its tasks leaves orphaned tasks. The first step of the cascade is needed. |
| Transactions.RetitleListEffect | RealmApp/Services/StorageManager.swift:55-59 | Renaming changes only that list's title. Its date, its tasks, every other list and all tasks stay the same. |
| Transactions.RetitleLastWins | RealmApp/Services/StorageManager.swift:57 | Of two renames of a list, the later one wins, so renaming twice to one title equals renaming once. |
| Transactions.CompleteAllEffect | RealmApp/Services/StorageManager.swift:62-66 | Marking a list done sets every one of its tasks complete, whatever the flag was. Count, order, titles and notes stay the same. No other list's tasks change. |
| Transactions.CompleteAllIdempotent | RealmApp/Services/StorageManager.swift:64 | Marking a list done twice equals marking it done once. |
| Transactions.AppendTaskEffect | RealmApp/Services/StorageManager.swift:69-75 | The list's tasks become the old tasks followed by the new task, not done, under an unused identity. Earlier tasks keep their positions and no other list changes. |
| Transactions.UpdateTaskEffect | RealmApp/Services/StorageManager.swift:78-83 | Editing a task overwrites its title and note. Its done flag, every list's links (so its position), and every other task stay the same. |
| Transactions.RemoveTaskEffect | RealmApp/Services/StorageManager.swift:86-90 | Deleting a task removes only that task. Its list survives with the other tasks in order, and no other list changes. |
| Transactions.SetCompleteEffect | RealmApp/Services/StorageManager.swift:93-104 | Setting a task's flag changes that flag only. Lists and all other tasks stay the same. |
| Transactions.SetCompleteLastWins | RealmApp/Services/StorageManager.swift:93-104 | Of two flag settings the later one wins. So done and undone are each idempotent, and undone after done leaves the flag false. |
| Screen.TitleLeqTotal | RealmApp/ViewControllers/TaskListViewController.swift:24 | Any two titles are comparable in the title order. |
| Screen.TitleLeqTrans | RealmApp/ViewControllers/TaskListViewController.swift:24 | The title order is transitive. |
| Screen.Insert | RealmApp/ViewControllers/TaskListViewController.swift:22-24 | Inserting into a sorted view keeps it sorted, and the view gains exactly the inserted list. |
| Screen.SortBy | RealmApp/ViewControllers/TaskListViewController.swift:22-24 | Ordering by a key gives a sorted permutation of the lists. |
| Screen.InsertTies | RealmApp/ViewControllers/TaskListViewController.swift:22-24 | Inserting a list into a sorted view puts it after every list with the same key. |
| Screen.SortByStable | RealmApp/ViewControllers/TaskListViewController.swift:22-24 | Ordering by a key is stable: lists with equal keys keep their table order. |
| Screen.SortedTaskLists | RealmApp/ViewControllers/TaskListViewController.swift:19-28 | Segment 0 orders by date (non-decreasing) and segment 1 by title. Any other segment gives the lists in table order. Every view is a permutation of the stored lists, and in both sorted views lists with equal keys keep their table order. |
| Screen.NumberOfRowsInSection | RealmApp/ViewControllers/TaskListViewController.swift:100-102 | The row count is the number of stored lists, which equals the length of every view that rows are read from. |
| Screen.RowTaskList | RealmApp/ViewControllers/TaskListViewController.swift:107 | Every row below the row count reads inside the view and shows a stored list. |
| Screen.EveryListShown | RealmApp/ViewControllers/TaskListViewController.swift:100-107 | Every stored list is shown on some row. |
| Screen.IncompleteTasks | RealmApp/ViewControllers/TaskListViewController.swift:110 | The filter keeps exactly the tasks whose flag is false, each as often as it occurs. It is empty exactly when all tasks are done. |
| Screen.Summary | RealmApp/ViewControllers/TaskListViewController.swift:114-123 | A list with no tasks shows "0" and no checkmark. The checkmark appears exactly when the list has tasks and all are done, and then there is no text. Otherwise the text is the number of tasks not done, between 1 and the number of tasks. |
| Screen.CellForRowAt | RealmApp/ViewControllers/TaskListViewController.swift:104-127 | A row's cell shows the title and summary of the stored list that the row reads from the view. |
| Screen.SummaryByFlags | RealmApp/ViewControllers/TaskListViewController.swift:110-123 | The summary depends only on the number of tasks and their done flags. |
| Screen.SummaryAfterCompleteAll | RealmApp/ViewControllers/TaskListViewController.swift:83-86 | After "Done" on a list with tasks, its row shows a checkmark and no text. |
| Screen.SummaryAfterAppendTask | RealmApp/ViewControllers/TaskListViewController.swift:120-122 | After a task is added to a list, its row shows no checkmark and one more task not done. |
| Screen.SummaryAfterUpdateTask | RealmApp/ViewControllers/TaskListViewController.swift:110-123 | Editing a task's title and note leaves every row's summary as it was. |
| Screen.SummaryAfterUndoneTask | RealmApp/ViewControllers/TaskListViewController.swift:117-122 | After one task of a list is set not done, its row shows a count and no checkmark. |
| Screen.InsertRowIndex | RealmApp/ViewControllers/TaskListViewController.swift:168 | The insert row is the first row of the view holding the created list when there is one. That row is below the row count. Otherwise it is 0. |
| Screen.NewListRow | RealmApp/ViewControllers/TaskListViewController.swift:166-170 | After a save, the new list is in every view. The insert row is below the row count and is the row that shows the new list, so the fallback 0 is never used. |

## Left out

- Opening the database, and the crash when it cannot be opened. The service starts on an empty database.
- A failing write transaction. The source prints the error and carries on. Here every write commits.
- Disk persistence and Realm's live, auto-updating query results. A query is a function recomputed from the current state.
- Stale handles. A write on a handle whose object was deleted traps inside the database in the source. Here it reports `StaleHandle` and changes nothing.
- Services.StorageManager.FetchTaskLists: the generic `fetchData` is modelled for TaskList only, the one type the list screen queries.
- Services.StorageManager.SaveTaskLists: the model assumes callers pass lists that are not in the database yet. Adding objects that are already managed is not modelled.
- Services.StorageManager.SaveTaskList: the creation date is the parameter `now` instead of the clock.
- The order of the TaskList table after deletes. The model keeps table order, while Realm may reorder rows when it compacts a table. This shows in the unsorted view (segment other than 0 and 1) and in the order of lists with equal keys in the sorted views.
- Screen.SortedTaskLists: titles are ordered lexicographically by character code, not by Realm's string collation.
- Screen.Summary: the count is shown as a number. Its locale formatting (`formatted()`) is not modelled.
- UIKit:
  - table reloads and row animations;
  - swipe-action construction and colours;
  - the alert builder;
  - segue preparation;
  - cell dequeuing and content configuration.
- The `UserDefaults` gate and the data manager that seeds sample lists. Both are outside the modelled files.
- The singleton `shared` instance.
- The `TaskList` and `Task` model classes are not part of this model. Only their fields used above are declared as datatypes.
