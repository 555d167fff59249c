# WinniTODO data core in Dafny

WinniTODO is a single-user Android to-do app. Users keep a list of tasks and
mark each task done or not done per calendar day. The home page shows the
tasks of a chosen day, and a details page edits one task's title and
description. This project models the part of the app that holds state and
rules:

- the two Room tables: `Task` and `DoneTask`, the per-day completion marks;
- their DAOs and the date and UUID column converters;
- `AppDatabase.deleteTask`, which deletes a task and cascades to its marks;
- `AppViewModel`: the viewed day, day navigation, the visible task list, the
  deletion that waits on an undo prompt, the per-day toggle, and saving a
  task;
- the non-layout logic of `HomePage`: the card's done flag, count and text
  placeholders, and the statistics dialog's three counts;
- `TaskDetailsPageViewModel`: the loading state and the editable fields.

The model is functional. The store is a value `Db(tasks, doneTasks)` holding
two sequences in insertion order. Each DAO call and each view-model command
is a pure function from state to state. A write the store refuses returns
`Err(PrimaryKeyConflict)` and writes nothing.

Modules and files:

| file | module | models |
|---|---|---|
| `types.dfy` | `Types` | ids (`java.util.UUID`), `Option`, write results |
| `dates.dfy` | `Dates` | instants, day truncation, `plusDays`, calendar year and month |
| `status.dfy` | `Status` | `DoneTask`, `StatusDao`, date `Converters` (Status.kt) |
| `tasks.dfy` | `Tasks` | `Task`, `TaskDao` (Task.kt) |
| `database.dfy` | `Database` | the store, `deleteTask`, UUID `Converters` (AppDatabase.kt) |
| `app_view_model.dfy` | `AppViewModel` | AppViewModel.kt |
| `homepage.dfy` | `HomePage` | the logic in HomePage.kt |
| `task_details.dfy` | `TaskDetails` | TaskDetailsPageViewModel.kt |

Modelling choices:

- **Instants.** An instant is an `int` count of milliseconds since
  1970-01-01T00:00 in the device's offset. `truncatedTo(DAYS)` rounds down
  to a multiple of 86 400 000, which is floor division and also correct
  before 1970. Calendar year and month come from the proleptic Gregorian
  era algorithm.
- **Clock and ids as inputs.** "Now" (`OffsetDateTime.now()`) and every
  freshly drawn id (`UUID.randomUUID()`) are parameters. A fresh id that
  is already in use is the one way an insert can fail.
- **Row matching.** `@Update` and `@Delete` match rows by primary key; a
  missing row is a no-op. `@Insert` aborts on a key clash.
- **Update resets `order`.** `updateTask` builds `Task(id, title,
  description)`, so an update also resets `order` to its default 0. Since
  nothing assigns another order, every reachable state has all tasks at
  order 0, and the visible list is the table in insertion order
  (`AppViewModel.StepKeepsInvariant`, `AppViewModel.VisibleTasksInTableOrder`).
- **Pending deletions.** The pending list compares whole rows, as
  `List.contains` and Kotlin's `list - element` do. `list - element` drops
  only the first occurrence.
- **Id types.** Task.kt declares the task id as an auto-generated `Long`.
  Everything that uses task ids (`DoneTask.taskId`, `getByTask`,
  `currentlyViewingDetailsTaskId`, `updateTask`) treats them as `UUID`. The
  model follows the callers and gives tasks `Uuid` ids drawn like every
  other id.

## Model

Source paths are relative to the repository root.

| member | source | states |
|---|---|---|
| Dates.TruncateToDay | app/src/main/java/xyz/xfqlittlefan/winnitodo/data/entities/Status.kt:95 | `truncatedTo(DAYS)` yields a midnight not after the instant and less than a day before it, on the same epoch day |
| Dates.PlusDays | app/src/main/java/xyz/xfqlittlefan/winnitodo/ui/AppViewModel.kt:79-87 | `plusDays(n)` moves the epoch day by exactly n and keeps the time of day |
| Dates.TruncateIdempotent | app/src/main/java/xyz/xfqlittlefan/winnitodo/data/entities/Status.kt:95 | truncating a truncated date changes nothing |
| Dates.TruncateFixesDayStarts | app/src/main/java/xyz/xfqlittlefan/winnitodo/ui/AppViewModel.kt:54-60 | the date setter keeps an instant unchanged exactly when it is already a midnight |
| Dates.SameDayIffSameTruncation | app/src/main/java/xyz/xfqlittlefan/winnitodo/data/entities/Status.kt:93-96 | two instants truncate to the same value exactly when they fall on the same day |
| Dates.CalendarSamples | app/src/main/java/xyz/xfqlittlefan/winnitodo/ui/pages/HomePage.kt:178-187 | the year, month and day used by the statistics are right on known days: 1970-01-01, 1969-12-31, 2024-02-29, 2024-03-01 |
| Dates.ExampleDates | app/src/main/java/xyz/xfqlittlefan/winnitodo/ui/pages/HomePage.kt:178-187 | the year, month and day are right on 2024-01-05, 2024-01-20, 2024-02-01 and 2023-01-05, across a month and a year boundary |
| Status.FromOffsetDateTime | app/src/main/java/xyz/xfqlittlefan/winnitodo/data/entities/Status.kt:93-96 | null is written as null; any date is written as the midnight of its day |
| Status.ToOffsetDateTime | app/src/main/java/xyz/xfqlittlefan/winnitodo/data/entities/Status.kt:83-91 | a null column reads back as null, and a stored value reads back as some date |
| Status.StoredDateRoundTrip | app/src/main/java/xyz/xfqlittlefan/winnitodo/data/entities/Status.kt:83-96 | reading a stored date back and writing it again stores the same column value |
| Status.SameDaySameColumn | app/src/main/java/xyz/xfqlittlefan/winnitodo/data/entities/Status.kt:93-96 | two dates on the same day are stored as the same value |
| Status.GetByTask | app/src/main/java/xyz/xfqlittlefan/winnitodo/data/entities/Status.kt:51-52 | a row is returned exactly when it is stored and carries the task id |
| Status.GetByTaskMultiplicity | app/src/main/java/xyz/xfqlittlefan/winnitodo/data/entities/Status.kt:51-52 | the result holds every copy of the task's rows and nothing else: as multisets it is the task's part of the table |
| Status.GetByDateAndTask | app/src/main/java/xyz/xfqlittlefan/winnitodo/data/entities/Status.kt:54-58 | no row is returned exactly when no stored row matches both the truncated day and the task; a returned row is stored and matches both |
| Status.Insert | app/src/main/java/xyz/xfqlittlefan/winnitodo/data/entities/Status.kt:60-61 | the insert fails exactly on a key clash; otherwise one row is appended with its date truncated and earlier rows are untouched |
| Status.InsertAt | app/src/main/java/xyz/xfqlittlefan/winnitodo/data/entities/Status.kt:63-66 | with a fresh id, exactly one row (fresh id, midnight of the day, task) is appended; a used id fails |
| Status.Delete | app/src/main/java/xyz/xfqlittlefan/winnitodo/data/entities/Status.kt:68-69 | the rows left are exactly the stored rows with a different key |
| Status.SwitchState | app/src/main/java/xyz/xfqlittlefan/winnitodo/data/entities/Status.kt:71-79 | with no (day, task) row, one row is appended under the fresh id, or the write fails if that id is used; with such a row, the toggle succeeds, and in a valid table exactly the rows of that day and task are gone |
| Status.ValidDeleteRemovesOnlyMatch | app/src/main/java/xyz/xfqlittlefan/winnitodo/data/entities/Status.kt:68-69 | in a valid table, deleting a stored row removes exactly the rows sharing its day and task |
| Status.DeletePairs | app/src/main/java/xyz/xfqlittlefan/winnitodo/data/entities/Status.kt:68-69 | with unique keys, deleting a stored row removes exactly one copy of its (day, task) pair from the multiset of pairs |
| Status.DeleteKeepsValid | app/src/main/java/xyz/xfqlittlefan/winnitodo/data/entities/Status.kt:68-69 | deleting keeps keys unique, one row per day and task, and every date a midnight |
| Status.DeleteOtherTaskRows | app/src/main/java/xyz/xfqlittlefan/winnitodo/data/entities/Status.kt:51-69 | deleting a row of one task leaves every other task's `getByTask` list unchanged, row for row |
| Status.GetByTaskAroundRow | app/src/main/java/xyz/xfqlittlefan/winnitodo/data/entities/Status.kt:51-52 | a task's `getByTask` list splits around any of its rows into the rows before, that row and the rows after, and without the row the two sides join up |
| Status.SwitchStateKeepsValid | app/src/main/java/xyz/xfqlittlefan/winnitodo/data/entities/Status.kt:71-79 | a successful toggle keeps at most one row per (day, task), unique keys and midnight dates |
| Status.SwitchStateFlips | app/src/main/java/xyz/xfqlittlefan/winnitodo/data/entities/Status.kt:71-79 | with a fresh id, the (day, task) lookup finds a row after the toggle exactly when it found none before |
| Status.SwitchStateKeepsOtherTasks | app/src/main/java/xyz/xfqlittlefan/winnitodo/data/entities/Status.kt:71-79 | a toggle on task t leaves `getByTask(u)` unchanged for every u other than t |
| Status.SwitchStateTwice | app/src/main/java/xyz/xfqlittlefan/winnitodo/data/entities/Status.kt:71-79 | toggling the same day and task twice restores the multiset of (day, task) pairs; if the first toggle inserted, the table itself is restored |
| Status.SwitchOnThenOff | app/src/main/java/xyz/xfqlittlefan/winnitodo/data/entities/Status.kt:72-78 | marking then unmarking gives back the original table |
| Status.SwitchOffThenOn | app/src/main/java/xyz/xfqlittlefan/winnitodo/data/entities/Status.kt:72-78 | unmarking then marking brings back the pair under a new id; the multiset of pairs is as before |
| Tasks.NewTask | app/src/main/java/xyz/xfqlittlefan/winnitodo/data/entities/Task.kt:13-18 | a task built from id and text gets the default order 0 and keeps the text as given |
| Tasks.GetAll | app/src/main/java/xyz/xfqlittlefan/winnitodo/data/entities/Task.kt:22-23 | the listing is sorted ascending by `order` and is a permutation of the table |
| Tasks.GetAllKeepsTableOrder | app/src/main/java/xyz/xfqlittlefan/winnitodo/data/entities/Task.kt:22-23 | when every task has the default order, the listing is the table in insertion order |
| Tasks.GetById | app/src/main/java/xyz/xfqlittlefan/winnitodo/data/entities/Task.kt:25-26 | nothing is found exactly when no row has the id; a found row is stored and has the id |
| Tasks.GetByIdFindsStoredRow | app/src/main/java/xyz/xfqlittlefan/winnitodo/data/entities/Task.kt:25-26 | with unique keys, the lookup of a stored row's id yields that row |
| Tasks.Insert | app/src/main/java/xyz/xfqlittlefan/winnitodo/data/entities/Task.kt:28-29 | the insert fails exactly when the id is in use; otherwise the row is appended |
| Tasks.InsertKeepsUniqueIds | app/src/main/java/xyz/xfqlittlefan/winnitodo/data/entities/Task.kt:28-29 | a successful insert keeps keys unique |
| Tasks.InsertThenFind | app/src/main/java/xyz/xfqlittlefan/winnitodo/data/entities/Task.kt:25-29 | inserting a row with a fresh id appends it, and looking up that id then finds exactly that row |
| Tasks.Update | app/src/main/java/xyz/xfqlittlefan/winnitodo/data/entities/Task.kt:31-32 | each row carrying the id is replaced by the new row; every other row stays in place unchanged |
| Tasks.UpdateLookups | app/src/main/java/xyz/xfqlittlefan/winnitodo/data/entities/Task.kt:31-32 | after an update the id yields the new row, an unknown id changes nothing, and every other id yields what it did |
| Tasks.UpdateKeepsIds | app/src/main/java/xyz/xfqlittlefan/winnitodo/data/entities/Task.kt:31-32 | an update keeps keys unique and the key set unchanged |
| Tasks.UpdateKeepsDefaultOrder | app/src/main/java/xyz/xfqlittlefan/winnitodo/data/entities/Task.kt:31-32 | updating with a row at the default order keeps every task at the default order |
| Tasks.Delete | app/src/main/java/xyz/xfqlittlefan/winnitodo/data/entities/Task.kt:34-35 | the rows left are exactly the stored rows with a different id |
| Tasks.DeleteLookups | app/src/main/java/xyz/xfqlittlefan/winnitodo/data/entities/Task.kt:34-35 | after a delete the id is not found and every other id yields what it did |
| Database.DeleteEach | app/src/main/java/xyz/xfqlittlefan/winnitodo/data/AppDatabase.kt:42-46 | deleting the listed rows one by one leaves exactly the rows whose key none of them has |
| Database.DeleteEachRemovesKeys | app/src/main/java/xyz/xfqlittlefan/winnitodo/data/AppDatabase.kt:42-46 | the one-by-one deletes equal removing all their keys at once, order kept |
| Database.DeleteTask | app/src/main/java/xyz/xfqlittlefan/winnitodo/data/AppDatabase.kt:39-47 | no task with the id remains, every other task remains, and every remaining mark is an old mark of another task; with unique keys, exactly the task's marks are gone |
| Database.CascadeRemovesExactlyTheTask | app/src/main/java/xyz/xfqlittlefan/winnitodo/data/AppDatabase.kt:42-46 | deleting what `getByTask` returns leaves no mark of the task and, with unique keys, every mark of other tasks in order |
| Database.DeleteTaskIdempotent | app/src/main/java/xyz/xfqlittlefan/winnitodo/data/AppDatabase.kt:39-47 | deleting a task twice gives the same store as deleting it once |
| Database.DeleteTaskKeepsOtherMarks | app/src/main/java/xyz/xfqlittlefan/winnitodo/data/AppDatabase.kt:39-47 | every other task's mark list is unchanged, row for row |
| Database.DeleteTaskKeepsValid | app/src/main/java/xyz/xfqlittlefan/winnitodo/data/AppDatabase.kt:39-47 | the cascade keeps a valid store valid |
| Database.FromUuid | app/src/main/java/xyz/xfqlittlefan/winnitodo/data/AppDatabase.kt:51-52 | null maps to null and an id to its text |
| Database.ToUuid | app/src/main/java/xyz/xfqlittlefan/winnitodo/data/AppDatabase.kt:54-55 | null maps to null and text to the id it denotes |
| Database.UuidColumnRoundTrip | app/src/main/java/xyz/xfqlittlefan/winnitodo/data/AppDatabase.kt:51-55 | a stored id, or null, reads back as itself whenever the parser inverts the formatter |
| AppViewModel.Init | app/src/main/java/xyz/xfqlittlefan/winnitodo/ui/AppViewModel.kt:49 | a new view model views the midnight of the current day, with nothing pending and no task open |
| AppViewModel.SetDate | app/src/main/java/xyz/xfqlittlefan/winnitodo/ui/AppViewModel.kt:54-60 | after any assignment the viewed date is the midnight of the assigned instant's day; nothing else changes |
| AppViewModel.NavigateToPreviousDay | app/src/main/java/xyz/xfqlittlefan/winnitodo/ui/AppViewModel.kt:79-81 | the viewed date becomes the midnight of the previous calendar day; nothing else changes |
| AppViewModel.NavigateToNextDay | app/src/main/java/xyz/xfqlittlefan/winnitodo/ui/AppViewModel.kt:85-87 | the viewed date becomes the midnight of the next calendar day; nothing else changes |
| AppViewModel.NavigateToToday | app/src/main/java/xyz/xfqlittlefan/winnitodo/ui/AppViewModel.kt:89-91 | the viewed date becomes the midnight of the current day |
| AppViewModel.NavigateToDate | app/src/main/java/xyz/xfqlittlefan/winnitodo/ui/AppViewModel.kt:93-104 | the viewed date becomes the midnight of the chosen instant's day |
| AppViewModel.CanNavigateToDate | app/src/main/java/xyz/xfqlittlefan/winnitodo/ui/AppViewModel.kt:76-77 | a day that may be navigated to is not after now; for a midnight this holds exactly when its day is not later than today |
| AppViewModel.CanNavigateToNextDay | app/src/main/java/xyz/xfqlittlefan/winnitodo/ui/AppViewModel.kt:83 | when enabled, the next day's midnight is not after now; from a midnight it is enabled exactly when the viewed day is before today |
| AppViewModel.CanNavigateToDateMeansNotAfterToday | app/src/main/java/xyz/xfqlittlefan/winnitodo/ui/AppViewModel.kt:76-77 | a midnight may be navigated to exactly when it is not after now, that is, not a later day than today |
| AppViewModel.PreviousAndNextDayAreInverse | app/src/main/java/xyz/xfqlittlefan/winnitodo/ui/AppViewModel.kt:79-87 | from a midnight, previous and next day move exactly one day, and each undoes the other |
| AppViewModel.CanNavigateToNextDayIffBeforeToday | app/src/main/java/xyz/xfqlittlefan/winnitodo/ui/AppViewModel.kt:83 | `canNavigateToNextDay`, which enables the home page's next-day button, holds exactly while the viewed day is before today |
| AppViewModel.NavigationStaysUpToToday | app/src/main/java/xyz/xfqlittlefan/winnitodo/ui/AppViewModel.kt:76-95 | from a day not after today, every enabled move lands on a day not after today |
| AppViewModel.WithoutPending | app/src/main/java/xyz/xfqlittlefan/winnitodo/ui/AppViewModel.kt:143-145 | a row is kept exactly when it is listed and not pending |
| AppViewModel.WithoutPendingIsSubsequence | app/src/main/java/xyz/xfqlittlefan/winnitodo/ui/AppViewModel.kt:143-145 | filtering keeps the remaining rows in their listing order |
| AppViewModel.VisibleTasks | app/src/main/java/xyz/xfqlittlefan/winnitodo/ui/AppViewModel.kt:143-145 | a task is visible exactly when it is stored and not pending deletion |
| AppViewModel.VisibleTasksKeepListingOrder | app/src/main/java/xyz/xfqlittlefan/winnitodo/ui/AppViewModel.kt:143-145 | the visible list is a subsequence of the sorted listing and is itself sorted by `order` |
| AppViewModel.CheckTask | app/src/main/java/xyz/xfqlittlefan/winnitodo/ui/AppViewModel.kt:164-168 | true exactly when the list has a mark for the task on the viewed day |
| AppViewModel.CheckOwnMarks | app/src/main/java/xyz/xfqlittlefan/winnitodo/ui/AppViewModel.kt:164-168 | asked about a task's own marks, `checkTask` answers whether the table marks the task on the viewed day |
| AppViewModel.SwitchTaskStatus | app/src/main/java/xyz/xfqlittlefan/winnitodo/ui/AppViewModel.kt:205-209 | the toggle of (viewed day, task) succeeds exactly when `switchState` does, writes `switchState`'s table as the marks, and touches neither tasks nor the viewed day |
| AppViewModel.SwitchTaskStatusFlipsCheck | app/src/main/java/xyz/xfqlittlefan/winnitodo/ui/AppViewModel.kt:205-209 | after a toggle `checkTask` gives the opposite answer for the task, and other tasks' marks are unchanged |
| AppViewModel.UpdateTask | app/src/main/java/xyz/xfqlittlefan/winnitodo/ui/AppViewModel.kt:178-193 | with no task open, a new task is appended exactly when the fresh id is unused; with one open, its row is overwritten with the text and default order; marks and the viewed day never change |
| AppViewModel.UpdateTaskEffect | app/src/main/java/xyz/xfqlittlefan/winnitodo/ui/AppViewModel.kt:178-193 | after saving, the open task's id yields the new text at order 0 and other ids are unaffected; a new task is found under its fresh id |
| AppViewModel.RemoveFirst | app/src/main/java/xyz/xfqlittlefan/winnitodo/ui/AppViewModel.kt:213 | `list - task` removes the first occurrence of the task and keeps the other rows in their order; a list without the task is returned unchanged |
| AppViewModel.RequestDelete | app/src/main/java/xyz/xfqlittlefan/winnitodo/ui/AppViewModel.kt:222-224 | requesting a deletion appends the task to the pending list and leaves the store unchanged |
| AppViewModel.CommitDelete | app/src/main/java/xyz/xfqlittlefan/winnitodo/ui/AppViewModel.kt:211-214 | the task is cascade-deleted and then taken off the pending list; the viewed day and the open task are unchanged |
| AppViewModel.ResolveDelete | app/src/main/java/xyz/xfqlittlefan/winnitodo/ui/AppViewModel.kt:231-234 | either outcome takes the task off the pending list; undo leaves the store unchanged; dismissal runs the cascade delete of the task on the store, leaving no row and no mark of it; the viewed day and the open task are unchanged |
| AppViewModel.RequestThenUndo | app/src/main/java/xyz/xfqlittlefan/winnitodo/ui/AppViewModel.kt:222-235 | a requested deletion hides the task at once, and undo restores the whole state exactly |
| AppViewModel.RequestThenDismiss | app/src/main/java/xyz/xfqlittlefan/winnitodo/ui/AppViewModel.kt:222-235 | a dismissed deletion removes the task and exactly its marks, keeps every other task, and restores the pending list |
| AppViewModel.OnCleared | app/src/main/java/xyz/xfqlittlefan/winnitodo/ui/AppViewModel.kt:313-318 | every pending task is cascade-deleted, the pending list ends empty, and a valid store stays valid with exactly those tasks' marks gone |
| AppViewModel.InitEstablishesInvariant | app/src/main/java/xyz/xfqlittlefan/winnitodo/ui/AppViewModel.kt:49 | a new view model over a valid store whose tasks have the default order satisfies the invariant |
| AppViewModel.Step | app/src/main/java/xyz/xfqlittlefan/winnitodo/ui/AppViewModel.kt:54-265 | opening details (`navigateToTaskDetails`) sets only the open task id; no other command changes it; only the date commands move the date, only saving, toggling and resolving a deletion write the store, and only requesting or resolving a deletion changes the pending list |
| AppViewModel.SaveKeepsInvariant | app/src/main/java/xyz/xfqlittlefan/winnitodo/ui/AppViewModel.kt:178-193 | saving a task keeps the viewed date a midnight, the store valid, and every task at the default order |
| AppViewModel.StepKeepsInvariant | app/src/main/java/xyz/xfqlittlefan/winnitodo/ui/AppViewModel.kt:54-236 | every command keeps the viewed date a midnight, the store valid, and every task at the default order |
| AppViewModel.VisibleTasksInTableOrder | app/src/main/java/xyz/xfqlittlefan/winnitodo/ui/AppViewModel.kt:143-145 | in reachable states the visible list is the table in insertion order with pending rows left out |
| HomePage.DisplayText | app/src/main/java/xyz/xfqlittlefan/winnitodo/ui/pages/HomePage.kt:249 | an empty text shows the placeholder, any other text shows itself; with a non-empty placeholder the line is never blank |
| HomePage.CardOf | app/src/main/java/xyz/xfqlittlefan/winnitodo/ui/pages/HomePage.kt:143-149 | the card is done exactly when a mark exists for the task on the viewed day; its count is the length of the task's `getByTask` list; a done card has a positive count; the count is zero exactly when no day is marked |
| HomePage.NoOwnRows | app/src/main/java/xyz/xfqlittlefan/winnitodo/ui/pages/HomePage.kt:146 | a task's mark list is empty exactly when no mark carries its id |
| HomePage.CountIsDaysDone | app/src/main/java/xyz/xfqlittlefan/winnitodo/ui/pages/HomePage.kt:146 | in a table with one mark per day and task, the card's count is the number of distinct days the task was done |
| HomePage.ToggledDays | app/src/main/java/xyz/xfqlittlefan/winnitodo/ui/pages/HomePage.kt:147 | a toggle adds the viewed day to the task's done days when missing, and removes it when present |
| HomePage.UnmarkDay | app/src/main/java/xyz/xfqlittlefan/winnitodo/ui/pages/HomePage.kt:147 | toggling a marked day of a valid table removes exactly that day from the task's done days |
| HomePage.MarkDay | app/src/main/java/xyz/xfqlittlefan/winnitodo/ui/pages/HomePage.kt:147 | toggling an unmarked day under a fresh id appends one row for it and adds exactly that day to the task's done days |
| HomePage.ToggledCount | app/src/main/java/xyz/xfqlittlefan/winnitodo/ui/pages/HomePage.kt:146-147 | a toggle moves the task's mark count down by one when the day was marked and up by one otherwise |
| HomePage.SwitchTaskStatusFlipsCard | app/src/main/java/xyz/xfqlittlefan/winnitodo/ui/pages/HomePage.kt:143-147 | tapping a card flips its done flag and moves its count by one in the matching direction |
| HomePage.CountInYear | app/src/main/java/xyz/xfqlittlefan/winnitodo/ui/pages/HomePage.kt:187 | the year count is the number of positions in the list whose mark falls in the viewed year; it is at most the number of marks, and zero exactly when no mark is in the viewed year |
| HomePage.CountInMonth | app/src/main/java/xyz/xfqlittlefan/winnitodo/ui/pages/HomePage.kt:181 | the month count is the number of positions whose mark falls in the viewed month of the viewed year; it is at most the year count, and zero exactly when no such mark exists |
| HomePage.StatisticsOf | app/src/main/java/xyz/xfqlittlefan/winnitodo/ui/pages/HomePage.kt:154-189 | the three lines count, over the task's `getByTask` list, all marks, the marks in the viewed month and the marks in the viewed year; month ≤ year ≤ total; the total is zero exactly when the task has no mark; the year count is zero exactly when none of its marks is in the viewed year |
| HomePage.ToggledStatistics | app/src/main/java/xyz/xfqlittlefan/winnitodo/ui/pages/HomePage.kt:146-187 | a toggle on the viewed day moves all three lines of the task's statistics by one: down when the day was marked, up when it was not |
| HomePage.PositionsAppend | app/src/main/java/xyz/xfqlittlefan/winnitodo/ui/pages/HomePage.kt:181-187 | counting over two lists one after the other adds their counts |
| HomePage.StatisticsExample | app/src/main/java/xyz/xfqlittlefan/winnitodo/ui/pages/HomePage.kt:173-187 | marks on 2024-01-05, 2024-01-20, 2024-02-01 and 2023-01-05, viewed on 2024-01-20, give total 4, year 3 and month 2 |
| TaskDetails.Create | app/src/main/java/xyz/xfqlittlefan/winnitodo/ui/viewModels/TaskDetailsPageViewModel.kt:16-26 | the page starts ready exactly when no task is open, with empty title and description |
| TaskDetails.Load | app/src/main/java/xyz/xfqlittlefan/winnitodo/ui/viewModels/TaskDetailsPageViewModel.kt:45-59 | with no task open, or the open id not in the list, nothing changes; otherwise the page becomes ready with the text of a listed task of that id |
| TaskDetails.UpdateTitle | app/src/main/java/xyz/xfqlittlefan/winnitodo/ui/viewModels/TaskDetailsPageViewModel.kt:22-24 | only the title changes |
| TaskDetails.UpdateDescription | app/src/main/java/xyz/xfqlittlefan/winnitodo/ui/viewModels/TaskDetailsPageViewModel.kt:29-31 | only the description changes |
| TaskDetails.Submit | app/src/main/java/xyz/xfqlittlefan/winnitodo/ui/viewModels/TaskDetailsPageViewModel.kt:33 | saving submits exactly the current title and description: a new task gets them, an open task's save always succeeds and replaces its row, by key, with the typed title and description at the default order; marks and the viewed day are untouched |
| TaskDetails.DoneTasks | app/src/main/java/xyz/xfqlittlefan/winnitodo/ui/viewModels/TaskDetailsPageViewModel.kt:35-38 | empty with no task open; otherwise exactly the open task's marks |
| TaskDetails.LoadReadyIffVisible | app/src/main/java/xyz/xfqlittlefan/winnitodo/ui/viewModels/TaskDetailsPageViewModel.kt:45-59 | loading from the visible list makes the page ready exactly when the open task has a stored row not pending deletion |
| TaskDetails.EditThenSubmit | app/src/main/java/xyz/xfqlittlefan/winnitodo/ui/viewModels/TaskDetailsPageViewModel.kt:22-33 | after editing an open, stored task's title and description, saving makes the lookup of its id return exactly the typed text with the default order, and every other id's lookup is unchanged |
| TaskDetails.LoadThenSubmitKeepsStore | app/src/main/java/xyz/xfqlittlefan/winnitodo/ui/viewModels/TaskDetailsPageViewModel.kt:33-59 | in a reachable state, loading and saving without edits leaves the whole state unchanged |

## Left out

- Time zones: `ZoneId.systemDefault`, `transformDate` and `transformUTCDate`. Instants are taken as already local.
- The clock and random ids: `OffsetDateTime.now()` and `UUID.randomUUID()` are parameters of the operations that use them.
- Status.ToOffsetDateTime: states only that null maps to null. In the model a stored value is already a local instant, so the conversion is the identity and the zone rule it applies is not modelled.
- Coroutines, dispatchers, Flow re-emission and `asState`. Each operation is one atomic step.
- The race between `switchState`'s read and its write is therefore not modelled.
- `switchTaskStatus` reads `date` inside its coroutine. The model uses the date at the time of the call.
- The details page's read of `tasks` happens once, and may see the initial empty list. The list it sees is a parameter of `TaskDetails.Load`, and `TaskDetails.LoadReadyIffVisible` states the case where it is the current visible list.
- Snackbar timing: the undo prompt's outcome is an input.
- `onCleared`'s follow-up of closing the database and cancelling the scope is not modelled.
- Navigation: `canPop`, `pop`, `checkAndPop`, the routes, `navigateToTaskDetails`'s navigation, and the details page's `navigateToDate` pop. Opening details is the `OpenDetails` command of `AppViewModel.Step`.
- UI flags: `showDatePicker`/`hideDatePicker` and `showStatistics`/`hideStatistics` only drive dialog visibility. The statistics themselves are modelled for any task id.
- Compose layout, string resources and the snackbar host. Placeholder strings are parameters of `HomePage.DisplayText` and `HomePage.CardOf`.
- Room internals: the `INSTANCE` singleton, `close()`, `@Relation`/`Status`, `StatusDao.getAll` and `getByDate`. Nothing in the modelled core reads these queries.
- SQL gives no order among rows with equal `order`. `Tasks.GetAll` keeps table order among ties, one of the orders SQL permits.
- `AppDatabase.deleteTask` calls `taskDao().deleteDirectly`, which `TaskDao` in Task.kt does not declare (it declares only `delete`). `Database.DeleteTask` uses `Tasks.Delete`, the declared delete-by-key.
- The UUID text form: `UUID.toString`/`fromString` are parameters of `Database.FromUuid` and `Database.ToUuid`, and the round trip assumes the parser inverts the formatter.
- Dates.CivilFromDays: no general bounds on month (1..12) or day are proved; the calendar is checked on the sample days of `Dates.CalendarSamples` and `Dates.ExampleDates`.
- AppViewModel.Step: a write the store refuses (a key clash on an aborting `@Insert`) leaves the state as it was. In the app the exception escapes the `databaseScope` coroutine, which is a plain `CoroutineScope(Job())`, so it is not caught there. The model does not promise that behaviour.
- `switchTaskStatus` calls `statusDao.switchStatus`, which `StatusDao` in Status.kt does not declare (it declares only `switchState`). `AppViewModel.SwitchTaskStatus` uses `Status.SwitchState`.
- Kotlin `Int` overflow of `order` and of the counts: integers are unbounded, and no operation does arithmetic on `order`.
