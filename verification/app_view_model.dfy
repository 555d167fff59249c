/** `AppViewModel`: the state the screens share. It holds the viewed day, the
    tasks whose deletion waits on the undo prompt, and the id of the task
    whose details are open. It also holds the commands that write through to
    the store. Each command is one atomic step from state to state. The
    current time and freshly drawn ids are inputs, and so is the user's answer
    to the undo prompt. */
module AppViewModel {
  import opened Types
  import opened Dates
  import opened Status
  import opened Tasks
  import opened Database

  /** How the undo prompt of a deletion ended. */
  datatype SnackbarResult = Dismissed | ActionPerformed

  /** The view model's state: the store, the viewed day, the pending
      deletions, and the task whose details page is open (none for a new
      task). */
  datatype AppState = AppState(
    db: Db,
    date: Instant,
    deletingTasks: seq<Task>,
    viewingDetailsTaskId: Option<Uuid>)

  /** A freshly created view model looks at today and has nothing pending. */
  function Init(db: Db, now: Instant): (s: AppState)
    ensures IsDayStart(s.date) && s.date <= now < s.date + MillisPerDay
    ensures s.db == db && s.deletingTasks == [] && s.viewingDetailsTaskId == None
  {
    AppState(db, TruncateToDay(now), [], None)
  }

  // ---------------------------------------------------------------------
  // The viewed day.

  /** The `date` setter: whatever is assigned, midnight of its day is kept. */
  function SetDate(s: AppState, t: Instant): (r: AppState)
    ensures IsDayStart(r.date) && r.date <= t < r.date + MillisPerDay
    ensures r.db == s.db && r.deletingTasks == s.deletingTasks
    ensures r.viewingDetailsTaskId == s.viewingDetailsTaskId
  {
    s.(date := TruncateToDay(t))
  }

  /** `canNavigateToDate`: the day is not after today's midnight. */
  function CanNavigateToDate(day: Instant, now: Instant): (r: bool)
    ensures r ==> day <= now
    ensures IsDayStart(day) ==> (r <==> EpochDay(day) <= EpochDay(now))
  {
    day <= TruncateToDay(now)
  }

  /** For a midnight, "not after today's midnight" is "not after now", and
      is "not a later calendar day than now". */
  lemma CanNavigateToDateMeansNotAfterToday(day: Instant, now: Instant)
    requires IsDayStart(day)
    ensures CanNavigateToDate(day, now) <==> day <= now
    ensures CanNavigateToDate(day, now) <==> EpochDay(day) <= EpochDay(now)
  {
    var today := TruncateToDay(now);
    if day <= now && today < day {
      DayStartsAreADayApart(today, day);
    }
    assert day == EpochDay(day) * MillisPerDay;
  }

  /** `navigateToPreviousDay`: the midnight of the calendar day before. */
  function NavigateToPreviousDay(s: AppState): (r: AppState)
    ensures IsDayStart(r.date) && EpochDay(r.date) == EpochDay(s.date) - 1
    ensures r == s.(date := r.date)
  {
    SetDate(s, PlusDays(s.date, -1))
  }

  /** `navigateToNextDay`: the midnight of the calendar day after. */
  function NavigateToNextDay(s: AppState): (r: AppState)
    ensures IsDayStart(r.date) && EpochDay(r.date) == EpochDay(s.date) + 1
    ensures r == s.(date := r.date)
  {
    SetDate(s, PlusDays(s.date, 1))
  }

  /** `navigateToToday`: navigating to the current instant, which lands on
      the midnight of the current day. */
  function NavigateToToday(s: AppState, now: Instant): (r: AppState)
    ensures IsDayStart(r.date) && r.date <= now < r.date + MillisPerDay
    ensures r == s.(date := r.date)
  {
    NavigateToDate(s, now)
  }

  /** `navigateToDate` and the date picker's `selectDate`: the midnight of
      the chosen instant's day. */
  function NavigateToDate(s: AppState, t: Instant): (r: AppState)
    ensures IsDayStart(r.date) && r.date <= t < r.date + MillisPerDay
    ensures r == s.(date := r.date)
  {
    SetDate(s, t)
  }

  /** `canNavigateToNextDay`. */
  function CanNavigateToNextDay(s: AppState, now: Instant): (r: bool)
    ensures r ==> s.date + MillisPerDay <= now
    ensures IsDayStart(s.date) ==> (r <==> EpochDay(s.date) < EpochDay(now))
  {
    CanNavigateToDate(PlusDays(s.date, 1), now)
  }

  /** From a midnight, the previous and the next day are exactly one day away,
      so the two moves undo each other. */
  lemma PreviousAndNextDayAreInverse(s: AppState)
    requires IsDayStart(s.date)
    ensures NavigateToPreviousDay(s).date == s.date - MillisPerDay
    ensures NavigateToNextDay(s).date == s.date + MillisPerDay
    ensures NavigateToNextDay(NavigateToPreviousDay(s)) == s
    ensures NavigateToPreviousDay(NavigateToNextDay(s)) == s
  {
    TruncateFixesDayStarts(s.date - MillisPerDay);
    TruncateFixesDayStarts(s.date + MillisPerDay);
    TruncateFixesDayStarts(s.date);
  }

  /** The next-day move is allowed exactly while the viewed day is before
      today. */
  lemma CanNavigateToNextDayIffBeforeToday(s: AppState, now: Instant)
    requires IsDayStart(s.date)
    ensures CanNavigateToNextDay(s, now) <==> s.date < TruncateToDay(now)
    ensures CanNavigateToNextDay(s, now) <==> EpochDay(s.date) < EpochDay(now)
  {
    DayStartsAreADayApart(s.date, TruncateToDay(now));
    assert s.date == EpochDay(s.date) * MillisPerDay;
  }

  /** The viewed day never passes today when the next-day move is only taken
      while it is enabled: every date move keeps "not after today". */
  lemma NavigationStaysUpToToday(s: AppState, now: Instant, t: Instant)
    requires IsDayStart(s.date) && CanNavigateToDate(s.date, now)
    ensures CanNavigateToDate(NavigateToPreviousDay(s).date, now)
    ensures CanNavigateToNextDay(s, now) ==> CanNavigateToDate(NavigateToNextDay(s).date, now)
    ensures CanNavigateToDate(NavigateToToday(s, now).date, now)
    ensures CanNavigateToDate(t, now) ==> CanNavigateToDate(NavigateToDate(s, t).date, now)
  {
    PreviousAndNextDayAreInverse(s);
  }

  // ---------------------------------------------------------------------
  // The visible task list.

  /** `tasks.filterNot { deletingTasks.contains(it) }`, comparing whole rows. */
  function WithoutPending(listing: seq<Task>, pending: seq<Task>): (r: seq<Task>)
    ensures forall t :: t in r <==> t in listing && t !in pending
    ensures |r| <= |listing|
  {
    if |listing| == 0 then []
    else (if listing[0] in pending then [] else [listing[0]])
         + WithoutPending(listing[1..], pending)
  }

  /** `a` is `b` with some elements left out, the rest in the same order. */
  predicate IsSubsequence(a: seq<Task>, b: seq<Task>)
    decreases |b|
  {
    |a| == 0 || (|b| > 0 && if a[0] == b[0] then IsSubsequence(a[1..], b[1..])
                            else IsSubsequence(a, b[1..]))
  }

  lemma {:induction false} WithoutPendingIsSubsequence(listing: seq<Task>, pending: seq<Task>)
    ensures IsSubsequence(WithoutPending(listing, pending), listing)
  {
    if |listing| > 0 {
      WithoutPendingIsSubsequence(listing[1..], pending);
      var rest := WithoutPending(listing[1..], pending);
      if listing[0] in pending {
        assert WithoutPending(listing, pending) == rest;
        SubsequenceOfTail(rest, listing);
      } else {
        assert WithoutPending(listing, pending) == [listing[0]] + rest;
        assert ([listing[0]] + rest)[1..] == rest;
      }
    }
  }

  lemma {:induction false} SubsequenceOfTail(a: seq<Task>, b: seq<Task>)
    requires |b| > 0 && IsSubsequence(a, b[1..])
    ensures IsSubsequence(a, b)
    decreases |b|, 1
  {
    if |a| > 0 && a[0] == b[0] {
      if |a| > 1 {
        assert IsSubsequence(a[1..], b[1..]) by {
          SubsequenceDropHead(a, b[1..]);
        }
      }
    }
  }

  lemma {:induction false} SubsequenceDropHead(a: seq<Task>, b: seq<Task>)
    requires |a| > 0 && IsSubsequence(a, b)
    ensures IsSubsequence(a[1..], b)
    decreases |b|, 2
  {
    if a[0] != b[0] {
      SubsequenceDropHead(a, b[1..]);
      SubsequenceOfTail(a[1..], b);
    } else {
      SubsequenceOfTail(a[1..], b);
    }
  }

  /** A subsequence of a sorted listing is sorted. */
  lemma {:induction false} SubsequenceKeepsSorted(a: seq<Task>, b: seq<Task>)
    requires IsSubsequence(a, b) && SortedByOrder(b)
    ensures SortedByOrder(a)
    ensures forall x | x in a :: x in b
    decreases |b|
  {
    if |a| > 0 {
      assert SortedByOrder(b[1..]) by {
        forall i, j | 0 <= i < j < |b[1..]| ensures b[1..][i].order <= b[1..][j].order {
          assert b[1..][i] == b[i + 1] && b[1..][j] == b[j + 1];
        }
      }
      if a[0] == b[0] {
        SubsequenceKeepsSorted(a[1..], b[1..]);
        forall i, j | 0 <= i < j < |a| ensures a[i].order <= a[j].order {
          if i == 0 {
            assert a[j] in a[1..];
            var k :| 0 <= k < |b[1..]| && b[1..][k] == a[j];
            assert b[k + 1] == a[j];
          } else {
            assert a[i] == a[1..][i - 1] && a[j] == a[1..][j - 1];
          }
        }
        forall x | x in a ensures x in b {
          if x != a[0] {
            assert x in a[1..];
          }
        }
      } else {
        SubsequenceKeepsSorted(a, b[1..]);
      }
    }
  }

  /** The `tasks` list the home page shows. */
  function VisibleTasks(s: AppState): (r: seq<Task>)
    ensures forall t :: t in r <==> t in s.db.tasks && t !in s.deletingTasks
  {
    var listing := GetAll(s.db.tasks);
    GetAllMembers(s.db.tasks);
    WithoutPending(listing, s.deletingTasks)
  }

  lemma GetAllMembers(tasks: seq<Task>)
    ensures forall t :: t in GetAll(tasks) <==> t in tasks
  {
    forall t ensures t in GetAll(tasks) <==> t in tasks {
      assert t in GetAll(tasks) <==> t in multiset(GetAll(tasks));
    }
  }

  /** The visible list is the ordered store listing with the pending rows
      left out and the remaining rows in listing order; so it is itself
      sorted by `order`. */
  lemma VisibleTasksKeepListingOrder(s: AppState)
    ensures IsSubsequence(VisibleTasks(s), GetAll(s.db.tasks))
    ensures SortedByOrder(VisibleTasks(s))
  {
    WithoutPendingIsSubsequence(GetAll(s.db.tasks), s.deletingTasks);
    SubsequenceKeepsSorted(VisibleTasks(s), GetAll(s.db.tasks));
  }

  // ---------------------------------------------------------------------
  // Completion on the viewed day.

  /** `checkTask`: some mark in the list is for `taskId` on the viewed day. */
  function CheckTask(s: AppState, doneTasks: seq<DoneTask>, taskId: Uuid): (done: bool)
    requires IsDayStart(s.date)
    ensures done <==> GetByDateAndTask(doneTasks, s.date, taskId).Some?
  {
    TruncateFixesDayStarts(s.date);
    exists m | m in doneTasks :: m.date == s.date && m.taskId == taskId
  }

  /** `switchTaskStatus`: toggle the mark of `taskId` on the viewed day; a
      new mark gets the freshly drawn id `newId`. */
  function SwitchTaskStatus(s: AppState, taskId: Uuid, newId: Uuid): (r: Result<AppState>)
    ensures r.Ok? ==> r.value.date == s.date && r.value.deletingTasks == s.deletingTasks
    ensures r.Ok? ==> r.value.viewingDetailsTaskId == s.viewingDetailsTaskId
    ensures r.Ok? ==> r.value.db.tasks == s.db.tasks
    ensures r.Ok? <==> SwitchState(s.db.doneTasks, s.date, taskId, newId).Ok?
    ensures r.Ok? ==> r.value.db.doneTasks == SwitchState(s.db.doneTasks, s.date, taskId, newId).value
  {
    match SwitchState(s.db.doneTasks, s.date, taskId, newId)
    case Ok(marks) => Ok(s.(db := s.db.(doneTasks := marks)))
    case Err(e) => Err(e)
  }

  /** After a toggle, `checkTask` on the task's marks answers the opposite of
      before, and every other task's marks are unchanged. */
  lemma SwitchTaskStatusFlipsCheck(s: AppState, taskId: Uuid, newId: Uuid, other: Uuid)
    requires IsDayStart(s.date) && Status.Valid(s.db.doneTasks)
    requires newId !in RowIds(s.db.doneTasks)
    ensures SwitchTaskStatus(s, taskId, newId).Ok?
    ensures var r := SwitchTaskStatus(s, taskId, newId).value;
      CheckTask(r, GetByTask(r.db.doneTasks, taskId), taskId)
      != CheckTask(s, GetByTask(s.db.doneTasks, taskId), taskId)
    ensures other != taskId ==>
      var r := SwitchTaskStatus(s, taskId, newId).value;
      GetByTask(r.db.doneTasks, other) == GetByTask(s.db.doneTasks, other)
  {
    var r := SwitchTaskStatus(s, taskId, newId).value;
    SwitchStateFlips(s.db.doneTasks, s.date, taskId, newId);
    CheckOwnMarks(s, s.db.doneTasks, taskId);
    CheckOwnMarks(r, r.db.doneTasks, taskId);
    if other != taskId {
      SwitchStateKeepsOtherTasks(s.db.doneTasks, s.date, taskId, newId, other);
    }
  }

  /** Asking `checkTask` about a task's own marks is asking the whole table. */
  lemma CheckOwnMarks(s: AppState, marks: seq<DoneTask>, taskId: Uuid)
    requires IsDayStart(s.date)
    ensures CheckTask(s, GetByTask(marks, taskId), taskId)
            <==> GetByDateAndTask(marks, s.date, taskId).Some?
  {
    TruncateFixesDayStarts(s.date);
    var own := GetByTask(marks, taskId);
    if GetByDateAndTask(marks, s.date, taskId).Some? {
      var m := GetByDateAndTask(marks, s.date, taskId).value;
      assert m in own;
    }
  }

  // ---------------------------------------------------------------------
  // Saving the details page.

  /** `updateTask`: with no task open, insert a new task (default order, id
      `newId`); otherwise overwrite the open task's row with the given text. */
  function UpdateTask(s: AppState, title: string, description: string, newId: Uuid)
    : (r: Result<AppState>)
    ensures r.Ok? ==> r.value.date == s.date && r.value.deletingTasks == s.deletingTasks
    ensures r.Ok? ==> r.value.viewingDetailsTaskId == s.viewingDetailsTaskId
    ensures r.Ok? ==> r.value.db.doneTasks == s.db.doneTasks
    ensures s.viewingDetailsTaskId.None? ==>
      (r.Ok? <==> newId !in Ids(s.db.tasks))
      && (r.Ok? ==> r.value.db.tasks == s.db.tasks + [NewTask(newId, title, description)])
    ensures s.viewingDetailsTaskId.Some? ==>
      r == Ok(s.(db := s.db.(tasks := Tasks.Update(s.db.tasks,
                  NewTask(s.viewingDetailsTaskId.value, title, description)))))
  {
    match s.viewingDetailsTaskId
    case None =>
      (match Tasks.Insert(s.db.tasks, NewTask(newId, title, description))
       case Ok(tasks) => Ok(s.(db := s.db.(tasks := tasks)))
       case Err(e) => Err(e))
    case Some(id) =>
      Ok(s.(db := s.db.(tasks := Tasks.Update(s.db.tasks, NewTask(id, title, description)))))
  }

  /** Saving with a task open rewrites that task's title and description,
      resets its order to the default, and leaves every other task alone.
      Saving with none open adds one task with an id no task had. */
  lemma UpdateTaskEffect(s: AppState, title: string, description: string, newId: Uuid,
                         other: Uuid)
    requires UniqueIds(s.db.tasks)
    ensures s.viewingDetailsTaskId.Some? && s.viewingDetailsTaskId.value in Ids(s.db.tasks) ==>
      var id := s.viewingDetailsTaskId.value;
      GetById(UpdateTask(s, title, description, newId).value.db.tasks, id)
        == Some(Task(id, DefaultOrder, title, description))
    ensures s.viewingDetailsTaskId.Some? && other != s.viewingDetailsTaskId.value ==>
      GetById(UpdateTask(s, title, description, newId).value.db.tasks, other)
        == GetById(s.db.tasks, other)
    ensures s.viewingDetailsTaskId.None? && newId !in Ids(s.db.tasks) ==>
      var tasks := UpdateTask(s, title, description, newId).value.db.tasks;
      GetById(tasks, newId) == Some(Task(newId, DefaultOrder, title, description))
      && |tasks| == |s.db.tasks| + 1
  {
    match s.viewingDetailsTaskId
    case Some(id) =>
      UpdateLookups(s.db.tasks, NewTask(id, title, description), other);
    case None =>
      if newId !in Ids(s.db.tasks) {
        InsertThenFind(s.db.tasks, NewTask(newId, title, description));
      }
  }

  // ---------------------------------------------------------------------
  // Deferred deletion.

  /** `r` is `list` with its first `x`, found at position `k`, taken out and
      everything else kept in order. */
  predicate RemovedFirstAt(list: seq<Task>, x: Task, r: seq<Task>, k: int) {
    0 <= k < |list| && list[k] == x && x !in list[..k] && r == list[..k] + list[k + 1..]
  }

  /** Kotlin's `list - element`: drop the first occurrence, if any. */
  function RemoveFirst(list: seq<Task>, x: Task): (r: seq<Task>)
    ensures x !in list ==> r == list
    ensures x in list ==> exists k :: RemovedFirstAt(list, x, r, k)
    ensures x in list ==> |r| == |list| - 1
    ensures multiset(r) == multiset(list) - multiset{x}
  {
    if |list| == 0 then []
    else if list[0] == x then
      assert list == [x] + list[1..];
      assert RemovedFirstAt(list, x, list[1..], 0);
      list[1..]
    else
      assert list == [list[0]] + list[1..];
      var rest := RemoveFirst(list[1..], x);
      RemovedFirstBehindHead(list, x, rest);
      [list[0]] + rest
  }

  /** When the head is not `x`, removing the first `x` from the tail removes
      the first `x` from the whole list. */
  lemma RemovedFirstBehindHead(list: seq<Task>, x: Task, rest: seq<Task>)
    requires |list| > 0 && list[0] != x
    requires x in list[1..] ==> exists k :: RemovedFirstAt(list[1..], x, rest, k)
    ensures x in list ==> exists k :: RemovedFirstAt(list, x, [list[0]] + rest, k)
  {
    if x in list {
      assert list == [list[0]] + list[1..];
      var k :| RemovedFirstAt(list[1..], x, rest, k);
      assert list[..k + 1] == [list[0]] + list[1..][..k];
      assert list[k + 2..] == list[1..][k + 1..];
      assert RemovedFirstAt(list, x, [list[0]] + rest, k + 1);
    }
  }

  /** `deleteTask(context, task)`, first half: the task is hidden at once
      and the store is not touched. */
  function RequestDelete(s: AppState, task: Task): (r: AppState)
    ensures r.db == s.db && r.date == s.date && r.viewingDetailsTaskId == s.viewingDetailsTaskId
    ensures r.deletingTasks == s.deletingTasks + [task]
  {
    s.(deletingTasks := s.deletingTasks + [task])
  }

  /** The private `deleteTask(task)`: cascade-delete the task, then take it off
      the pending list. */
  function CommitDelete(s: AppState, task: Task): (r: AppState)
    ensures r.db == DeleteTask(s.db, task)
    ensures r.date == s.date && r.viewingDetailsTaskId == s.viewingDetailsTaskId
    ensures r.deletingTasks == RemoveFirst(s.deletingTasks, task)
  {
    s.(db := DeleteTask(s.db, task), deletingTasks := RemoveFirst(s.deletingTasks, task))
  }

  /** `deleteTask(context, task)`, second half: the prompt's outcome decides.
      Dismissal commits the deletion; the undo action only un-hides. */
  function ResolveDelete(s: AppState, task: Task, outcome: SnackbarResult): (r: AppState)
    ensures r.deletingTasks == RemoveFirst(s.deletingTasks, task)
    ensures r.date == s.date && r.viewingDetailsTaskId == s.viewingDetailsTaskId
    ensures outcome == ActionPerformed ==> r.db == s.db
    ensures outcome == Dismissed ==>
      task.id !in Ids(r.db.tasks)
      && (forall m | m in r.db.doneTasks :: m.taskId != task.id)
    ensures outcome == Dismissed ==> r.db == DeleteTask(s.db, task)
  {
    match outcome
    case Dismissed => CommitDelete(s, task)
    case ActionPerformed => s.(deletingTasks := RemoveFirst(s.deletingTasks, task))
  }

  /** Requesting a deletion hides the task without writing, and undoing it
      right away restores the state exactly. */
  lemma RequestThenUndo(s: AppState, task: Task)
    requires task !in s.deletingTasks
    ensures task !in VisibleTasks(RequestDelete(s, task))
    ensures RequestDelete(s, task).db == s.db
    ensures ResolveDelete(RequestDelete(s, task), task, ActionPerformed) == s
  {
    RemoveFirstAppended(s.deletingTasks, task);
  }

  /** Removing the first `x` from a list that gains `x` only at its end
      gives back the list. */
  lemma RemoveFirstAppended(list: seq<Task>, x: Task)
    requires x !in list
    ensures RemoveFirst(list + [x], x) == list
  {
    var l := list + [x];
    assert l[|list|] == x;
    var k :| RemovedFirstAt(l, x, RemoveFirst(l, x), k);
    assert k == |list|;
    assert l[..k] == list;
  }

  /** Requesting and then letting the prompt lapse removes the task and all
      its marks, keeps every other task and the other tasks' marks, and
      leaves the pending list as it was. */
  lemma RequestThenDismiss(s: AppState, task: Task)
    requires task !in s.deletingTasks && UniqueRowIds(s.db.doneTasks)
    ensures var r := ResolveDelete(RequestDelete(s, task), task, Dismissed);
      r.deletingTasks == s.deletingTasks
      && (forall t :: t in r.db.tasks <==> t in s.db.tasks && t.id != task.id)
      && r.db.doneTasks == WithoutTasks(s.db.doneTasks, {task.id})
  {
    RemoveFirstAppended(s.deletingTasks, task);
  }

  /** `onCleared`: every task still pending is cascade-deleted, in the order
      the deletions were requested, and the pending list ends empty. */
  method OnCleared(s: AppState) returns (r: AppState)
    ensures r.deletingTasks == []
    ensures r.date == s.date && r.viewingDetailsTaskId == s.viewingDetailsTaskId
    ensures r.db.tasks == WithoutIds(s.db.tasks, Ids(s.deletingTasks))
    ensures forall m | m in r.db.doneTasks ::
      m in s.db.doneTasks && m.taskId !in Ids(s.deletingTasks)
    ensures Database.Valid(s.db) ==>
      Database.Valid(r.db) && r.db.doneTasks == WithoutTasks(s.db.doneTasks, Ids(s.deletingTasks))
  {
    var pending := s.deletingTasks;
    var db, rest := s.db, pending;
    var i := 0;
    assert FlushedUpTo(s.db, db, pending[..0]) by {
      assert pending[..0] == [];
      WithoutIdsNone(s.db.tasks);
      WithoutTasksNone(s.db.doneTasks);
    }
    while i < |pending|
      invariant 0 <= i <= |pending|
      invariant rest == pending[i..]
      invariant FlushedUpTo(s.db, db, pending[..i])
    {
      var task := pending[i];
      FlushNext(s.db, db, pending, i);
      db, rest := DeleteTask(db, task), RemoveFirst(rest, task);
      i := i + 1;
    }
    assert pending[..i] == pending;
    r := s.(db := db, deletingTasks := rest);
  }

  /** The store `cur` is `start` with the tasks in `done` cascade-deleted. */
  predicate FlushedUpTo(start: Db, cur: Db, done: seq<Task>) {
    && cur.tasks == WithoutIds(start.tasks, Ids(done))
    && (forall m | m in cur.doneTasks :: m in start.doneTasks && m.taskId !in Ids(done))
    && (Database.Valid(start) ==>
          Database.Valid(cur) && cur.doneTasks == WithoutTasks(start.doneTasks, Ids(done)))
  }

  /** Cascade-deleting one more task extends the flushed prefix by it. */
  lemma FlushStep(start: Db, cur: Db, done: seq<Task>, task: Task)
    requires FlushedUpTo(start, cur, done)
    ensures FlushedUpTo(start, DeleteTask(cur, task), done + [task])
  {
    var ids := Ids(done);
    assert Ids(done + [task]) == ids + {task.id};
    if Database.Valid(start) {
      DeleteTaskKeepsValid(cur, task);
      WithoutTasksTwice(start.doneTasks, ids, {task.id});
    }
    WithoutIdsTwice(start.tasks, ids, {task.id});
  }

  /** One turn of the flushing loop: the next pending task is cascade-deleted
      and leaves the pending list. */
  lemma FlushNext(start: Db, cur: Db, pending: seq<Task>, i: int)
    requires 0 <= i < |pending|
    requires FlushedUpTo(start, cur, pending[..i])
    ensures FlushedUpTo(start, DeleteTask(cur, pending[i]), pending[..i + 1])
    ensures RemoveFirst(pending[i..], pending[i]) == pending[i + 1..]
  {
    var done, task := pending[..i], pending[i];
    assert pending[..i + 1] == done + [task];
    FlushStep(start, cur, done, task);
    var rest := pending[i..];
    assert rest[0] == task && rest[1..] == pending[i + 1..];
  }

  lemma WithoutIdsNone(tasks: seq<Task>)
    ensures WithoutIds(tasks, Ids([])) == tasks
  {
    assert Ids([]) == {};
    WithoutNoIds(tasks);
  }

  lemma {:induction false} WithoutNoIds(tasks: seq<Task>)
    ensures WithoutIds(tasks, {}) == tasks
  {
    if |tasks| > 0 {
      WithoutNoIds(tasks[1..]);
      assert tasks == [tasks[0]] + tasks[1..];
    }
  }

  lemma WithoutTasksNone(marks: seq<DoneTask>)
    ensures WithoutTasks(marks, Ids([])) == marks
  {
    assert Ids([]) == {};
    WithoutNoTasks(marks);
  }

  lemma {:induction false} WithoutNoTasks(marks: seq<DoneTask>)
    ensures WithoutTasks(marks, {}) == marks
  {
    if |marks| > 0 {
      WithoutNoTasks(marks[1..]);
      assert marks == [marks[0]] + marks[1..];
    }
  }

  // ---------------------------------------------------------------------
  // The state invariant.

  /** One user command, with the environment's inputs it needs. */
  datatype Command =
    | SelectDate(t: Instant)
    | PreviousDay
    | NextDay
    | Today(now: Instant)
    | OpenDetails(detailsTaskId: Option<Uuid>)
    | SaveDetails(title: string, description: string, newId: Uuid)
    | SwitchStatus(taskId: Uuid, newId: Uuid)
    | RequestDeletion(task: Task)
    | ResolveDeletion(task: Task, outcome: SnackbarResult)

  /** The state after a command. A write the store refuses (a key clash on
      insert) is taken here as leaving the state as it was; the app itself
      lets the database exception escape its coroutine instead. */
  function Step(s: AppState, c: Command): (r: AppState)
    ensures c.OpenDetails? ==> r == s.(viewingDetailsTaskId := c.detailsTaskId)
    ensures !c.OpenDetails? ==> r.viewingDetailsTaskId == s.viewingDetailsTaskId
    ensures r.date != s.date ==> c.SelectDate? || c.PreviousDay? || c.NextDay? || c.Today?
    ensures r.db != s.db ==> c.SaveDetails? || c.SwitchStatus? || c.ResolveDeletion?
    ensures r.deletingTasks != s.deletingTasks ==> c.RequestDeletion? || c.ResolveDeletion?
  {
    match c
    case SelectDate(t) => NavigateToDate(s, t)
    case PreviousDay => NavigateToPreviousDay(s)
    case NextDay => NavigateToNextDay(s)
    case Today(now) => NavigateToToday(s, now)
    case OpenDetails(id) => s.(viewingDetailsTaskId := id)
    case SaveDetails(title, description, newId) => UpdateTask(s, title, description, newId).GetOr(s)
    case SwitchStatus(taskId, newId) => SwitchTaskStatus(s, taskId, newId).GetOr(s)
    case RequestDeletion(task) => RequestDelete(s, task)
    case ResolveDeletion(task, outcome) => ResolveDelete(s, task, outcome)
  }

  /** What every reachable state satisfies: the viewed date is a midnight,
      the store is valid, and every task has the default order (nothing
      ever assigns another). */
  predicate Invariant(s: AppState) {
    IsDayStart(s.date) && Database.Valid(s.db) && AllDefaultOrder(s.db.tasks)
  }

  /** A fresh view model over a store that satisfies the invariant does too. */
  lemma InitEstablishesInvariant(db: Db, now: Instant)
    requires Database.Valid(db) && AllDefaultOrder(db.tasks)
    ensures Invariant(Init(db, now))
  {
  }

  /** Every command keeps the invariant. */
  lemma StepKeepsInvariant(s: AppState, c: Command)
    requires Invariant(s)
    ensures Invariant(Step(s, c))
  {
    match c
    case SaveDetails(title, description, newId) =>
      SaveKeepsInvariant(s, title, description, newId);
    case SwitchStatus(taskId, newId) =>
      SwitchStateKeepsValid(s.db.doneTasks, s.date, taskId, newId);
    case ResolveDeletion(task, outcome) =>
      if outcome == Dismissed {
        DeleteTaskKeepsValid(s.db, task);
      }
    case _ =>
  }

  /** Saving the details page keeps the invariant: an insert keeps the keys
      unique, and an update keeps them and writes the default order. */
  lemma SaveKeepsInvariant(s: AppState, title: string, description: string, newId: Uuid)
    requires Invariant(s)
    ensures Invariant(UpdateTask(s, title, description, newId).GetOr(s))
  {
    var r := UpdateTask(s, title, description, newId);
    if r.Ok? {
      match s.viewingDetailsTaskId
      case None =>
        InsertKeepsUniqueIds(s.db.tasks, NewTask(newId, title, description));
      case Some(id) =>
        UpdateKeepsIds(s.db.tasks, NewTask(id, title, description));
        UpdateKeepsDefaultOrder(s.db.tasks, NewTask(id, title, description));
    }
  }

  /** The visible list, in the reachable states, is the table in insertion
      order with the pending rows left out. */
  lemma VisibleTasksInTableOrder(s: AppState)
    requires Invariant(s)
    ensures VisibleTasks(s) == WithoutPending(s.db.tasks, s.deletingTasks)
  {
    GetAllKeepsTableOrder(s.db.tasks);
  }
}
