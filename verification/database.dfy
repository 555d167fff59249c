/** `AppDatabase`: the two tables together, the cascading delete of a task,
    and the UUID column converters. */
module Database {
  import opened Types
  import opened Status
  import opened Tasks

  /** The whole store: the task table and the completion table. */
  datatype Db = Db(tasks: seq<Task>, doneTasks: seq<DoneTask>)

  /** Keys are unique in both tables and the completion table is valid. */
  predicate Valid(db: Db) {
    UniqueIds(db.tasks) && Status.Valid(db.doneTasks)
  }

  /** `doneTasks.forEach { statusDao.delete(it) }`: delete the given rows one
      at a time, each by its key. */
  function DeleteEach(marks: seq<DoneTask>, rows: seq<DoneTask>): (r: seq<DoneTask>)
    ensures forall m :: m in r <==> m in marks && m.id !in RowIds(rows)
    decreases |rows|
  {
    if |rows| == 0 then marks
    else
      assert RowIds(rows) == {rows[0].id} + RowIds(rows[1..]) by {
        assert rows == [rows[0]] + rows[1..];
      }
      DeleteEach(Status.Delete(marks, rows[0]), rows[1..])
  }

  /** Deleting rows one by one is removing all their keys at once. */
  lemma {:induction false} DeleteEachRemovesKeys(marks: seq<DoneTask>, rows: seq<DoneTask>)
    ensures DeleteEach(marks, rows) == WithoutRowIds(marks, RowIds(rows))
    decreases |rows|
  {
    if |rows| == 0 {
      assert RowIds(rows) == {};
      WithoutAbsentRowIds(marks, {});
    } else {
      assert RowIds(rows) == {rows[0].id} + RowIds(rows[1..]) by {
        assert rows == [rows[0]] + rows[1..];
      }
      DeleteEachRemovesKeys(Status.Delete(marks, rows[0]), rows[1..]);
      WithoutRowIdsTwice(marks, {rows[0].id}, RowIds(rows[1..]));
    }
  }

  /** `deleteTask`: delete the task row, then every completion mark that
      `getByTask` returns for its id. */
  function DeleteTask(db: Db, task: Task): (r: Db)
    ensures task.id !in Ids(r.tasks)
    ensures forall t :: t in r.tasks <==> t in db.tasks && t.id != task.id
    ensures forall m | m in r.doneTasks :: m in db.doneTasks && m.taskId != task.id
    ensures UniqueRowIds(db.doneTasks) ==>
              r.doneTasks == WithoutTasks(db.doneTasks, {task.id})
  {
    var doomed := GetByTask(db.doneTasks, task.id);
    var marks := DeleteEach(db.doneTasks, doomed);
    CascadeRemovesExactlyTheTask(db.doneTasks, task.id);
    Db(Tasks.Delete(db.tasks, task), marks)
  }

  /** With unique keys, deleting the rows `getByTask` returns removes the
      marks of that task and no others, keeping table order. */
  lemma CascadeRemovesExactlyTheTask(marks: seq<DoneTask>, taskId: Uuid)
    ensures forall m | m in DeleteEach(marks, GetByTask(marks, taskId)) :: m.taskId != taskId
    ensures UniqueRowIds(marks) ==>
              DeleteEach(marks, GetByTask(marks, taskId)) == WithoutTasks(marks, {taskId})
  {
    var doomed := GetByTask(marks, taskId);
    forall m | m in marks && m.taskId == taskId ensures m.id in RowIds(doomed) {
      assert m in doomed;
    }
    if UniqueRowIds(marks) {
      forall m | m in marks ensures m.id in RowIds(doomed) <==> m.taskId in {taskId} {
        if m.id in RowIds(doomed) {
          var m' :| m' in doomed && m'.id == m.id;
          var i :| 0 <= i < |marks| && marks[i] == m;
          var j :| 0 <= j < |marks| && marks[j] == m';
          assert i == j;
        }
      }
      DeleteEachRemovesKeys(marks, doomed);
      WithoutRowIdsByTask(marks, RowIds(doomed), {taskId});
    }
  }

  /** Deleting a task twice is deleting it once. */
  lemma DeleteTaskIdempotent(db: Db, task: Task)
    ensures DeleteTask(DeleteTask(db, task), task) == DeleteTask(db, task)
  {
    var once := DeleteTask(db, task);
    assert Tasks.Delete(once.tasks, task) == once.tasks by {
      WithoutIdsTwice(db.tasks, {task.id}, {task.id});
      assert {task.id} + {task.id} == {task.id};
    }
    assert DeleteEach(once.doneTasks, GetByTask(once.doneTasks, task.id)) == once.doneTasks by {
      GetByTaskOfAbsentTask(once.doneTasks, task.id);
    }
  }

  lemma {:induction false} GetByTaskOfAbsentTask(marks: seq<DoneTask>, taskId: Uuid)
    requires forall m | m in marks :: m.taskId != taskId
    ensures GetByTask(marks, taskId) == []
  {
    if |marks| > 0 {
      assert marks[0] in marks;
      assert forall m | m in marks[1..] :: m in marks;
      GetByTaskOfAbsentTask(marks[1..], taskId);
    }
  }

  /** Deleting a task leaves every other task's completion list as it was,
      row for row. */
  lemma DeleteTaskKeepsOtherMarks(db: Db, task: Task, other: Uuid)
    requires UniqueRowIds(db.doneTasks) && other != task.id
    ensures GetByTask(DeleteTask(db, task).doneTasks, other) == GetByTask(db.doneTasks, other)
  {
    GetByTaskWithoutOtherTasks(db.doneTasks, {task.id}, other);
  }

  lemma {:induction false} GetByTaskWithoutOtherTasks(marks: seq<DoneTask>, taskIds: set<Uuid>,
                                                      other: Uuid)
    requires other !in taskIds
    ensures GetByTask(WithoutTasks(marks, taskIds), other) == GetByTask(marks, other)
  {
    if |marks| > 0 {
      GetByTaskWithoutOtherTasks(marks[1..], taskIds, other);
      var head := if marks[0].taskId in taskIds then [] else [marks[0]];
      GetByTaskAppend(head, WithoutTasks(marks[1..], taskIds), other);
    }
  }

  /** The cascade keeps a valid store valid. */
  lemma DeleteTaskKeepsValid(db: Db, task: Task)
    requires Valid(db)
    ensures Valid(DeleteTask(db, task))
  {
    WithoutIdsKeepsUniqueIds(db.tasks, {task.id});
    WithoutTasksKeepsValid(db.doneTasks, {task.id});
  }

  /** `Converters.fromUUID`: the id's text, `null` for `null`. The text form
      is `UUID.toString`, given as `format`. */
  function FromUuid(uuid: Option<Uuid>, format: Uuid -> string): (r: Option<string>)
    ensures r.None? <==> uuid.None?
    ensures uuid.Some? ==> r == Some(format(uuid.value))
  {
    match uuid
    case None => None
    case Some(u) => Some(format(u))
  }

  /** `Converters.toUUID`: the id a column's text denotes, `null` for `null`.
      The parser is `UUID.fromString`, given as `parse`. */
  function ToUuid(text: Option<string>, parse: string -> Uuid): (r: Option<Uuid>)
    ensures r.None? <==> text.None?
    ensures text.Some? ==> r == Some(parse(text.value))
  {
    match text
    case None => None
    case Some(s) => Some(parse(s))
  }

  /** A stored id reads back as itself whenever the library's parser inverts
      its formatter on it; `null` reads back as `null`. */
  lemma UuidColumnRoundTrip(uuid: Option<Uuid>, format: Uuid -> string, parse: string -> Uuid)
    requires uuid.Some? ==> parse(format(uuid.value)) == uuid.value
    ensures ToUuid(FromUuid(uuid, format), parse) == uuid
  {
  }
}
