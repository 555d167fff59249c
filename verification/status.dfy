/** The completion store: `DoneTask` rows and the queries and writes of
    `StatusDao`. A row says "task `taskId` was done on day `date`". The table is
    a sequence in insertion order; a query returns rows in that order. */
module Status {
  import opened Types
  import opened Dates

  /** One completion mark. `date` is the stored column: midnight of the day. */
  datatype DoneTask = DoneTask(id: Uuid, date: Instant, taskId: Uuid)

  /** The row is the mark of `taskId` on the day starting at `day`. */
  predicate Matches(m: DoneTask, day: Instant, taskId: Uuid) {
    m.date == day && m.taskId == taskId
  }

  /** Primary keys in use. */
  function RowIds(marks: seq<DoneTask>): set<Uuid> {
    set m | m in marks :: m.id
  }

  /** No two rows share a primary key (the table's key constraint). */
  predicate UniqueRowIds(marks: seq<DoneTask>) {
    forall i, j | 0 <= i < j < |marks| :: marks[i].id != marks[j].id
  }

  /** No two rows mark the same task on the same day. */
  predicate OnePerDayAndTask(marks: seq<DoneTask>) {
    forall i, j | 0 <= i < j < |marks| ::
      !(marks[i].date == marks[j].date && marks[i].taskId == marks[j].taskId)
  }

  /** Every stored date is a midnight. */
  predicate DatesTruncated(marks: seq<DoneTask>) {
    forall m | m in marks :: IsDayStart(m.date)
  }

  /** What a completion table looks like when it is written only through
      `switchState` and deletes. */
  predicate Valid(marks: seq<DoneTask>) {
    UniqueRowIds(marks) && OnePerDayAndTask(marks) && DatesTruncated(marks)
  }

  /** `Converters.fromOffsetDateTime`: the column value written for a date is
      the midnight of its day; `null` stays `null`. */
  function FromOffsetDateTime(date: Option<Instant>): (r: Option<Instant>)
    ensures r.None? <==> date.None?
    ensures r.Some? ==> IsDayStart(r.value)
    ensures r.Some? ==> r.value <= date.value < r.value + MillisPerDay
  {
    match date
    case None => None
    case Some(t) => Some(TruncateToDay(t))
  }

  /** `Converters.toOffsetDateTime`: a column value read back as a date. In
      this model instants already carry the local offset, so the value is
      unchanged; `null` stays `null`. */
  function ToOffsetDateTime(value: Option<Instant>): (r: Option<Instant>)
    ensures r.None? <==> value.None?
  {
    value
  }

  /** Reading a stored date back and writing it again stores the same value. */
  lemma StoredDateRoundTrip(date: Option<Instant>)
    ensures FromOffsetDateTime(ToOffsetDateTime(FromOffsetDateTime(date)))
            == FromOffsetDateTime(date)
  {
    if date.Some? {
      TruncateIdempotent(date.value);
    }
  }

  /** Two dates on the same day are written as the same column value. */
  lemma SameDaySameColumn(a: Instant, b: Instant)
    requires EpochDay(a) == EpochDay(b)
    ensures FromOffsetDateTime(Some(a)) == FromOffsetDateTime(Some(b))
  {
  }

  /** `getByTask`: the rows of one task, in table order. */
  function GetByTask(marks: seq<DoneTask>, taskId: Uuid): (r: seq<DoneTask>)
    ensures forall m :: m in r <==> m in marks && m.taskId == taskId
    ensures |r| <= |marks|
  {
    if |marks| == 0 then []
    else (if marks[0].taskId == taskId then [marks[0]] else [])
         + GetByTask(marks[1..], taskId)
  }

  /** `getByTask` keeps every copy of the task's rows and no other row: as
      multisets, it is the task's part of the table. */
  lemma {:induction false} GetByTaskMultiplicity(marks: seq<DoneTask>, taskId: Uuid)
    ensures multiset(GetByTask(marks, taskId)) <= multiset(marks)
    ensures forall m: DoneTask | m.taskId == taskId ::
      multiset(GetByTask(marks, taskId))[m] == multiset(marks)[m]
  {
    if |marks| > 0 {
      GetByTaskMultiplicity(marks[1..], taskId);
      assert marks == [marks[0]] + marks[1..];
    }
  }

  /** The first row matching `day` and `taskId`, or none. */
  function FirstMatch(marks: seq<DoneTask>, day: Instant, taskId: Uuid): (r: Option<DoneTask>)
    ensures r.None? <==> forall m | m in marks :: !Matches(m, day, taskId)
    ensures r.Some? ==> r.value in marks && Matches(r.value, day, taskId)
  {
    if |marks| == 0 then None
    else if Matches(marks[0], day, taskId) then Some(marks[0])
    else FirstMatch(marks[1..], day, taskId)
  }

  /** `getByDateAndTask` (`... WHERE date = ? AND taskId = ? LIMIT 1`): the
      date parameter goes through the same converter as the stored column. */
  function GetByDateAndTask(marks: seq<DoneTask>, dateTime: Instant, taskId: Uuid): (r: Option<DoneTask>)
    ensures r.None? <==> forall m | m in marks :: !Matches(m, TruncateToDay(dateTime), taskId)
    ensures r.Some? ==> r.value in marks && r.value.date == TruncateToDay(dateTime)
                        && r.value.taskId == taskId
  {
    FirstMatch(marks, TruncateToDay(dateTime), taskId)
  }

  /** `insert(task: DoneTask)`: the row is appended with its date truncated;
      a primary-key clash aborts the insert and leaves the table as it was. */
  function Insert(marks: seq<DoneTask>, row: DoneTask): (r: Result<seq<DoneTask>>)
    ensures r.Err? <==> exists m :: m in marks && m.id == row.id
    ensures r.Ok? ==> |r.value| == |marks| + 1 && r.value[..|marks|] == marks
    ensures r.Ok? ==> var stored := r.value[|marks|];
      stored.id == row.id && stored.taskId == row.taskId && IsDayStart(stored.date)
      && EpochDay(stored.date) == EpochDay(row.date)
  {
    if row.id in RowIds(marks) then Err(PrimaryKeyConflict(row.id))
    else Ok(marks + [row.(date := TruncateToDay(row.date))])
  }

  /** `insert(dateTime, taskId)`: a new row with a freshly drawn id `newId`. */
  function InsertAt(marks: seq<DoneTask>, dateTime: Instant, taskId: Uuid, newId: Uuid)
    : (r: Result<seq<DoneTask>>)
    ensures newId !in RowIds(marks) ==>
              r == Ok(marks + [DoneTask(newId, TruncateToDay(dateTime), taskId)])
    ensures newId in RowIds(marks) ==> r.Err?
  {
    Insert(marks, DoneTask(newId, dateTime, taskId))
  }

  /** The rows whose primary key is not in `ids`, in table order. */
  function WithoutRowIds(marks: seq<DoneTask>, ids: set<Uuid>): (r: seq<DoneTask>)
    ensures forall m :: m in r <==> m in marks && m.id !in ids
    ensures |r| <= |marks|
  {
    if |marks| == 0 then []
    else (if marks[0].id in ids then [] else [marks[0]]) + WithoutRowIds(marks[1..], ids)
  }

  /** `delete(task: DoneTask)`: removes the row with that primary key. */
  function Delete(marks: seq<DoneTask>, row: DoneTask): (r: seq<DoneTask>)
    ensures forall m :: m in r <==> m in marks && m.id != row.id
  {
    WithoutRowIds(marks, {row.id})
  }

  /** The rows that belong to none of the tasks in `taskIds`, in table order:
      what must remain once those tasks' marks are gone. */
  function WithoutTasks(marks: seq<DoneTask>, taskIds: set<Uuid>): (r: seq<DoneTask>)
    ensures forall m :: m in r <==> m in marks && m.taskId !in taskIds
    ensures |r| <= |marks|
  {
    if |marks| == 0 then []
    else (if marks[0].taskId in taskIds then [] else [marks[0]])
         + WithoutTasks(marks[1..], taskIds)
  }

  /** `switchState`: look up the (day, task) row; insert one (with the fresh id
      `newId`) when there is none, otherwise delete it. */
  function SwitchState(marks: seq<DoneTask>, dateTime: Instant, taskId: Uuid, newId: Uuid)
    : (r: Result<seq<DoneTask>>)
    ensures GetByDateAndTask(marks, dateTime, taskId).None? && newId !in RowIds(marks) ==>
              r == Ok(marks + [DoneTask(newId, TruncateToDay(dateTime), taskId)])
    ensures GetByDateAndTask(marks, dateTime, taskId).None? && newId in RowIds(marks) ==>
              r.Err?
    ensures GetByDateAndTask(marks, dateTime, taskId).Some? ==> r.Ok?
    ensures r.Ok? && GetByDateAndTask(marks, dateTime, taskId).Some? && Valid(marks) ==>
              forall m :: m in r.value <==>
                m in marks && !Matches(m, TruncateToDay(dateTime), taskId)
  {
    match GetByDateAndTask(marks, dateTime, taskId)
    case None => InsertAt(marks, dateTime, taskId, newId)
    case Some(row) =>
      ValidDeleteRemovesOnlyMatch(marks, row);
      Ok(Delete(marks, row))
  }

  /** In a valid table, deleting a stored row removes exactly the rows that
      share its day and task: that row and no other. */
  lemma ValidDeleteRemovesOnlyMatch(marks: seq<DoneTask>, row: DoneTask)
    ensures Valid(marks) && row in marks ==>
              forall m :: m in Delete(marks, row) <==>
                m in marks && !Matches(m, row.date, row.taskId)
  {
    if !(Valid(marks) && row in marks) {
      return;
    }
    forall m | m in marks
      ensures m.id == row.id <==> Matches(m, row.date, row.taskId)
    {
      var i :| 0 <= i < |marks| && marks[i] == m;
      var j :| 0 <= j < |marks| && marks[j] == row;
      if i < j || j < i {
        assert m.id != row.id;
        assert !Matches(m, row.date, row.taskId);
      }
    }
  }

  // ---------------------------------------------------------------------
  // Sequence facts about the filters above.

  lemma {:induction false} GetByTaskAppend(a: seq<DoneTask>, b: seq<DoneTask>, taskId: Uuid)
    ensures GetByTask(a + b, taskId) == GetByTask(a, taskId) + GetByTask(b, taskId)
  {
    if |a| == 0 {
      assert a + b == b;
    } else {
      assert (a + b)[1..] == a[1..] + b;
      GetByTaskAppend(a[1..], b, taskId);
    }
  }

  lemma {:induction false} WithoutRowIdsAppend(a: seq<DoneTask>, b: seq<DoneTask>, ids: set<Uuid>)
    ensures WithoutRowIds(a + b, ids) == WithoutRowIds(a, ids) + WithoutRowIds(b, ids)
  {
    if |a| == 0 {
      assert a + b == b;
    } else {
      assert (a + b)[1..] == a[1..] + b;
      WithoutRowIdsAppend(a[1..], b, ids);
    }
  }

  /** Removing rows by key is removing them by task when, on this table, a
      row's key is among `ids` exactly when its task is among `taskIds`. */
  lemma {:induction false} WithoutRowIdsByTask(marks: seq<DoneTask>, ids: set<Uuid>,
                                               taskIds: set<Uuid>)
    requires forall m | m in marks :: m.id in ids <==> m.taskId in taskIds
    ensures WithoutRowIds(marks, ids) == WithoutTasks(marks, taskIds)
  {
    if |marks| > 0 {
      assert marks[0] in marks;
      assert forall m | m in marks[1..] :: m in marks;
      WithoutRowIdsByTask(marks[1..], ids, taskIds);
    }
  }

  /** Removing one set of keys and then another is removing both at once. */
  lemma {:induction false} WithoutRowIdsTwice(marks: seq<DoneTask>, a: set<Uuid>, b: set<Uuid>)
    ensures WithoutRowIds(WithoutRowIds(marks, a), b) == WithoutRowIds(marks, a + b)
  {
    if |marks| > 0 {
      WithoutRowIdsTwice(marks[1..], a, b);
      var head := if marks[0].id in a then [] else [marks[0]];
      WithoutRowIdsAppend(head, WithoutRowIds(marks[1..], a), b);
      if marks[0].id !in a {
        assert WithoutRowIds(head, b) == (if marks[0].id in b then [] else [marks[0]]);
      }
    }
  }

  /** Removing the marks of one set of tasks and then another is removing
      both at once. */
  lemma {:induction false} WithoutTasksTwice(marks: seq<DoneTask>, a: set<Uuid>, b: set<Uuid>)
    ensures WithoutTasks(WithoutTasks(marks, a), b) == WithoutTasks(marks, a + b)
  {
    if |marks| > 0 {
      WithoutTasksTwice(marks[1..], a, b);
      var head := if marks[0].taskId in a then [] else [marks[0]];
      WithoutTasksAppend(head, WithoutTasks(marks[1..], a), b);
      if marks[0].taskId !in a {
        assert WithoutTasks(head, b) == (if marks[0].taskId in b then [] else [marks[0]]);
      }
    }
  }

  lemma {:induction false} WithoutTasksAppend(a: seq<DoneTask>, b: seq<DoneTask>, taskIds: set<Uuid>)
    ensures WithoutTasks(a + b, taskIds) == WithoutTasks(a, taskIds) + WithoutTasks(b, taskIds)
  {
    if |a| == 0 {
      assert a + b == b;
    } else {
      assert (a + b)[1..] == a[1..] + b;
      WithoutTasksAppend(a[1..], b, taskIds);
    }
  }

  /** Removing the marks of tasks keeps a valid table valid. */
  lemma WithoutTasksKeepsValid(marks: seq<DoneTask>, taskIds: set<Uuid>)
    requires Valid(marks)
    ensures Valid(WithoutTasks(marks, taskIds))
  {
    var ids := set m | m in marks && m.taskId in taskIds :: m.id;
    forall m | m in marks ensures m.id in ids <==> m.taskId in taskIds {
      if m.id in ids {
        var m' :| m' in marks && m'.taskId in taskIds && m'.id == m.id;
        var i :| 0 <= i < |marks| && marks[i] == m;
        var j :| 0 <= j < |marks| && marks[j] == m';
        assert i == j;
      }
    }
    WithoutRowIdsByTask(marks, ids, taskIds);
    WithoutRowIdsKeepsValid(marks, ids);
  }

  /** Removing ids that no row carries changes nothing. */
  lemma {:induction false} WithoutAbsentRowIds(marks: seq<DoneTask>, ids: set<Uuid>)
    requires forall m | m in marks :: m.id !in ids
    ensures WithoutRowIds(marks, ids) == marks
  {
    if |marks| > 0 {
      assert marks[0] in marks;
      WithoutAbsentRowIds(marks[1..], ids);
      assert [marks[0]] + marks[1..] == marks;
    }
  }

  lemma UniqueRowIdsTail(marks: seq<DoneTask>)
    requires |marks| > 0 && UniqueRowIds(marks)
    ensures UniqueRowIds(marks[1..])
    ensures forall m | m in marks[1..] :: m.id != marks[0].id
  {
    forall m | m in marks[1..] ensures m.id != marks[0].id {
      var k :| 0 <= k < |marks[1..]| && marks[1..][k] == m;
      assert marks[k + 1] == m;
    }
  }

  /** The (day, task) pairs of the rows, in table order. */
  function Pairs(marks: seq<DoneTask>): (r: seq<(Instant, Uuid)>)
    ensures |r| == |marks|
    ensures forall i | 0 <= i < |marks| :: r[i] == (marks[i].date, marks[i].taskId)
  {
    seq(|marks|, i requires 0 <= i < |marks| => (marks[i].date, marks[i].taskId))
  }

  lemma PairsAppend(a: seq<DoneTask>, b: seq<DoneTask>)
    ensures Pairs(a + b) == Pairs(a) + Pairs(b)
  {
    var l, r := Pairs(a + b), Pairs(a) + Pairs(b);
    forall i | 0 <= i < |l| ensures l[i] == r[i] {
      if i < |a| {
        assert (a + b)[i] == a[i];
      } else {
        assert (a + b)[i] == b[i - |a|];
      }
    }
  }

  lemma PairOfStoredRow(marks: seq<DoneTask>, row: DoneTask)
    requires row in marks
    ensures (row.date, row.taskId) in multiset(Pairs(marks))
  {
    var k :| 0 <= k < |marks| && marks[k] == row;
    assert Pairs(marks)[k] == (row.date, row.taskId);
  }

  /** A task's rows around its row at index `k`: those before it, that row,
      those after it; without that row the two sides close up. */
  lemma GetByTaskAroundRow(marks: seq<DoneTask>, k: int, taskId: Uuid)
    requires 0 <= k < |marks| && marks[k].taskId == taskId
    ensures GetByTask(marks, taskId)
            == GetByTask(marks[..k], taskId) + [marks[k]] + GetByTask(marks[k + 1..], taskId)
    ensures GetByTask(marks[..k] + marks[k + 1..], taskId)
            == GetByTask(marks[..k], taskId) + GetByTask(marks[k + 1..], taskId)
  {
    var before, row, after := marks[..k], marks[k], marks[k + 1..];
    assert marks == before + [row] + after;
    GetByTaskAppend(before + [row], after, taskId);
    GetByTaskAppend(before, [row], taskId);
    GetByTaskAppend(before, after, taskId);
    assert GetByTask([row], taskId) == [row];
  }

  /** With unique keys, no row before or after index `k` carries the id of
      the row at `k`. */
  lemma IdOnlyAt(marks: seq<DoneTask>, k: int)
    requires UniqueRowIds(marks) && 0 <= k < |marks|
    ensures forall m | m in marks[..k] :: m.id != marks[k].id
    ensures forall m | m in marks[k + 1..] :: m.id != marks[k].id
  {
    var before, after := marks[..k], marks[k + 1..];
    forall m | m in before ensures m.id != marks[k].id {
      var i :| 0 <= i < |before| && before[i] == m;
      assert marks[i] == m;
    }
    forall m | m in after ensures m.id != marks[k].id {
      var i :| 0 <= i < |after| && after[i] == m;
      assert marks[k + 1 + i] == m;
    }
  }

  /** With unique keys, deleting the row at index `k` cuts exactly that
      position out of the table. */
  lemma DeleteAt(marks: seq<DoneTask>, k: int)
    requires UniqueRowIds(marks) && 0 <= k < |marks|
    ensures Delete(marks, marks[k]) == marks[..k] + marks[k + 1..]
  {
    var row := marks[k];
    var before, after := marks[..k], marks[k + 1..];
    assert marks == before + [row] + after;
    IdOnlyAt(marks, k);
    WithoutAbsentRowIds(before, {row.id});
    WithoutAbsentRowIds(after, {row.id});
    assert WithoutRowIds(before + [row], {row.id}) == before by {
      WithoutRowIdsAppend(before, [row], {row.id});
      assert WithoutRowIds([row], {row.id}) == [];
    }
    WithoutRowIdsAppend(before + [row], after, {row.id});
  }

  /** With unique keys, deleting a stored row takes exactly its pair out of
      the multiset of pairs. */
  lemma DeletePairs(marks: seq<DoneTask>, row: DoneTask)
    requires UniqueRowIds(marks) && row in marks
    ensures multiset(Pairs(Delete(marks, row)))
            == multiset(Pairs(marks)) - multiset{(row.date, row.taskId)}
  {
    var k :| 0 <= k < |marks| && marks[k] == row;
    var a, b := Pairs(marks[..k]), Pairs(marks[k + 1..]);
    assert Pairs(marks) == a + [(row.date, row.taskId)] + b by {
      PairsSplit(marks, k);
    }
    assert Pairs(Delete(marks, row)) == a + b by {
      DeleteAt(marks, k);
      PairsAppend(marks[..k], marks[k + 1..]);
    }
    SpliceMultiset(a, (row.date, row.taskId), b);
  }

  /** The pairs of a table around its row `k`. */
  lemma PairsSplit(marks: seq<DoneTask>, k: int)
    requires 0 <= k < |marks|
    ensures Pairs(marks) == Pairs(marks[..k]) + [(marks[k].date, marks[k].taskId)] + Pairs(marks[k + 1..])
  {
    var l := Pairs(marks);
    var r := Pairs(marks[..k]) + [(marks[k].date, marks[k].taskId)] + Pairs(marks[k + 1..]);
    forall i | 0 <= i < |l| ensures l[i] == r[i] {
      if i < k {
        assert marks[..k][i] == marks[i];
      } else if k < i {
        assert marks[k + 1..][i - k - 1] == marks[i];
      }
    }
  }

  /** Cutting one element out of a sequence takes one copy of it out of the
      sequence's multiset. */
  lemma SpliceMultiset<T>(a: seq<T>, p: T, b: seq<T>)
    ensures multiset(a + b) == multiset(a + [p] + b) - multiset{p}
  {
    assert multiset(a + [p] + b) == multiset(a) + multiset{p} + multiset(b);
    assert multiset(a + b) == multiset(a) + multiset(b);
  }

  /** Removing a row with a key found nowhere else leaves a table whose other
      rows are in their original order. */
  lemma DeleteAppended(marks: seq<DoneTask>, row: DoneTask)
    requires forall m | m in marks :: m.id != row.id
    ensures Delete(marks + [row], row) == marks
  {
    WithoutRowIdsAppend(marks, [row], {row.id});
    WithoutAbsentRowIds(marks, {row.id});
    assert WithoutRowIds([row], {row.id}) == [];
  }

  // ---------------------------------------------------------------------
  // Properties of the toggle.

  /** The toggle keeps a valid table valid. */
  lemma SwitchStateKeepsValid(marks: seq<DoneTask>, dateTime: Instant, taskId: Uuid, newId: Uuid)
    requires Valid(marks)
    ensures SwitchState(marks, dateTime, taskId, newId).Ok? ==>
              Valid(SwitchState(marks, dateTime, taskId, newId).value)
  {
    var r := SwitchState(marks, dateTime, taskId, newId);
    if r.Ok? {
      var found := GetByDateAndTask(marks, dateTime, taskId);
      if found.None? {
        var row := DoneTask(newId, TruncateToDay(dateTime), taskId);
        var s := marks + [row];
        assert r.value == s;
        forall i, j | 0 <= i < j < |s| ensures s[i].id != s[j].id {
          if j == |marks| {
            assert s[i] in marks;
          }
        }
        forall i, j | 0 <= i < j < |s|
          ensures !(s[i].date == s[j].date && s[i].taskId == s[j].taskId)
        {
          if j == |marks| {
            assert s[i] in marks;
          }
        }
      } else {
        DeleteKeepsValid(marks, found.value);
      }
    }
  }

  /** Deleting any row keeps a valid table valid. */
  lemma {:induction false} DeleteKeepsValid(marks: seq<DoneTask>, row: DoneTask)
    requires Valid(marks)
    ensures Valid(Delete(marks, row))
  {
    WithoutRowIdsKeepsValid(marks, {row.id});
  }

  lemma {:induction false} WithoutRowIdsKeepsValid(marks: seq<DoneTask>, ids: set<Uuid>)
    requires Valid(marks)
    ensures Valid(WithoutRowIds(marks, ids))
  {
    if |marks| > 0 {
      var h, rest := marks[0], marks[1..];
      ValidTail(marks);
      WithoutRowIdsKeepsValid(rest, ids);
      var tail := WithoutRowIds(rest, ids);
      if h.id !in ids {
        assert WithoutRowIds(marks, ids) == [h] + tail;
        ValidCons(h, tail);
      } else {
        assert WithoutRowIds(marks, ids) == tail;
      }
    }
  }

  /** The rows after the first of a valid table form a valid table, and none
      of them clashes with the first. */
  lemma ValidTail(marks: seq<DoneTask>)
    requires |marks| > 0 && Valid(marks)
    ensures Valid(marks[1..])
    ensures forall m | m in marks[1..] :: m.id != marks[0].id && !Matches(m, marks[0].date, marks[0].taskId)
  {
    var rest := marks[1..];
    assert UniqueRowIds(rest) by {
      forall i, j | 0 <= i < j < |rest| ensures rest[i].id != rest[j].id {
        assert rest[i] == marks[i + 1] && rest[j] == marks[j + 1];
      }
    }
    assert OnePerDayAndTask(rest) by {
      forall i, j | 0 <= i < j < |rest|
        ensures !(rest[i].date == rest[j].date && rest[i].taskId == rest[j].taskId)
      {
        assert rest[i] == marks[i + 1] && rest[j] == marks[j + 1];
      }
    }
    forall m | m in rest ensures m.id != marks[0].id && !Matches(m, marks[0].date, marks[0].taskId) {
      var k :| 0 <= k < |rest| && rest[k] == m;
      assert marks[k + 1] == m;
    }
  }

  /** A row clashing with no row of a valid table can be put in front of it. */
  lemma ValidCons(h: DoneTask, tail: seq<DoneTask>)
    requires Valid(tail) && IsDayStart(h.date)
    requires forall m | m in tail :: m.id != h.id && !Matches(m, h.date, h.taskId)
    ensures Valid([h] + tail)
  {
    var s := [h] + tail;
    forall i, j | 0 <= i < j < |s|
      ensures s[i].id != s[j].id && !(s[i].date == s[j].date && s[i].taskId == s[j].taskId)
    {
      assert s[j] == tail[j - 1];
      if i > 0 {
        assert s[i] == tail[i - 1];
      }
    }
  }

  /** Toggling flips whether the (day, task) mark exists. */
  lemma SwitchStateFlips(marks: seq<DoneTask>, dateTime: Instant, taskId: Uuid, newId: Uuid)
    requires Valid(marks) && newId !in RowIds(marks)
    ensures SwitchState(marks, dateTime, taskId, newId).Ok?
    ensures GetByDateAndTask(SwitchState(marks, dateTime, taskId, newId).value, dateTime, taskId).Some?
            <==> GetByDateAndTask(marks, dateTime, taskId).None?
  {
    var r := SwitchState(marks, dateTime, taskId, newId);
    if GetByDateAndTask(marks, dateTime, taskId).None? {
      var row := DoneTask(newId, TruncateToDay(dateTime), taskId);
      assert row in r.value;
    }
  }

  /** A toggle on one task leaves the completion list of every other task as
      it was, row for row. */
  lemma SwitchStateKeepsOtherTasks(marks: seq<DoneTask>, dateTime: Instant, taskId: Uuid,
                                   newId: Uuid, other: Uuid)
    requires UniqueRowIds(marks) && other != taskId
    requires SwitchState(marks, dateTime, taskId, newId).Ok?
    ensures GetByTask(SwitchState(marks, dateTime, taskId, newId).value, other)
            == GetByTask(marks, other)
  {
    var found := GetByDateAndTask(marks, dateTime, taskId);
    if found.None? {
      var row := DoneTask(newId, TruncateToDay(dateTime), taskId);
      GetByTaskAppend(marks, [row], other);
      assert GetByTask([row], other) == [];
    } else {
      DeleteOtherTaskRows(marks, found.value, other);
    }
  }

  /** Deleting a row of one task leaves every other task's rows as they
      were, in order. */
  lemma {:induction false} DeleteOtherTaskRows(marks: seq<DoneTask>, row: DoneTask, other: Uuid)
    requires UniqueRowIds(marks) && row in marks && row.taskId != other
    ensures GetByTask(Delete(marks, row), other) == GetByTask(marks, other)
  {
    UniqueRowIdsTail(marks);
    var rest := marks[1..];
    if marks[0] == row {
      WithoutAbsentRowIds(rest, {row.id});
      assert Delete(marks, row) == rest;
    } else {
      assert row in rest;
      DeleteOtherTaskRows(rest, row, other);
      var kept := [marks[0]] + Delete(rest, row);
      assert Delete(marks, row) == kept;
      assert kept[0] == marks[0] && kept[1..] == Delete(rest, row);
    }
  }

  /** Toggling the same day and task twice restores the multiset of
      (day, task) pairs; when the first toggle inserted, the table itself is
      restored. Only the id of a re-created row can differ. */
  lemma SwitchStateTwice(marks: seq<DoneTask>, dateTime: Instant, taskId: Uuid,
                         id1: Uuid, id2: Uuid)
    requires Valid(marks) && id1 !in RowIds(marks) && id2 !in RowIds(marks)
    ensures SwitchState(marks, dateTime, taskId, id1).Ok?
    ensures SwitchState(SwitchState(marks, dateTime, taskId, id1).value, dateTime, taskId, id2).Ok?
    ensures var twice := SwitchState(SwitchState(marks, dateTime, taskId, id1).value,
                                     dateTime, taskId, id2).value;
      multiset(Pairs(twice)) == multiset(Pairs(marks))
    ensures GetByDateAndTask(marks, dateTime, taskId).None? ==>
      SwitchState(SwitchState(marks, dateTime, taskId, id1).value, dateTime, taskId, id2).value
      == marks
  {
    if GetByDateAndTask(marks, dateTime, taskId).None? {
      SwitchOnThenOff(marks, dateTime, taskId, id1, id2);
    } else {
      SwitchOffThenOn(marks, dateTime, taskId, id1, id2);
    }
  }

  /** Marking then unmarking removes the new row again: the table is back. */
  lemma SwitchOnThenOff(marks: seq<DoneTask>, dateTime: Instant, taskId: Uuid,
                        id1: Uuid, id2: Uuid)
    requires Valid(marks) && id1 !in RowIds(marks)
    requires GetByDateAndTask(marks, dateTime, taskId).None?
    ensures SwitchState(marks, dateTime, taskId, id1).Ok?
    ensures SwitchState(SwitchState(marks, dateTime, taskId, id1).value, dateTime, taskId, id2)
            == Ok(marks)
  {
    var day := TruncateToDay(dateTime);
    var row := DoneTask(id1, day, taskId);
    var once := marks + [row];
    assert SwitchState(marks, dateTime, taskId, id1) == Ok(once);
    assert GetByDateAndTask(once, dateTime, taskId) == Some(row) by {
      assert row in once && Matches(row, day, taskId);
      var again := GetByDateAndTask(once, dateTime, taskId);
      assert forall m | m in marks :: !Matches(m, day, taskId);
      assert again.value == row;
    }
    assert forall m | m in marks :: m.id != row.id;
    DeleteAppended(marks, row);
  }

  /** Unmarking then marking again brings back the (day, task) pair, under a
      new row id and at the end of the table. */
  lemma SwitchOffThenOn(marks: seq<DoneTask>, dateTime: Instant, taskId: Uuid,
                        id1: Uuid, id2: Uuid)
    requires Valid(marks) && id2 !in RowIds(marks)
    requires GetByDateAndTask(marks, dateTime, taskId).Some?
    ensures SwitchState(marks, dateTime, taskId, id1).Ok?
    ensures SwitchState(SwitchState(marks, dateTime, taskId, id1).value, dateTime, taskId, id2).Ok?
    ensures var twice := SwitchState(SwitchState(marks, dateTime, taskId, id1).value,
                                     dateTime, taskId, id2).value;
      multiset(Pairs(twice)) == multiset(Pairs(marks))
  {
    var day := TruncateToDay(dateTime);
    var row := GetByDateAndTask(marks, dateTime, taskId).value;
    var once := Delete(marks, row);
    assert SwitchState(marks, dateTime, taskId, id1) == Ok(once);
    assert GetByDateAndTask(once, dateTime, taskId).None?;
    assert id2 !in RowIds(once);
    var added := DoneTask(id2, day, taskId);
    assert SwitchState(once, dateTime, taskId, id2) == Ok(once + [added]);
    DeletePairs(marks, row);
    PairOfStoredRow(marks, row);
    PairsAppend(once, [added]);
    assert Pairs([added]) == [(day, taskId)];
  }
}
