/** The logic of the home page: what each task card shows (title, description,
    whether the task is done on the viewed day, how many times it was done),
    and the counts in the statistics dialog. Layout, icons and wording are
    presentation only; the placeholder strings are parameters. */
module HomePage {
  import opened Types
  import opened Dates
  import opened Status
  import opened Tasks
  import opened AppViewModel

  /** `ifEmpty`: the text itself, or the placeholder when the text is empty. */
  function DisplayText(text: string, placeholder: string): (r: string)
    ensures text == [] ==> r == placeholder
    ensures text != [] ==> r == text
    ensures |placeholder| > 0 ==> |r| > 0
  {
    if |text| == 0 then placeholder else text
  }

  /** Everything a `TaskCard` displays. */
  datatype Card = Card(title: string, description: string, done: bool, count: nat)

  /** Days on which the task has a mark. */
  function DaysDone(marks: seq<DoneTask>, taskId: Uuid): set<Instant> {
    set m | m in marks && m.taskId == taskId :: m.date
  }

  /** The card of `task`: its text with placeholders, `checkTask` over the
      task's marks, and the number of its marks. */
  function CardOf(s: AppState, task: Task, noTitle: string, noDescription: string): (c: Card)
    requires IsDayStart(s.date)
    ensures c.title == DisplayText(task.title, noTitle)
    ensures c.description == DisplayText(task.description, noDescription)
    ensures c.done <==> exists m | m in s.db.doneTasks :: m.date == s.date && m.taskId == task.id
    ensures c.count == |GetByTask(s.db.doneTasks, task.id)|
    ensures c.done ==> c.count > 0
    ensures c.count == 0 <==> DaysDone(s.db.doneTasks, task.id) == {}
  {
    var own := GetByTask(s.db.doneTasks, task.id);
    CheckOwnMarks(s, s.db.doneTasks, task.id);
    TruncateFixesDayStarts(s.date);
    NoOwnRows(s.db.doneTasks, task.id);
    Card(DisplayText(task.title, noTitle), DisplayText(task.description, noDescription),
         CheckTask(s, own, task.id), |own|)
  }

  /** A task has no marks exactly when no day is marked for it. */
  lemma NoOwnRows(marks: seq<DoneTask>, taskId: Uuid)
    ensures |GetByTask(marks, taskId)| == 0 <==> DaysDone(marks, taskId) == {}
    ensures |GetByTask(marks, taskId)| == 0 <==> forall m | m in marks :: m.taskId != taskId
  {
    var own := GetByTask(marks, taskId);
    if |own| > 0 {
      assert own[0] in own;
      assert own[0].date in DaysDone(marks, taskId);
    }
    if DaysDone(marks, taskId) != {} {
      var d :| d in DaysDone(marks, taskId);
      var m :| m in marks && m.taskId == taskId && m.date == d;
      assert m in own;
    }
  }

  /** In a valid table the card's count is the number of distinct days on
      which the task was done. */
  lemma {:induction false} CountIsDaysDone(marks: seq<DoneTask>, taskId: Uuid)
    requires OnePerDayAndTask(marks)
    ensures |GetByTask(marks, taskId)| == |DaysDone(marks, taskId)|
    decreases |marks|
  {
    if |marks| == 0 {
      assert DaysDone(marks, taskId) == {};
    } else {
      TailOnePerDay(marks);
      CountIsDaysDone(marks[1..], taskId);
      HeadDays(marks, taskId);
    }
  }

  /** Dropping the first row keeps a table one-per-day-and-task. */
  lemma TailOnePerDay(marks: seq<DoneTask>)
    requires |marks| > 0 && OnePerDayAndTask(marks)
    ensures OnePerDayAndTask(marks[1..])
  {
    var tail := marks[1..];
    forall i, j | 0 <= i < j < |tail|
      ensures !(tail[i].date == tail[j].date && tail[i].taskId == tail[j].taskId)
    {
      assert tail[i] == marks[i + 1] && tail[j] == marks[j + 1];
    }
  }

  /** The first row adds its day to the days of the rest exactly when it
      belongs to the task, and that day is then new. */
  lemma HeadDays(marks: seq<DoneTask>, taskId: Uuid)
    requires |marks| > 0 && OnePerDayAndTask(marks)
    ensures var h, tail := marks[0], marks[1..];
      if h.taskId == taskId
      then h.date !in DaysDone(tail, taskId) && DaysDone(marks, taskId) == {h.date} + DaysDone(tail, taskId)
      else DaysDone(marks, taskId) == DaysDone(tail, taskId)
  {
    var h, tail := marks[0], marks[1..];
    assert marks == [h] + tail;
    if h.taskId == taskId {
      forall m | m in tail && m.taskId == taskId ensures m.date != h.date {
        var j :| 0 <= j < |tail| && tail[j] == m;
        assert marks[j + 1] == m;
      }
    }
  }

  /** Tapping a card toggles it: its done flag flips, and its count goes up by
      one when it was not done and down by one when it was. */
  lemma SwitchTaskStatusFlipsCard(s: AppState, task: Task, newId: Uuid,
                                  noTitle: string, noDescription: string)
    requires IsDayStart(s.date) && Status.Valid(s.db.doneTasks)
    requires newId !in RowIds(s.db.doneTasks)
    ensures SwitchTaskStatus(s, task.id, newId).Ok?
    ensures var before := CardOf(s, task, noTitle, noDescription);
      var after := CardOf(SwitchTaskStatus(s, task.id, newId).value, task, noTitle, noDescription);
      after.done != before.done
      && after.count == (if before.done then before.count - 1 else before.count + 1)
  {
    var r := SwitchTaskStatus(s, task.id, newId).value;
    SwitchTaskStatusFlipsCheck(s, task.id, newId, task.id);
    ToggledCount(s, task.id, newId);
  }

  /** A toggle moves the number of the task's marks by one: down when the
      viewed day was marked, up when it was not. */
  lemma ToggledCount(s: AppState, taskId: Uuid, newId: Uuid)
    requires IsDayStart(s.date) && Status.Valid(s.db.doneTasks)
    requires newId !in RowIds(s.db.doneTasks)
    ensures SwitchTaskStatus(s, taskId, newId).Ok?
    ensures var before := |GetByTask(s.db.doneTasks, taskId)|;
      var after := |GetByTask(SwitchTaskStatus(s, taskId, newId).value.db.doneTasks, taskId)|;
      after == if s.date in DaysDone(s.db.doneTasks, taskId) then before - 1 else before + 1
  {
    var r := SwitchTaskStatus(s, taskId, newId).value;
    SwitchStateKeepsValid(s.db.doneTasks, s.date, taskId, newId);
    CountIsDaysDone(s.db.doneTasks, taskId);
    CountIsDaysDone(r.db.doneTasks, taskId);
    ToggledDays(s, taskId, newId);
    var before, after := DaysDone(s.db.doneTasks, taskId), DaysDone(r.db.doneTasks, taskId);
    if s.date in before {
      assert |after| == |before| - 1 by { assert after == before - {s.date}; }
    } else {
      assert |after| == |before| + 1 by { assert after == before + {s.date}; }
    }
  }

  /** The days a toggle leaves marked: the viewed day is added when it was
      not marked and removed when it was. */
  lemma ToggledDays(s: AppState, taskId: Uuid, newId: Uuid)
    requires IsDayStart(s.date) && Status.Valid(s.db.doneTasks)
    requires newId !in RowIds(s.db.doneTasks)
    ensures SwitchTaskStatus(s, taskId, newId).Ok?
    ensures var before := DaysDone(s.db.doneTasks, taskId);
      var after := DaysDone(SwitchTaskStatus(s, taskId, newId).value.db.doneTasks, taskId);
      if s.date in before then after == before - {s.date} else after == before + {s.date}
  {
    if s.date in DaysDone(s.db.doneTasks, taskId) {
      UnmarkDay(s.db.doneTasks, s.date, taskId, newId);
    } else {
      MarkDay(s.db.doneTasks, s.date, taskId, newId);
    }
  }

  /** Switching a marked day of a valid table unmarks exactly that day. */
  lemma UnmarkDay(marks: seq<DoneTask>, day: Instant, taskId: Uuid, newId: Uuid)
    requires IsDayStart(day) && Status.Valid(marks) && day in DaysDone(marks, taskId)
    ensures SwitchState(marks, day, taskId, newId).Ok?
    ensures DaysDone(SwitchState(marks, day, taskId, newId).value, taskId)
            == DaysDone(marks, taskId) - {day}
  {
    TruncateFixesDayStarts(day);
    var m :| m in marks && m.taskId == taskId && m.date == day;
    assert GetByDateAndTask(marks, day, taskId).Some?;
    var r := SwitchState(marks, day, taskId, newId).value;
    var before, after := DaysDone(marks, taskId), DaysDone(r, taskId);
    forall d ensures d in after <==> d in before && d != day {
      if d in before && d != day {
        var k :| k in marks && k.taskId == taskId && k.date == d;
        assert k in r;
      }
    }
  }

  /** Switching an unmarked day under a fresh id marks exactly that day. */
  lemma MarkDay(marks: seq<DoneTask>, day: Instant, taskId: Uuid, newId: Uuid)
    requires IsDayStart(day) && day !in DaysDone(marks, taskId) && newId !in RowIds(marks)
    ensures SwitchState(marks, day, taskId, newId) == Ok(marks + [DoneTask(newId, day, taskId)])
    ensures DaysDone(marks + [DoneTask(newId, day, taskId)], taskId)
            == DaysDone(marks, taskId) + {day}
  {
    TruncateFixesDayStarts(day);
    assert GetByDateAndTask(marks, day, taskId).None?;
    var r := marks + [DoneTask(newId, day, taskId)];
    var before, after := DaysDone(marks, taskId), DaysDone(r, taskId);
    forall d ensures d in after <==> d in before || d == day {
      if d == day {
        assert DoneTask(newId, day, taskId) in r;
      }
    }
  }

  // ---------------------------------------------------------------------
  // The statistics dialog.

  /** The two instants fall in the same calendar year. */
  predicate SameYear(a: Instant, b: Instant) {
    YearOf(a) == YearOf(b)
  }

  /** The two instants fall in the same month of the same year. */
  predicate SameMonth(a: Instant, b: Instant) {
    SameYear(a, b) && MonthOf(a) == MonthOf(b)
  }

  /** Positions of the marks that satisfy `p`: what Kotlin's `count { p }`
      counts. */
  function Positions(marks: seq<DoneTask>, p: DoneTask -> bool): set<int> {
    set i | 0 <= i < |marks| && p(marks[i])
  }

  /** The mark falls in `day`'s year. */
  function InYear(day: Instant): DoneTask -> bool {
    (m: DoneTask) => SameYear(m.date, day)
  }

  /** The mark falls in `day`'s month of `day`'s year. */
  function InMonth(day: Instant): DoneTask -> bool {
    (m: DoneTask) => SameMonth(m.date, day)
  }

  /** Positions of the marks that fall in `day`'s year. */
  function YearPositions(marks: seq<DoneTask>, day: Instant): set<int> {
    Positions(marks, InYear(day))
  }

  /** Positions of the marks that fall in `day`'s month of `day`'s year. */
  function MonthPositions(marks: seq<DoneTask>, day: Instant): set<int> {
    Positions(marks, InMonth(day))
  }

  /** `count { it.date.year == date.year }`: the number of marks in the
      viewed year. */
  function CountInYear(marks: seq<DoneTask>, day: Instant): (n: nat)
    ensures n == |YearPositions(marks, day)|
    ensures n <= |marks|
    ensures n == 0 <==> forall m | m in marks :: !SameYear(m.date, day)
  {
    if |marks| == 0 then 0
    else
      var init := marks[..|marks| - 1];
      assert marks == init + [marks[|marks| - 1]];
      PositionsSnoc(marks, InYear(day));
      CountInYear(init, day) + (if SameYear(marks[|marks| - 1].date, day) then 1 else 0)
  }

  /** `count { it.date.year == date.year && it.date.month == date.month }`:
      the number of marks in the viewed month. */
  function CountInMonth(marks: seq<DoneTask>, day: Instant): (n: nat)
    ensures n == |MonthPositions(marks, day)|
    ensures n <= |YearPositions(marks, day)|
    ensures n == 0 <==> forall m | m in marks :: !SameMonth(m.date, day)
  {
    if |marks| == 0 then 0
    else
      var init := marks[..|marks| - 1];
      assert marks == init + [marks[|marks| - 1]];
      PositionsSnoc(marks, InMonth(day));
      PositionsSnoc(marks, InYear(day));
      CountInMonth(init, day) + (if SameMonth(marks[|marks| - 1].date, day) then 1 else 0)
  }

  /** The positions of a non-empty list: those of all but its last mark,
      and the last one when it satisfies `p`. */
  lemma PositionsSnoc(marks: seq<DoneTask>, p: DoneTask -> bool)
    requires |marks| > 0
    ensures var k := |marks| - 1;
      |Positions(marks, p)| == |Positions(marks[..k], p)| + (if p(marks[k]) then 1 else 0)
  {
    var k := |marks| - 1;
    var init := Positions(marks[..k], p);
    var last: set<int> := if p(marks[k]) then {k} else {};
    assert Positions(marks, p) == init + last by {
      forall i | 0 <= i < k ensures marks[..k][i] == marks[i] { }
    }
    assert init * last == {};
  }

  /** Counting over two lists one after the other adds their counts. */
  lemma {:induction false} PositionsAppend(a: seq<DoneTask>, b: seq<DoneTask>, p: DoneTask -> bool)
    ensures |Positions(a + b, p)| == |Positions(a, p)| + |Positions(b, p)|
    decreases |b|
  {
    if |b| == 0 {
      assert a + b == a;
      assert Positions(b, p) == {};
    } else {
      var k := |b| - 1;
      var ab := a + b;
      assert ab[..|ab| - 1] == a + b[..k] && ab[|ab| - 1] == b[k];
      PositionsSnoc(ab, p);
      PositionsSnoc(b, p);
      PositionsAppend(a, b[..k], p);
    }
  }

  /** A mark in the middle of a list counts once, when it satisfies `p`. */
  lemma PositionsAroundOne(a: seq<DoneTask>, x: DoneTask, b: seq<DoneTask>, p: DoneTask -> bool)
    ensures |Positions(a + [x] + b, p)| == |Positions(a + b, p)| + (if p(x) then 1 else 0)
  {
    PositionsAppend(a + [x], b, p);
    PositionsAppend(a, [x], p);
    PositionsAppend(a, b, p);
    assert Positions([x], p) == if p(x) then {0} else {};
  }

  /** The three lines of the statistics dialog. */
  datatype Statistics = Statistics(total: nat, inMonth: nat, inYear: nat)

  /** Statistics of `taskId` relative to the viewed day, over the task's
      `getByTask` list: all its marks, those in the viewed month, those in
      the viewed year. */
  function StatisticsOf(s: AppState, taskId: Uuid): (r: Statistics)
    ensures var own := GetByTask(s.db.doneTasks, taskId);
      r.total == |own|
      && r.inMonth == |MonthPositions(own, s.date)|
      && r.inYear == |YearPositions(own, s.date)|
    ensures r.inMonth <= r.inYear <= r.total
    ensures r.total == 0 <==> forall m | m in s.db.doneTasks :: m.taskId != taskId
    ensures r.inYear == 0 <==>
      forall m | m in s.db.doneTasks && m.taskId == taskId :: !SameYear(m.date, s.date)
  {
    var own := GetByTask(s.db.doneTasks, taskId);
    NoOwnRows(s.db.doneTasks, taskId);
    Statistics(|own|, CountInMonth(own, s.date), CountInYear(own, s.date))
  }

  /** Each line of `more` is one above the same line of `less`. */
  predicate OneMore(less: Statistics, more: Statistics) {
    more.total == less.total + 1 && more.inMonth == less.inMonth + 1 && more.inYear == less.inYear + 1
  }

  /** A toggle moves each line of the statistics dialog by one, as seen from
      the viewed day: down when that day was marked, up when it was not. */
  lemma ToggledStatistics(s: AppState, taskId: Uuid, newId: Uuid)
    requires IsDayStart(s.date) && Status.Valid(s.db.doneTasks)
    requires newId !in RowIds(s.db.doneTasks)
    ensures SwitchTaskStatus(s, taskId, newId).Ok?
    ensures var before := StatisticsOf(s, taskId);
      var after := StatisticsOf(SwitchTaskStatus(s, taskId, newId).value, taskId);
      if s.date in DaysDone(s.db.doneTasks, taskId) then OneMore(after, before) else OneMore(before, after)
  {
    var marks := s.db.doneTasks;
    ToggledRowStatistics(marks, s.date, taskId, newId);
    var switched := SwitchState(marks, s.date, taskId, newId).value;
    var r := SwitchTaskStatus(s, taskId, newId).value;
    assert StatisticsOf(s, taskId) == StatisticsOfRows(GetByTask(marks, taskId), s.date) by {
      StatisticsOverOwnRows(s, taskId);
    }
    assert StatisticsOf(r, taskId) == StatisticsOfRows(GetByTask(switched, taskId), s.date) by {
      assert r.date == s.date && r.db.doneTasks == switched;
      StatisticsOverOwnRows(r, taskId);
    }
  }

  /** The statistics of the task's rows for `day` move by one when `day` is
      toggled. */
  lemma ToggledRowStatistics(marks: seq<DoneTask>, day: Instant, taskId: Uuid, newId: Uuid)
    requires IsDayStart(day) && Status.Valid(marks) && newId !in RowIds(marks)
    ensures SwitchState(marks, day, taskId, newId).Ok?
    ensures var before := StatisticsOfRows(GetByTask(marks, taskId), day);
      var after := StatisticsOfRows(GetByTask(SwitchState(marks, day, taskId, newId).value, taskId), day);
      if day in DaysDone(marks, taskId) then OneMore(after, before) else OneMore(before, after)
  {
    var a, x, b := ToggledOwnRows(marks, day, taskId, newId);
    var own, own' := GetByTask(marks, taskId), GetByTask(SwitchState(marks, day, taskId, newId).value, taskId);
    if day in DaysDone(marks, taskId) {
      RowStatisticsAroundOne(own, own', a, x, b, day);
    } else {
      RowStatisticsAroundOne(own', own, a, x, b, day);
    }
  }

  /** A list with one more mark on `day` than another has one more in each
      line of the statistics. */
  lemma RowStatisticsAroundOne(with: seq<DoneTask>, without: seq<DoneTask>,
                               a: seq<DoneTask>, x: DoneTask, b: seq<DoneTask>, day: Instant)
    requires x.date == day && with == a + [x] + b && without == a + b
    ensures OneMore(StatisticsOfRows(without, day), StatisticsOfRows(with, day))
  {
    CountsAroundOne(a, x, b, day);
  }

  /** The statistics a list of the task's rows gives for the viewed day. */
  function StatisticsOfRows(own: seq<DoneTask>, day: Instant): Statistics {
    Statistics(|own|, CountInMonth(own, day), CountInYear(own, day))
  }

  /** The dialog's statistics are those of the task's `getByTask` list. */
  lemma StatisticsOverOwnRows(s: AppState, taskId: Uuid)
    ensures StatisticsOf(s, taskId) == StatisticsOfRows(GetByTask(s.db.doneTasks, taskId), s.date)
  {
  }

  /** The task's rows around a toggle of `day`: the toggled row `x` sits
      between `a` and `b` on the marked side and is missing on the other. */
  lemma ToggledOwnRows(marks: seq<DoneTask>, day: Instant, taskId: Uuid, newId: Uuid)
    returns (a: seq<DoneTask>, x: DoneTask, b: seq<DoneTask>)
    requires IsDayStart(day) && Status.Valid(marks) && newId !in RowIds(marks)
    ensures SwitchState(marks, day, taskId, newId).Ok?
    ensures x.date == day
    ensures var own, own' := GetByTask(marks, taskId), GetByTask(SwitchState(marks, day, taskId, newId).value, taskId);
      if day in DaysDone(marks, taskId)
      then own == a + [x] + b && own' == a + b
      else own == a + b && own' == a + [x] + b
  {
    if day in DaysDone(marks, taskId) {
      assert GetByDateAndTask(marks, day, taskId).Some? by {
        TruncateFixesDayStarts(day);
        var m :| m in marks && m.taskId == taskId && m.date == day;
        assert Matches(m, TruncateToDay(day), taskId);
      }
      a, x, b := UnmarkedOwnRows(marks, day, taskId, newId);
    } else {
      MarkDay(marks, day, taskId, newId);
      x := DoneTask(newId, day, taskId);
      a, b := GetByTask(marks, taskId), [];
      GetByTaskAppend(marks, [x], taskId);
      assert GetByTask([x], taskId) == [x];
      assert a + [x] + b == a + [x] && a + b == a;
    }
  }

  /** Unmarking deletes the one matching row `x`, so the task's rows lose
      exactly that row and keep their order. */
  lemma UnmarkedOwnRows(marks: seq<DoneTask>, day: Instant, taskId: Uuid, newId: Uuid)
    returns (a: seq<DoneTask>, x: DoneTask, b: seq<DoneTask>)
    requires IsDayStart(day) && UniqueRowIds(marks)
    requires GetByDateAndTask(marks, day, taskId).Some?
    ensures SwitchState(marks, day, taskId, newId).Ok?
    ensures x.date == day
    ensures GetByTask(marks, taskId) == a + [x] + b
    ensures GetByTask(SwitchState(marks, day, taskId, newId).value, taskId) == a + b
  {
    TruncateFixesDayStarts(day);
    x := GetByDateAndTask(marks, day, taskId).value;
    assert SwitchState(marks, day, taskId, newId) == Ok(Status.Delete(marks, x));
    var k :| 0 <= k < |marks| && marks[k] == x;
    DeleteAt(marks, k);
    GetByTaskAroundRow(marks, k, taskId);
    a, b := GetByTask(marks[..k], taskId), GetByTask(marks[k + 1..], taskId);
  }

  /** A mark on `day` in the middle of a list adds one to its counts for
      `day`'s month and year. */
  lemma CountsAroundOne(a: seq<DoneTask>, x: DoneTask, b: seq<DoneTask>, day: Instant)
    requires x.date == day
    ensures |a + [x] + b| == |a + b| + 1
    ensures CountInYear(a + [x] + b, day) == CountInYear(a + b, day) + 1
    ensures CountInMonth(a + [x] + b, day) == CountInMonth(a + b, day) + 1
  {
    PositionsAroundOne(a, x, b, InYear(day));
    PositionsAroundOne(a, x, b, InMonth(day));
  }

  /** With every row for the task, the task's listing is the whole table. */
  lemma {:induction false} GetByTaskOfOwnRows(marks: seq<DoneTask>, taskId: Uuid)
    requires forall m | m in marks :: m.taskId == taskId
    ensures GetByTask(marks, taskId) == marks
  {
    if |marks| > 0 {
      var rest := marks[1..];
      assert marks[0] in marks;
      forall m | m in rest ensures m.taskId == taskId {
        var i :| 0 <= i < |rest| && rest[i] == m;
        assert marks[i + 1] == m;
      }
      GetByTaskOfOwnRows(rest, taskId);
    }
  }

  /** Measured from 2024-01-20: 2024-01-05 is in the same month, 2024-02-01
      in the same year only, and 2023-01-05 in neither. */
  lemma ExamplePeriods()
    ensures SameMonth(19727 * MillisPerDay, 19742 * MillisPerDay)
    ensures SameMonth(19742 * MillisPerDay, 19742 * MillisPerDay)
    ensures SameYear(19754 * MillisPerDay, 19742 * MillisPerDay)
    ensures !SameMonth(19754 * MillisPerDay, 19742 * MillisPerDay)
    ensures !SameYear(19362 * MillisPerDay, 19742 * MillisPerDay)
  {
    ExampleDates();
    var jan5, jan20, feb1, lastYear := 19727 * MillisPerDay, 19742 * MillisPerDay, 19754 * MillisPerDay, 19362 * MillisPerDay;
    assert EpochDay(jan5) == 19727 && EpochDay(jan20) == 19742;
    assert EpochDay(feb1) == 19754 && EpochDay(lastYear) == 19362;
    assert YearOf(jan5) == YearOf(jan20) == YearOf(feb1) == 2024 && YearOf(lastYear) == 2023;
    assert MonthOf(jan5) == MonthOf(jan20) == 1 && MonthOf(feb1) == 2;
  }

  /** Marks on 2024-01-05, 2024-01-20, 2024-02-01 and 2023-01-05, viewed on
      2024-01-20: four in all, three in 2024, two in January 2024. */
  lemma StatisticsExample(s: AppState, taskId: Uuid, a: Uuid, b: Uuid, c: Uuid, d: Uuid)
    requires s.date == 19742 * MillisPerDay
    requires s.db.doneTasks == [DoneTask(a, 19727 * MillisPerDay, taskId),
                                DoneTask(b, 19742 * MillisPerDay, taskId),
                                DoneTask(c, 19754 * MillisPerDay, taskId),
                                DoneTask(d, 19362 * MillisPerDay, taskId)]
    ensures StatisticsOf(s, taskId) == Statistics(4, 2, 3)
  {
    var marks := s.db.doneTasks;
    assert GetByTask(marks, taskId) == marks by {
      GetByTaskOfOwnRows(marks, taskId);
    }
    assert CountInYear(marks, s.date) == 3 && CountInMonth(marks, s.date) == 2 by {
      ExamplePeriods();
      CountsOfFour(marks, s.date);
    }
  }

  /** Counting four marks of which two fall in the viewed month and one more
      in the viewed year. */
  lemma CountsOfFour(marks: seq<DoneTask>, day: Instant)
    requires |marks| == 4
    requires SameMonth(marks[0].date, day) && SameMonth(marks[1].date, day)
    requires SameYear(marks[2].date, day) && !SameMonth(marks[2].date, day)
    requires !SameYear(marks[3].date, day)
    ensures CountInYear(marks, day) == 3 && CountInMonth(marks, day) == 2
  {
    var p1, p2, p3 := marks[..1], marks[..2], marks[..3];
    assert p1[..0] == [] && p1[0] == marks[0];
    assert CountInYear(p1, day) == 1 && CountInMonth(p1, day) == 1;
    assert p2[..1] == p1 && p2[1] == marks[1];
    assert CountInYear(p2, day) == 2 && CountInMonth(p2, day) == 2;
    assert p3[..2] == p2 && p3[2] == marks[2];
    assert CountInYear(p3, day) == 3 && CountInMonth(p3, day) == 2;
    assert marks[..3] == p3;
  }
}
