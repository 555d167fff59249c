/** The task store: `Task` rows and the queries and writes of `TaskDao`. The
    table is a sequence in insertion order. */
module Tasks {
  import opened Types

  /** One task. `order` is the listing's sort key; title and description are
      free text that may be empty. */
  datatype Task = Task(id: Uuid, order: int, title: string, description: string)

  /** The order every task is created with. */
  const DefaultOrder: int := 0

  /** `Task(id = id, title = title, description = description)`: a task with
      the default sort key. Any text is accepted, the empty string included. */
  function NewTask(id: Uuid, title: string, description: string): (t: Task)
    ensures t.id == id && t.title == title && t.description == description
    ensures t.order == DefaultOrder
  {
    Task(id, DefaultOrder, title, description)
  }

  /** Primary keys in use. */
  function Ids(tasks: seq<Task>): set<Uuid> {
    set t | t in tasks :: t.id
  }

  /** No two rows share a primary key. */
  predicate UniqueIds(tasks: seq<Task>) {
    forall i, j | 0 <= i < j < |tasks| :: tasks[i].id != tasks[j].id
  }

  /** Ascending by `order`. */
  predicate SortedByOrder(tasks: seq<Task>) {
    forall i, j | 0 <= i < j < |tasks| :: tasks[i].order <= tasks[j].order
  }

  /** Every task has the default sort key. */
  predicate AllDefaultOrder(tasks: seq<Task>) {
    forall t | t in tasks :: t.order == DefaultOrder
  }

  /** Place `t` in a sorted listing, ahead of the rows with the same or a
      greater key. */
  function InsertByOrder(t: Task, sorted: seq<Task>): (r: seq<Task>)
    requires SortedByOrder(sorted)
    ensures SortedByOrder(r)
    ensures multiset(r) == multiset(sorted) + multiset{t}
    ensures forall x | x in r :: x in sorted || x == t
  {
    if |sorted| == 0 || t.order <= sorted[0].order then [t] + sorted
    else
      var rest := InsertByOrder(t, sorted[1..]);
      InsertBehindHead(t, sorted, rest);
      [sorted[0]] + rest
  }

  /** When `t` goes behind the head, the head followed by `t` placed in the
      tail is sorted and holds the same rows. */
  lemma InsertBehindHead(t: Task, sorted: seq<Task>, rest: seq<Task>)
    requires SortedByOrder(sorted) && |sorted| > 0 && sorted[0].order < t.order
    requires SortedByOrder(rest)
    requires multiset(rest) == multiset(sorted[1..]) + multiset{t}
    requires forall x | x in rest :: x in sorted[1..] || x == t
    ensures SortedByOrder([sorted[0]] + rest)
    ensures multiset([sorted[0]] + rest) == multiset(sorted) + multiset{t}
    ensures forall x | x in [sorted[0]] + rest :: x in sorted || x == t
  {
    var tail := sorted[1..];
    assert sorted == [sorted[0]] + tail;
    forall x | x in rest ensures sorted[0].order <= x.order {
      if x in tail {
        var k :| 0 <= k < |tail| && tail[k] == x;
        assert sorted[k + 1] == x;
      }
    }
    ConsKeepsSorted(sorted[0], rest);
  }

  /** A row with a key no larger than any in a sorted listing can go in
      front of it. */
  lemma ConsKeepsSorted(h: Task, rest: seq<Task>)
    requires SortedByOrder(rest)
    requires forall x | x in rest :: h.order <= x.order
    ensures SortedByOrder([h] + rest)
  {
    var r := [h] + rest;
    forall i, j | 0 <= i < j < |r| ensures r[i].order <= r[j].order {
      if i == 0 {
        assert r[j] in rest;
      } else {
        assert r[i] == rest[i - 1] && r[j] == rest[j - 1];
      }
    }
  }

  /** `getAll` (`ORDER BY order ASC`): the table sorted by key, keeping table
      order among equal keys. */
  function GetAll(tasks: seq<Task>): (r: seq<Task>)
    ensures SortedByOrder(r)
    ensures multiset(r) == multiset(tasks)
  {
    if |tasks| == 0 then []
    else
      assert tasks == [tasks[0]] + tasks[1..];
      InsertByOrder(tasks[0], GetAll(tasks[1..]))
  }

  /** When no key differs, the sorted listing is the table in insertion
      order. */
  lemma {:induction false} GetAllKeepsTableOrder(tasks: seq<Task>)
    requires AllDefaultOrder(tasks)
    ensures GetAll(tasks) == tasks
  {
    if |tasks| > 0 {
      assert AllDefaultOrder(tasks[1..]) by {
        forall t | t in tasks[1..] ensures t.order == DefaultOrder {
          assert t in tasks;
        }
      }
      GetAllKeepsTableOrder(tasks[1..]);
      assert tasks[0] in tasks;
      assert tasks == [tasks[0]] + tasks[1..];
    }
  }

  /** `getById`: the row with that key, if any. */
  function GetById(tasks: seq<Task>, id: Uuid): (r: Option<Task>)
    ensures r.None? <==> id !in Ids(tasks)
    ensures r.Some? ==> r.value in tasks && r.value.id == id
  {
    if |tasks| == 0 then None
    else if tasks[0].id == id then Some(tasks[0])
    else
      var r := GetById(tasks[1..], id);
      assert id in Ids(tasks[1..]) ==> id in Ids(tasks) by {
        if id in Ids(tasks[1..]) {
          var t :| t in tasks[1..] && t.id == id;
          assert t in tasks;
        }
      }
      r
  }

  /** With unique keys, `GetById` finds the one row holding the key. */
  lemma GetByIdFindsStoredRow(tasks: seq<Task>, t: Task)
    requires UniqueIds(tasks) && t in tasks
    ensures GetById(tasks, t.id) == Some(t)
  {
    var r := GetById(tasks, t.id);
    var i :| 0 <= i < |tasks| && tasks[i] == t;
    var j :| 0 <= j < |tasks| && tasks[j] == r.value;
    assert i == j;
  }

  /** `insert`: append the row; a key clash aborts and writes nothing. */
  function Insert(tasks: seq<Task>, task: Task): (r: Result<seq<Task>>)
    ensures r.Err? <==> task.id in Ids(tasks)
    ensures r.Ok? ==> r.value == tasks + [task]
  {
    if task.id in Ids(tasks) then Err(PrimaryKeyConflict(task.id))
    else Ok(tasks + [task])
  }

  /** `update`: every row carrying `task.id` is replaced by `task` (all
      columns, `order` included); without such a row nothing changes. */
  function Update(tasks: seq<Task>, task: Task): (r: seq<Task>)
    ensures |r| == |tasks|
    ensures forall i | 0 <= i < |tasks| ::
      r[i] == (if tasks[i].id == task.id then task else tasks[i])
  {
    if |tasks| == 0 then []
    else [if tasks[0].id == task.id then task else tasks[0]] + Update(tasks[1..], task)
  }

  /** The rows whose key is not in `ids`, in table order. */
  function WithoutIds(tasks: seq<Task>, ids: set<Uuid>): (r: seq<Task>)
    ensures forall t :: t in r <==> t in tasks && t.id !in ids
    ensures |r| <= |tasks|
  {
    if |tasks| == 0 then []
    else (if tasks[0].id in ids then [] else [tasks[0]]) + WithoutIds(tasks[1..], ids)
  }

  /** `delete` (named `deleteDirectly` at one call site): removes the row with
      that key. Its completion marks are left alone. */
  function Delete(tasks: seq<Task>, task: Task): (r: seq<Task>)
    ensures forall t :: t in r <==> t in tasks && t.id != task.id
  {
    WithoutIds(tasks, {task.id})
  }

  // ---------------------------------------------------------------------
  // Properties of the writes.

  /** A task under an unused key is stored whatever its text, the empty
      title and description included (nothing validates them), and is found
      under its key afterwards. */
  lemma InsertThenFind(tasks: seq<Task>, task: Task)
    requires task.id !in Ids(tasks)
    ensures Insert(tasks, task) == Ok(tasks + [task])
    ensures GetById(tasks + [task], task.id) == Some(task)
  {
    var s := tasks + [task];
    var r := GetById(s, task.id).value;
    assert r !in tasks;
    assert r == s[|tasks|];
  }

  /** Inserting keeps keys unique. */
  lemma InsertKeepsUniqueIds(tasks: seq<Task>, task: Task)
    requires UniqueIds(tasks)
    ensures Insert(tasks, task).Ok? ==> UniqueIds(Insert(tasks, task).value)
  {
    if Insert(tasks, task).Ok? {
      var s := tasks + [task];
      forall i, j | 0 <= i < j < |s| ensures s[i].id != s[j].id {
        if j == |tasks| {
          assert s[i] in tasks;
        }
      }
    }
  }

  /** Writing a row with the default order keeps every task at the default
      order. */
  lemma UpdateKeepsDefaultOrder(tasks: seq<Task>, task: Task)
    requires AllDefaultOrder(tasks) && task.order == DefaultOrder
    ensures AllDefaultOrder(Update(tasks, task))
  {
    var r := Update(tasks, task);
    forall x | x in r ensures x.order == DefaultOrder {
      var i :| 0 <= i < |tasks| && r[i] == x;
      assert tasks[i] in tasks;
    }
  }

  /** After an update, looking up the key yields the submitted row, and every
      other key still yields what it did. */
  lemma UpdateLookups(tasks: seq<Task>, task: Task, other: Uuid)
    requires UniqueIds(tasks)
    ensures task.id in Ids(tasks) ==> GetById(Update(tasks, task), task.id) == Some(task)
    ensures task.id !in Ids(tasks) ==> Update(tasks, task) == tasks
    ensures other != task.id ==> GetById(Update(tasks, task), other) == GetById(tasks, other)
  {
    var r := Update(tasks, task);
    UpdateKeepsIds(tasks, task);
    if task.id in Ids(tasks) {
      assert GetById(r, task.id) == Some(task) by {
        var t :| t in tasks && t.id == task.id;
        var i :| 0 <= i < |tasks| && tasks[i] == t;
        assert r[i] == task;
        GetByIdFindsStoredRow(r, task);
      }
    } else {
      assert r == tasks by {
        forall i | 0 <= i < |tasks| ensures r[i] == tasks[i] {
          assert tasks[i] in tasks;
        }
      }
    }
    if other != task.id && GetById(tasks, other).Some? {
      var before := GetById(tasks, other).value;
      assert GetById(r, other) == Some(before) by {
        var i :| 0 <= i < |tasks| && tasks[i] == before;
        assert r[i] == before;
        GetByIdFindsStoredRow(r, before);
      }
    }
  }

  /** An update keeps keys unique and never changes the set of keys. */
  lemma UpdateKeepsIds(tasks: seq<Task>, task: Task)
    requires UniqueIds(tasks)
    ensures UniqueIds(Update(tasks, task))
    ensures Ids(Update(tasks, task)) == Ids(tasks)
  {
    var r := Update(tasks, task);
    assert UniqueIds(r) by {
      forall i, j | 0 <= i < j < |r| ensures r[i].id != r[j].id {
        assert tasks[i].id != tasks[j].id;
      }
    }
    assert Ids(tasks) <= Ids(r) by {
      forall id | id in Ids(tasks) ensures id in Ids(r) {
        var t :| t in tasks && t.id == id;
        var i :| 0 <= i < |tasks| && tasks[i] == t;
        assert r[i].id == id;
      }
    }
    assert Ids(r) <= Ids(tasks) by {
      forall id | id in Ids(r) ensures id in Ids(tasks) {
        var t :| t in r && t.id == id;
        var i :| 0 <= i < |r| && r[i] == t;
        assert tasks[i].id == id;
      }
    }
  }

  /** After a delete the key is gone and every other key's lookup is as
      before. */
  lemma DeleteLookups(tasks: seq<Task>, task: Task, other: Uuid)
    requires UniqueIds(tasks)
    ensures GetById(Delete(tasks, task), task.id) == None
    ensures other != task.id ==> GetById(Delete(tasks, task), other) == GetById(tasks, other)
  {
    var r := Delete(tasks, task);
    WithoutIdsKeepsUniqueIds(tasks, {task.id});
    if other != task.id {
      var before := GetById(tasks, other);
      if before.Some? {
        assert before.value in r;
        GetByIdFindsStoredRow(r, before.value);
      } else {
        assert other !in Ids(r);
      }
    }
  }

  /** Removing rows keeps keys unique. */
  lemma {:induction false} WithoutIdsKeepsUniqueIds(tasks: seq<Task>, ids: set<Uuid>)
    requires UniqueIds(tasks)
    ensures UniqueIds(WithoutIds(tasks, ids))
  {
    if |tasks| > 0 {
      var rest := tasks[1..];
      UniqueTail(tasks);
      WithoutIdsKeepsUniqueIds(rest, ids);
      if tasks[0].id !in ids {
        var tail := WithoutIds(rest, ids);
        assert tasks[0].id !in Ids(tail);
        ConsKeepsUniqueIds(tasks[0], tail);
      }
    }
  }

  /** Behind the first row the keys stay unique, and none of them is the
      first row's. */
  lemma UniqueTail(tasks: seq<Task>)
    requires |tasks| > 0 && UniqueIds(tasks)
    ensures UniqueIds(tasks[1..])
    ensures tasks[0].id !in Ids(tasks[1..])
  {
    var rest := tasks[1..];
    forall i, j | 0 <= i < j < |rest| ensures rest[i].id != rest[j].id {
      assert rest[i] == tasks[i + 1] && rest[j] == tasks[j + 1];
    }
    forall t | t in rest ensures t.id != tasks[0].id {
      var k :| 0 <= k < |rest| && rest[k] == t;
      assert tasks[k + 1] == t;
    }
  }

  /** A row whose key is new can go in front of rows with unique keys. */
  lemma ConsKeepsUniqueIds(h: Task, tail: seq<Task>)
    requires UniqueIds(tail) && h.id !in Ids(tail)
    ensures UniqueIds([h] + tail)
  {
    var s := [h] + tail;
    forall i, j | 0 <= i < j < |s| ensures s[i].id != s[j].id {
      if i == 0 {
        assert s[j] in tail;
      } else {
        assert s[i] == tail[i - 1] && s[j] == tail[j - 1];
      }
    }
  }

  /** Removing one set of keys and then another is removing both at once. */
  lemma {:induction false} WithoutIdsTwice(tasks: seq<Task>, a: set<Uuid>, b: set<Uuid>)
    ensures WithoutIds(WithoutIds(tasks, a), b) == WithoutIds(tasks, a + b)
  {
    if |tasks| > 0 {
      WithoutIdsTwice(tasks[1..], a, b);
      var head := if tasks[0].id in a then [] else [tasks[0]];
      var once := WithoutIds(tasks, a);
      assert once == head + WithoutIds(tasks[1..], a);
      WithoutIdsAppend(head, WithoutIds(tasks[1..], a), b);
      if tasks[0].id !in a {
        assert WithoutIds(head, b) == (if tasks[0].id in b then [] else [tasks[0]]);
      }
    }
  }

  lemma {:induction false} WithoutIdsAppend(x: seq<Task>, y: seq<Task>, ids: set<Uuid>)
    ensures WithoutIds(x + y, ids) == WithoutIds(x, ids) + WithoutIds(y, ids)
  {
    if |x| == 0 {
      assert x + y == y;
    } else {
      assert (x + y)[1..] == x[1..] + y;
      WithoutIdsAppend(x[1..], y, ids);
    }
  }
}
