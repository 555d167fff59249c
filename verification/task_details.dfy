/** `TaskDetailsPageViewModel`: the editing state of the details page. For a
    new task the page is ready at once with empty fields; for an existing
    task it waits until the task is found in the home page's list and then
    copies its title and description. Saving hands the fields to the shared
    view model's `updateTask`. */
module TaskDetails {
  import opened Types
  import opened Status
  import opened Tasks
  import opened Database
  import opened AppViewModel

  /** The page's fields: whether the form may be shown, and the text typed. */
  datatype DetailsState = DetailsState(isReady: bool, title: string, description: string)

  /** The constructor's field initialisers: ready exactly when no task is
      open, and both text fields empty. */
  function Create(app: AppState): (d: DetailsState)
    ensures d.isReady <==> app.viewingDetailsTaskId.None?
    ensures d.title == [] && d.description == []
  {
    DetailsState(app.viewingDetailsTaskId.None?, [], [])
  }

  /** The `init` block's load: with a task open, look it up by id in
      `visible` (the home page's `tasks` list as it is when the lookup runs,
      which `GetById` searches front to back like `firstOrNull`). When found,
      copy its text and become ready; otherwise change nothing. */
  function Load(d: DetailsState, app: AppState, visible: seq<Task>): (r: DetailsState)
    ensures app.viewingDetailsTaskId.None? ==> r == d
    ensures app.viewingDetailsTaskId.Some? && app.viewingDetailsTaskId.value !in Ids(visible) ==>
              r == d
    ensures app.viewingDetailsTaskId.Some? && app.viewingDetailsTaskId.value in Ids(visible) ==>
              r.isReady
              && exists t | t in visible :: t.id == app.viewingDetailsTaskId.value
                   && r.title == t.title && r.description == t.description
  {
    match app.viewingDetailsTaskId
    case None => d
    case Some(id) =>
      match GetById(visible, id)
      case None => d
      case Some(t) => DetailsState(true, t.title, t.description)
  }

  /** `updateTitle`: only the title changes. */
  function UpdateTitle(d: DetailsState, title: string): (r: DetailsState)
    ensures r.title == title
    ensures r.isReady == d.isReady && r.description == d.description
  {
    d.(title := title)
  }

  /** `updateDescription`: only the description changes. */
  function UpdateDescription(d: DetailsState, description: string): (r: DetailsState)
    ensures r.description == description
    ensures r.isReady == d.isReady && r.title == d.title
  {
    d.(description := description)
  }

  /** `updateTask`: save the typed text through the shared view model (a new
      task gets the freshly drawn id `newId`). */
  function Submit(d: DetailsState, app: AppState, newId: Uuid): (r: Result<AppState>)
    ensures app.viewingDetailsTaskId.None? ==>
      (r.Ok? <==> newId !in Ids(app.db.tasks))
      && (r.Ok? ==> r.value.db.tasks == app.db.tasks + [NewTask(newId, d.title, d.description)])
    ensures r.Ok? ==> r.value.db.doneTasks == app.db.doneTasks && r.value.date == app.date
    ensures app.viewingDetailsTaskId.Some? ==> r.Ok?
    ensures app.viewingDetailsTaskId.Some? ==>
      r.value.db.tasks
        == Tasks.Update(app.db.tasks, NewTask(app.viewingDetailsTaskId.value, d.title, d.description))
  {
    UpdateTask(app, d.title, d.description, newId)
  }

  /** `doneTasks`: the marks of the open task, or none when no task is open. */
  function DoneTasks(app: AppState): (r: seq<DoneTask>)
    ensures app.viewingDetailsTaskId.None? ==> r == []
    ensures app.viewingDetailsTaskId.Some? ==>
      forall m :: m in r <==> m in app.db.doneTasks && m.taskId == app.viewingDetailsTaskId.value
  {
    match app.viewingDetailsTaskId
    case None => []
    case Some(id) => GetByTask(app.db.doneTasks, id)
  }

  /** Loading from the home page's list: the page becomes ready exactly when
      the open task has a stored row that is not waiting for deletion. A
      task whose deletion is pending is never loaded. */
  lemma LoadReadyIffVisible(app: AppState, id: Uuid)
    requires app.viewingDetailsTaskId == Some(id)
    ensures var d := Load(Create(app), app, VisibleTasks(app));
      d.isReady <==> exists t | t in app.db.tasks :: t.id == id && t !in app.deletingTasks
  {
    var visible := VisibleTasks(app);
    if exists t | t in app.db.tasks :: t.id == id && t !in app.deletingTasks {
      var t :| t in app.db.tasks && t.id == id && t !in app.deletingTasks;
      assert t in visible;
    } else {
      assert id !in Ids(visible);
    }
  }

  /** In a reachable state, a freshly loaded page saved without edits writes
      back exactly the row it loaded, so the store does not change. */
  lemma LoadThenSubmitKeepsStore(app: AppState, id: Uuid, newId: Uuid)
    requires Invariant(app)
    requires app.viewingDetailsTaskId == Some(id)
    requires Load(Create(app), app, VisibleTasks(app)).isReady
    ensures Submit(Load(Create(app), app, VisibleTasks(app)), app, newId) == Ok(app)
  {
    var visible := VisibleTasks(app);
    var t := GetById(visible, id).value;
    var d := Load(Create(app), app, visible);
    assert d == DetailsState(true, t.title, t.description);
    assert t in app.db.tasks;
    assert NewTask(id, d.title, d.description) == t;
    UpdateStoredRow(app.db.tasks, t);
  }

  /** Editing a loaded page and saving it writes the typed text into the
      open task's row, with the default order, and leaves every other task's
      row as it was. */
  lemma EditThenSubmit(app: AppState, id: Uuid, title: string, description: string,
                       newId: Uuid, other: Uuid)
    requires UniqueIds(app.db.tasks)
    requires app.viewingDetailsTaskId == Some(id) && id in Ids(app.db.tasks)
    ensures var d := Load(Create(app), app, VisibleTasks(app));
      var r := Submit(UpdateDescription(UpdateTitle(d, title), description), app, newId);
      r.Ok?
      && GetById(r.value.db.tasks, id) == Some(Task(id, DefaultOrder, title, description))
      && (other != id ==> GetById(r.value.db.tasks, other) == GetById(app.db.tasks, other))
  {
    UpdateTaskEffect(app, title, description, newId, other);
  }

  /** Writing back a stored row, in a table with unique keys, changes
      nothing. */
  lemma UpdateStoredRow(tasks: seq<Task>, t: Task)
    requires UniqueIds(tasks) && t in tasks
    ensures Tasks.Update(tasks, t) == tasks
  {
    var r := Tasks.Update(tasks, t);
    var k :| 0 <= k < |tasks| && tasks[k] == t;
    forall i | 0 <= i < |tasks| ensures r[i] == tasks[i] {
      if tasks[i].id == t.id {
        assert i == k by {
          assert !(i < k) && !(k < i);
        }
      }
    }
  }
}
