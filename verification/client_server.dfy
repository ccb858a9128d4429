/**
 How the components and the collection endpoint fit together: what the
 dashboard shows after loading, what a submitted create form turns into on
 the server, and how a row's callbacks change the dashboard's list.
 */
module ClientServer {
  import opened TaskModel
  import opened Text
  import opened Http
  import opened TasksRoute
  import Dashboard
  import TaskItem
  import CreateTaskForm

  /** What the dashboard's fetch of GET /api/tasks makes of a response: the
      list when the status is ok, a failure otherwise. */
  function ListView(resp: Response): (res: Fetched<seq<Task>>)
    ensures res.Ok? <==> IsOk(resp.status) && resp.body.TaskListBody?
    ensures res.Ok? ==> res.value == resp.body.tasks
  {
    if IsOk(resp.status) && resp.body.TaskListBody? then Ok(resp.body.tasks) else Failed
  }

  /** What the create form's fetch of POST /api/tasks makes of a response. */
  function CreatedView(resp: Response): (res: Fetched<Task>)
    ensures res.Ok? <==> IsOk(resp.status) && resp.body.TaskBody?
    ensures res.Ok? ==> res.value == resp.body.task
  {
    if IsOk(resp.status) && resp.body.TaskBody? then Ok(resp.body.task) else Failed
  }

  /** After loading, the dashboard is no longer loading; a signed-in caller
      sees exactly their own tasks, newest first, and a caller without a user
      id sees the empty list it started with. */
  lemma DashboardLoad(store: Store, caller: Option<string>)
    ensures var st := Dashboard.Settle(Dashboard.Initial, ListView(Get(store, caller)));
      && !st.isLoading
      && (OptionTruthy(caller) ==> ExactlyOwned(st.tasks, store, caller.value) && NewestFirst(st.tasks))
      && (!OptionTruthy(caller) ==> st.tasks == [])
  {
  }

  /** No listing shows a task of another owner or a task the store lacks. */
  lemma ListingIsolation(store: Store, caller: Option<string>, t: Task)
    requires OptionTruthy(caller)
    requires t in Get(store, caller).body.tasks
    ensures t.userId == caller.value && t in store
  {
    var list := Get(store, caller).body.tasks;
    assert t in multiset(list);
    assert multiset(store)[t] > 0;
  }

  /** The client's title check and the server's agree: a form the client is
      willing to send, posted by a signed-in caller, is created (given a free
      id), and one it refuses is exactly one the server would refuse with
      "Title is required". The stored task keeps the form's status, and its
      title and description are the form's, trimmed, with an empty
      description stored as null. */
  lemma SubmitMatchesServer(store: Store, caller: Option<string>, f: CreateTaskForm.Form, row: RowDefaults)
    requires OptionTruthy(caller) && IsValidStatus(f.status) && !IdTaken(store, row.id)
    ensures var out := Post(store, caller, Some(CreateTaskForm.Payload(f)), row);
      && (CreateTaskForm.HandleSubmit(f).Send? <==> out.response.status == 201)
      && (CreateTaskForm.HandleSubmit(f).Refused? ==> out.response == Response(400, ErrorBody(TitleRequired)))
      && (out.response.status == 201 ==>
            && out.response.body.task.title == Trim(f.title)
            && out.response.body.task.status == f.status
            && out.response.body.task.userId == caller.value
            && out.response.body.task.description ==
                 (if f.description == "" then Null else Defined(Trim(f.description))))
  {
  }

  /** A task the server has just created shows up in its owner's next listing. */
  lemma CreatedTaskIsListed(store: Store, caller: Option<string>, body: Option<TaskFields>, row: RowDefaults)
    requires Post(store, caller, body, row).response.status == 201
    ensures var out := Post(store, caller, body, row);
      out.response.body.task in Get(out.store, caller).body.tasks
  {
    var out := Post(store, caller, body, row);
    var t := out.response.body.task;
    assert multiset(out.store)[t] > 0;
    assert t in multiset(Get(out.store, caller).body.tasks);
  }

  /** Creating a task leaves every other user's listing as it was. */
  lemma OtherListingsUnchanged(store: Store, caller: Option<string>, body: Option<TaskFields>, row: RowDefaults, other: Option<string>)
    requires OptionTruthy(other) && other != caller
    ensures var out := Post(store, caller, body, row);
      multiset(Get(out.store, other).body.tasks) == multiset(Get(store, other).body.tasks)
  {
    var out := Post(store, caller, body, row);
    var before := Get(store, other).body.tasks;
    var after := Get(out.store, other).body.tasks;
    forall t ensures multiset(after)[t] == multiset(before)[t] {
      if out.response.status == 201 {
        assert multiset(out.store) == multiset(store) + multiset{out.response.body.task};
      }
    }
  }

  /** The dashboard's list after a row's update request: replaced only when
      the row called `onUpdate`. */
  function ListAfterUpdate(tasks: seq<Task>, res: Fetched<Task>): (r: seq<Task>)
    ensures res.Failed? ==> r == tasks
    ensures res.Ok? ==> |r| == |tasks|
    ensures res.Ok? ==> forall i :: 0 <= i < |r| && tasks[i].id == res.value.id ==> r[i] == res.value
    ensures res.Ok? ==> forall i :: 0 <= i < |r| && tasks[i].id != res.value.id ==> r[i] == tasks[i]
  {
    match TaskItem.UpdateCallback(res)
    case Some(updated) => Dashboard.UpdateTask(tasks, updated)
    case None => tasks
  }

  /** The dashboard's list after a row's delete request: the row's task is
      gone when the row called `onDelete`, and nothing changed otherwise. */
  function ListAfterDelete(tasks: seq<Task>, task: Task, res: Fetched<()>): (r: seq<Task>)
    ensures res.Failed? ==> r == tasks
    ensures res.Ok? ==> r == Dashboard.RemoveTask(tasks, task.id)
    ensures res.Ok? ==> forall i :: 0 <= i < |r| ==> r[i].id != task.id
    ensures res.Ok? ==> forall t: Task :: t.id != task.id ==> multiset(r)[t] == multiset(tasks)[t]
  {
    match TaskItem.DeleteCallback(task, res)
    case Some(id) => Dashboard.RemoveTask(tasks, id)
    case None => tasks
  }

  /** The dashboard's list after the create form's request: the new task in
      front on success, nothing changed on failure. */
  function ListAfterCreate(tasks: seq<Task>, f: CreateTaskForm.Form, res: Fetched<Task>): (r: seq<Task>)
    ensures res.Failed? ==> r == tasks
    ensures res.Ok? ==> r == [res.value] + tasks
  {
    match CreateTaskForm.AfterCreate(f, res).1
    case Some(created) => Dashboard.AddTask(tasks, created)
    case None => tasks
  }

  /** The whole create flow for a signed-in caller with a free id: a form
      whose title is not blank is stored, the stored task goes to the front of
      the dashboard's list, and the form is reset. */
  lemma CreateFlow(store: Store, caller: Option<string>, f: CreateTaskForm.Form, row: RowDefaults, tasks: seq<Task>)
    requires OptionTruthy(caller) && IsValidStatus(f.status) && !IdTaken(store, row.id)
    requires CreateTaskForm.HandleSubmit(f).Send?
    ensures var out := Post(store, caller, Some(CreateTaskForm.HandleSubmit(f).body), row);
      && out.response.status == 201
      && out.store == store + [out.response.body.task]
      && ListAfterCreate(tasks, f, CreatedView(out.response)) == [out.response.body.task] + tasks
      && CreateTaskForm.AfterCreate(f, CreatedView(out.response)).0 == CreateTaskForm.Initial
  {
    SubmitMatchesServer(store, caller, f, row);
  }
}
