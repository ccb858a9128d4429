/**
 The dashboard's client-side task list (components/dashboard.tsx): the state
 after the mount-time fetch, and the three callbacks that keep the list in
 step with the server after a create, an update or a delete.
 */
module Dashboard {
  import opened TaskModel
  import opened Http

  datatype State = State(tasks: seq<Task>, isLoading: bool)

  /** The state before the fetch settles: no tasks, loading. */
  const Initial: State := State([], true)

  /** The mount-time fetch settling: loading ends either way; the list becomes
      the response on success and is left as it was on failure. */
  function Settle(st: State, res: Fetched<seq<Task>>): (r: State)
    ensures !r.isLoading
    ensures res.Ok? ==> r.tasks == res.value
    ensures res.Failed? ==> r.tasks == st.tasks
  {
    match res
    case Ok(data) => State(data, false)
    case Failed => st.(isLoading := false)
  }

  /** `addTask`: the new task goes in front, the old list follows unchanged. */
  function AddTask(prev: seq<Task>, newTask: Task): (r: seq<Task>)
    ensures |r| == |prev| + 1 && r[0] == newTask
    ensures forall i :: 0 <= i < |prev| ==> r[i + 1] == prev[i]
  {
    [newTask] + prev
  }

  /** `updateTask`: every entry with the updated task's id is replaced by it,
      every other entry stays where and what it was. */
  function UpdateTask(prev: seq<Task>, updated: Task): (r: seq<Task>)
    ensures |r| == |prev|
    ensures forall i :: 0 <= i < |prev| ==> r[i].id == prev[i].id
    ensures forall i :: 0 <= i < |prev| ==> (r[i] == updated <==> prev[i].id == updated.id)
    ensures forall i :: 0 <= i < |prev| && prev[i].id != updated.id ==> r[i] == prev[i]
  {
    if |prev| == 0 then []
    else
      var rest := UpdateTask(prev[1..], updated);
      assert forall i :: 1 <= i < |prev| ==> prev[1..][i - 1] == prev[i];
      [if prev[0].id == updated.id then updated else prev[0]] + rest
  }

  /** Applying the same update twice is applying it once. */
  lemma UpdateTaskIdempotent(prev: seq<Task>, updated: Task)
    ensures UpdateTask(UpdateTask(prev, updated), updated) == UpdateTask(prev, updated)
  {
    var once := UpdateTask(prev, updated);
    var twice := UpdateTask(once, updated);
    assert forall i :: 0 <= i < |once| ==> twice[i] == once[i];
  }

  /** An update for an id the list does not hold leaves the list as it is. */
  lemma UpdateTaskUnknownId(prev: seq<Task>, updated: Task)
    requires forall i :: 0 <= i < |prev| ==> prev[i].id != updated.id
    ensures UpdateTask(prev, updated) == prev
  {
    var r := UpdateTask(prev, updated);
    assert forall i :: 0 <= i < |prev| ==> r[i] == prev[i];
  }

  /** `removeTask`: keeps exactly the entries with another id, each as often
      as before; the order they keep is stated by `RemoveTaskSplits`. */
  function RemoveTask(prev: seq<Task>, taskId: string): (r: seq<Task>)
    ensures |r| <= |prev|
    ensures forall i :: 0 <= i < |r| ==> r[i].id != taskId
    ensures forall t :: multiset(r)[t] == if t.id != taskId then multiset(prev)[t] else 0
  {
    if |prev| == 0 then []
    else
      assert prev == [prev[0]] + prev[1..];
      var rest := RemoveTask(prev[1..], taskId);
      if prev[0].id != taskId then [prev[0]] + rest else rest
  }

  /** Removing from a concatenation removes from each part and keeps the
      parts in order; with the one-element case this fixes the relative order
      of the entries that stay. */
  lemma {:induction false} RemoveTaskSplits(a: seq<Task>, b: seq<Task>, taskId: string)
    ensures RemoveTask(a + b, taskId) == RemoveTask(a, taskId) + RemoveTask(b, taskId)
  {
    if |a| == 0 {
      assert a + b == b;
    } else {
      assert (a + b)[0] == a[0];
      assert (a + b)[1..] == a[1..] + b;
      RemoveTaskSplits(a[1..], b, taskId);
    }
  }

  /** Removing the same id twice is removing it once. */
  lemma {:induction false} RemoveTaskIdempotent(prev: seq<Task>, taskId: string)
    ensures RemoveTask(RemoveTask(prev, taskId), taskId) == RemoveTask(prev, taskId)
  {
    RemoveTaskUnknownId(RemoveTask(prev, taskId), taskId);
  }

  /** Removing an id the list does not hold leaves the list as it is. */
  lemma {:induction false} RemoveTaskUnknownId(prev: seq<Task>, taskId: string)
    requires forall i :: 0 <= i < |prev| ==> prev[i].id != taskId
    ensures RemoveTask(prev, taskId) == prev
  {
    if |prev| > 0 {
      RemoveTaskUnknownId(prev[1..], taskId);
      assert prev == [prev[0]] + prev[1..];
    }
  }

  /** Deleting a task that was just added, under an id the list did not hold
      before, gives back the list from before the add. */
  lemma AddThenRemove(prev: seq<Task>, newTask: Task)
    requires forall i :: 0 <= i < |prev| ==> prev[i].id != newTask.id
    ensures RemoveTask(AddTask(prev, newTask), newTask.id) == prev
  {
    RemoveTaskSplits([newTask], prev, newTask.id);
    RemoveTaskUnknownId(prev, newTask.id);
    assert AddTask(prev, newTask) == [newTask] + prev;
  }
}
