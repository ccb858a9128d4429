/**
 The logic of one row of the task list (components/task-item.tsx): the status
 toggle, the badge and label shown for a status, the edit buffer and the
 update it sends, and when the row reports back to the list.
 */
module TaskItem {
  import opened TaskModel
  import opened Text
  import opened Http

  /** The status `toggleStatus` asks for: a completed task goes back to
      pending; every other status, `in-progress` and invalid strings
      included, becomes completed. */
  function ToggledStatus(status: string): (r: string)
    ensures IsValidStatus(r)
    ensures r != status
    ensures r == Pending <==> status == Completed
    ensures status != Completed ==> r == Completed
  {
    if status == Completed then Pending else Completed
  }

  /** Toggling twice returns to the start exactly for pending and completed;
      from `in-progress` (or an invalid status) it ends at pending. */
  lemma ToggleTwice(status: string)
    ensures ToggledStatus(ToggledStatus(status)) == status <==> status == Pending || status == Completed
    ensures status != Completed ==> ToggledStatus(ToggledStatus(status)) == Pending
  {
  }

  /** The body `toggleStatus` sends: the new status and nothing else, so the
      title and description are left out of the update. */
  function ToggleRequest(task: Task): (body: TaskFields)
    ensures body.title == Undefined && body.description == Undefined
    ensures body.status == Defined(ToggledStatus(task.status))
    ensures IsValidStatus(body.status.value) && body.status.value != task.status
  {
    TaskFields(Undefined, Undefined, Defined(ToggledStatus(task.status)))
  }

  datatype BadgeVariant = Secondary | Default | Success | Outline

  /** `getBadgeVariant`: total over strings; only the three valid statuses
      get a variant other than outline. */
  function GetBadgeVariant(status: string): (v: BadgeVariant)
    ensures v == Outline <==> !IsValidStatus(status)
    ensures status == Pending ==> v == Secondary
    ensures status == InProgress ==> v == Default
    ensures status == Completed ==> v == Success
  {
    if status == Pending then Secondary
    else if status == InProgress then Default
    else if status == Completed then Success
    else Outline
  }

  /** The three valid statuses are told apart by their badges. */
  lemma BadgeVariantsDistinct(a: string, b: string)
    requires IsValidStatus(a) && IsValidStatus(b) && a != b
    ensures GetBadgeVariant(a) != GetBadgeVariant(b)
  {
  }

  /** The text on the badge, `status.replace("-", " ")`: the first hyphen
      becomes a space and nothing else changes. */
  function StatusLabel(status: string): (shown: string)
    ensures |shown| == |status|
    ensures '-' !in status ==> shown == status
    ensures forall i :: 0 <= i < |status| && i != IndexOf(status, '-') ==> shown[i] == status[i]
    ensures '-' in status ==> shown[IndexOf(status, '-')] == ' '
  {
    ReplaceFirstAt(status, '-', ' ');
    ReplaceFirst(status, '-', ' ')
  }

  /** `in-progress` is shown as `in progress`. */
  lemma InProgressLabel()
    ensures StatusLabel(InProgress) == "in progress"
  {
    // The hyphen and the space are written by code point: matched against
    // the string literals, the character literals '-' and ' ' make this
    // proof many times more expensive for the solver.
    var hyphen, space := 45 as char, 32 as char;
    var before, after := "in", "progress";
    assert InProgress == before + [hyphen] + after;
    ReplaceFirstSplit(before, hyphen, space, after);
    assert before + [space] + after == "in progress";
  }

  /** Only the first hyphen is replaced: a second one would survive. */
  lemma OnlyFirstHyphenReplaced()
    ensures StatusLabel("a-b-c") == "a b-c"
  {
    var hyphen, space := 45 as char, 32 as char;
    var before, after := "a", "b-c";
    assert "a-b-c" == before + [hyphen] + after;
    ReplaceFirstSplit(before, hyphen, space, after);
    assert before + [space] + after == "a b-c";
  }

  /** A change made in the edit dialog. */
  datatype Edit = EditTitle(title: string) | EditDescription(description: string) | EditStatus(choice: StatusChoice)

  /** The edit buffer after one change; the description textarea always
      yields a string, possibly empty. */
  function ApplyEdit(buffer: Task, e: Edit): (r: Task)
    ensures e.EditTitle? ==> r == buffer.(title := e.title)
    ensures e.EditDescription? ==> r == buffer.(description := Defined(e.description))
    ensures e.EditStatus? ==> r == buffer.(status := e.choice.Value()) && IsValidStatus(r.status)
  {
    match e
    case EditTitle(t) => buffer.(title := t)
    case EditDescription(d) => buffer.(description := Defined(d))
    case EditStatus(c) => buffer.(status := c.Value())
  }

  /** The edit buffer after a series of changes, starting from the copy of
      the task the row was given (`{ ...task }`). */
  function ApplyEdits(buffer: Task, edits: seq<Edit>): Task
    decreases |edits|
  {
    if |edits| == 0 then buffer
    else ApplyEdits(ApplyEdit(buffer, edits[0]), edits[1..])
  }

  /** No edit touches the id, the owner or the timestamps, and a buffer that
      starts with a valid status keeps one. */
  lemma {:induction false} EditsKeepIdentity(buffer: Task, edits: seq<Edit>)
    ensures var b := ApplyEdits(buffer, edits);
      && b.id == buffer.id && b.userId == buffer.userId
      && b.createdAt == buffer.createdAt && b.updatedAt == buffer.updatedAt
      && (IsValidStatus(buffer.status) ==> IsValidStatus(b.status))
    decreases |edits|
  {
    if |edits| > 0 {
      EditsKeepIdentity(ApplyEdit(buffer, edits[0]), edits[1..]);
    }
  }

  /** The body `saveTask` sends: title and status from the buffer always,
      the description as the buffer holds it (`JSON.stringify` drops it only
      when it is `undefined`, keeps `null` as null). */
  function SaveRequest(buffer: Task): (body: TaskFields)
    ensures body.title == Defined(buffer.title)
    ensures body.status == Defined(buffer.status)
    ensures body.description == buffer.description
  {
    TaskFields(Defined(buffer.title), buffer.description, Defined(buffer.status))
  }

  /** What `toggleStatus` and `saveTask` pass to `onUpdate`: the task the
      server sent back, and only when the response was ok. */
  function UpdateCallback(res: Fetched<Task>): (cb: Option<Task>)
    ensures cb.Some? <==> res.Ok?
    ensures res.Ok? ==> cb.value == res.value
  {
    match res
    case Ok(updated) => Some(updated)
    case Failed => None
  }

  /** Whether a save leaves the edit dialog as it was: `saveTask` closes it
      only after a successful update, and a failed save does not close it
      (nor open a closed one; see `RowStep`). */
  function DialogOpenAfterSave(res: Fetched<Task>): (keepsOpen: bool)
    ensures keepsOpen <==> UpdateCallback(res).None?
  {
    res.Failed?
  }

  /** What `deleteTask` passes to `onDelete`: the row's own task id, and
      only when the response was ok; the response body is not read. */
  function DeleteCallback(task: Task, res: Fetched<()>): (cb: Option<string>)
    ensures cb.Some? <==> res.Ok?
    ensures cb.Some? ==> cb.value == task.id
  {
    match res
    case Ok(_) => Some(task.id)
    case Failed => None
  }

  // ---------------------------------------------------------------------
  // The row over time

  /** One row's state: the task it is rendered with, the edit buffer, and
      whether the edit dialog is open. */
  datatype Row = Row(task: Task, buffer: Task, dialogOpen: bool)

  /** A user action on a row, together with the fate of the request it sends
      (if any). */
  datatype RowEvent =
    | Toggle(res: Fetched<Task>)
    | OpenDialog
    | Change(edit: Edit)
    | CancelDialog
    | Save(res: Fetched<Task>)

  /** A row as first rendered: `useState<Task>({ ...task })` copies the task
      into the buffer, once. */
  function Mount(task: Task): (r: Row)
    ensures r.task == task && r.buffer == task && !r.dialogOpen
  {
    Row(task, task, false)
  }

  /** The task a row is rendered with after an update request. The list keys
      rows by id and `updateTask` replaces the entries with the returned
      task's id, so the row receives the returned task when it has the row's
      id, and keeps its task otherwise. */
  function Shown(task: Task, res: Fetched<Task>): (t: Task)
    ensures t.id == task.id
    ensures res.Failed? ==> t == task
    ensures res.Ok? && res.value.id == task.id ==> t == res.value
    ensures res.Ok? && res.value.id != task.id ==> t == task
  {
    match UpdateCallback(res)
    case Some(updated) => if updated.id == task.id then updated else task
    case None => task
  }

  /** One action on a row, as the component is written: a toggle or a save
      may give the row a new task, but only the dialog's inputs ever write
      the buffer; Cancel closes the dialog without discarding the edits. */
  function RowStep(r: Row, e: RowEvent): (next: Row)
    ensures next.task.id == r.task.id
    ensures !e.Change? ==> next.buffer == r.buffer
    ensures e.Change? ==> next.buffer == ApplyEdit(r.buffer, e.edit)
    ensures (e.Toggle? || e.Save?) && e.res.Failed? ==> next.task == r.task
    ensures e.Save? && e.res.Ok? ==> !next.dialogOpen
    ensures e.Save? && e.res.Failed? ==> next.dialogOpen == r.dialogOpen
    ensures e.Toggle? || e.Save? ==> next.task == Shown(r.task, e.res)
    ensures !(e.Toggle? || e.Save?) ==> next.task == r.task
    ensures e.OpenDialog? ==> next.dialogOpen
    ensures e.CancelDialog? ==> !next.dialogOpen
    ensures e.Toggle? || e.Change? ==> next.dialogOpen == r.dialogOpen
  {
    match e
    case Toggle(res) => r.(task := Shown(r.task, res))
    case OpenDialog => r.(dialogOpen := true)
    case Change(ed) => r.(buffer := ApplyEdit(r.buffer, ed))
    case CancelDialog => r.(dialogOpen := false)
    case Save(res) => Row(Shown(r.task, res), r.buffer, r.dialogOpen && DialogOpenAfterSave(res))
  }

  /** One action on a row whose dialog starts from the task as currently
      shown: opening the dialog copies the row's task into the buffer;
      every other action is as in `RowStep`. */
  function SyncedRowStep(r: Row, e: RowEvent): (next: Row)
    ensures e.OpenDialog? ==> next == Row(r.task, r.task, true)
    ensures !e.OpenDialog? ==> next == RowStep(r, e)
  {
    if e.OpenDialog? then RowStep(r, e).(buffer := r.task) else RowStep(r, e)
  }

  /** A series of actions on a row, as written (`synced` false) or with the
      buffer copied on opening the dialog (`synced` true). */
  function RunRow(r: Row, events: seq<RowEvent>, synced: bool): Row
    decreases |events|
  {
    if |events| == 0 then r
    else
      var next := if synced then SyncedRowStep(r, events[0]) else RowStep(r, events[0]);
      RunRow(next, events[1..], synced)
  }

  /** The edits among a series of row actions, in order. */
  function EditsIn(events: seq<RowEvent>): seq<Edit>
    decreases |events|
  {
    if |events| == 0 then []
    else if events[0].Change? then [events[0].edit] + EditsIn(events[1..])
    else EditsIn(events[1..])
  }

  /** The dialog edits as row actions. */
  function Changes(edits: seq<Edit>): (events: seq<RowEvent>)
    ensures |events| == |edits|
    ensures forall i :: 0 <= i < |edits| ==> events[i] == Change(edits[i])
  {
    seq(|edits|, i requires 0 <= i < |edits| => Change(edits[i]))
  }

  /** As written, the buffer is the mount-time copy with the dialog's edits
      applied and nothing else: no update of the row's task reaches it. */
  lemma {:induction false} BufferFollowsOnlyEdits(r: Row, events: seq<RowEvent>)
    ensures RunRow(r, events, false).buffer == ApplyEdits(r.buffer, EditsIn(events))
    decreases |events|
  {
    if |events| > 0 {
      var e := events[0];
      BufferFollowsOnlyEdits(RowStep(r, e), events[1..]);
      if e.Change? {
        assert ([e.edit] + EditsIn(events[1..]))[1..] == EditsIn(events[1..]);
      }
    }
  }

  /** As written, a save without edits can undo a toggle: toggle a pending
      task to completed, open the dialog and save, and the update asks for
      pending again. */
  lemma StaleSaveRevertsToggle(task: Task)
    requires task.status == Pending
    ensures var toggled := task.(status := Completed);
      var r := RunRow(Mount(task), [Toggle(Ok(toggled)), OpenDialog], false);
      && r.task == toggled && r.dialogOpen
      && SaveRequest(r.buffer).status == Defined(Pending)
  {
    var toggled := task.(status := Completed);
    var events := [Toggle(Ok(toggled)), OpenDialog];
    var afterToggle := RowStep(Mount(task), events[0]);
    assert afterToggle == Row(toggled, task, false);
    assert events[1..] == [OpenDialog] && events[1..][1..] == [];
    assert RunRow(Mount(task), events, false) == RunRow(afterToggle, [OpenDialog], false);
    assert RunRow(afterToggle, [OpenDialog], false) == Row(toggled, task, true);
  }

  /** With the buffer copied on opening, the dialog's edits are applied to
      the task the row currently shows. */
  lemma {:induction false} SyncedChangesApply(r: Row, edits: seq<Edit>)
    ensures RunRow(r, Changes(edits), true).buffer == ApplyEdits(r.buffer, edits)
    decreases |edits|
  {
    if |edits| > 0 {
      var events := Changes(edits);
      assert events[1..] == Changes(edits[1..]);
      SyncedChangesApply(SyncedRowStep(r, events[0]), edits[1..]);
    }
  }

  /** With the buffer copied on opening, whatever happened to the row
      before, opening the dialog, editing and saving sends the row's current
      task with exactly those edits. */
  lemma SyncedSaveSendsEdits(r: Row, edits: seq<Edit>)
    ensures SaveRequest(RunRow(r, [OpenDialog] + Changes(edits), true).buffer)
         == SaveRequest(ApplyEdits(r.task, edits))
  {
    var events := [OpenDialog] + Changes(edits);
    assert events[1..] == Changes(edits);
    SyncedChangesApply(SyncedRowStep(r, OpenDialog), edits);
  }

  /** With the buffer copied on opening, saving without edits sends the
      title, description and status of the task the row shows now, whatever
      updates the row received before. */
  lemma SaveUnedited(r: Row)
    ensures SaveRequest(RunRow(r, [OpenDialog], true).buffer)
         == TaskFields(Defined(r.task.title), r.task.description, Defined(r.task.status))
  {
    SyncedSaveSendsEdits(r, []);
    assert [OpenDialog] + Changes([]) == [OpenDialog];
  }

  /** As written, after any history without dialog edits (toggles, saves,
      opening and cancelling the dialog), saving sends the title,
      description and status of the task the row was mounted with, whatever
      task the row shows by then. */
  lemma SaveUneditedAsWritten(task: Task, events: seq<RowEvent>)
    requires EditsIn(events) == []
    ensures SaveRequest(RunRow(Mount(task), events, false).buffer)
         == TaskFields(Defined(task.title), task.description, Defined(task.status))
  {
    BufferFollowsOnlyEdits(Mount(task), events);
  }
}
