# Task manager: collection endpoint and client list logic

A Dafny model of the logic in a small Next.js task manager. Signed-in users
create and list their own tasks. Each task has a title, an optional
description and a status (`pending`, `in-progress` or `completed`). The model
covers:

- **The collection endpoint `/api/tasks`** (`TasksRoute`). GET lists the
  caller's tasks, newest first. POST checks the caller, the title and the
  status, normalises the fields and stores one new row. The store is a
  `seq<Task>` and the caller is the resolved user id, `Option<string>`. Each
  handler returns a status code with a JSON body (`Http.Response`), and POST
  also returns the store as it leaves it.
- **The dashboard's task list** (`Dashboard`): what it holds after the initial
  fetch settles, and the `addTask`, `updateTask` and `removeTask` transforms.
- **One task row** (`TaskItem`): the status toggle, the badge variant and the
  label for a status, the edit buffer and the PUT body it sends, and the rule
  that `onUpdate`/`onDelete` are called only after an ok response. A row's
  state over a series of actions is modelled as written, where the buffer
  is never refreshed from the task, and with the buffer copied when the
  dialog opens (see "## Findings").
- **The create form** (`CreateTaskForm`): the blank-title guard, the POST body,
  and the reset-or-keep rule after the response.
- **How these fit together** (`ClientServer`): the client and server title
  checks agree; a submitted form becomes the stored task; the loaded
  dashboard holds exactly the caller's tasks; a new task shows up in its
  owner's next listing and in no one else's.

JavaScript semantics are written out in Dafny:

- `trim` strips a leading and a trailing run of the ECMA-262 whitespace and
  line-terminator characters (`Text.Trim`).
- `replace("-", " ")` replaces only the first hyphen (`Text.ReplaceFirst`).
- A string is truthy when it is non-empty.
- `null` and `undefined` are falsy. A property that is `undefined` is dropped
  by `JSON.stringify`. `Field<T>` has one constructor for each of these three
  cases.
- A Promise is always truthy.

The last point matters. Both handlers begin with `if (!isAuthenticated())`,
but `isAuthenticated` is `async` (lib/auth.ts:13-16) and is called without
`await`. Its doc comment (lib/auth.ts:9-12) says it returns true or false,
and route.ts:9 says only authenticated users can reach their tasks. In fact
the guard tests a Promise, so it never fires. The model keeps that branch,
and the contracts of `Get` and `Post` state that its message ("You must be
logged in to ...") is never returned. The working gate is the later
`!userId` check. It answers 401 "User ID not found" when the id is `null`,
and also when it is the empty string.

POST normalises the fields it stores as follows:

- Only a truthy status is checked. An empty or `null` status is accepted and
  stored as `pending`.
- A missing or empty description is stored as `null`.
- A description made only of whitespace is truthy, so it is trimmed and
  stored as `""`, not as null.
- A body that is not valid JSON, and a failure of the store, both give 500
  "Failed to create task".

## Model

| member | source | states |
|---|---|---|
| Text.Trim | app/api/tasks/route.ts:75 | `trim` returns a slice of its input with only whitespace cut off at each end. The result neither starts nor ends with whitespace, and it is empty exactly when the input is all whitespace. |
| Text.TrimOfPadded | app/api/tasks/route.ts:91 | Trimming a whitespace-free-ended string surrounded by any whitespace gives back exactly that string, so the stored title is uniquely determined. |
| Text.TrimIdempotent | app/api/tasks/route.ts:91 | Trimming an already trimmed title changes nothing. |
| Text.ReplaceFirstSplit | components/task-item.tsx:153 | `replace` acts at the first occurrence: in a string made of a part without the character, the character and any rest, only that occurrence changes and the rest is kept as it is, hyphens included. |
| Text.IndexOf | components/task-item.tsx:153 | The search `replace` does for a one-character pattern: -1 exactly when the character is absent, otherwise a position holding it with no earlier occurrence. |
| Text.ReplaceFirst | components/task-item.tsx:153 | `replace` keeps the length of the string; which position it changes is stated by `Text.ReplaceFirstAt` and `Text.ReplaceFirstSplit`. |
| Text.ReplaceFirstAt | components/task-item.tsx:153 | `replace` with a one-character pattern changes only the position of the first occurrence (JavaScript `indexOf`), and changes nothing when the character is absent. |
| TaskModel.StatusChoice.Value | components/create-task-form.tsx:102-104 | Each select option's value is one of the three valid statuses. |
| TaskModel.ChoicesCoverValidStatuses | components/create-task-form.tsx:102-104 | Every valid status is the value of one of the three select options. |
| TasksRoute.OwnedBy | app/api/tasks/route.ts:32-33 | The `where: { userId }` filter keeps every row of that owner, as often as the store holds it, and no row of anyone else. |
| TasksRoute.SortNewestFirst | app/api/tasks/route.ts:34 | `orderBy: createdAt desc` returns a permutation of its input with non-increasing creation times. |
| TasksRoute.Get | app/api/tasks/route.ts:11-43 | The not-awaited `isAuthenticated()` guard never fires. A caller without a user id gets 401 "User ID not found". Any other caller gets 200 with exactly their tasks, newest first. |
| TasksRoute.StoredDescription | app/api/tasks/route.ts:92 | A falsy description (absent, null or empty) is stored as null. Any other description is stored as its trim, so a whitespace-only one becomes "" and not null. |
| TasksRoute.StoredStatus | app/api/tasks/route.ts:93 | An absent, null or empty status defaults to pending. A given status is kept. A status that passed the check is always one of the three valid values. |
| TasksRoute.NewRow | app/api/tasks/route.ts:89-96 | The row handed to the store has the trimmed title, the stored description and status, the caller as owner, and the store's id and insertion time. |
| TasksRoute.Post | app/api/tasks/route.ts:51-104 | The unawaited guard never fires. A missing user id gives 401 before the body is read. A body that is not valid JSON gives 500 "Failed to create task". The title is checked before the status, each with its own 400. A store failure (an id clash) gives 500 "Failed to create task". Any non-201 answer leaves the store unchanged. A 201 adds exactly the returned task, which has a trimmed non-empty title, the caller as owner and a valid status. |
| ClientServer.ListView | components/dashboard.tsx:18-23 | The dashboard takes the response body as its list exactly when the status is ok and the body is a task list; every other response is a failure. |
| ClientServer.CreatedView | components/create-task-form.tsx:48-52 | The form takes the response body as the created task exactly when the status is ok and the body is a task; every other response is a failure. |
| ClientServer.DashboardLoad | components/dashboard.tsx:11-29 | After the initial fetch the dashboard is no longer loading. A signed-in caller sees exactly their own tasks, newest first. A caller without a user id keeps the empty starting list. |
| ClientServer.ListingIsolation | app/api/tasks/route.ts:32-33 | A task in a caller's listing belongs to that caller and is in the store. |
| ClientServer.CreatedTaskIsListed | app/api/tasks/route.ts:89-99 | A task POST has just created appears in its owner's next GET. |
| ClientServer.OtherListingsUnchanged | app/api/tasks/route.ts:89-96 | A POST by one caller does not change any other user's listing. |
| ClientServer.SubmitMatchesServer | components/create-task-form.tsx:28-45 | For a signed-in caller, a free id and a form the user can reach (valid status, by `CreateTaskForm.ReachableStatusValid`), the form sends a request exactly when the server would create the task. A refused form is one the server refuses with "Title is required". The created task has the trimmed title, the form's status, and the trimmed description or null. |
| ClientServer.CreateFlow | components/create-task-form.tsx:36-58 | For a signed-in caller, a free id and a form the user can reach (valid status, by `CreateTaskForm.ReachableStatusValid`), a sendable form is stored. The new task goes to the front of the dashboard's list and the form is reset. |
| ClientServer.ListAfterUpdate | components/task-item.tsx:78-83 | After an update request, the list changes only when the response was ok. The entries with the returned task's id are then replaced by it, and all other entries are unchanged. |
| ClientServer.ListAfterDelete | components/task-item.tsx:133-137 | After a delete request the list is unchanged on failure. On success it is `removeTask` of the row's id: no entry with that id remains, and every other entry is kept as often as before (in order, by `Dashboard.RemoveTaskSplits`). |
| ClientServer.ListAfterCreate | components/create-task-form.tsx:48-53 | After a create request the list is unchanged on failure. On success the new task is prepended. |
| Dashboard.Settle | components/dashboard.tsx:18-29 | The settled fetch always ends loading. It replaces the list on success and keeps it on failure. |
| Dashboard.AddTask | components/dashboard.tsx:36-38 | The new task comes first, followed by the old list shifted by one and otherwise unchanged. |
| Dashboard.UpdateTask | components/dashboard.tsx:41-43 | The length and the ids are preserved. A position holds the updated task exactly when its old entry had that id. Every other position is unchanged. |
| Dashboard.UpdateTaskIdempotent | components/dashboard.tsx:42 | Applying the same update twice is the same as applying it once. |
| Dashboard.UpdateTaskUnknownId | components/dashboard.tsx:42 | An update for an id the list does not hold leaves the list as it is. |
| Dashboard.RemoveTask | components/dashboard.tsx:46-48 | No entry with the removed id remains. Every other entry is kept as often as before, and the list never grows. |
| Dashboard.RemoveTaskSplits | components/dashboard.tsx:47 | Removal distributes over concatenation, so the entries that stay keep their relative order. |
| Dashboard.RemoveTaskIdempotent | components/dashboard.tsx:47 | Removing the same id twice is the same as removing it once. |
| Dashboard.RemoveTaskUnknownId | components/dashboard.tsx:47 | Removing an id the list does not hold leaves the list as it is. |
| Dashboard.AddThenRemove | components/dashboard.tsx:36-48 | Deleting a task just added under a new id gives back the earlier list. |
| TaskItem.ToggledStatus | components/task-item.tsx:69 | A completed task goes to pending and every other status, invalid ones included, goes to completed. The result is always a valid status and differs from the current one. |
| TaskItem.ToggleTwice | components/task-item.tsx:69 | Toggling twice is the identity exactly on pending and completed. From `in-progress` or an invalid status it ends at pending. |
| TaskItem.ToggleRequest | components/task-item.tsx:69-76 | The toggle sends exactly the toggled status, which is valid and differs from the task's current one. Title and description are left out. |
| TaskItem.GetBadgeVariant | components/task-item.tsx:52-63 | The mapping is total. Pending is secondary, in-progress is default, completed is success, and only an invalid status gets outline. |
| TaskItem.BadgeVariantsDistinct | components/task-item.tsx:52-63 | The three valid statuses get three distinct badge variants. |
| TaskItem.StatusLabel | components/task-item.tsx:153 | The badge text has the same length as the status. Only the first hyphen becomes a space. A status without a hyphen is shown as it is. |
| TaskItem.InProgressLabel | components/task-item.tsx:153 | `in-progress` is shown as `in progress`. |
| TaskItem.OnlyFirstHyphenReplaced | components/task-item.tsx:153 | A second hyphen survives: `a-b-c` is shown as `a b-c`. |
| TaskItem.ApplyEdit | components/task-item.tsx:174-197 | The title input sets the buffer's title, the textarea sets its description to the string typed (never null), and the select sets a valid status. Nothing else in the buffer changes. |
| TaskItem.EditsKeepIdentity | components/task-item.tsx:176-196 | Edits in the dialog never change the buffer's id, owner or timestamps. A buffer with a valid status keeps a valid status. |
| TaskItem.SaveRequest | components/task-item.tsx:102-106 | The save sends the buffer's title and status, and its description as held. An `undefined` description is left out and `null` is sent as null. |
| TaskItem.SaveUnedited | components/task-item.tsx:45 | With the buffer copied on opening the dialog, saving without edits sends the title, description and status of the task the row shows at that moment, whatever updates came before. |
| TaskItem.SaveUneditedAsWritten | components/task-item.tsx:45 | As written, after any history without dialog edits (toggles, saves, opening and cancelling), saving sends the title, description and status of the task the row was mounted with, whatever task it shows by then. |
| TaskItem.UpdateCallback | components/task-item.tsx:109-114 | `onUpdate` is called exactly when the response was ok, and it receives the task the server returned. |
| TaskItem.DialogOpenAfterSave | components/task-item.tsx:113-115 | A save leaves the dialog as it was exactly when `onUpdate` was not called; a successful save closes it. |
| TaskItem.DeleteCallback | components/task-item.tsx:133-137 | `onDelete` is called exactly when the response was ok, and it receives the row's own task id. |
| TaskItem.Mount | components/task-item.tsx:45 | A row starts with the dialog closed and the buffer a copy of its task. |
| TaskItem.Shown | components/task-list.tsx:43-44 | After an update request the row shows the returned task when the response was ok and the task has the row's id. It keeps its own task after a failure and after an ok response carrying another id. Its id never changes. |
| TaskItem.RowStep | components/task-item.tsx:66-115 | A toggle or a save leaves the row showing `Shown` of its response: the returned task on success, its own task on failure. Opening the dialog, editing and cancelling keep the task. Only the dialog's inputs write the buffer. Opening opens the dialog and Cancel closes it. A toggle or an edit leaves the dialog as it was. A successful save closes it and a failed one leaves it as it was. |
| TaskItem.BufferFollowsOnlyEdits | components/task-item.tsx:45 | The buffer is always the mount-time copy with the dialog's edits applied, whatever updates the row received. |
| TaskItem.StaleSaveRevertsToggle | components/task-item.tsx:45-106 | A pending task toggled to completed and then saved from the dialog without edits is sent back as pending. |
| TaskItem.SyncedRowStep | components/task-item.tsx:45 | The corrected row: opening the dialog copies the task shown into the buffer and opens it; every other action is unchanged. |
| TaskItem.SyncedSaveSendsEdits | components/task-item.tsx:102-106 | With the corrected row, opening the dialog, editing and saving sends the task the row shows with exactly those edits. |
| CreateTaskForm.Enter | components/create-task-form.tsx:75-97 | Typing sets exactly the title or the description. Picking in the select sets a valid status. The other fields are kept. |
| CreateTaskForm.Payload | components/create-task-form.tsx:41-45 | The title is sent untrimmed. An empty description is sent as undefined and so left out, never as null. A non-empty description and the status are sent as entered. |
| CreateTaskForm.HandleSubmit | components/create-task-form.tsx:28-31 | `handleSubmit` refuses a title that is empty or all whitespace with "Title is required" and sends nothing. Any other form sends its payload. The input is `required`, so the browser already blocks an empty title before `handleSubmit` runs, and the message shows only for a title of whitespace alone. |
| CreateTaskForm.AfterCreate | components/create-task-form.tsx:48-63 | On success the new task is passed to `onTaskCreated` and the fields reset to "", "" and pending. On failure nothing is passed up and the entered values are kept. |
| CreateTaskForm.StatusStaysValid | components/create-task-form.tsx:97-106 | The status can only be set from the select, so no sequence of inputs and submits makes it invalid. |
| CreateTaskForm.ReachableStatusValid | components/create-task-form.tsx:20-22 | Starting from the initial form (status pending), every reachable form holds a valid status. |

## Findings

| source | as written | input that shows it | evidently intended | confidence | as-written member | corrected member |
|---|---|---|---|---|---|---|
| components/task-item.tsx:45 | The edit buffer is copied from the task once, when the row is first rendered. Rows are keyed by id (components/task-list.tsx:44), so an update re-renders the same row, and nothing copies the new task into the buffer. | A pending task: toggle it (the server answers completed), open the edit dialog, and save without edits. The update sends `status: "pending"` and undoes the toggle. | The dialog edits the task as the row currently shows it. | high; not executed | TaskItem.StaleSaveRevertsToggle | TaskItem.SyncedSaveSendsEdits |

## Left out

- The per-task endpoint `/api/tasks/[id]` (fetch, update and delete of one task, with its ownership check) is not part of this model. The row components are modelled up to the request body they send and the ok-or-failed outcome they react to.
- The database, `fetch` and JSON are not modelled. The store is a sequence and the request body an `Option<TaskFields>`, with `None` standing for a body that is not valid JSON.
- The only store failure in the model is a clash with an existing id on insert. Other store failures, and so the 500 answer of GET, are not modelled.
- JSON values in a request body that are neither strings nor `null` are not modelled. For example, a numeric title makes `trim` throw, which gives a 500.
- The identity provider is not modelled. The resolved user id is an input, and `isAuthenticated` is modelled only as the Promise it returns.
- The store assigns ids and timestamps. Here they are the `RowDefaults` input to `Post`, so the clock and id generation are parameters.
- TasksRoute.SortNewestFirst: the store's order among tasks with equal `createdAt` is unspecified. The model picks one order, and its contract promises only newest-first order and a permutation.
- A task without `createdAt` would sort as the oldest (`TasksRoute.CreatedKey`). Stored rows always carry one, so where the database would place such a row is not modelled.
- JSX rendering, dialogs, skeletons, toasts, the `isUpdating`/`isDeleting`/`isSubmitting` flags and relative date formatting are not modelled. They are presentation and UI timing.
- `app/api/test/route.ts` is a constant response and is not modelled.
- ClientServer.ListView: an ok response whose parsed body has an unexpected shape counts as a failure here. The components pass on whatever parsed without checking it (components/dashboard.tsx:22-23, components/create-task-form.tsx:52-53); the collection endpoint never sends such a response. The same holds for ClientServer.CreatedView.
