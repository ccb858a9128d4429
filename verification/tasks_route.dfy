/**
 The collection endpoint `/api/tasks` (app/api/tasks/route.ts): GET lists the
 caller's tasks newest first, POST validates and stores a new one. The store
 is a sequence of rows, the caller is the user id the identity provider
 resolved (`null` when nobody is signed in), and each handler returns a status
 code with a JSON body; POST also returns the store as it leaves it.
 */
module TasksRoute {
  import opened TaskModel
  import opened Text
  import opened Http

  /** The task table, in insertion order. */
  type Store = seq<Task>

  /** What the store fills in when it inserts a row: the generated id and the
      insertion time. The database schema is not part of this model; that it
      stamps `createdAt` and `updatedAt` with the same insertion time is an
      assumption. */
  datatype RowDefaults = RowDefaults(id: string, now: Timestamp)

  datatype PostOutcome = PostOutcome(response: Response, store: Store)

  const LoginToView: string := "You must be logged in to view tasks"
  const LoginToCreate: string := "You must be logged in to create tasks"
  const UserIdNotFound: string := "User ID not found"
  const TitleRequired: string := "Title is required"
  const StatusInvalid: string := "Status must be one of: pending, in-progress, completed"
  const CreateFailed: string := "Failed to create task"

  /** What `isAuthenticated()` evaluates to when it is called without `await`:
      a promise of the answer, not the answer. */
  datatype Promise<+T> = Promise(settled: T)

  function IsAuthenticated(caller: Option<string>): Promise<bool> {
    Promise(OptionTruthy(caller))
  }

  /** JavaScript truthiness of an object: a promise is truthy whatever it
      will settle to, so `!isAuthenticated()` is always false. */
  predicate PromiseTruthy<T>(p: Promise<T>) {
    true
  }

  // ---------------------------------------------------------------------
  // GET

  /** The key the listing is ordered by. Every row the store holds carries a
      `createdAt`; a task without one would sort as the oldest. */
  function CreatedKey(t: Task): int {
    match t.createdAt
    case Some(c) => c
    case None => -1
  }

  /** Ordered by `createdAt` descending: newest first. */
  predicate NewestFirst(s: seq<Task>) {
    forall i, j :: 0 <= i < j < |s| ==> CreatedKey(s[j]) <= CreatedKey(s[i])
  }

  /** `list` holds exactly the rows of `store` owned by `uid`, each as often as
      the store holds it, and no row of another owner. */
  ghost predicate ExactlyOwned(list: seq<Task>, store: Store, uid: string) {
    forall t :: multiset(list)[t] == if t.userId == uid then multiset(store)[t] else 0
  }

  /** The `where: { userId }` filter of the query, keeping store order. */
  function OwnedBy(store: Store, uid: string): (r: seq<Task>)
    ensures ExactlyOwned(r, store, uid)
  {
    if |store| == 0 then []
    else
      assert store == [store[0]] + store[1..];
      var rest := OwnedBy(store[1..], uid);
      if store[0].userId == uid then [store[0]] + rest else rest
  }

  /** Inserts `t` into a newest-first list, before the first row no newer than it. */
  function InsertByDate(t: Task, s: seq<Task>): (r: seq<Task>)
    requires NewestFirst(s)
    ensures NewestFirst(r)
    ensures multiset(r) == multiset(s) + multiset{t}
    ensures r[0] == t || r[0] == s[0]
  {
    if |s| == 0 then [t]
    else if CreatedKey(s[0]) <= CreatedKey(t) then [t] + s
    else
      assert s == [s[0]] + s[1..];
      var rest := InsertByDate(t, s[1..]);
      assert CreatedKey(rest[0]) <= CreatedKey(s[0]);
      [s[0]] + rest
  }

  /** The `orderBy: { createdAt: "desc" }` of the query: a newest-first
      permutation of its input. Rows with equal timestamps keep no particular
      order in the store, and none is promised here. */
  function SortNewestFirst(s: seq<Task>): (r: seq<Task>)
    ensures NewestFirst(r)
    ensures multiset(r) == multiset(s)
  {
    if |s| == 0 then []
    else
      assert s == [s[0]] + s[1..];
      InsertByDate(s[0], SortNewestFirst(s[1..]))
  }

  /** GET /api/tasks. The `isAuthenticated()` guard never fires, so a caller
      with no user id gets "User ID not found"; any other caller gets exactly
      their own tasks, newest first, with status 200. */
  function Get(store: Store, caller: Option<string>): (r: Response)
    ensures r.body != ErrorBody(LoginToView)
    ensures !OptionTruthy(caller) ==> r == Response(401, ErrorBody(UserIdNotFound))
    ensures OptionTruthy(caller) ==>
      && r.status == 200 && r.body.TaskListBody?
      && ExactlyOwned(r.body.tasks, store, caller.value)
      && NewestFirst(r.body.tasks)
  {
    if !PromiseTruthy(IsAuthenticated(caller)) then
      Response(401, ErrorBody(LoginToView))
    else if !OptionTruthy(caller) then
      Response(401, ErrorBody(UserIdNotFound))
    else
      Response(200, TaskListBody(SortNewestFirst(OwnedBy(store, caller.value))))
  }

  // ---------------------------------------------------------------------
  // POST

  /** A title `!body.title || body.title.trim() === ""` rejects: missing,
      null, or nothing but whitespace (the empty string included). */
  predicate BlankTitle(title: Field<string>) {
    !title.Defined? || AllWs(title.value)
  }

  /** A status the create handler refuses: given, non-empty, and none of the
      three valid values. An absent, null or empty status is not checked. */
  predicate StatusRejected(status: Field<string>) {
    FieldTruthy(status) && !IsValidStatus(status.value)
  }

  /** The store already holds a row with this id. */
  predicate IdTaken(store: Store, id: string) {
    exists i :: 0 <= i < |store| && store[i].id == id
  }

  /** `body.description ? body.description.trim() : null`: a falsy description
      is stored as null, any other is trimmed, so one made only of whitespace
      is stored as "" and not as null. */
  function StoredDescription(d: Field<string>): (r: Field<string>)
    ensures r.Null? <==> !FieldTruthy(d)
    ensures FieldTruthy(d) ==> r == Defined(Trim(d.value))
    ensures r.Defined? ==> Tight(r.value)
    ensures r.Defined? && AllWs(d.value) ==> r.value == ""
  {
    if FieldTruthy(d) then Defined(Trim(d.value)) else Null
  }

  /** `body.status || "pending"`: a falsy status defaults to pending, any
      other is kept as given, so an accepted status is always valid. */
  function StoredStatus(s: Field<string>): (r: string)
    ensures !FieldTruthy(s) ==> r == Pending
    ensures FieldTruthy(s) ==> r == s.value
    ensures !StatusRejected(s) ==> IsValidStatus(r)
  {
    if FieldTruthy(s) then s.value else Pending
  }

  /** The row the create handler asks the store for, with the defaults the
      store fills in. */
  function NewRow(fields: TaskFields, uid: string, row: RowDefaults): (t: Task)
    requires fields.title.Defined?
    ensures t.id == row.id && t.userId == uid
    ensures t.createdAt == Some(row.now) && t.updatedAt == Some(row.now)
    ensures t.title == Trim(fields.title.value)
    ensures t.description == StoredDescription(fields.description)
    ensures t.status == StoredStatus(fields.status)
  {
    Task(row.id, Trim(fields.title.value), StoredDescription(fields.description),
         StoredStatus(fields.status), uid, Some(row.now), Some(row.now))
  }

  /** POST /api/tasks. `body` is `None` when the request body is not valid
      JSON; `row` is what the store would generate for a new row. The
      `isAuthenticated()` guard never fires; a caller with no user id gets 401
      before the body is read; then the title, then the status is checked;
      a store failure (here: a clash with an existing id) is a 500. Only a 201
      changes the store, by adding exactly the returned task. */
  function Post(store: Store, caller: Option<string>, body: Option<TaskFields>, row: RowDefaults): (out: PostOutcome)
    ensures out.response.body != ErrorBody(LoginToCreate)
    ensures !OptionTruthy(caller) ==>
      out == PostOutcome(Response(401, ErrorBody(UserIdNotFound)), store)
    ensures OptionTruthy(caller) && body.Some? && BlankTitle(body.value.title) ==>
      out == PostOutcome(Response(400, ErrorBody(TitleRequired)), store)
    ensures OptionTruthy(caller) && body.Some? && !BlankTitle(body.value.title) && StatusRejected(body.value.status) ==>
      out == PostOutcome(Response(400, ErrorBody(StatusInvalid)), store)
    ensures OptionTruthy(caller) && body.None? ==>
      out == PostOutcome(Response(500, ErrorBody(CreateFailed)), store)
    ensures OptionTruthy(caller) && body.Some? && !BlankTitle(body.value.title)
            && !StatusRejected(body.value.status) && IdTaken(store, row.id) ==>
      out == PostOutcome(Response(500, ErrorBody(CreateFailed)), store)
    ensures out.response.status == 201 <==>
      && OptionTruthy(caller) && body.Some?
      && !BlankTitle(body.value.title) && !StatusRejected(body.value.status)
      && !IdTaken(store, row.id)
    ensures out.response.status != 201 ==> out.store == store && out.response.body.ErrorBody?
    ensures out.response.status == 201 ==>
      && out.response.body.TaskBody?
      && out.store == store + [out.response.body.task]
      && out.response.body.task == NewRow(body.value, caller.value, row)
      && IsValidStatus(out.response.body.task.status)
      && out.response.body.task.title != ""
  {
    if !PromiseTruthy(IsAuthenticated(caller)) then
      PostOutcome(Response(401, ErrorBody(LoginToCreate)), store)
    else if !OptionTruthy(caller) then
      PostOutcome(Response(401, ErrorBody(UserIdNotFound)), store)
    else if body.None? then
      PostOutcome(Response(500, ErrorBody(CreateFailed)), store)
    else if !FieldTruthy(body.value.title) || Trim(body.value.title.value) == "" then
      PostOutcome(Response(400, ErrorBody(TitleRequired)), store)
    else if FieldTruthy(body.value.status) && !IsValidStatus(body.value.status.value) then
      PostOutcome(Response(400, ErrorBody(StatusInvalid)), store)
    else if IdTaken(store, row.id) then
      PostOutcome(Response(500, ErrorBody(CreateFailed)), store)
    else
      var task := NewRow(body.value, caller.value, row);
      PostOutcome(Response(201, TaskBody(task)), store + [task])
  }
}
