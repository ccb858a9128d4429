/**
 The create form (components/create-task-form.tsx): its fields, the guard
 that keeps a blank title from being sent, the POST body it builds, and what
 happens to the fields once the server has answered.
 */
module CreateTaskForm {
  import opened TaskModel
  import opened Text
  import opened Http

  datatype Form = Form(title: string, description: string, status: string)

  /** The fields as first shown, and as reset after a successful create. */
  const Initial: Form := Form("", "", Pending)

  const TitleRequiredMessage: string := "Title is required"

  /** A change the user makes: typing into the title input or the
      description textarea, or picking a status in the select. */
  datatype Input = TypeTitle(title: string) | TypeDescription(description: string) | PickStatus(choice: StatusChoice)

  function Enter(f: Form, i: Input): (r: Form)
    ensures i.TypeTitle? ==> r == f.(title := i.title)
    ensures i.TypeDescription? ==> r == f.(description := i.description)
    ensures i.PickStatus? ==> r == f.(status := i.choice.Value()) && IsValidStatus(r.status)
  {
    match i
    case TypeTitle(t) => f.(title := t)
    case TypeDescription(d) => f.(description := d)
    case PickStatus(c) => f.(status := c.Value())
  }

  /** The body `handleSubmit` posts: the title as typed, untrimmed; the
      description only when it is non-empty (`description || undefined`
      makes "" undefined, which `JSON.stringify` leaves out); the status. */
  function Payload(f: Form): (body: TaskFields)
    ensures body.title == Defined(f.title) && body.status == Defined(f.status)
    ensures body.description == Undefined <==> f.description == ""
    ensures body.description != Null
    ensures body.description.Defined? ==> body.description.value == f.description
  {
    TaskFields(Defined(f.title), if f.description == "" then Undefined else Defined(f.description), Defined(f.status))
  }

  datatype Submission = Refused(message: string) | Send(body: TaskFields)

  /** `handleSubmit` up to the request: a title that trims to "" is refused
      with a message and nothing is sent; any other form sends its payload.
      The title input is `required`, so the browser already blocks an empty
      title before `handleSubmit` runs; the message is shown only for a title
      of whitespace alone, and nothing is sent in either case. */
  function HandleSubmit(f: Form): (s: Submission)
    ensures s.Refused? <==> AllWs(f.title)
    ensures s.Refused? ==> s.message == TitleRequiredMessage
    ensures s.Send? ==> s.body == Payload(f)
  {
    if !Truthy(Trim(f.title)) then Refused(TitleRequiredMessage) else Send(Payload(f))
  }

  /** The fields after the request, and what `onTaskCreated` receives: on
      success the new task is passed up and the fields reset; on failure
      nothing is passed up and the entered values are kept. */
  function AfterCreate(f: Form, res: Fetched<Task>): (r: (Form, Option<Task>))
    ensures res.Ok? ==> r == (Initial, Some(res.value))
    ensures res.Failed? ==> r == (f, None)
  {
    match res
    case Ok(created) => (Initial, Some(created))
    case Failed => (f, None)
  }

  /** A user action: an input, or a submit together with the fate of the
      request it may send. */
  datatype Action = Change(input: Input) | Submit(res: Fetched<Task>)

  function Step(f: Form, a: Action): Form {
    match a
    case Change(i) => Enter(f, i)
    case Submit(res) =>
      if HandleSubmit(f).Refused? then f else AfterCreate(f, res).0
  }

  function Run(f: Form, actions: seq<Action>): Form
    decreases |actions|
  {
    if |actions| == 0 then f
    else Run(Step(f, actions[0]), actions[1..])
  }

  /** The status starts as pending and can only be set from the select, so
      whatever the user does, the form holds one of the three valid statuses. */
  lemma {:induction false} StatusStaysValid(f: Form, actions: seq<Action>)
    requires IsValidStatus(f.status)
    ensures IsValidStatus(Run(f, actions).status)
    decreases |actions|
  {
    if |actions| > 0 {
      StatusStaysValid(Step(f, actions[0]), actions[1..]);
    }
  }

  /** From the initial form, every sequence of actions leaves a valid status. */
  lemma ReachableStatusValid(actions: seq<Action>)
    ensures IsValidStatus(Run(Initial, actions).status)
  {
    StatusStaysValid(Initial, actions);
  }
}
