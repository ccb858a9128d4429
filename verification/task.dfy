/**
 The task record shared by the server handlers and the client components
 (types/task.ts), the JSON field shapes it is sent in, and the three status
 values the application recognises.
 */
module TaskModel {

  datatype Option<+T> = None | Some(value: T)

  /** A JSON property of TypeScript type `T | null`, which may also be left
      out of the object altogether (`undefined`). */
  datatype Field<+T> = Undefined | Null | Defined(value: T)

  /** Milliseconds since the epoch, assigned by the store. */
  type Timestamp = nat

  /** `status` is a free string here, exactly as in the TypeScript type; which
      strings are acceptable is the predicate `IsValidStatus`. */
  datatype Task = Task(
    id: string,
    title: string,
    description: Field<string>,
    status: string,
    userId: string,
    createdAt: Option<Timestamp>,
    updatedAt: Option<Timestamp>)

  /** The JSON body `{title?, description?, status?}` a client sends to create
      (POST) or update (PUT) a task. */
  datatype TaskFields = TaskFields(title: Field<string>, description: Field<string>, status: Field<string>)

  const Pending: string := "pending"
  const InProgress: string := "in-progress"
  const Completed: string := "completed"

  /** The list both the create handler and the status selects use, in order. */
  const ValidStatuses: seq<string> := [Pending, InProgress, Completed]

  predicate IsValidStatus(s: string) {
    s in ValidStatuses
  }

  /** The three options of the status `<Select>` in the create and edit forms. */
  datatype StatusChoice = ChoosePending | ChooseInProgress | ChooseCompleted {
    function Value(): (s: string)
      ensures IsValidStatus(s)
    {
      match this
      case ChoosePending => Pending
      case ChooseInProgress => InProgress
      case ChooseCompleted => Completed
    }
  }

  /** Every valid status is offered by exactly one select option. */
  lemma ChoicesCoverValidStatuses(s: string)
    requires IsValidStatus(s)
    ensures exists c: StatusChoice :: c.Value() == s
    ensures forall c: StatusChoice, d: StatusChoice :: c.Value() == s && d.Value() == s ==> c == d
  {
    if s == Pending {
      assert ChoosePending.Value() == s;
    } else if s == InProgress {
      assert ChooseInProgress.Value() == s;
    } else {
      assert ChooseCompleted.Value() == s;
    }
  }

  /** JavaScript truthiness of a string: only "" is falsy. */
  predicate Truthy(s: string) {
    s != ""
  }

  /** Truthiness of a `string | null | undefined` property. */
  predicate FieldTruthy(f: Field<string>) {
    f.Defined? && Truthy(f.value)
  }

  /** Truthiness of a `string | null` value such as a resolved user id. */
  predicate OptionTruthy(o: Option<string>) {
    o.Some? && Truthy(o.value)
  }
}
