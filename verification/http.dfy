/**
 The shape of what the handlers return (`NextResponse.json(body, {status})`)
 and of what a client component makes of a `fetch`.
 */
module Http {
  import opened TaskModel

  /** The JSON body of a response: one task, a list of tasks, or `{error}`. */
  datatype Body = TaskBody(task: Task) | TaskListBody(tasks: seq<Task>) | ErrorBody(error: string)

  datatype Response = Response(status: int, body: Body)

  /** `Response.ok`: the status is in the range 200-299. */
  predicate IsOk(status: int) {
    200 <= status <= 299
  }

  /** What a component's `try` block ends with: the parsed body of an ok
      response, or `Failed` for everything its `catch` handles (a non-ok
      status, which it rethrows, a network error, or an unparsable body).
      The components do not check the shape of a parsed body; the views in
      `ClientServer` treat an ok response of an unexpected shape as a
      failure, which the collection endpoint never sends. */
  datatype Fetched<+T> = Ok(value: T) | Failed
}
