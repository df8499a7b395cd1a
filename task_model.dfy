/** The records the task controller reads and writes, and the outcomes it
    reports. */
module TaskModel {

  datatype Option<T> = None | Some(value: T)

  /** Document identifiers; the store hands them out and never reuses one. */
  type Id = nat

  /** A task's status: the schema's two-value enum. */
  datatype Status = Active | Complete

  /** A task document. `createdAt` and `completedAt` are time values in
      milliseconds; `completedAt` is `None` while the document holds null. */
  datatype Task = Task(
    id: Id,
    title: string,
    status: Status,
    createdAt: int,
    completedAt: Option<int>)

  /** What a handler reports: a value (HTTP 200 or 201), an unknown id
      (HTTP 404) or a failure thrown by the storage layer (HTTP 500). */
  datatype Outcome<T> = Ok(value: T) | NotFound | SystemFailure

  /** The body of a successful list request. */
  datatype Listing = Listing(tasks: seq<Task>, activeCount: nat, completeCount: nat)
}
