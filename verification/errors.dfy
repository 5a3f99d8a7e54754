/** The three error values of the queue and the success/failure results its operations return. */
module Errors {

  /** The queue's error kinds; each is a plain value returned to the caller, never a fault. */
  datatype Error = QueueEmpty | ItemNotFound | ItemExists

  /** The text each error reports through its Error() method. */
  function Message(e: Error): string
  {
    match e
    case QueueEmpty => "queue is empty"
    case ItemNotFound => "item not found in the queue"
    case ItemExists => "item already exists in the queue"
  }

  /** Outcome of an operation that returns only an error or nil. */
  datatype Outcome = Pass | Fail(error: Error)

  /** Outcome of an operation that returns a value or an error. */
  datatype Result<R> = Success(value: R) | Failure(error: Error)
}
