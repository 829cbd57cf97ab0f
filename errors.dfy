/** The failures the containers raise, as values instead of C++ exceptions. */
module Errors {

  /** The exceptions thrown by the heap ("Heap is Full", "Heap is Empty") and the queue ("Queue is empty"). */
  datatype Error = HeapFull | HeapEmpty | QueueEmpty

  /** The result of an operation that either returns a value or throws. */
  datatype Result<+T> = Success(value: T) | Failure(error: Error)

  /** The result of an operation that returns nothing or throws. */
  datatype Outcome = Pass | Fail(error: Error)
}
