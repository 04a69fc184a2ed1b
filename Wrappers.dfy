/** Optional values and error results shared by the containers and the path finders.
    `None` stands for Java's `null` return; `Failure` for a thrown exception. */
module Wrappers {

  datatype Option<+T> = None | Some(value: T)

  datatype Result<+R, +E> = Success(value: R) | Failure(error: E)

  /** The outcome of a `void` Java method that may throw. */
  datatype Status<+E> = Done | Thrown(error: E)

  /** The exceptions the hand-written containers and the stream queries throw. */
  datatype ContainerError =
    | EmptyList                           // EmptyListException
    | EmptyStack                          // EmptyStackException
    | InvalidIndex(index: int, size: int) // InvalidIndexException, with the values its message reports
    | IllegalArgument                     // IllegalArgumentException: a null node, or a negative stream `limit`
}
