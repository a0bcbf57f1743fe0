/** Values shared by every part of the test runner. */
module Outcomes {

  datatype Option<T> = None | Some(value: T)

  /** An argument vector handed to the process runner, executable first. */
  type Command = seq<string>

  /**
   * What one call of the process runner can do: the child exits with status
   * zero, exits with another status, or spawning it raises. The first two
   * carry the captured output; a raise produces none.
   */
  datatype Outcome = Success(output: string) | Failure(output: string) | Raised
}
