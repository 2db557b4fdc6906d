// Error kinds of the exception hierarchy (BaseException and its five
// subclasses) and the result wrappers that replace throwing.
module Errors {

  /** Why a CommandExecutionException was raised. */
  datatype Reason =
    | AlreadyMember    // "User already belong in that group"
    | Disabled         // "User is disabled"
    | NoSuchGroup      // "Group does not exist"
    | NotMember        // "User doesn't belong in that group"
    | ParseFailed(at: nat)  // a line the tokenizer rejected, with the failing offset

  datatype Error =
    | InvalidCommand(name: string)
    | InvalidArgument
    | UserNotFound(user: string)
    | UserAlreadyExists(user: string)
    | CommandExecution(reason: Reason)

  datatype Result<+T> = Success(value: T) | Failure(error: Error)

  datatype Option<+T> = None | Some(value: T)

  /** The result of an operation that returns nothing but may throw. */
  datatype Outcome = Pass | Fail(error: Error)
}
