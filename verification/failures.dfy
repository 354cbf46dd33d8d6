/** Error outcomes of the command-line client.

    Every exception the Python code lets escape becomes a `Failure` value here,
    so an operation that can abort returns a `Result`.
 */
module Failures {

  /** The exceptions the client can raise, by cause. */
  datatype Error =
    | InvalidLiteral             // ValueError from int(s, 16)
    | InvalidInputs              // parse_inputs rejected a user input
    | CompilationFailed          // the Cairo compiler rejected a source file
    | GatewayRejected            // the gateway refused a transaction
    | MissingManifest            // manifest.json absent: iterating over None
    | MissingArtifacts           // artifacts.json absent: iterating over None
    | UnknownContract(contract: string)  // StopIteration from the artifact lookup
    | UnknownAccount(account: string)    // KeyError from the account map

  /** A value or the error that aborted its computation; usable with `:-`. */
  datatype Result<+T> = Success(value: T) | Failure(error: Error) {

    predicate IsFailure() {
      Failure?
    }

    function PropagateFailure<U>(): Result<U>
      requires Failure?
    {
      Failure(error)
    }

    function Extract(): T
      requires Success?
    {
      value
    }
  }

  datatype Option<+T> = None | Some(value: T)

  /** Turns an absent value into the given error. */
  function Need<T>(o: Option<T>, e: Error): Result<T>
  {
    match o
    case Some(v) => Success(v)
    case None => Failure(e)
  }
}
