/** Failure-carrying results shared by every module of the model.

    The original program signals failure by raising exceptions; here an
    operation that can raise returns a `Result`, and the exceptions it can
    raise are the cases of `Error`. */
module Wrappers {

  /** A value that may be absent (Python's `None`). */
  datatype Option<+T> = None | Some(value: T) {

    /** The carried value, or `default` when absent. */
    function GetOr(default: T): T {
      match this
      case Some(v) => v
      case None => default
    }
  }

  /** The exceptions the modelled code raises or lets through. */
  datatype Error =
    | ValueError(message: string)
      /** A collaborator outside the model (OCR client, LLM client) raised. */
    | CollaboratorFailure

  /** Either the value an operation returns or the exception it raises. */
  datatype Result<+T> = Ok(value: T) | Err(error: Error)
}
