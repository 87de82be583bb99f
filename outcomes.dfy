/** Values shared by every part of the model: optional values (a nullable column),
    the Python exceptions the core lets escape, and what a sync gives back. */
module Outcomes {

  /** A nullable column or JSON field: `None` is Python's `None`. */
  datatype Option<T> = None | Some(value: T)

  /** The exceptions the reconciliation code can raise and never catches. */
  datatype Error =
    | AttributeError          // `None.split(...)`: the member's TwitterUser has no token
    | IndexError              // indexing past the end of a list
    | MultipleObjectsReturned // `get_or_create` found more than one matching row

  /** A value, or the exception raised while computing it. */
  datatype Result<T> = Success(value: T) | Failure(error: Error)

  /** What a sync call gives its caller: the `{"status": ...}` dictionary it
      returns, or the exception that escaped from it. */
  datatype Outcome = Returned(status: int) | Raised(error: Error)
}
