/** Small result types shared by the ingestion model. */
module Wrappers {

  datatype Option<+T> = None | Some(value: T)

  /** The outcome of a Python call that may raise: either the value it
      returned or the message of the exception it raised. */
  datatype Attempt<+T> = Returned(value: T) | Raised(message: string)
}
