/** The error kinds a service surfaces to its callers. */
module Errors {
  import opened Wrappers

  /** Custom is the one error kind the services throw, carrying only a message;
      NotImplemented is what an unimplemented service operation throws. */
  datatype ServiceError = Custom(message: string) | NotImplemented

  /** The services' catch blocks: whatever the guarded block threw, its message is
      rethrown as a Custom error, unchanged; a completed block passes its value through. */
  function Rewrap<T>(outcome: Result<T, string>): (r: Result<T, ServiceError>)
    ensures r.Success? <==> outcome.Success?
    ensures outcome.Success? ==> r.value == outcome.value
    ensures outcome.Failure? ==> r.error == Custom(outcome.error)
  {
    match outcome
    case Success(v) => Success(v)
    case Failure(message) => Failure(Custom(message))
  }
}
