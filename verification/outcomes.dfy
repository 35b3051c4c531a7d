/** Values and completions of the JavaScript host, as far as the storage
    facades can observe them. */
module Outcomes {

  /** The error classes a storage call can raise. `OtherError` stands for any
      host error that is not one of the named classes. */
  datatype JsError = ReferenceError | SyntaxError | URIError | TypeError | OtherError

  /** How a call completes: it returns a value, or it throws. */
  datatype Outcome<+T> = Ok(value: T) | Throws(error: JsError) {

    predicate IsFailure() {
      Throws?
    }

    function PropagateFailure<U>(): Outcome<U>
      requires Throws?
    {
      Throws(error)
    }

    function Extract(): T
      requires Ok?
    {
      value
    }
  }

  /** A host lookup that may come back empty (`null` from `getItem`, no regex match). */
  datatype Option<+T> = None | Some(value: T)

  /** A host call without a result value (`setItem`, `removeItem`): it completes or throws. */
  datatype HostCall = Done | Fails(error: JsError)
}
