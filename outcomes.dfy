/** Optional values and the exceptions that the modelled code lets escape to its caller. */
module Outcomes {

  datatype Option<T> = None | Some(value: T)

  /** The uncaught exceptions of `validateGroups`. */
  datatype Failure =
    | MalformedGroupDn   // AttributeError: a memberOf value does not start with "CN="
    | MissingMemberOf    // KeyError: a search-result mapping has no 'memberOf' key

  datatype Result<T> = Ok(value: T) | Err(error: Failure)
}
