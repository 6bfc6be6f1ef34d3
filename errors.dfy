/**
 * The ways the scraper's steps fail. The source lets Python raise: a `find`
 * that returned nothing and was then used (`AttributeError`, `TypeError`), a
 * missing `value` attribute (`KeyError`), and its own `AuthError` and
 * `BadResponse`. Each becomes a value here.
 */
module Errors {
  import opened Dom

  datatype Failure =
    | NotFound(sel: Selector)       // a required element was not found
    | MissingValue(sel: Selector)   // the element was found but has no `value` attribute
    | AuthError                     // the login response did not set both session cookies
    | BadResponse                   // the login response status was not a success

  datatype Result<T> = Ok(value: T) | Err(error: Failure)

  /** The result of a step that returns nothing when it succeeds. */
  datatype Outcome = Pass | Fail(error: Failure)
}
