/** Result shapes shared by the library model: a value that may be absent
    (Python's `None`) and the outcome of an operation that may raise. */
module Outcomes {

  /** A value that may be missing, as `find_book` or `dict.get` return. */
  datatype Option<T> = None | Some(value: T)

  /** An operation that either completes or raises the error it carries. */
  datatype Outcome<E> = Pass | Fail(error: E)
}
