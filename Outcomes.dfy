/** Result and option values shared by the roll predicates and the spell catalog. */
module Outcomes {

  /** An optional value: JavaScript's `undefined`/`null` is `None`. */
  datatype Option<T> = None | Some(value: T)

  /** The outcome of a predicate that throws on an out-of-range parameter. */
  datatype Result<T> = Ok(value: T) | InvalidArgument(message: string)
}
