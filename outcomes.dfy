/** Outcome types shared by the whole model: Kotlin's nullable types, a call that
    returns or throws, the log of the callbacks a combinator invokes, and the
    outcome of a require-or-escape combinator. */
module Outcomes {

  /** A Kotlin `T?`: `null`, or a non-null value. */
  datatype Nullable<T> = Null | NonNull(get: T)

  /** What a call produces: the value it returns, or the exception it throws. */
  datatype Result<T, E> = Ok(value: T) | Err(error: E)

  /** What a callback combinator produces: the value it returns, and the arguments
      its blocks were invoked with, in invocation order. A block that was not
      invoked leaves no entry. */
  datatype Run<T, C> = Run(value: T, calls: seq<C>)

  /** What a `require*` combinator produces: the requested value, or the argument
      its escape block (whose Kotlin result type is `Nothing`) was invoked with.
      An escape never returns to the combinator, so it is invoked at most once. */
  datatype Required<T, W> = Returned(value: T) | Escaped(arg: W)
}
