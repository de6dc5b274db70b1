/** Failure-carrying values shared by the formatting engine. */
module Results {

  datatype Option<T> = None | Some(value: T)

  datatype Result<T, E> = Success(value: T) | Failure(error: E)

  /** The two ways the engine refuses an argument: `round`
      (pretty-numbers.js:54) and `pretty` (pretty-numbers.js:101) each throw a
      plain `Error` with its own message. */
  datatype Error =
    | OutOfRange     // a tier's `round` was given a value outside that tier
    | NotANumber     // `pretty` was given neither a number nor a numeric string
}
