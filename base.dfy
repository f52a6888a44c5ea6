/** Shared vocabulary of the interpreter model: optional values, the error
    kinds an evaluation can end in, and results that carry either. */
module Base {

  datatype Option<+T> = None | Some(value: T)

  /** The three error kinds of the interpreter (errors.h), plus the ways the
      C++ program fails outside that taxonomy. */
  datatype Error =
    | SyntaxError
    | NameError
    | RuntimeError
      /** The source dereferences a null pointer, overflows int64 or divides
          by zero here: undefined behaviour, not a typed error. */
    | Undefined
      /** `eq?`, `equal?` and `integer-equal?` throw a plain std::runtime_error. */
    | NotImplemented
      /** The model's bound was reached: evaluation fuel ran out, or a walk
          along a chain of cells visited more cells than the store holds
          (the chain is cyclic and the source does not terminate). */
    | OutOfFuel

  datatype Result<+T> = Ok(value: T) | Err(error: Error)

  /** The range of the source's `int64_t`. */
  const INT64_MIN: int := -0x8000_0000_0000_0000
  const INT64_MAX: int := 0x7fff_ffff_ffff_ffff

  predicate InInt64(x: int) {
    INT64_MIN <= x <= INT64_MAX
  }
}
