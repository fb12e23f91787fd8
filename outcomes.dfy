/** Values shared by the two modules: an optional value, and the outcome of calling
    a Python callable, which either returns a value or raises an exception. */
module Outcomes {

  /** Python's `Optional[T]`: `None` or a value. */
  datatype Option<T> = None | Some(value: T)

  /** The class of a raised exception, as far as the handlers in the model can tell. */
  datatype Exc =
    | TypeError                  // `TypeError` or one of its subclasses
    | OtherError(name: string)   // any other subclass of `Exception`
    | BaseExit(name: string)     // a `BaseException` outside `Exception` (`KeyboardInterrupt`, `SystemExit`, ...)

  /** True iff `except Exception` catches `e`. */
  predicate IsException(e: Exc) {
    !e.BaseExit?
  }

  /** What a call of a Python callable does: return a value or raise. */
  datatype Outcome<T> = Returned(value: T) | Raised(exc: Exc)
}
