/** Failure-carrying wrappers shared by the whole model. */
module Wrappers {

  /** std::optional: a present value or nullopt. */
  datatype Option<+T> = None | Some(value: T)

  /** The outcome of a library call that may throw a C++ exception:
      it either returns a value or throws (the exception's type does not matter,
      every catch in the source is `catch (...)`). */
  datatype Attempt<+T> = Returned(value: T) | Threw
}
