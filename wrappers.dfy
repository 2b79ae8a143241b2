/** Option and Outcome: the C# `null` reference and the thrown exception of the
    modelled code, made explicit. */
module Wrappers {

  /** A value that may be absent; `None` stands for a C# `null`. */
  datatype Option<+T> = None | Some(value: T)

  /** The result of a call that either returns normally or throws. */
  datatype Outcome<+T, +E> = Returned(value: T) | Threw(error: E)
}
