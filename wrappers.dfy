/** Option and Result, used for absent roots and for expressions the type layer rejects. */
module Wrappers {

  datatype Option<+T> = None | Some(value: T)

  /** `Err(msg)` stands for a program the C++ compiler refuses; `msg` is the reason
      (the text of a `static_assert`, or the rule that has no instance). */
  datatype Result<+T> = Ok(value: T) | Err(msg: string)
}
