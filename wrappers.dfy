// Small value wrappers shared by every module of the model.
module Wrappers {
  /** A value that may be absent: a null pointer, an empty std::optional, a missing map entry. */
  datatype Option<T> = None | Some(value: T)
}
