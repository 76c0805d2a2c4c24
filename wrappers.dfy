/** Option for results of Python calls that may raise: None stands for the exception. */
module Wrappers {
  datatype Option<+T> = None | Some(value: T)
}
