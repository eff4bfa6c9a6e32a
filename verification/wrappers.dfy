/** The optional value used wherever a C function returns a null pointer or
    leaves an output unset. */
module Wrappers {

  datatype Option<+T> = None | Some(value: T)
}
