/** The optional value used for results that may be missing: a file that does
    not exist, or a command that exited with a non-zero status. */
module Wrappers {

  datatype Option<+T> = None | Some(value: T)

}
