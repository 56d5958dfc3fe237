/** The optional value used for the command line's optional arguments and for
    `Path::parent`, which may have no answer. */
module Wrappers {

  datatype Option<+T> = None | Some(value: T)
}
