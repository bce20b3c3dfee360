/** Option, standing in for Java's nullable references and for
    operations that return null on failure. */
module Wrappers {

  datatype Option<+T> = None | Some(value: T)
}
