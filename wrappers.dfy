/** The optional value used for Java's nullable references and for failing lookups. */
module Wrappers {

  datatype Option<+T> = None | Some(value: T)

}
