/** The optional result the source expresses with a null pointer or a missing map entry. */
module Wrappers {

  datatype Option<+T> = None | Some(value: T)

}
