/** The optional value used in place of a null `shared_ptr` or a failed lookup. */
module Wrappers {

  datatype Option<+T> = None | Some(value: T)

}
