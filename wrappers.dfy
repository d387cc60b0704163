/** The optional value used where the importer has `None` or a falsy value. */
module Wrappers {

  datatype Option<+T> = None | Some(value: T)
}
