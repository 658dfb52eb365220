/** The sentinel results of the geometry functions (`null`, an undefined index). */
module Wrappers {

  datatype Option<+T> = None | Some(value: T)
}
