/** The "value or nothing" result that Python expresses by returning None. */
module Wrappers {

  datatype Option<+T> = None | Some(value: T)

}
