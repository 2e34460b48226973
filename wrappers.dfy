/** The optional value used where the widget's JavaScript returns `undefined`, `null` or -1. */
module Wrappers {

  datatype Option<T> = None | Some(value: T)

}
