/** An optional value: the model of a table cell that may hold NaN. */
module Wrappers {

  datatype Option<+T> = None | Some(value: T)

}
