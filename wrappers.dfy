/** The optional value used where the dashboard code can produce "no number" (NaN). */
module Wrappers {

  datatype Option<+T> = None | Some(value: T)
}
