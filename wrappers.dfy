/** The optional value toJD produces: no Julian Date for a date the reform dropped. */
module Wrappers {

  datatype Option<+T> = None | Some(value: T)
}
