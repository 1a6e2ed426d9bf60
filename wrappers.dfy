/** The nullable values of the station ("a float or None") as an Option. */
module Wrappers {

  datatype Option<+T> = None | Some(value: T)

}
