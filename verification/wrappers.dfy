/** The conventional optional value, used for the timeout handle variable
    (undefined until the first timeout is scheduled) and for trace steps
    that are not enabled. */
module Wrappers {

  datatype Option<+T> = None | Some(value: T)

}
