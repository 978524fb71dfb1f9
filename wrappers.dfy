/** A value that may be absent: a `localStorage.getItem` result (null or a string)
    or an attribute read with `getAttribute` (null or its value). */
module Wrappers {

  datatype Option<+T> = None | Some(value: T)

}
