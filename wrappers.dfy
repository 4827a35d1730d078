/** A value that may be absent: the model's stand-in for Go's `(value, ok)`
    and `(value, err)` pairs where only the presence matters. */
module Wrappers {

  datatype Option<+T> = None | Some(value: T)

}
