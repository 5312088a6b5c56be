/** The optional result of a lookup: `bool search(x, result)` of `hashtable.h` returns
    `false`, or `true` together with the value written to `result`. */
module Wrappers {

  datatype Option<+T> = None | Some(value: T)
}
