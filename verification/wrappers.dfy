/** The optional value used for nullable state (`string | null`, `Array.find`'s
    `undefined`, a timer handle that may be absent). */
module Wrappers {

  datatype Option<+T> = None | Some(value: T)

}
