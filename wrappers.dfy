/** The optional value used for slots that may hold `null` and for results
    that may be `undefined`. */
module Wrappers {

  datatype Option<+T> = None | Some(value: T)
}
