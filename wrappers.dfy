/** The optional value returned by the content lookups (JavaScript's `undefined` on a miss). */
module Wrappers {

  datatype Option<+T> = None | Some(value: T)

}
