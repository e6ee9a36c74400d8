/** The optional value used for JavaScript's `null`/`undefined` and for a
    failed lookup or parse. */
module Wrappers {

  datatype Option<+T> = None | Some(value: T)

}
