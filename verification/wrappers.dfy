/** Optional values, standing in for the `undefined` / `null` that the
    application stores in optional record fields. */
module Wrappers {

  datatype Option<+T> = None | Some(value: T)
}
