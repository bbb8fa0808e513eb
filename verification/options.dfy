/** Optional values, standing in for TypeScript's `undefined`-able fields
    and for the `undefined` that `Array.prototype.find` returns. */
module Options {

  datatype Option<+T> = None | Some(value: T)
}
