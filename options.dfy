/** Optional values: JavaScript's `undefined` beside a present value. */
module Options {
  datatype Option<+T> = None | Some(value: T)
}
