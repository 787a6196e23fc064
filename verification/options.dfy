/** Optional values: `None` stands for JavaScript's `undefined` and `null`. */
module Options {

  datatype Option<+T> = None | Some(value: T)
}
