/** Optional values: the model's stand-in for "field absent", a null reference and a failed lookup. */
module Wrappers {

  datatype Option<+T> = None | Some(value: T)
}
