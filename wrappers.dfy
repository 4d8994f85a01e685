/** Optional values, used for the operations of the model whose source throws. */
module Wrappers {

  datatype Option<+T> = None | Some(value: T)
}
