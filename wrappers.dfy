/** Optional values, used for attributes that a syntax node may lack. */
module Wrappers {

  datatype Option<+T> = None | Some(value: T)

}
