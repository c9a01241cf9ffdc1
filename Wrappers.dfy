/** Optional values, used where the source answers "nothing" with a sentinel or by dropping an item. */
module Wrappers {

  datatype Option<T> = None | Some(value: T)

}
