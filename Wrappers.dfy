/** Optional values: a path parameter that may fail to parse, a request body that may fail to decode. */
module Wrappers {

  datatype Option<+T> = None | Some(value: T)

}
