/** Optional values: a JavaScript `string | null`, or a rendering that may fail. */
module Wrappers {

  datatype Option<+T> = None | Some(value: T)
}
