/** Optional values: an XML node or attribute that may be missing, a text that may be None. */
module Wrappers {

  datatype Option<+T> = None | Some(value: T)
}
