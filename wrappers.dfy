/** Optional values: a C# reference that may be null, a lookup that may miss. */
module Wrappers {

  datatype Option<+T> = None | Some(value: T)
}
