/** Optional values: `None` stands for the Java `null` the editor passes around. */
module Wrappers {

  datatype Option<+T> = None | Some(value: T)
}
