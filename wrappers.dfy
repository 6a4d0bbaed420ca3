/** Optional values: ElementTree's `.text` and `attrib.get(...)` may be `None`. */
module Wrappers {
  datatype Option<+T> = None | Some(value: T)
}
