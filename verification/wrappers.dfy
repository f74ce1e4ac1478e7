/** Optional values: `None` stands for a Python call that raises, or a
    `re.search` that finds nothing. */
module Wrappers {

  datatype Option<+T> = None | Some(value: T)
}
