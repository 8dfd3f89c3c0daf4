/** Optional values: `None` stands for a missing cell (pandas NaN) or for a
    loader that gave up (Python `None`). */
module Wrappers {

  datatype Option<+T> = None | Some(value: T)
}
