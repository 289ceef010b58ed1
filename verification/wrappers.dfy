/** Optional values: spreadsheet cells that may be absent (pandas NaN) and
    settings that may be unset. */
module Wrappers {

  datatype Option<+T> = None | Some(value: T)
}
