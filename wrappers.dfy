/** Optional values and fallible results, as the Rust code uses `Option` and
    `Result`. An error carries the text its `to_string()` would print, which is
    all the program ever does with an error. */
module Wrappers {

  datatype Option<+T> = None | Some(value: T)

  datatype Result<+T> = Ok(value: T) | Err(message: string)
}
