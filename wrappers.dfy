/** The "no value" results of the original program (Python's None, and a
    parse that raises) as explicit datatypes. */
module Wrappers {

  datatype Option<+T> = None | Some(value: T)

  datatype Result<+T, +E> = Ok(value: T) | Err(error: E)
}
