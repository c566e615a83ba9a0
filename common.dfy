/** Optional values and results with an error, used where Go returns a
    nil pointer or an (value, error) pair. */
module Common {

  datatype Option<+T> = None | Some(value: T)

  datatype Result<+T, +E> = Ok(value: T) | Err(error: E)
}
