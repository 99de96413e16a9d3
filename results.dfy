/** Optional values and results with an error value, used for the parser's
    failure points (where `parse_iis_log` raises, the model returns an `Err`). */
module Results {

  datatype Option<+T> = None | Some(value: T)

  datatype Result<+T, +E> = Ok(value: T) | Err(error: E)
}
