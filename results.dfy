/** Optional values and results with an error, used wherever the JavaScript
    code either returns null or throws. */
module Results {

  datatype Option<+T> = None | Some(value: T)

  datatype Result<+T, +E> = Ok(value: T) | Err(error: E)
}
