/** Optional values and results with an error, used where the application
    reads a nullable field or receives an error object from a remote call. */
module Options {

  datatype Option<T> = None | Some(value: T)

  datatype Result<T, E> = Ok(value: T) | Err(error: E)
}
