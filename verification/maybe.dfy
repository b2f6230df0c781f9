/**
  The two sum types through which the other modules report a value that may
  be missing (`Option`) or a computation that may fail (`Result`).
 */
module Maybe {

  /** A value that may be absent: a file that could not be read, a process not spawned. */
  datatype Option<T> = None | Some(value: T)

  /** A computed value, or the error that stopped the computation. */
  datatype Result<T, E> = Ok(value: T) | Err(error: E)
}
