/** Value types shared by the broadcast model. */
module Base {

  /** One octet of a Node.js Buffer. */
  type byte = x: int | 0 <= x < 256

  datatype Option<T> = None | Some(value: T)

  datatype Result<T, E> = Ok(value: T) | Err(error: E)
}
