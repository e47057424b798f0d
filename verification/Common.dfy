/** Small datatypes shared by every part of the model. */
module Common {

  /** An optional value. */
  datatype Option<+T> = None | Some(value: T)

  /** The result of an operation that can fail. */
  datatype Result<+T, +E> = Ok(value: T) | Err(error: E)

  function ErrorOf<T, E>(r: Result<T, E>): Option<E>
  {
    match r
    case Ok(_) => None
    case Err(e) => Some(e)
  }

  /** How far several steps got: what they have changed by then, and the error that stopped them, if any. */
  datatype Progress<+S, +E> = Progress(state: S, error: Option<E>)

  /** The colour of a node in the depth-first searches; absence from the map is "not visited". */
  datatype VisitState = Visiting | Done
}
