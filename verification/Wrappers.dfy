/** The usual optional value, standing for Python's None. */
module Wrappers {
  datatype Option<+T> = None | Some(value: T)

  function OrElse<T>(o: Option<T>, default: T): T {
    match o
    case Some(x) => x
    case None => default
  }
}
