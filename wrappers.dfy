/** The optional value used wherever the source has a nullable reference or a Try pattern. */
module Wrappers {

  datatype Option<+T> = None | Some(value: T)

  /** The value, if any, as a sequence of length at most one. */
  function ToSeq<T>(o: Option<T>): seq<T>
  {
    match o
    case None => []
    case Some(v) => [v]
  }
}
