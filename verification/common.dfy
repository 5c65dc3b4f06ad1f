/**
 * Vocabulary shared by every layer of the library: the direction in which a
 * mapping copies data, and an optional value.
 */
module Common {

  /** The two directions a mapping can copy in (`convertible::direction`). */
  datatype Direction = LhsToRhs | RhsToLhs {

    /** The opposite direction. */
    function Reverse(): (r: Direction)
      ensures r != this
    {
      if this == LhsToRhs then RhsToLhs else LhsToRhs
    }
  }

  /** A value that may be absent. */
  datatype Option<+T> = None | Some(value: T) {

    /** The wrapped value, or `default` when there is none. */
    function GetOr(default: T): (r: T)
      ensures Some? ==> r == value
      ensures None? ==> r == default
    {
      match this
      case Some(v) => v
      case None => default
    }
  }

  function Min(a: int, b: int): (r: int)
    ensures r <= a && r <= b
    ensures r == a || r == b
  {
    if a < b then a else b
  }

  function Max(a: int, b: int): (r: int)
    ensures a <= r && b <= r
    ensures r == a || r == b
  {
    if a < b then b else a
  }
}
