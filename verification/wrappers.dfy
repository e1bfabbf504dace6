/** Optional values, standing in for the source's nullable pointers and
    for fields that may be absent; the bounds of two integers; and the
    terminator of a C string. */
module Wrappers {

  datatype Option<T> = None | Some(value: T) {

    /** The carried value, or `default` when there is none. */
    function GetOr(default: T): T {
      match this
      case Some(v) => v
      case None => default
    }
  }

  /** The zero byte that ends a C string. */
  const Nul: char := '\0'

  function Min(a: int, b: int): int {
    if a < b then a else b
  }

  function Max(a: int, b: int): int {
    if a > b then a else b
  }
}
