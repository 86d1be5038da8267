// Bytes and slices, shared by the models.

module GoSlices {
  newtype Byte = x: int | 0 <= x < 256

  // The last n elements, or all if there are no more.
  function LastN<T>(s: seq<T>, n: nat): seq<T> {
    if |s| <= n then s else s[|s| - n..]
  }

  function FirstN<T>(s: seq<T>, n: nat): seq<T> {
    if |s| <= n then s else s[..n]
  }
}
