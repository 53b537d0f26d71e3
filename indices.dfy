/** Index sequences shared by the modules that index by position. */
module Indices {

  /** `range(n)` / `xrange(n)`: the indices 0, 1, ..., n-1 in order. */
  function Range(n: nat): seq<nat>
  {
    seq(n, i requires 0 <= i < n => i)
  }
}
