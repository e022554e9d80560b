/** What `std::reverse` and a backward traversal have in common. */
module Sequences {

  function Reverse<T>(s: seq<T>): seq<T> {
    seq(|s|, i requires 0 <= i < |s| => s[|s| - 1 - i])
  }
}
