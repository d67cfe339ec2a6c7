/** Sequences written over in place. */
module Sequences {
  // s with data over it from position at on.
  function Written<T>(s: seq<T>, at: nat, data: seq<T>): (r: seq<T>)
    requires at + |data| <= |s|
    ensures |r| == |s|
  {
    s[..at] + data + s[at + |data|..]
  }
}
