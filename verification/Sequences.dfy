/** Sequences with a part written over. */
module Sequences {

  function Placed<T>(s: seq<T>, pos: nat, e: seq<T>): (r: seq<T>)
    requires pos + |e| <= |s|
    ensures |r| == |s|
  {
    s[..pos] + e + s[pos + |e|..]
  }
}
