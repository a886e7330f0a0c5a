/** What the library's vector does. */
module Vectors {

  /** vector::resize: cut off, or filled up with a default element. */
  function Resized<T>(s: seq<T>, n: nat, fill: T): (r: seq<T>)
    ensures |r| == n
    ensures forall i :: 0 <= i < n ==> r[i] == if i < |s| then s[i] else fill
  {
    seq(n, i requires 0 <= i => if i < |s| then s[i] else fill)
  }
}
