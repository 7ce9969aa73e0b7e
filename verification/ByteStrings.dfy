/** Strings of bytes, as sequences of integers. */
module ByteStrings {

  predicate Bytes(s: seq<int>) {
    forall k :: 0 <= k < |s| ==> 0 <= s[k] < 256
  }

  /** The same value, `n` times. */
  function Repeat(x: int, n: nat): (s: seq<int>)
    ensures |s| == n && forall i :: 0 <= i < n ==> s[i] == x
  {
    seq(n, _ => x)
  }
}
