/**
 Small functions on numbers and sequences that several modules use.
 */
module Sequences {

  // The number of values of a byte.
  const NUM_BYTES: nat := 256

  function Min(a: nat, b: nat): nat {
    if a < b then a else b
  }

  // The length of the longest common beginning of two sequences.
  function CommonPrefix(a: seq<nat>, b: seq<nat>): (n: nat)
    ensures n <= |a| && n <= |b| && a[..n] == b[..n]
    ensures n < |a| && n < |b| ==> a[n] != b[n]
  {
    if a == [] || b == [] || a[0] != b[0] then 0
    else
      var n := 1 + CommonPrefix(a[1..], b[1..]);
      assert a[..n] == [a[0]] + a[1..][..n - 1] && b[..n] == [b[0]] + b[1..][..n - 1];
      n
  }
}
