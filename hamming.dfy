/** The distance engine: the number of positions at which two equal-length
    codes differ. The source obtains it as scipy's normalised Hamming fraction
    multiplied back by the code length; here it is the exact integer count. */
module Hamming {

  /** Mismatch count of two codes of equal length, scanning from the left. */
  function Distance<T(==)>(a: seq<T>, b: seq<T>): (d: nat)
    requires |a| == |b|
    ensures d <= |a|
    ensures d == 0 <==> a == b
    decreases |a|
  {
    if a == [] then 0
    else
      var rest := Distance(a[1..], b[1..]);
      assert a == [a[0]] + a[1..] && b == [b[0]] + b[1..];
      (if a[0] == b[0] then 0 else 1) + rest
  }

  /** The positions from `lo` on at which `a` and `b` differ. */
  ghost function MismatchesFrom<T>(a: seq<T>, b: seq<T>, lo: nat): set<nat>
    requires |a| == |b|
  {
    set i: nat | lo <= i < |a| && a[i] != b[i]
  }

  /** The positions at which `a` and `b` differ: the textbook definition. */
  ghost function Mismatches<T>(a: seq<T>, b: seq<T>): set<nat>
    requires |a| == |b|
  {
    MismatchesFrom(a, b, 0)
  }

  lemma {:induction false} DistanceFromIsMismatchCount<T>(a: seq<T>, b: seq<T>, lo: nat)
    requires |a| == |b| && lo <= |a|
    ensures Distance(a[lo..], b[lo..]) == |MismatchesFrom(a, b, lo)|
    decreases |a| - lo
  {
    if lo == |a| {
      assert MismatchesFrom(a, b, lo) == {};
    } else {
      DistanceFromIsMismatchCount(a, b, lo + 1);
      assert a[lo..][1..] == a[lo + 1..] && b[lo..][1..] == b[lo + 1..];
      if a[lo] == b[lo] {
        assert MismatchesFrom(a, b, lo) == MismatchesFrom(a, b, lo + 1);
      } else {
        assert MismatchesFrom(a, b, lo) == MismatchesFrom(a, b, lo + 1) + {lo};
      }
    }
  }

  /** Distance is exactly the number of differing positions. */
  lemma DistanceIsMismatchCount<T>(a: seq<T>, b: seq<T>)
    requires |a| == |b|
    ensures Distance(a, b) == |Mismatches(a, b)|
  {
    DistanceFromIsMismatchCount(a, b, 0);
    assert a[0..] == a && b[0..] == b;
  }

  /** Distance does not depend on the order of its arguments. */
  lemma {:induction false} DistanceSymmetric<T>(a: seq<T>, b: seq<T>)
    requires |a| == |b|
    ensures Distance(a, b) == Distance(b, a)
    decreases |a|
  {
    if a != [] {
      DistanceSymmetric(a[1..], b[1..]);
    }
  }
}
