/** The standard library's `partition_point`, which both positioned reads use. */
module Search {

  /** The number of leading elements that satisfy `p`, which holds of a prefix; by binary search. */
  method PartitionPoint<T>(s: seq<T>, p: T -> bool) returns (n: nat)
    requires forall i, j :: 0 <= i <= j < |s| && p(s[j]) ==> p(s[i])
    ensures n <= |s|
    ensures forall i :: 0 <= i < n ==> p(s[i])
    ensures forall i :: n <= i < |s| ==> !p(s[i])
  {
    var lo, hi := 0, |s|;
    while lo < hi
      invariant 0 <= lo <= hi <= |s|
      invariant forall i :: 0 <= i < lo ==> p(s[i])
      invariant forall i :: hi <= i < |s| ==> !p(s[i])
    {
      var mid := (lo + hi) / 2;
      if p(s[mid]) {
        lo := mid + 1;
      } else {
        hi := mid;
      }
    }
    n := lo;
  }
}
