/** Counting. */
module FiniteSets {

  /** A set of numbers below `n` has `n` elements exactly if it has all of them. */
  lemma {:induction false} FullSet(s: set<nat>, n: nat)
    requires forall k :: k in s ==> k < n
    ensures |s| <= n
    ensures |s| == n <==> forall k :: 0 <= k < n ==> k in s
  {
    if n == 0 {
      assert s == {};
    } else {
      var t := s - {n - 1};
      FullSet(t, n - 1);
      if n - 1 in s {
        assert |t| == |s| - 1;
        assert forall k :: k in s <==> k == n - 1 || k in t;
      } else {
        assert t == s;
      }
    }
  }
}
