/** A longer sequence of numbers from 1 to `n` repeats one of them. */
module Pigeonhole {

  function Below(n: nat): set<int> { if n == 0 then {} else Below(n - 1) + {n} }

  lemma {:induction false} CountBelow(n: nat)
    ensures |Below(n)| == n && forall k :: k in Below(n) <==> 1 <= k <= n
  {
    if n > 0 {
      CountBelow(n - 1);
    }
  }

  function Members(s: seq<int>): set<int> { set k | k in s }

  lemma {:induction false} CountMembers(s: seq<int>)
    requires forall i, j | 0 <= i < j < |s| :: s[i] != s[j]
    ensures |Members(s)| == |s|
  {
    if s != [] {
      var n := |s| - 1;
      CountMembers(s[..n]);
      assert Members(s) == Members(s[..n]) + {s[n]};
      assert s[n] !in Members(s[..n]);
    }
  }

  lemma SubsetIsSmaller(a: set<int>, b: set<int>)
    requires a <= b
    ensures |a| <= |b|
  {
    assert b == a + (b - a);
  }

  /** Distinct numbers from 1 to `n` are at most `n`. */
  lemma AtMost(s: seq<int>, n: nat)
    requires forall i | 0 <= i < |s| :: 1 <= s[i] <= n
    requires forall i, j | 0 <= i < j < |s| :: s[i] != s[j]
    ensures |s| <= n
  {
    CountBelow(n);
    CountMembers(s);
    SubsetIsSmaller(Members(s), Below(n));
  }

  lemma RepeatWithin(s: seq<int>, n: nat) returns (i: nat, j: nat)
    requires n < |s| && forall k | 0 <= k < |s| :: 1 <= s[k] <= n
    ensures i < j < |s| && s[i] == s[j]
  {
    if forall a, b | 0 <= a < b < |s| :: s[a] != s[b] {
      AtMost(s, n);
      assert false;
    }
    i, j :| i < j < |s| && s[i] == s[j];
  }
}
