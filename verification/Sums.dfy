/** Sums over a sequence of numbers. */
module Sums {
  ghost function Sum(s: seq<int>): int {
    if s == [] then 0 else Sum(s[..|s| - 1]) + s[|s| - 1]
  }

  lemma {:induction false} SumUpdate(s: seq<int>, i: nat, v: int)
    requires i < |s|
    ensures Sum(s[i := v]) == Sum(s) - s[i] + v
  {
    var n := |s| - 1;
    if i < n {
      assert s[i := v][..n] == s[..n][i := v];
      SumUpdate(s[..n], i, v);
    } else {
      assert s[i := v][..n] == s[..n];
    }
  }

  /** Adding `c` times one list to another adds that multiple of its sum. */
  lemma {:induction false} SumAffine(s: seq<int>, t: seq<int>, u: seq<int>, c: int)
    requires |s| == |t| == |u|
    requires forall i :: 0 <= i < |s| ==> t[i] == s[i] + c * u[i]
    ensures Sum(t) == Sum(s) + c * Sum(u)
  {
    if s != [] {
      var n := |s| - 1;
      SumAffine(s[..n], t[..n], u[..n], c);
      assert c * (Sum(u[..n]) + u[n]) == c * Sum(u[..n]) + c * u[n];
    }
  }

  lemma {:induction false} SumAtMost(s: seq<int>, t: seq<int>)
    requires |s| == |t| && forall i :: 0 <= i < |s| ==> s[i] <= t[i]
    ensures Sum(s) <= Sum(t)
  {
    if s != [] {
      SumAtMost(s[..|s| - 1], t[..|s| - 1]);
    }
  }

  /** Of numbers that are not negative, none exceeds the sum. */
  lemma {:induction false} PartAtMost(s: seq<int>, i: nat)
    requires i < |s| && forall j :: 0 <= j < |s| ==> s[j] >= 0
    ensures s[i] <= Sum(s)
  {
    if i < |s| - 1 {
      PartAtMost(s[..|s| - 1], i);
    } else {
      NotNegative(s[..i]);
    }
  }

  lemma {:induction false} NotNegative(s: seq<int>)
    requires forall j :: 0 <= j < |s| ==> s[j] >= 0
    ensures Sum(s) >= 0
  {
    if s != [] {
      NotNegative(s[..|s| - 1]);
    }
  }
}
