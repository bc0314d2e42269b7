/** Sequences without repetitions, as the set orders and the inheritance chains use them. */
module Sequences {
  ghost predicate Distinct(vs: seq<nat>) {
    forall i, j :: 0 <= i < j < |vs| ==> vs[i] != vs[j]
  }

  ghost function Elements(vs: seq<nat>): set<nat> {
    set v | v in vs
  }

  /** The first position of `v`, as `indexOf` gives it. */
  function IndexOf(vs: seq<nat>, v: nat): (p: nat)
    requires v in vs
    ensures p < |vs| && vs[p] == v
  {
    if vs[0] == v then 0 else 1 + IndexOf(vs[1..], v)
  }

  lemma IndexOfUnique(vs: seq<nat>, p: nat)
    requires Distinct(vs) && p < |vs|
    ensures IndexOf(vs, vs[p]) == p
  {
  }

  lemma {:induction false} LengthIsCardinality(vs: seq<nat>)
    requires Distinct(vs)
    ensures |vs| == |Elements(vs)|
  {
    if vs != [] {
      var n := |vs| - 1;
      LengthIsCardinality(vs[..n]);
      assert Elements(vs) == Elements(vs[..n]) + {vs[n]};
    }
  }

  lemma ConcatAssociates<T>(a: seq<T>, b: seq<T>, c: seq<T>)
    ensures a + (b + c) == (a + b) + c
  {
  }
}
