/** An array of policies beside a 0-based index without a sentinel: how the kernel keeps its
    active policies, and the dependents of each module. */
module Rosters {
  import opened Evm
  import opened Sequences
  import opened Storage
  import opened SetOrder

  datatype Roster = Roster(list: seq<nat>, index: Mapping)

  const EMPTY := Roster([], map[])

  /** Push, then record the last position. */
  function Enlist(r: Roster, p: nat): Roster {
    Roster(r.list + [p], Write(r.index, p, |r.list|))
  }

  /** Swap with the last and pop, at whatever position the index gives; then record the moved
      policy's position and clear the struck one's. */
  function Strike(r: Roster, p: nat): Result<Roster> {
    var i := Read(r.index, p);
    if i >= |r.list| then Revert(IndexOutOfBounds)
    else
      var last := r.list[|r.list| - 1];
      Ok(Roster(r.list[i := last][..|r.list| - 1], Write(Write(r.index, last, i), p, 0)))
  }

  /** Membership as the kernel tests it: the policy at the index of `p` is `p`. */
  function IsListed(r: Roster, p: nat): Result<bool> {
    if |r.list| == 0 then Ok(false)
    else if Read(r.index, p) >= |r.list| then Revert(IndexOutOfBounds)
    else Ok(r.list[Read(r.index, p)] == p)
  }

  /** Every policy is listed once, with its position; the index of any other reads 0. */
  ghost predicate Exact(r: Roster) {
    && Distinct(r.list)
    && (forall i :: 0 <= i < |r.list| ==> Read(r.index, r.list[i]) == i)
    && (forall p: nat :: p !in r.list ==> Read(r.index, p) == 0)
  }

  /** Although 0 is both "first" and "absent", the membership test is exact. */
  lemma ExactIsListed(r: Roster, p: nat)
    requires Exact(r)
    ensures IsListed(r, p) == Ok(p in r.list)
  {
    if p in r.list {
      var i := IndexOf(r.list, p);
      assert Read(r.index, r.list[i]) == i;
    }
  }

  lemma EnlistExact(r: Roster, p: nat)
    requires Exact(r) && p !in r.list
    ensures Exact(Enlist(r, p)) && Enlist(r, p).list == Added(r.list, p)
  {
  }

  lemma StrikeExact(r: Roster, p: nat)
    requires Exact(r) && p in r.list
    ensures Strike(r, p).Ok? && Exact(Strike(r, p).value) && Strike(r, p).value.list == Removed(r.list, p)
  {
    var i := IndexOf(r.list, p);
    assert Read(r.index, r.list[i]) == i;
    var n, struck := |r.list| - 1, Strike(r, p).value;
    assert forall j :: 0 <= j < n ==> struck.list[j] == if j == i then r.list[n] else r.list[j];
    RemovedElements(r.list, p);
    RemovedMembers(r.list, p);
    forall q: nat | q !in struck.list
      ensures Read(struck.index, q) == 0
    {
    }
  }

  // ----- the same policy several times

  function EnlistTimes(r: Roster, p: nat, n: nat): Roster
    decreases n
  {
    if n == 0 then r else EnlistTimes(Enlist(r, p), p, n - 1)
  }

  function StrikeTimes(r: Roster, p: nat, n: nat): Result<Roster>
    decreases n
  {
    if n == 0 then Ok(r)
    else match Strike(r, p)
      case Ok(struck) => StrikeTimes(struck, p, n - 1)
      case Revert(error) => Revert(error)
  }

  ghost function Copies(p: nat, n: nat): (r: seq<nat>)
    ensures |r| == n && forall i :: 0 <= i < n ==> r[i] == p
  {
    seq(n, _ => p)
  }

  lemma {:induction false} EnlistTimesList(r: Roster, p: nat, n: nat)
    ensures EnlistTimes(r, p, n).list == r.list + Copies(p, n)
    ensures n > 0 ==> Read(EnlistTimes(r, p, n).index, p) == |r.list| + n - 1
    ensures forall q: nat :: q != p ==> Read(EnlistTimes(r, p, n).index, q) == Read(r.index, q)
    decreases n
  {
    if n > 0 {
      EnlistTimesList(Enlist(r, p), p, n - 1);
    }
  }

  /** Strikes of a policy with index 0, from a list that ends in as many copies of it: the
      copies go, and the first slot is overwritten by one of them. */
  lemma {:induction false} StrikesFromZero(r: Roster, p: nat, front: seq<nat>, n: nat)
    requires Read(r.index, p) == 0 && r.list == front + Copies(p, n)
    ensures StrikeTimes(r, p, n).Ok?
    ensures front == [] ==> StrikeTimes(r, p, n).value.list == []
    ensures front != [] ==> StrikeTimes(r, p, n).value.list == if n == 0 then front else [p] + front[1..]
    ensures (forall q: nat :: Read(r.index, q) == 0) ==> forall q: nat :: Read(StrikeTimes(r, p, n).value.index, q) == 0
    decreases n
  {
    if n > 0 {
      var struck := Strike(r, p).value;
      var rest := if front == [] then [] else [p] + front[1..];
      assert struck.list == rest + Copies(p, n - 1);
      StrikesFromZero(struck, p, rest, n - 1);
    }
  }

  /** A policy alone on its list comes and goes with any number of copies. */
  lemma AloneComesAndGoes(p: nat, n: nat)
    ensures StrikeTimes(EnlistTimes(EMPTY, p, n), p, n) == Ok(EMPTY)
  {
    if n > 0 {
      var full := EnlistTimes(EMPTY, p, n);
      EnlistTimesList(EMPTY, p, n);
      var struck := Strike(full, p).value;
      assert struck.list == [] + Copies(p, n - 1);
      StrikesFromZero(struck, p, [], n - 1);
      MappingExtensional(StrikeTimes(struck, p, n - 1).value.index, EMPTY.index);
    }
  }

  /** The last of several copies, struck, leaves the others and the index 0. */
  lemma StrikeLastCopy(r: Roster, p: nat, front: seq<nat>, n: nat)
    requires n > 0 && r.list == front + Copies(p, n) && Read(r.index, p) == |front| + n - 1
    ensures Strike(r, p).Ok?
    ensures Strike(r, p).value.list == front + Copies(p, n - 1) && Read(Strike(r, p).value.index, p) == 0
  {
    var last := |front| + n - 1;
    assert |r.list| == last + 1 && r.list[last] == p;
    assert r.list[last := p] == r.list;
    assert r.list[..last] == front + Copies(p, n - 1);
  }

  lemma BehindAnotherList(q: nat, p: nat, m: nat, n: nat)
    ensures var both := EnlistTimes(EnlistTimes(EMPTY, q, m), p, n);
            && both.list == Copies(q, m) + Copies(p, n)
            && (n > 0 ==> Read(both.index, p) == m + n - 1)
            && (n == 0 ==> both == EnlistTimes(EMPTY, q, m))
  {
    EnlistTimesList(EMPTY, q, m);
    EnlistTimesList(EnlistTimes(EMPTY, q, m), p, n);
    assert EMPTY.list + Copies(q, m) == Copies(q, m);
  }

  /** Behind `m` entries of another policy, `n` copies leave cleanly only if there was one: from
      the second strike on the index reads 0, and the first entry is lost to a copy. */
  lemma BehindAnother(q: nat, p: nat, m: nat, n: nat)
    ensures var both := EnlistTimes(EnlistTimes(EMPTY, q, m), p, n);
            && StrikeTimes(both, p, n).Ok?
            && (m >= 1 && n >= 2 ==> StrikeTimes(both, p, n).value.list == [p] + Copies(q, m - 1))
  {
    BehindAnotherList(q, p, m, n);
    StrikesFromEnd(EnlistTimes(EnlistTimes(EMPTY, q, m), p, n), p, Copies(q, m), n);
    assert m >= 1 ==> Copies(q, m)[1..] == Copies(q, m - 1);
  }

  lemma StrikesFromEnd(r: Roster, p: nat, front: seq<nat>, n: nat)
    requires r.list == front + Copies(p, n) && (n > 0 ==> Read(r.index, p) == |front| + n - 1)
    ensures StrikeTimes(r, p, n).Ok?
    ensures front != [] && n >= 2 ==> StrikeTimes(r, p, n).value.list == [p] + front[1..]
  {
    if n > 0 {
      StrikeLastCopy(r, p, front, n);
      StrikesFromZero(Strike(r, p).value, p, front, n - 1);
    }
  }

  // ----- no access past the end, whatever is listed

  /** An index other than 0 gives a position of its policy. */
  ghost predicate InRange(r: Roster) {
    forall p: nat :: Read(r.index, p) != 0 ==> Read(r.index, p) < |r.list| && r.list[Read(r.index, p)] == p
  }

  lemma EnlistInRange(r: Roster, p: nat)
    requires InRange(r)
    ensures InRange(Enlist(r, p)) && |Enlist(r, p).list| == |r.list| + 1
  {
  }

  /** Then a removal fails only on an empty list. */
  lemma StrikeInRange(r: Roster, p: nat)
    requires InRange(r)
    ensures Strike(r, p).Ok? <==> r.list != []
    ensures Strike(r, p).Ok? ==> InRange(Strike(r, p).value) && |Strike(r, p).value.list| == |r.list| - 1
  {
  }

  lemma {:induction false} EnlistTimesInRange(r: Roster, p: nat, n: nat)
    requires InRange(r)
    ensures InRange(EnlistTimes(r, p, n)) && |EnlistTimes(r, p, n).list| == |r.list| + n
    decreases n
  {
    if n > 0 {
      EnlistInRange(r, p);
      EnlistTimesInRange(Enlist(r, p), p, n - 1);
    }
  }

  lemma {:induction false} StrikeTimesInRange(r: Roster, p: nat, n: nat)
    requires InRange(r) && n <= |r.list|
    ensures StrikeTimes(r, p, n).Ok? && InRange(StrikeTimes(r, p, n).value)
    ensures |StrikeTimes(r, p, n).value.list| == |r.list| - n
    decreases n
  {
    if n > 0 {
      StrikeInRange(r, p);
      StrikeTimesInRange(Strike(r, p).value, p, n - 1);
    }
  }
}
