/** The order of an enumerable set, told without its index: what each operation does to the
    array of values, and the mathematical set that array lists. */
module SetOrder {
  import opened Sequences

  ghost function Added(vs: seq<nat>, v: nat): seq<nat> {
    if v in vs then vs else vs + [v]
  }

  /** Swap-and-pop at `p`: the last element takes the freed slot. */
  ghost function SwapPop(vs: seq<nat>, p: nat): seq<nat>
    requires p < |vs|
  {
    vs[p := vs[|vs| - 1]][..|vs| - 1]
  }

  ghost function Removed(vs: seq<nat>, v: nat): seq<nat> {
    if v in vs then SwapPop(vs, IndexOf(vs, v)) else vs
  }

  datatype Op = Add(v: nat) | Remove(v: nat)

  ghost function Applied(vs: seq<nat>, op: Op): seq<nat> {
    match op
    case Add(v) => Added(vs, v)
    case Remove(v) => Removed(vs, v)
  }

  ghost function Run(vs: seq<nat>, ops: seq<Op>): seq<nat>
    decreases |ops|
  {
    if ops == [] then vs else Run(Applied(vs, ops[0]), ops[1..])
  }

  // ----- the mathematical set the same operations act on

  ghost function AppliedToSet(s: set<nat>, op: Op): set<nat> {
    match op
    case Add(v) => s + {v}
    case Remove(v) => s - {v}
  }

  ghost function RunOnSet(s: set<nat>, ops: seq<Op>): set<nat>
    decreases |ops|
  {
    if ops == [] then s else RunOnSet(AppliedToSet(s, ops[0]), ops[1..])
  }

  /** Successful adds minus successful removes, judged by the mathematical set. */
  ghost function NetGain(s: set<nat>, ops: seq<Op>): int
    decreases |ops|
  {
    if ops == [] then 0
    else
      (match ops[0]
       case Add(v) => if v in s then 0 else 1
       case Remove(v) => if v in s then -1 else 0)
      + NetGain(AppliedToSet(s, ops[0]), ops[1..])
  }

  lemma RemovedElements(vs: seq<nat>, v: nat)
    requires Distinct(vs)
    ensures Distinct(Removed(vs, v))
    ensures Elements(Removed(vs, v)) == Elements(vs) - {v}
  {
    if v in vs {
      var p, n := IndexOf(vs, v), |vs| - 1;
      var rest := SwapPop(vs, p);
      assert forall i :: 0 <= i < n ==> rest[i] == if i == p then vs[n] else vs[i];
      forall u | u in Elements(vs) - {v}
        ensures u in rest
      {
        var i := IndexOf(vs, u);
        if i == n {
          assert rest[p] == u;
        } else {
          assert rest[i] == u;
        }
      }
    }
  }

  lemma AddedMembers(vs: seq<nat>, v: nat)
    ensures forall u: nat :: u in Added(vs, v) <==> u in vs || u == v
  {
  }

  lemma RemovedMembers(vs: seq<nat>, v: nat)
    requires Distinct(vs)
    ensures forall u: nat :: u in Removed(vs, v) <==> u in vs && u != v
  {
    RemovedElements(vs, v);
    assert forall u: nat :: u in Removed(vs, v) <==> u in Elements(Removed(vs, v));
  }

  lemma AppliedElements(vs: seq<nat>, op: Op)
    requires Distinct(vs)
    ensures Distinct(Applied(vs, op))
    ensures Elements(Applied(vs, op)) == AppliedToSet(Elements(vs), op)
  {
    match op
    case Add(v) =>
    case Remove(v) => RemovedElements(vs, v);
  }

  /** Over every run the enumeration lists each member of the mathematical set exactly once,
      and its length is the successful adds minus the successful removes. */
  lemma {:induction false} RunRefinesSet(vs: seq<nat>, ops: seq<Op>)
    requires Distinct(vs)
    ensures Distinct(Run(vs, ops))
    ensures Elements(Run(vs, ops)) == RunOnSet(Elements(vs), ops)
    ensures |Run(vs, ops)| == |vs| + NetGain(Elements(vs), ops)
    decreases |ops|
  {
    if ops != [] {
      AppliedElements(vs, ops[0]);
      RunRefinesSet(Applied(vs, ops[0]), ops[1..]);
    }
  }

  /** Removal disturbs at most one survivor: only the last element may move, and only into
      the slot of the removed one. */
  lemma RemovalMovesOnlyLast(vs: seq<nat>, v: nat, i: nat)
    requires Distinct(vs) && i < |vs| && vs[i] != v
    ensures vs[i] in Removed(vs, v)
    ensures IndexOf(Removed(vs, v), vs[i]) == if v in vs && i == |vs| - 1 then IndexOf(vs, v) else i
  {
    if v in vs {
      var p, rest := IndexOf(vs, v), Removed(vs, v);
      RemovedElements(vs, v);
      var q := if i == |vs| - 1 then p else i;
      assert rest[q] == vs[i];
      IndexOfUnique(rest, q);
    } else {
      IndexOfUnique(vs, i);
    }
  }

  /** Adding a fresh value and removing it again restores the order exactly. */
  lemma AddThenRemoveRestores(vs: seq<nat>, v: nat)
    requires Distinct(vs) && v !in vs
    ensures Removed(Added(vs, v), v) == vs
  {
    var more := vs + [v];
    assert Distinct(more) && more[|vs|] == v;
    IndexOfUnique(more, |vs|);
  }

  /** Removing a member and adding it back keeps the members; the order comes back exactly
      when the member was last. */
  lemma RemoveThenAddRestoresIffLast(vs: seq<nat>, v: nat)
    requires Distinct(vs) && v in vs
    ensures Elements(Added(Removed(vs, v), v)) == Elements(vs)
    ensures Added(Removed(vs, v), v) == vs <==> v == vs[|vs| - 1]
  {
    RemovedMembers(vs, v);
    var n, back := |vs| - 1, Added(Removed(vs, v), v);
    AddedMembers(Removed(vs, v), v);
    assert forall u: nat :: u in Elements(back) <==> u in back;
    assert |back| == n + 1 && back[n] == v;
    if v == vs[n] {
      IndexOfUnique(vs, n);
      assert back == vs;
    }
  }
}
