/** Linear orders, the graph they induce, and how much a graph without conflicting pairs says
    about its longer cycles. */
module ChainOrders {
  import opened Sequences

  type Chain = seq<nat>

  ghost predicate Before(c: Chain, x: nat, y: nat) {
    exists i, j :: 0 <= i < j < |c| && c[i] == x && c[j] == y
  }

  ghost predicate AllDistinct(chains: seq<Chain>) {
    forall c :: c in chains ==> Distinct(c)
  }

  /** The ordering graph: an edge for every pair some chain orders. */
  ghost predicate Edge(chains: seq<Chain>, x: nat, y: nat) {
    exists c :: c in chains && Before(c, x, y)
  }

  ghost predicate Opposed(chains: seq<Chain>, x: nat, y: nat) {
    Edge(chains, x, y) && Edge(chains, y, x)
  }

  ghost predicate NoConflict(chains: seq<Chain>) {
    forall x, y :: x != y ==> !Opposed(chains, x, y)
  }

  /** Every two chains order the contracts they share alike. */
  ghost predicate ChainsAgree(chains: seq<Chain>) {
    forall c, d, x, y :: c in chains && d in chains && Before(c, x, y) && x in d && y in d ==> Before(d, x, y)
  }

  ghost predicate IsWalk(chains: seq<Chain>, w: seq<nat>) {
    forall i :: 0 <= i < |w| - 1 ==> Edge(chains, w[i], w[i + 1])
  }

  ghost predicate IsCycle(chains: seq<Chain>, w: seq<nat>) {
    |w| >= 2 && w[0] == w[|w| - 1] && IsWalk(chains, w)
  }

  ghost predicate Acyclic(chains: seq<Chain>) {
    forall w :: !IsCycle(chains, w)
  }

  ghost predicate IsSubsequence(c: Chain, order: Chain) {
    c == [] || (order != [] && if c[0] == order[0] then IsSubsequence(c[1..], order[1..])
                               else IsSubsequence(c, order[1..]))
  }

  /** `order` lists every contract once and contains every chain as a subsequence. */
  ghost predicate GlobalOrder(chains: seq<Chain>, order: Chain) {
    Distinct(order) && forall c :: c in chains ==> IsSubsequence(c, order)
  }

  lemma DistinctOrder(c: Chain, x: nat, y: nat)
    requires Distinct(c)
    ensures !(Before(c, x, y) && Before(c, y, x))
    ensures x in c && y in c && x != y ==> Before(c, x, y) || Before(c, y, x)
  {
  }

  /** Chains without repetitions have no conflict exactly when they agree. */
  lemma NoConflictIffAgree(chains: seq<Chain>)
    requires AllDistinct(chains)
    ensures NoConflict(chains) <==> ChainsAgree(chains)
  {
    if NoConflict(chains) {
      forall c, d, x, y | c in chains && d in chains && Before(c, x, y) && x in d && y in d
        ensures Before(d, x, y)
      {
        DistinctOrder(c, x, y);
        DistinctOrder(d, x, y);
        assert Edge(chains, x, y);
        assert !Opposed(chains, x, y);
        assert Before(d, y, x) ==> Edge(chains, y, x);
      }
    }
    if ChainsAgree(chains) {
      forall x, y | x != y
        ensures !Opposed(chains, x, y)
      {
        if Opposed(chains, x, y) {
          var c :| c in chains && Before(c, x, y);
          var d :| d in chains && Before(d, y, x);
          assert Before(d, x, y);
          DistinctOrder(d, x, y);
        }
      }
    }
  }

  // ----- cycles inside one chain

  /** Some step of a closed walk inside `c` does not go forward in `c`. */
  lemma {:induction false} BackwardStep(c: Chain, w: seq<nat>)
    requires |w| >= 2 && forall i :: 0 <= i < |w| ==> w[i] in c
    requires IndexOf(c, w[|w| - 1]) <= IndexOf(c, w[0])
    ensures exists i :: 0 <= i < |w| - 1 && IndexOf(c, w[i + 1]) <= IndexOf(c, w[i])
  {
    var n := |w| - 1;
    if IndexOf(c, w[n]) > IndexOf(c, w[n - 1]) {
      if n == 1 {
        assert false;
      } else {
        var shorter := w[..n];
        assert shorter[|shorter| - 1] == w[n - 1];
        BackwardStep(c, shorter);
        var i :| 0 <= i < |shorter| - 1 && IndexOf(c, shorter[i + 1]) <= IndexOf(c, shorter[i]);
        assert w[i] == shorter[i] && w[i + 1] == shorter[i + 1];
      }
    } else {
      assert w[n - 1 + 1] == w[n];
    }
  }

  /** A cycle of any length whose contracts all sit in one chain shows up as a conflicting
      pair of neighbours on it. */
  lemma CycleInsideChain(chains: seq<Chain>, c: Chain, w: seq<nat>)
    requires AllDistinct(chains) && c in chains && IsCycle(chains, w)
    requires forall i :: 0 <= i < |w| ==> w[i] in c
    ensures exists i :: 0 <= i < |w| - 1 && w[i] != w[i + 1] && Opposed(chains, w[i], w[i + 1])
  {
    BackwardStep(c, w);
    var i :| 0 <= i < |w| - 1 && IndexOf(c, w[i + 1]) <= IndexOf(c, w[i]);
    assert Edge(chains, w[i], w[i + 1]);
    var d :| d in chains && Before(d, w[i], w[i + 1]);
    DistinctOrder(d, w[i], w[i + 1]);
    assert w[i] != w[i + 1];
    assert Before(c, w[i + 1], w[i]);
    assert Edge(chains, w[i + 1], w[i]);
  }

  // ----- a global order excludes every cycle

  lemma {:induction false} SubsequenceKeepsOrder(c: Chain, order: Chain, x: nat, y: nat)
    requires IsSubsequence(c, order) && Before(c, x, y)
    ensures Before(order, x, y)
    decreases |order|
  {
    var i, j :| 0 <= i < j < |c| && c[i] == x && c[j] == y;
    if c[0] == order[0] {
      SubsequenceMembers(c[1..], order[1..]);
      if i == 0 {
        assert c[1..][j - 1] == y && y in c[1..] && y in order[1..];
        var k :| 0 <= k < |order[1..]| && order[1..][k] == y;
        assert order[k + 1] == y;
      } else {
        assert c[1..][i - 1] == x && c[1..][j - 1] == y;
        SubsequenceKeepsOrder(c[1..], order[1..], x, y);
        BeforeInTail(order, x, y);
      }
    } else {
      SubsequenceKeepsOrder(c, order[1..], x, y);
      BeforeInTail(order, x, y);
    }
  }

  lemma {:induction false} SubsequenceMembers(c: Chain, order: Chain)
    requires IsSubsequence(c, order)
    ensures forall x :: x in c ==> x in order
    decreases |order|
  {
    if c != [] {
      if c[0] == order[0] {
        SubsequenceMembers(c[1..], order[1..]);
        assert c == [c[0]] + c[1..];
      } else {
        SubsequenceMembers(c, order[1..]);
      }
    }
  }

  lemma BeforeInTail(c: Chain, x: nat, y: nat)
    requires c != [] && Before(c[1..], x, y)
    ensures Before(c, x, y)
  {
    var i, j :| 0 <= i < j < |c[1..]| && c[1..][i] == x && c[1..][j] == y;
    assert c[i + 1] == x && c[j + 1] == y;
  }

  lemma GlobalOrderIsAcyclic(chains: seq<Chain>, order: Chain)
    requires GlobalOrder(chains, order)
    ensures Acyclic(chains)
  {
    forall w
      ensures !IsCycle(chains, w)
    {
      if IsCycle(chains, w) {
        forall i | 0 <= i < |w| - 1
          ensures Before(order, w[i], w[i + 1])
        {
          assert Edge(chains, w[i], w[i + 1]);
          var c :| c in chains && Before(c, w[i], w[i + 1]);
          SubsequenceKeepsOrder(c, order, w[i], w[i + 1]);
        }
        forall i | 0 <= i < |w|
          ensures w[i] in order
        {
          assert Before(order, w[if i == |w| - 1 then 0 else i], w[(if i == |w| - 1 then 0 else i) + 1]);
        }
        BackwardStep(order, w);
      }
    }
  }

  // ----- merging chains greedily

  /** A contract that heads some chain and follows nothing in any. */
  predicate GoodHead(chains: seq<Chain>, h: nat) {
    && (exists c :: c in chains && c != [] && c[0] == h)
    && forall c :: c in chains && c != [] ==> h !in c[1..]
  }

  function Strip(c: Chain, h: nat): Chain {
    if c != [] && c[0] == h then c[1..] else c
  }

  function StripAll(chains: seq<Chain>, h: nat): (r: seq<Chain>)
    ensures |r| == |chains| && forall i :: 0 <= i < |chains| ==> r[i] == Strip(chains[i], h)
  {
    seq(|chains|, i requires 0 <= i < |chains| => Strip(chains[i], h))
  }

  ghost function TotalLength(chains: seq<Chain>): nat {
    if chains == [] then 0 else |chains[0]| + TotalLength(chains[1..])
  }

  lemma {:induction false} StripShortens(chains: seq<Chain>, h: nat)
    ensures TotalLength(StripAll(chains, h)) <= TotalLength(chains)
    ensures (exists c :: c in chains && c != [] && c[0] == h) ==> TotalLength(StripAll(chains, h)) < TotalLength(chains)
  {
    if chains != [] {
      StripShortens(chains[1..], h);
      assert StripAll(chains, h)[1..] == StripAll(chains[1..], h);
      assert chains == [chains[0]] + chains[1..];
    }
  }

  ghost predicate DrawnFrom(chains: seq<Chain>, order: Chain) {
    forall x :: x in order ==> exists c :: c in chains && x in c
  }

  /** A good head before a global order of what it leaves is a global order. */
  lemma HeadThenRest(chains: seq<Chain>, h: nat, tail: Chain)
    requires GoodHead(chains, h) && GlobalOrder(StripAll(chains, h), tail) && DrawnFrom(StripAll(chains, h), tail)
    ensures GlobalOrder(chains, [h] + tail) && DrawnFrom(chains, [h] + tail)
  {
    var rest, order := StripAll(chains, h), [h] + tail;
    assert order[1..] == tail;
    assert exists c :: c in chains && h in c;
    forall x | x in tail
      ensures x != h && exists c :: c in chains && x in c
    {
      var r :| r in rest && x in r;
      var i :| 0 <= i < |rest| && rest[i] == r;
      StripDrops(chains[i], h);
      assert chains[i] in chains;
    }
    forall c | c in chains
      ensures IsSubsequence(c, order)
    {
      var i :| 0 <= i < |chains| && chains[i] == c;
      assert rest[i] in rest;
      assert IsSubsequence(Strip(c, h), tail);
    }
    forall i, j | 0 <= i < j < |order|
      ensures order[i] != order[j]
    {
      assert order[j] == tail[j - 1] && tail[j - 1] in tail;
    }
  }

  lemma StripDrops(c: Chain, h: nat)
    requires c != [] ==> h !in c[1..]
    ensures forall x :: x in Strip(c, h) ==> x in c && x != h
  {
    assert c != [] ==> c == [c[0]] + c[1..];
  }

  /** Stripping removes edges and adds none. */
  lemma StripKeepsAcyclic(chains: seq<Chain>, h: nat)
    requires Acyclic(chains)
    ensures Acyclic(StripAll(chains, h))
  {
    var rest := StripAll(chains, h);
    forall w
      ensures !IsCycle(rest, w)
    {
      if IsCycle(rest, w) {
        forall i | 0 <= i < |w| - 1
          ensures Edge(chains, w[i], w[i + 1])
        {
          assert Edge(rest, w[i], w[i + 1]);
          StripEdge(chains, h, w[i], w[i + 1]);
        }
        assert IsCycle(chains, w);
      }
    }
  }

  lemma StripEdge(chains: seq<Chain>, h: nat, x: nat, y: nat)
    requires Edge(StripAll(chains, h), x, y)
    ensures Edge(chains, x, y)
  {
    var rest := StripAll(chains, h);
    var r :| r in rest && Before(r, x, y);
    var i :| 0 <= i < |rest| && rest[i] == r;
    if r != chains[i] {
      BeforeInTail(chains[i], x, y);
    }
    assert chains[i] in chains;
  }

  ghost function Heads(chains: seq<Chain>): set<nat> {
    set i | 0 <= i < |chains| && chains[i] != [] :: chains[i][0]
  }

  /** With no good head, every head has a predecessor that is a head: a backward walk of any
      length stays among the heads. */
  lemma {:induction false} BackwardWalk(chains: seq<Chain>, h: nat, n: nat) returns (w: seq<nat>)
    requires h in Heads(chains) && forall k :: !GoodHead(chains, k)
    ensures |w| == n + 1 && w[n] == h && IsWalk(chains, w)
    ensures forall i :: 0 <= i < |w| ==> w[i] in Heads(chains)
    decreases n
  {
    if n == 0 {
      w := [h];
    } else {
      var i :| 0 <= i < |chains| && chains[i] != [] && chains[i][0] == h;
      assert chains[i] in chains;
      assert !GoodHead(chains, h);
      var d :| d in chains && d != [] && h in d[1..];
      var k :| 0 <= k < |d[1..]| && d[1..][k] == h;
      assert d[k + 1] == h && Before(d, d[0], h);
      var m :| 0 <= m < |chains| && chains[m] == d;
      assert d[0] in Heads(chains);
      var shorter := BackwardWalk(chains, d[0], n - 1);
      w := shorter + [h];
      forall j | 0 <= j < |w| - 1
        ensures Edge(chains, w[j], w[j + 1])
      {
        if j < |shorter| - 1 {
          assert Edge(chains, shorter[j], shorter[j + 1]);
        }
      }
    }
  }

  lemma Pigeonhole(w: seq<nat>, s: set<nat>)
    requires |w| > |s| && forall i :: 0 <= i < |w| ==> w[i] in s
    ensures exists i, j :: 0 <= i < j < |w| && w[i] == w[j]
  {
    if Distinct(w) {
      LengthIsCardinality(w);
      SubsetSize(Elements(w), s);
    }
  }

  lemma {:induction false} SubsetSize(a: set<nat>, b: set<nat>)
    requires a <= b
    ensures |a| <= |b|
  {
    if x :| x in a {
      SubsetSize(a - {x}, b - {x});
    }
  }

  lemma StuckHasCycle(chains: seq<Chain>)
    requires exists c :: c in chains && c != []
    requires forall k :: !GoodHead(chains, k)
    ensures !Acyclic(chains)
  {
    var c :| c in chains && c != [];
    var i :| 0 <= i < |chains| && chains[i] == c;
    var heads := Heads(chains);
    assert c[0] in heads;
    var w := BackwardWalk(chains, c[0], |heads|);
    Pigeonhole(w, heads);
    var a, b :| 0 <= a < b < |w| && w[a] == w[b];
    var cycle := w[a..b + 1];
    forall k | 0 <= k < |cycle| - 1
      ensures Edge(chains, cycle[k], cycle[k + 1])
    {
      assert Edge(chains, w[a + k], w[a + k + 1]);
    }
    assert IsCycle(chains, cycle);
  }

  lemma {:induction false} AcyclicHasOrder(chains: seq<Chain>)
    requires Acyclic(chains)
    ensures exists order :: GlobalOrder(chains, order) && DrawnFrom(chains, order)
    decreases TotalLength(chains)
  {
    if forall c :: c in chains ==> c == [] {
      assert GlobalOrder(chains, []) && DrawnFrom(chains, []);
    } else {
      if forall k :: !GoodHead(chains, k) {
        StuckHasCycle(chains);
      }
      var h :| GoodHead(chains, h);
      StripShortens(chains, h);
      StripKeepsAcyclic(chains, h);
      AcyclicHasOrder(StripAll(chains, h));
      var tail :| GlobalOrder(StripAll(chains, h), tail) && DrawnFrom(StripAll(chains, h), tail);
      HeadThenRest(chains, h, tail);
    }
  }

  /** The graph has no cycle exactly when one order contains all the chains. */
  lemma AcyclicIffOrdered(chains: seq<Chain>)
    ensures Acyclic(chains) <==> exists order :: GlobalOrder(chains, order)
  {
    if Acyclic(chains) {
      AcyclicHasOrder(chains);
    }
    if order :| GlobalOrder(chains, order) {
      GlobalOrderIsAcyclic(chains, order);
    }
  }

  /** Any good head will do: taking it off neither makes nor breaks a cycle. */
  lemma GoodHeadKeepsCycles(chains: seq<Chain>, h: nat)
    requires GoodHead(chains, h)
    ensures Acyclic(StripAll(chains, h)) <==> Acyclic(chains)
  {
    if Acyclic(chains) {
      StripKeepsAcyclic(chains, h);
    }
    if Acyclic(StripAll(chains, h)) {
      AcyclicHasOrder(StripAll(chains, h));
      var tail :| GlobalOrder(StripAll(chains, h), tail) && DrawnFrom(StripAll(chains, h), tail);
      HeadThenRest(chains, h, tail);
      GlobalOrderIsAcyclic(chains, [h] + tail);
    }
  }

  /** The first chain whose head is good, if any head is. */
  method FindGoodHead(chains: seq<Chain>) returns (found: bool, h: nat)
    ensures found ==> GoodHead(chains, h)
    ensures !found ==> forall k :: !GoodHead(chains, k)
  {
    for i := 0 to |chains|
      invariant forall j :: 0 <= j < i && chains[j] != [] ==> !GoodHead(chains, chains[j][0])
    {
      if chains[i] != [] && GoodHead(chains, chains[i][0]) {
        return true, chains[i][0];
      }
    }
    return false, 0;
  }

  /** Whatever order of the remaining chains comes last, the merged part before it makes it an
      order of all. */
  ghost predicate Prepends(chains: seq<Chain>, merged: Chain, rest: seq<Chain>) {
    forall tail: Chain ::
      GlobalOrder(rest, tail) && DrawnFrom(rest, tail) ==>
        GlobalOrder(chains, merged + tail) && DrawnFrom(chains, merged + tail)
  }

  lemma PrependsNothing(chains: seq<Chain>)
    ensures Prepends(chains, [], chains)
  {
    assert forall tail: Chain :: [] + tail == tail;
  }

  lemma PrependsHead(chains: seq<Chain>, merged: Chain, rest: seq<Chain>, h: nat)
    requires Prepends(chains, merged, rest) && GoodHead(rest, h)
    ensures Prepends(chains, merged + [h], StripAll(rest, h))
  {
    forall tail: Chain | GlobalOrder(StripAll(rest, h), tail) && DrawnFrom(StripAll(rest, h), tail)
      ensures GlobalOrder(chains, merged + [h] + tail) && DrawnFrom(chains, merged + [h] + tail)
    {
      HeadThenRest(rest, h, tail);
      assert merged + [h] + tail == merged + ([h] + tail);
    }
  }

  lemma PrependsAll(chains: seq<Chain>, merged: Chain, rest: seq<Chain>)
    requires Prepends(chains, merged, rest) && forall c :: c in rest ==> c == []
    ensures GlobalOrder(chains, merged)
  {
    assert GlobalOrder(rest, []) && DrawnFrom(rest, []);
    assert merged + [] == merged;
  }

  /** What a caller can compute from the chains before trusting a report without conflicts:
      take good heads off until none is left. The chains come out empty exactly when their graph
      has no cycle, and then the heads taken are an order that contains them all. So "no
      conflicting pair" says "no cycle" exactly for the inputs with a conflict and those that merge. */
  method MergeChains(chains: seq<Chain>) returns (merged: bool, order: Chain)
    ensures merged <==> Acyclic(chains)
    ensures merged ==> GlobalOrder(chains, order)
    ensures (NoConflict(chains) <==> Acyclic(chains)) <==> !NoConflict(chains) || merged
  {
    var rest := chains;
    order := [];
    PrependsNothing(chains);
    while exists c :: c in rest && c != []
      invariant Prepends(chains, order, rest)
      invariant Acyclic(rest) <==> Acyclic(chains)
      decreases TotalLength(rest)
    {
      var found, h := FindGoodHead(rest);
      if !found {
        StuckHasCycle(rest);
        return false, order;
      }
      PrependsHead(chains, order, rest, h);
      GoodHeadKeepsCycles(rest, h);
      StripShortens(rest, h);
      order := order + [h];
      rest := StripAll(rest, h);
    }
    PrependsAll(chains, order, rest);
    GlobalOrderIsAcyclic(chains, order);
    AcyclicHasNoConflict(chains);
    return true, order;
  }

  // ----- how far the pairwise check reaches

  /** A conflicting pair is itself a cycle: no order contains all the chains. */
  lemma ConflictIsCycle(chains: seq<Chain>, x: nat, y: nat)
    requires Opposed(chains, x, y)
    ensures IsCycle(chains, [x, y, x])
  {
    var w := [x, y, x];
    assert w[0] == x && w[1] == y && w[2] == x;
  }

  lemma AcyclicHasNoConflict(chains: seq<Chain>)
    requires Acyclic(chains)
    ensures NoConflict(chains)
  {
    forall x: nat, y: nat | x != y
      ensures !Opposed(chains, x, y)
    {
      if Opposed(chains, x, y) {
        ConflictIsCycle(chains, x, y);
      }
    }
  }

  /** When one chain lists every contract that the others order, pairs decide. */
  lemma CoveringChainDecides(chains: seq<Chain>, c: Chain)
    requires AllDistinct(chains) && c in chains
    requires forall d, x :: d in chains && x in d ==> x in c
    ensures NoConflict(chains) <==> Acyclic(chains)
  {
    if Acyclic(chains) {
      AcyclicHasNoConflict(chains);
    }
    forall w | NoConflict(chains)
      ensures !IsCycle(chains, w)
    {
      if IsCycle(chains, w) {
        forall i | 0 <= i < |w|
          ensures w[i] in c
        {
          var k := if i == |w| - 1 then 0 else i;
          assert Edge(chains, w[k], w[k + 1]);
          var d :| d in chains && Before(d, w[k], w[k + 1]);
          assert w[k] in d;
        }
        CycleInsideChain(chains, c, w);
      }
    }
  }

  /** Two chains without a conflict always merge. */
  lemma TwoChainsMerge(a: Chain, b: Chain)
    requires Distinct(a) && Distinct(b) && NoConflict([a, b])
    ensures Acyclic([a, b])
  {
    TwoChainOrder(a, b);
    var order :| GlobalOrder([a, b], order);
    GlobalOrderIsAcyclic([a, b], order);
  }

  lemma {:induction false} TwoChainOrder(a: Chain, b: Chain)
    requires Distinct(a) && Distinct(b) && NoConflict([a, b])
    ensures exists order :: GlobalOrder([a, b], order) && DrawnFrom([a, b], order)
    decreases |a| + |b|
  {
    if a == [] || b == [] {
      var c := if a == [] then b else a;
      WholeIsSubsequence(c);
      assert c in [a, b];
      assert GlobalOrder([a, b], c) && DrawnFrom([a, b], c);
    } else {
      var h := if a[0] !in b[1..] then a[0] else b[0];
      TwoHeads(a, b);
      assert a in [a, b] && b in [a, b] && GoodHead([a, b], h);
      var a', b' := Strip(a, h), Strip(b, h);
      assert StripAll([a, b], h) == [a', b'];
      StripKeepsNoConflict([a, b], h);
      TwoChainOrder(a', b');
      var tail :| GlobalOrder([a', b'], tail) && DrawnFrom([a', b'], tail);
      HeadThenRest([a, b], h, tail);
    }
  }

  lemma StripKeepsNoConflict(chains: seq<Chain>, h: nat)
    requires NoConflict(chains)
    ensures NoConflict(StripAll(chains, h))
  {
    forall x, y | x != y
      ensures !Opposed(StripAll(chains, h), x, y)
    {
      if Opposed(StripAll(chains, h), x, y) {
        StripEdge(chains, h, x, y);
        StripEdge(chains, h, y, x);
        assert Opposed(chains, x, y);
      }
    }
  }

  lemma OpposingPair(a: Chain, b: Chain, x: nat, y: nat)
    requires x != y && Before(a, x, y) && Before(b, y, x)
    ensures !NoConflict([a, b])
  {
    assert [a, b][0] == a && [a, b][1] == b;
    assert Edge([a, b], x, y) && Edge([a, b], y, x);
    assert Opposed([a, b], x, y);
  }

  /** Of two heads that do not conflict, one follows nothing. */
  lemma TwoHeads(a: Chain, b: Chain)
    requires a != [] && b != [] && Distinct(a) && Distinct(b) && NoConflict([a, b])
    ensures a[0] !in a[1..] && b[0] !in b[1..]
    ensures a[0] in b[1..] ==> b[0] !in a[1..]
  {
    if a[0] in b[1..] && b[0] in a[1..] {
      var i :| 0 <= i < |b[1..]| && b[1..][i] == a[0];
      var j :| 0 <= j < |a[1..]| && a[1..][j] == b[0];
      assert b[i + 1] == a[0] && Before(b, b[0], a[0]);
      assert a[j + 1] == b[0] && Before(a, a[0], b[0]);
      OpposingPair(a, b, a[0], b[0]);
    }
  }

  lemma {:induction false} WholeIsSubsequence(c: Chain)
    ensures IsSubsequence(c, c)
  {
    if c != [] {
      WholeIsSubsequence(c[1..]);
    }
  }

  /** The chains that order anything: those of two contracts or more. */
  ghost function OrderingChains(chains: seq<Chain>): seq<Chain> {
    if chains == [] then []
    else (if |chains[0]| >= 2 then [chains[0]] else []) + OrderingChains(chains[1..])
  }

  lemma {:induction false} OrderingChainsMembers(chains: seq<Chain>)
    ensures forall c :: c in OrderingChains(chains) <==> c in chains && |c| >= 2
  {
    if chains != [] {
      OrderingChainsMembers(chains[1..]);
      assert chains == [chains[0]] + chains[1..];
    }
  }

  lemma OrderingChainsKeepEdges(chains: seq<Chain>)
    ensures forall x: nat, y: nat :: Edge(OrderingChains(chains), x, y) <==> Edge(chains, x, y)
  {
    OrderingChainsMembers(chains);
    forall c: Chain, x: nat, y: nat | Before(c, x, y)
      ensures |c| >= 2
    {
    }
  }

  /** What the linearizations of a Solidity artifact look like: each starts with its own
      contract, one per contract, and every base has its linearization inside it. */
  ghost predicate IsInheritance(chains: seq<Chain>) {
    && AllDistinct(chains)
    && (forall c :: c in chains ==> c != [])
    && (forall i, j :: 0 <= i < j < |chains| ==> chains[i] != [] && chains[j] != [] && chains[i][0] != chains[j][0])
    && (forall c, x :: c in chains && x in c ==> HasBase(chains, c, x))
  }

  ghost predicate HasBase(chains: seq<Chain>, c: Chain, x: nat) {
    exists d :: d in chains && d != [] && d[0] == x && IsSubsequence(d, c)
  }

  /** Three bases, three contracts that inherit from two of them each in a circle, and any
      number of further contracts that inherit from one. */
  function Ring(n: nat): (r: seq<Chain>)
    requires n >= 3
    ensures |r| == n + 3
    ensures r[0] == [1] && r[1] == [2] && r[2] == [3] && r[3] == [4, 1, 2] && r[4] == [5, 2, 3] && r[5] == [6, 3, 1]
    ensures forall i :: 6 <= i < n + 3 ==> r[i] == [i + 1, 1]
  {
    [[1], [2], [3], [4, 1, 2], [5, 2, 3], [6, 3, 1]] + seq(n - 3, i requires 0 <= i < n - 3 => [i + 7, 1])
  }

  lemma RingEdges(n: nat, x: nat, y: nat)
    requires n >= 3 && Edge(Ring(n), x, y)
    ensures (x, y) in {(1, 2), (2, 3), (3, 1), (4, 1), (4, 2), (5, 2), (5, 3), (6, 3), (6, 1)} || (x >= 7 && y == 1)
  {
    var ring := Ring(n);
    var c :| c in ring && Before(c, x, y);
    var k :| 0 <= k < |ring| && ring[k] == c;
    assert k < 6 || c == [k + 1, 1];
  }

  lemma RingHasNoConflictButCycles(n: nat)
    requires n >= 3
    ensures NoConflict(Ring(n)) && IsCycle(Ring(n), [1, 2, 3, 1])
  {
    var ring := Ring(n);
    forall x: nat, y: nat | x != y
      ensures !Opposed(ring, x, y)
    {
      if Opposed(ring, x, y) {
        RingEdges(n, x, y);
        RingEdges(n, y, x);
      }
    }
    var w: seq<nat> := [1, 2, 3, 1];
    assert ring[3][1] == 1 && ring[3][2] == 2 && Before(ring[3], 1, 2);
    assert ring[4][1] == 2 && ring[4][2] == 3 && Before(ring[4], 2, 3);
    assert ring[5][1] == 3 && ring[5][2] == 1 && Before(ring[5], 3, 1);
    assert Edge(ring, 1, 2) && Edge(ring, 2, 3) && Edge(ring, 3, 1);
    assert forall i :: 0 <= i < 3 ==> (w[i], w[i + 1]) in {(1, 2), (2, 3), (3, 1)};
  }

  lemma RingIsInheritance(n: nat)
    requires n >= 3
    ensures IsInheritance(Ring(n))
  {
    var ring := Ring(n);
    assert forall i :: 0 <= i < |ring| ==> ring[i] != [] && ring[i][0] == i + 1;
    forall c | c in ring
      ensures c != [] && Distinct(c)
    {
      var k :| 0 <= k < |ring| && ring[k] == c;
    }
    forall c, x | c in ring && x in c
      ensures HasBase(ring, c, x)
    {
      RingHasBase(n, c, x);
    }
  }

  lemma RingHasBase(n: nat, c: Chain, x: nat)
    requires n >= 3 && c in Ring(n) && x in c
    ensures HasBase(Ring(n), c, x)
  {
    var ring := Ring(n);
    var k :| 0 <= k < |ring| && ring[k] == c;
    assert k >= 6 ==> c == [k + 1, 1];
    if x == c[0] {
      WholeIsSubsequence(c);
    } else {
      assert x in {1, 2, 3} && ring[x - 1] == [x];
      SingletonIsSubsequence(x, c);
    }
  }

  lemma {:induction false} SingletonIsSubsequence(x: nat, c: Chain)
    requires x in c
    ensures IsSubsequence([x], c)
  {
    if c[0] != x {
      SingletonIsSubsequence(x, c[1..]);
    }
  }

  lemma {:induction false} AllOrdering(chains: seq<Chain>)
    requires forall i :: 0 <= i < |chains| ==> |chains[i]| >= 2
    ensures OrderingChains(chains) == chains
  {
    if chains != [] {
      AllOrdering(chains[1..]);
    }
  }

  lemma RingSize(n: nat)
    requires n >= 3
    ensures |OrderingChains(Ring(n))| == n
  {
    var ring := Ring(n);
    assert OrderingChains(ring) == OrderingChains(ring[1..]);
    assert OrderingChains(ring[1..]) == OrderingChains(ring[1..][1..]);
    assert OrderingChains(ring[1..][1..]) == OrderingChains(ring[1..][1..][1..]);
    var ordering: seq<Chain> := ring[3..];
    assert ring[1..][1..][1..] == ordering;
    assert forall i :: 0 <= i < n ==> ordering[i] == ring[i + 3] && |ordering[i]| >= 2;
    AllOrdering(ordering);
  }

  ghost predicate PairwiseCheckComplete(n: nat) {
    forall chains: seq<Chain> ::
      |OrderingChains(chains)| == n && AllDistinct(chains) && NoConflict(chains) ==> Acyclic(chains)
  }

  ghost predicate PairwiseCheckCompleteForInheritance(n: nat) {
    forall chains: seq<Chain> ::
      |OrderingChains(chains)| == n && IsInheritance(chains) && NoConflict(chains) ==> Acyclic(chains)
  }

  /** Checking only pairs misses no cycle, whatever the chains, exactly when at most two of them
      order anything; for the linearizations of a Solidity artifact the bound is the same. */
  lemma PairwiseCheckCompleteIffTwo(n: nat)
    ensures PairwiseCheckComplete(n) <==> n <= 2
    ensures PairwiseCheckCompleteForInheritance(n) <==> n <= 2
  {
    if n <= 2 {
      forall chains: seq<Chain> | |OrderingChains(chains)| == n && AllDistinct(chains) && NoConflict(chains)
        ensures Acyclic(chains)
      {
        FewOrderingChainsAcyclic(chains);
      }
    } else {
      RingHasNoConflictButCycles(n);
      RingIsInheritance(n);
      RingSize(n);
      assert !Acyclic(Ring(n));
    }
  }

  lemma FewOrderingChainsAcyclic(chains: seq<Chain>)
    requires |OrderingChains(chains)| <= 2 && AllDistinct(chains) && NoConflict(chains)
    ensures Acyclic(chains)
  {
    var few := OrderingChains(chains);
    OrderingChainsMembers(chains);
    OrderingChainsKeepEdges(chains);
    SameEdges(chains, few);
    AtMostTwoAcyclic(few);
    SameEdges(few, chains);
  }

  /** Conflicts and cycles depend on the edges alone. */
  lemma SameEdges(a: seq<Chain>, b: seq<Chain>)
    requires forall x: nat, y: nat :: Edge(a, x, y) <==> Edge(b, x, y)
    ensures NoConflict(a) ==> NoConflict(b)
    ensures Acyclic(a) ==> Acyclic(b)
  {
    if NoConflict(a) {
      forall x: nat, y: nat | x != y
        ensures !Opposed(b, x, y)
      {
        assert !Opposed(a, x, y);
      }
    }
    if Acyclic(a) {
      forall w
        ensures !IsCycle(b, w)
      {
        assert !IsCycle(a, w);
        if IsCycle(b, w) {
          assert IsWalk(a, w);
        }
      }
    }
  }

  lemma AtMostTwoAcyclic(chains: seq<Chain>)
    requires |chains| <= 2 && AllDistinct(chains) && NoConflict(chains)
    ensures Acyclic(chains)
  {
    var a := if chains == [] then [] else chains[0];
    var b := if |chains| == 2 then chains[1] else a;
    assert forall c :: c in chains ==> c in [a, b];
    assert forall c :: c in [a, b] ==> c in chains || c == [];
    SameEdges(chains, [a, b]);
    TwoChainsMerge(a, b);
    SameEdges([a, b], chains);
  }
}
