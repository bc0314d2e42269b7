/** The check itself: build the graph of every artifact, report each conflicting pair with the
    chains that order it. */
module InheritanceCheck {
  import opened Sequences
  import opened ChainOrders

  datatype Source = Source(path: string, linearizations: seq<Chain>)

  predicate HasAt(path: string, i: nat, part: string) {
    i + |part| <= |path| && path[i..i + |part|] == part
  }

  predicate IsMock(path: string) {
    exists i :: 0 <= i < |path| && HasAt(path, i, "/mocks/")
  }

  /** The linearizations of every contract outside the mocks. */
  function ChainsOf(sources: seq<Source>): seq<Chain> {
    if sources == [] then []
    else (if IsMock(sources[0].path) then [] else sources[0].linearizations) + ChainsOf(sources[1..])
  }

  /** A mock is a path that has the directory somewhere in it. */
  lemma MockHasDirectory(path: string)
    ensures IsMock(path) <==> exists before: string, after: string :: path == before + "/mocks/" + after
  {
    if i :| 0 <= i < |path| && HasAt(path, i, "/mocks/") {
      assert path == path[..i] + "/mocks/" + path[i + 7..];
    }
    if before: string, after: string :| path == before + "/mocks/" + after {
      assert HasAt(path, |before|, "/mocks/");
    }
  }

  /** The chains keep the order of the sources, and of the contracts in each. */
  lemma {:induction false} ChainsOfAppend(a: seq<Source>, b: seq<Source>)
    ensures ChainsOf(a + b) == ChainsOf(a) + ChainsOf(b)
  {
    if a == [] {
      assert a + b == b;
    } else {
      assert (a + b)[1..] == a[1..] + b && (a + b)[0] == a[0];
      ChainsOfAppend(a[1..], b);
      var own := if IsMock(a[0].path) then [] else a[0].linearizations;
      assert own + (ChainsOf(a[1..]) + ChainsOf(b)) == (own + ChainsOf(a[1..])) + ChainsOf(b);
    }
  }

  /** A chain is considered exactly when a source outside the mocks has it. */
  lemma {:induction false} ChainsOfExact(sources: seq<Source>)
    ensures forall c :: c in ChainsOf(sources) <==>
                          exists s :: s in sources && !IsMock(s.path) && c in s.linearizations
  {
    if sources != [] {
      ChainsOfExact(sources[1..]);
      assert forall s :: s in sources <==> s == sources[0] || s in sources[1..];
    }
  }

  /** A directed graph: its nodes in order of insertion, and its edges. */
  class Graph {
    var nodes: seq<nat>
    var edges: set<(nat, nat)>

    ghost predicate Valid()
      reads this
    {
      && Distinct(nodes)
      && forall x: nat, y: nat :: (x, y) in edges ==> x in nodes && y in nodes
    }

    constructor ()
      ensures Valid() && nodes == [] && edges == {}
    {
      nodes, edges := [], {};
    }

    method SetEdge(x: nat, y: nat)
      requires Valid()
      modifies this
      ensures Valid() && edges == old(edges) + {(x, y)}
    {
      if x !in nodes {
        nodes := nodes + [x];
      }
      if y !in nodes {
        nodes := nodes + [y];
      }
      edges := edges + {(x, y)};
    }

    /** An edge from every contract of a chain to every later one. */
    method AddChain(c: Chain)
      requires Valid()
      modifies this
      ensures Valid()
      ensures forall x: nat, y: nat :: (x, y) in edges <==> (x, y) in old(edges) || Before(c, x, y)
    {
      for i := 0 to |c|
        invariant Valid()
        invariant forall x: nat, y: nat :: (x, y) in edges <==> (x, y) in old(edges) || PairSeen(c, i, 0, x, y)
      {
        for j := i + 1 to |c|
          invariant Valid()
          invariant forall x: nat, y: nat :: (x, y) in edges <==> (x, y) in old(edges) || PairSeen(c, i, j, x, y)
        {
          SetEdge(c[i], c[j]);
          assert forall x: nat, y: nat ::
              PairSeen(c, i, j + 1, x, y) <==> PairSeen(c, i, j, x, y) || (x, y) == (c[i], c[j]);
        }
        assert forall x: nat, y: nat :: PairSeen(c, i + 1, 0, x, y) <==> PairSeen(c, i, |c|, x, y);
      }
      assert forall x: nat, y: nat :: PairSeen(c, |c|, 0, x, y) <==> Before(c, x, y);
    }
  }

  /** `x` before `y` at positions the loops have passed: rows up to `i`, and `i` up to `j`. */
  ghost predicate PairSeen(c: Chain, i: nat, j: nat, x: nat, y: nat) {
    exists a, b :: 0 <= a < b < |c| && (a < i || (a == i && b < j)) && c[a] == x && c[b] == y
  }

  ghost predicate GraphOf(edges: set<(nat, nat)>, chains: seq<Chain>) {
    forall x: nat, y: nat :: (x, y) in edges <==> Edge(chains, x, y)
  }

  lemma OpposedInGraph(edges: set<(nat, nat)>, chains: seq<Chain>, x: nat, y: nat)
    requires GraphOf(edges, chains)
    ensures (x, y) in edges && (y, x) in edges <==> Opposed(chains, x, y)
  {
  }

  method AddChains(g: Graph, linearized: seq<Chain>, chains: seq<Chain>) returns (extended: seq<Chain>)
    requires g.Valid() && GraphOf(g.edges, linearized)
    modifies g
    ensures g.Valid() && extended == linearized + chains && GraphOf(g.edges, extended)
  {
    extended := linearized;
    for k := 0 to |chains|
      invariant g.Valid() && extended == linearized + chains[..k] && GraphOf(g.edges, extended)
    {
      EdgeAppend(extended, chains[k]);
      extended := extended + [chains[k]];
      g.AddChain(chains[k]);
    }
    assert chains[..|chains|] == chains;
  }

  /** The graph of an artifact: the mocks are skipped. */
  method BuildGraph(sources: seq<Source>) returns (g: Graph, linearized: seq<Chain>)
    ensures fresh(g) && g.Valid()
    ensures linearized == ChainsOf(sources)
    ensures GraphOf(g.edges, linearized)
  {
    g := new Graph();
    linearized := [];
    EmptyGraph();
    for s := 0 to |sources|
      invariant fresh(g) && g.Valid()
      invariant linearized + ChainsOf(sources[s..]) == ChainsOf(sources)
      invariant GraphOf(g.edges, linearized)
    {
      ChainsOfFrom(sources, s);
      if !IsMock(sources[s].path) {
        linearized := AddChains(g, linearized, sources[s].linearizations);
      }
    }
    assert sources[|sources|..] == [];
  }

  lemma EmptyGraph()
    ensures GraphOf({}, [])
  {
  }

  lemma ChainsOfFrom(sources: seq<Source>, s: nat)
    requires s < |sources|
    ensures ChainsOf(sources[s..])
            == (if IsMock(sources[s].path) then [] else sources[s].linearizations) + ChainsOf(sources[s + 1..])
  {
    assert sources[s..][1..] == sources[s + 1..];
  }

  lemma EdgeAppend(chains: seq<Chain>, c: Chain)
    ensures forall x: nat, y: nat :: Edge(chains + [c], x, y) <==> Edge(chains, x, y) || Before(c, x, y)
  {
    assert forall d :: d in chains + [c] <==> d in chains || d == c;
  }

  // ----- the report

  datatype Sign = Above | Below  // printed as > and <

  datatype Line = Line(sign: Sign, chain: Chain)

  datatype Conflict = Conflict(x: nat, y: nat, lines: seq<Line>)

  function Listing(chains: seq<Chain>, x: nat, y: nat): seq<Line> {
    if chains == [] then []
    else
      var c := chains[0];
      (if x in c && y in c then [Line(if IndexOf(c, x) < IndexOf(c, y) then Above else Below, c)] else [])
      + Listing(chains[1..], x, y)
  }

  /** The listing of a pair holds exactly the chains containing both, signed by their order. */
  lemma {:induction false} ListingExact(chains: seq<Chain>, x: nat, y: nat)
    requires AllDistinct(chains) && x != y
    ensures forall line :: line in Listing(chains, x, y) <==>
                             && line.chain in chains && x in line.chain && y in line.chain
                             && line.sign == if Before(line.chain, x, y) then Above else Below
  {
    if chains != [] {
      var c := chains[0];
      assert chains == [c] + chains[1..];
      ListingExact(chains[1..], x, y);
      if x in c && y in c {
        DistinctOrder(c, x, y);
        assert c[IndexOf(c, x)] == x && c[IndexOf(c, y)] == y;
      }
    }
  }

  /** The listing keeps the chains' order and repetitions: it is built part by part. */
  lemma {:induction false} ListingAppend(a: seq<Chain>, b: seq<Chain>, x: nat, y: nat)
    ensures Listing(a + b, x, y) == Listing(a, x, y) + Listing(b, x, y)
  {
    if a == [] {
      assert a + b == b;
    } else {
      assert (a + b)[1..] == a[1..] + b;
      ListingAppend(a[1..], b, x, y);
    }
  }

  /** A conflicting pair is listed with at least one chain each way. */
  lemma ListingShowsBothSigns(chains: seq<Chain>, x: nat, y: nat)
    requires AllDistinct(chains) && x != y && Opposed(chains, x, y)
    ensures exists line :: line in Listing(chains, x, y) && line.sign == Above
    ensures exists line :: line in Listing(chains, x, y) && line.sign == Below
  {
    ListingExact(chains, x, y);
    var c :| c in chains && Before(c, x, y);
    var d :| d in chains && Before(d, y, x);
    DistinctOrder(d, x, y);
    assert Line(Above, c) in Listing(chains, x, y);
    assert Line(Below, d) in Listing(chains, x, y);
  }

  ghost predicate IsPair(r: Conflict, x: nat, y: nat) {
    (r.x == x && r.y == y) || (r.x == y && r.y == x)
  }

  ghost predicate Reports(report: seq<Conflict>, x: nat, y: nat) {
    exists k :: 0 <= k < |report| && IsPair(report[k], x, y)
  }

  /** What a report says about the chains it was made from. */
  ghost predicate ReportExact(chains: seq<Chain>, report: seq<Conflict>) {
    && (forall x: nat, y: nat :: x != y ==> (Reports(report, x, y) <==> Opposed(chains, x, y)))
    && (forall k :: 0 <= k < |report| ==> report[k].x != report[k].y)
    && (forall k, l :: 0 <= k < l < |report| ==> !IsPair(report[l], report[k].x, report[k].y))
    && (forall k :: 0 <= k < |report| ==> report[k].lines == Listing(chains, report[k].x, report[k].y))
  }

  ghost predicate BothWays(edges: set<(nat, nat)>, x: nat, y: nat) {
    (x, y) in edges && (y, x) in edges
  }

  /** Positions the loops have passed, `(i, j)` being next, of two nodes with edges both ways. */
  ghost predicate Passed(edges: set<(nat, nat)>, nodes: seq<nat>, i: nat, j: nat, p: (nat, nat)) {
    && p.0 < p.1 < |nodes| && (p.0 < i || (p.0 == i && p.1 < j))
    && BothWays(edges, nodes[p.0], nodes[p.1])
  }

  ghost predicate NoRepeats(at: seq<(nat, nat)>) {
    forall k, l :: 0 <= k < l < |at| ==> at[k] != at[l]
  }

  /** Every position passed is found, once. */
  ghost predicate Finds(edges: set<(nat, nat)>, nodes: seq<nat>, i: nat, j: nat, at: seq<(nat, nat)>) {
    && NoRepeats(at)
    && (forall k :: 0 <= k < |at| ==> Passed(edges, nodes, i, j, at[k]))
    && (forall p :: Passed(edges, nodes, i, j, p) ==> p in at)
  }

  ghost predicate IsEntry(chains: seq<Chain>, nodes: seq<nat>, r: Conflict, p: (nat, nat)) {
    p.0 < p.1 < |nodes| && r == Conflict(nodes[p.0], nodes[p.1], Listing(chains, nodes[p.0], nodes[p.1]))
  }

  /** `report` has the entries of the pairs at the positions `at`, in order. */
  ghost predicate Lists(chains: seq<Chain>, nodes: seq<nat>, report: seq<Conflict>, at: seq<(nat, nat)>) {
    |report| == |at| && forall k :: 0 <= k < |at| ==> IsEntry(chains, nodes, report[k], at[k])
  }

  /** Every pair of nodes with edges both ways, once. */
  method FindConflicts(g: Graph, chains: seq<Chain>) returns (report: seq<Conflict>)
    requires g.Valid() && GraphOf(g.edges, chains)
    ensures ReportExact(chains, report)
    ensures report == [] <==> NoConflict(chains)
  {
    var nodes, edges := g.nodes, g.edges;
    report := [];
    ghost var at: seq<(nat, nat)> := [];  // the positions each entry was found at
    for i := 0 to |nodes|
      invariant Finds(edges, nodes, i, i + 1, at) && Lists(chains, nodes, report, at)
    {
      for j := i + 1 to |nodes|
        invariant Finds(edges, nodes, i, j, at) && Lists(chains, nodes, report, at)
      {
        ghost var before := at;
        var x, y := nodes[i], nodes[j];
        if (x, y) in edges && (y, x) in edges {
          ListsAppend(chains, nodes, report, at, i, j);
          report := report + [Conflict(x, y, Listing(chains, x, y))];
          at := at + [(i, j)];
        }
        FindsStep(edges, nodes, i, j, before);
        assert at == if BothWays(edges, nodes[i], nodes[j]) then before + [(i, j)] else before;
      }
      FindsTurn(edges, nodes, i, at);
    }
    FoundIsExact(chains, edges, nodes, report, at);
  }

  lemma ListsAppend(chains: seq<Chain>, nodes: seq<nat>, report: seq<Conflict>, at: seq<(nat, nat)>, i: nat, j: nat)
    requires Lists(chains, nodes, report, at) && i < j < |nodes|
    ensures Lists(chains, nodes, report + [Conflict(nodes[i], nodes[j], Listing(chains, nodes[i], nodes[j]))],
                  at + [(i, j)])
  {
  }

  lemma FindsStep(edges: set<(nat, nat)>, nodes: seq<nat>, i: nat, j: nat, at: seq<(nat, nat)>)
    requires i < j < |nodes| && Finds(edges, nodes, i, j, at)
    ensures Finds(edges, nodes, i, j + 1,
                  if BothWays(edges, nodes[i], nodes[j]) then at + [(i, j)] else at)
  {
    var more := if BothWays(edges, nodes[i], nodes[j]) then at + [(i, j)] else at;
    forall p | Passed(edges, nodes, i, j + 1, p)
      ensures p in more
    {
      assert p == (i, j) || Passed(edges, nodes, i, j, p);
    }
  }

  /** The end of one row is the start of the next. */
  lemma FindsTurn(edges: set<(nat, nat)>, nodes: seq<nat>, i: nat, at: seq<(nat, nat)>)
    requires Finds(edges, nodes, i, |nodes|, at)
    ensures Finds(edges, nodes, i + 1, i + 2, at)
  {
    forall p | Passed(edges, nodes, i + 1, i + 2, p)
      ensures p in at
    {
      assert Passed(edges, nodes, i, |nodes|, p);
    }
  }

  /** Two pairs of positions that name the same two nodes are one pair. */
  lemma SamePositions(nodes: seq<nat>, p: (nat, nat), q: (nat, nat))
    requires Distinct(nodes) && p.0 < p.1 < |nodes| && q.0 < q.1 < |nodes| && p != q
    ensures !(nodes[p.0] == nodes[q.0] && nodes[p.1] == nodes[q.1])
    ensures !(nodes[p.0] == nodes[q.1] && nodes[p.1] == nodes[q.0])
  {
  }

  lemma EntryExact(chains: seq<Chain>, edges: set<(nat, nat)>, nodes: seq<nat>, report: seq<Conflict>,
                   at: seq<(nat, nat)>, k: nat)
    requires Distinct(nodes) && GraphOf(edges, chains)
    requires Finds(edges, nodes, |nodes|, |nodes| + 1, at) && Lists(chains, nodes, report, at) && k < |report|
    ensures report[k].x != report[k].y && Opposed(chains, report[k].x, report[k].y)
    ensures report[k].lines == Listing(chains, report[k].x, report[k].y)
  {
    var p := at[k];
    assert IsEntry(chains, nodes, report[k], p) && Passed(edges, nodes, |nodes|, |nodes| + 1, p);
    OpposedInGraph(edges, chains, nodes[p.0], nodes[p.1]);
  }

  lemma ReportedOnce(chains: seq<Chain>, edges: set<(nat, nat)>, nodes: seq<nat>, report: seq<Conflict>,
                     at: seq<(nat, nat)>, k: nat, l: nat)
    requires Distinct(nodes) && k < l < |report|
    requires Finds(edges, nodes, |nodes|, |nodes| + 1, at) && Lists(chains, nodes, report, at)
    ensures !IsPair(report[l], report[k].x, report[k].y)
  {
    assert IsEntry(chains, nodes, report[k], at[k]) && IsEntry(chains, nodes, report[l], at[l]);
    SamePositions(nodes, at[k], at[l]);
  }

  lemma ConflictReported(chains: seq<Chain>, edges: set<(nat, nat)>, nodes: seq<nat>, report: seq<Conflict>,
                         at: seq<(nat, nat)>, a: nat, b: nat)
    requires a < b < |nodes| && BothWays(edges, nodes[a], nodes[b])
    requires Finds(edges, nodes, |nodes|, |nodes| + 1, at) && Lists(chains, nodes, report, at)
    ensures Reports(report, nodes[a], nodes[b]) && Reports(report, nodes[b], nodes[a])
  {
    assert Passed(edges, nodes, |nodes|, |nodes| + 1, (a, b));
    var k :| 0 <= k < |at| && at[k] == (a, b);
    assert IsEntry(chains, nodes, report[k], at[k]);
    assert IsPair(report[k], nodes[a], nodes[b]) && IsPair(report[k], nodes[b], nodes[a]);
  }

  lemma FoundIsExact(chains: seq<Chain>, edges: set<(nat, nat)>, nodes: seq<nat>, report: seq<Conflict>,
                     at: seq<(nat, nat)>)
    requires Distinct(nodes) && GraphOf(edges, chains)
    requires forall x: nat, y: nat :: (x, y) in edges ==> x in nodes && y in nodes
    requires Finds(edges, nodes, |nodes|, |nodes| + 1, at) && Lists(chains, nodes, report, at)
    ensures ReportExact(chains, report)
    ensures report == [] <==> NoConflict(chains)
  {
    forall k | 0 <= k < |report|
      ensures report[k].x != report[k].y && Opposed(chains, report[k].x, report[k].y)
      ensures report[k].lines == Listing(chains, report[k].x, report[k].y)
    {
      EntryExact(chains, edges, nodes, report, at, k);
    }
    forall k, l | 0 <= k < l < |report|
      ensures !IsPair(report[l], report[k].x, report[k].y)
    {
      ReportedOnce(chains, edges, nodes, report, at, k, l);
    }
    forall x: nat, y: nat | x != y
      ensures Reports(report, x, y) <==> Opposed(chains, x, y)
    {
      if Reports(report, x, y) {
        var k :| 0 <= k < |report| && IsPair(report[k], x, y);
        EntryExact(chains, edges, nodes, report, at, k);
      }
      if Opposed(chains, x, y) {
        OpposedInGraph(edges, chains, x, y);
        var a, b := IndexOf(nodes, x), IndexOf(nodes, y);
        ConflictReported(chains, edges, nodes, report, at, if a < b then a else b, if a < b then b else a);
      }
    }
    EmptyIffNoConflict(chains, report);
  }

  lemma EmptyIffNoConflict(chains: seq<Chain>, report: seq<Conflict>)
    requires forall x: nat, y: nat :: x != y ==> (Reports(report, x, y) <==> Opposed(chains, x, y))
    requires forall k :: 0 <= k < |report| ==> report[k].x != report[k].y
    ensures report == [] <==> NoConflict(chains)
  {
    if report != [] {
      assert IsPair(report[0], report[0].x, report[0].y);
      assert Reports(report, report[0].x, report[0].y);
    }
  }

  method CheckArtifact(sources: seq<Source>) returns (report: seq<Conflict>)
    ensures ReportExact(ChainsOf(sources), report)
    ensures report == [] <==> NoConflict(ChainsOf(sources))
  {
    var g, linearized := BuildGraph(sources);
    report := FindConflicts(g, linearized);
  }

  /** Every report so far is exact for its artifact. */
  ghost predicate AllExact(artifacts: seq<seq<Source>>, reports: seq<seq<Conflict>>) {
    && |reports| <= |artifacts|
    && (forall a :: 0 <= a < |reports| ==> ReportExact(ChainsOf(artifacts[a]), reports[a]))
    && (forall a :: 0 <= a < |reports| ==> (reports[a] == [] <==> NoConflict(ChainsOf(artifacts[a]))))
  }

  lemma AllExactAppend(artifacts: seq<seq<Source>>, reports: seq<seq<Conflict>>, report: seq<Conflict>)
    requires AllExact(artifacts, reports) && |reports| < |artifacts|
    requires ReportExact(ChainsOf(artifacts[|reports|]), report)
    requires report == [] <==> NoConflict(ChainsOf(artifacts[|reports|]))
    ensures AllExact(artifacts, reports + [report])
  {
    var more := reports + [report];
    forall a | 0 <= a < |more|
      ensures ReportExact(ChainsOf(artifacts[a]), more[a]) && (more[a] == [] <==> NoConflict(ChainsOf(artifacts[a])))
    {
      assert more[a] == if a < |reports| then reports[a] else report;
    }
  }

  /** The whole script: one report per artifact; "consistent" exactly when no artifact holds
      two chains that disagree. */
  method CheckOrdering(artifacts: seq<seq<Source>>) returns (reports: seq<seq<Conflict>>, consistent: bool)
    ensures |reports| == |artifacts| && AllExact(artifacts, reports)
    ensures consistent <==> forall a :: 0 <= a < |artifacts| ==> NoConflict(ChainsOf(artifacts[a]))
  {
    reports := [];
    var exitCode := 0;
    for a := 0 to |artifacts|
      invariant |reports| == a && AllExact(artifacts, reports)
      invariant exitCode == 0 <==> forall b :: 0 <= b < a ==> reports[b] == []
    {
      var report := CheckArtifact(artifacts[a]);
      AllExactAppend(artifacts, reports, report);
      if report != [] {
        exitCode := 1;
      }
      reports := reports + [report];
    }
    consistent := exitCode == 0;
  }

  /** The script calls an artifact consistent although its graph has a cycle. */
  method RingIsDeclaredConsistent(path: string) returns (reports: seq<seq<Conflict>>, consistent: bool)
    requires !IsMock(path)
    ensures consistent && reports == [[]]
    ensures IsInheritance(ChainsOf([Source(path, Ring(3))])) && IsCycle(ChainsOf([Source(path, Ring(3))]), [1, 2, 3, 1])
  {
    var artifact := [Source(path, Ring(3))];
    assert artifact[1..] == [];
    assert ChainsOf(artifact) == Ring(3);
    RingHasNoConflictButCycles(3);
    RingIsInheritance(3);
    reports, consistent := CheckOrdering([artifact]);
    assert reports[0] == [];
  }
}
