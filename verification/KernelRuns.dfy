/** What every run of the kernel keeps, and for which dependency lists it keeps it. */
module KernelRuns {
  import opened Evm
  import opened Sequences
  import SetOrder
  import opened Sums
  import opened Rosters
  import opened Kernels

  // ----- what is to be kept

  /** The active policies and the dependents of every module are listed once, at the positions
      their indexes give. */
  ghost predicate ListsOnce(st: State) {
    Exact(st.active) && forall k: nat :: Exact(At(st.dependents, k))
  }

  /** A module's dependents are the active policies that name it. */
  ghost predicate Faithful(st: State, config: Config) {
    forall k: nat, p: nat :: p in At(st.dependents, k).list <==> p in st.active.list && k in config(p).dependencies
  }

  /** A policy names every module once. */
  ghost predicate NamesOnce(config: Config) {
    forall p: nat :: Distinct(config(p).dependencies)
  }

  /** A module that some policy names more than once is named by no other. */
  ghost predicate PrivateRepeats(config: Config) {
    forall p: nat, q: nat, k: nat :: p != q && Count(config(p).dependencies, k) >= 2 ==> k !in config(q).dependencies
  }

  // ----- the active policies, whatever the dependency lists

  lemma ApplyActive(st: State, a: Action, config: Config)
    requires Exact(st.active)
    ensures Apply(st, a, config).Ok? ==>
              && (a.policy in st.active.list <==> a.Deactivate?)
              && var next := Apply(st, a, config).value.active;
              && Exact(next)
              && (forall q: nat ::
                    q in next.list <==> if q == a.policy then a.Activate? else q in st.active.list)
  {
    ExactIsListed(st.active, a.policy);
    if a.Activate? && a.policy !in st.active.list {
      EnlistExact(st.active, a.policy);
      SetOrder.AddedMembers(st.active.list, a.policy);
    } else if a.Deactivate? && a.policy in st.active.list {
      StrikeExact(st.active, a.policy);
      SetOrder.RemovedMembers(st.active.list, a.policy);
    }
  }

  /** Whatever the dependency lists, the active policies are listed once, exactly indexed. */
  lemma {:induction false} ActiveExact(st: State, actions: seq<Action>, config: Config)
    requires Exact(st.active)
    ensures Exact(Run(st, actions, config).active)
    decreases |actions|
  {
    if actions != [] {
      ApplyActive(st, actions[0], config);
      ActiveExact(Next(st, actions[0], config), actions[1..], config);
    }
  }

  // ----- the permissions, whatever the dependency lists

  /** A policy may call what it asks for while it is active, and nothing else. */
  ghost predicate GrantsAreActive(st: State, config: Config) {
    forall k: nat, p: nat, f: nat ::
      Grant(k, p, f) in st.granted <==> p in st.active.list && Permission(k, f) in config(p).requests
  }

  lemma {:induction false} PermissionsSet(granted: set<Grant>, requests: seq<Permission>, p: nat, grant: bool, g: Grant)
    ensures g in SetPermissions(granted, requests, p, grant)
            <==> if g.policy == p && Permission(g.keycode, g.selector) in requests then grant else g in granted
    decreases |requests|
  {
    if requests != [] {
      var first := Grant(requests[0].keycode, p, requests[0].selector);
      PermissionsSet(if grant then granted + {first} else granted - {first}, requests[1..], p, grant, g);
    }
  }

  lemma StepGrants(st: State, a: Action, config: Config)
    requires Exact(st.active) && GrantsAreActive(st, config)
    ensures Exact(Next(st, a, config).active) && GrantsAreActive(Next(st, a, config), config)
  {
    ApplyActive(st, a, config);
    if Apply(st, a, config).Ok? {
      var next := Next(st, a, config);
      forall k: nat, p: nat, f: nat
        ensures Grant(k, p, f) in next.granted
                <==> p in next.active.list && Permission(k, f) in config(p).requests
      {
        PermissionsSet(st.granted, config(a.policy).requests, a.policy, a.Activate?, Grant(k, p, f));
      }
    }
  }

  lemma {:induction false} RunGrants(st: State, actions: seq<Action>, config: Config)
    requires Exact(st.active) && GrantsAreActive(st, config)
    ensures GrantsAreActive(Run(st, actions, config), config)
    decreases |actions|
  {
    if actions != [] {
      StepGrants(st, actions[0], config);
      RunGrants(Next(st, actions[0], config), actions[1..], config);
    }
  }

  /** Over every run, for any dependency lists, the permissions granted are those the active policies
      ask for: a policy that was deactivated keeps none. */
  lemma GrantsFollowActivity(actions: seq<Action>, config: Config)
    ensures GrantsAreActive(Run(START, actions, config), config)
  {
    RunGrants(START, actions, config);
  }

  // ----- one module, one step

  /** The roster of a module named more than once by some policy is that policy's alone. */
  ghost predicate PrivateKept(st: State, config: Config, k: nat) {
    forall p: nat :: Count(config(p).dependencies, k) >= 2 ==>
      At(st.dependents, k)
      == if p in st.active.list then EnlistTimes(EMPTY, p, Count(config(p).dependencies, k)) else EMPTY
  }

  ghost predicate NamedOnce(config: Config, k: nat) {
    forall p: nat :: Count(config(p).dependencies, k) <= 1
  }

  /** Any other is exact and lists the active policies that name the module. */
  ghost predicate Kept(st: State, config: Config, k: nat) {
    && PrivateKept(st, config, k)
    && (NamedOnce(config, k) ==>
          && Exact(At(st.dependents, k))
          && forall p: nat :: p in At(st.dependents, k).list <==> p in st.active.list && k in config(p).dependencies)
  }

  ghost predicate AllKept(st: State, config: Config) {
    Exact(st.active) && forall k: nat :: Kept(st, config, k)
  }

  lemma Once(r: Roster, p: nat)
    ensures EnlistTimes(r, p, 1) == Enlist(r, p) && StrikeTimes(r, p, 1) == Strike(r, p)
  {
    assert EnlistTimes(Enlist(r, p), p, 0) == Enlist(r, p);
  }

  lemma PrivateKeptWith(st: State, next: State, p: nat, config: Config, k: nat)
    requires PrivateRepeats(config) && PrivateKept(st, config, k) && p !in st.active.list
    requires forall q: nat :: q in next.active.list <==> q == p || q in st.active.list
    requires At(next.dependents, k) == EnlistTimes(At(st.dependents, k), p, Count(config(p).dependencies, k))
    ensures PrivateKept(next, config, k)
  {
    forall q: nat | Count(config(q).dependencies, k) >= 2
      ensures At(next.dependents, k)
              == if q in next.active.list then EnlistTimes(EMPTY, q, Count(config(q).dependencies, k)) else EMPTY
    {
      if q != p {
        CountPositive(config(p).dependencies, k);
        assert EnlistTimes(At(st.dependents, k), p, 0) == At(st.dependents, k);
      }
    }
  }

  lemma KeptWith(st: State, next: State, p: nat, config: Config, k: nat)
    requires PrivateRepeats(config) && Kept(st, config, k) && p !in st.active.list
    requires forall q: nat :: q in next.active.list <==> q == p || q in st.active.list
    requires At(next.dependents, k) == EnlistTimes(At(st.dependents, k), p, Count(config(p).dependencies, k))
    ensures Kept(next, config, k)
  {
    PrivateKeptWith(st, next, p, config, k);
    var before := At(st.dependents, k);
    if NamedOnce(config, k) {
      assert Count(config(p).dependencies, k) <= 1;
      if Count(config(p).dependencies, k) == 1 {
        Once(before, p);
        EnlistExact(before, p);
        SetOrder.AddedMembers(before.list, p);
      }
    }
  }

  lemma ActivateKeeps(st: State, p: nat, config: Config, k: nat)
    requires PrivateRepeats(config) && AllKept(st, config) && p !in st.active.list
    ensures Apply(st, Activate(p), config).Ok?
    ensures Kept(Apply(st, Activate(p), config).value, config, k)
  {
    ExactIsListed(st.active, p);
    ApplyActive(st, Activate(p), config);
    EnlistAllAt(st.dependents, config(p).dependencies, p, k);
    KeptWith(st, Apply(st, Activate(p), config).value, p, config, k);
  }

  lemma DeactivateStrikes(st: State, p: nat, config: Config, k: nat)
    requires PrivateRepeats(config) && AllKept(st, config) && p in st.active.list
    ensures var n := Count(config(p).dependencies, k);
            && StrikeTimes(At(st.dependents, k), p, n).Ok?
            && var after := StrikeTimes(At(st.dependents, k), p, n).value;
            && (n == 0 ==> after == At(st.dependents, k))
            && (n == 1 ==> Exact(after)
                           && forall q: nat :: q in after.list <==> q != p && q in At(st.dependents, k).list)
            && (n >= 2 ==> after == EMPTY)
  {
    var before, n := At(st.dependents, k), Count(config(p).dependencies, k);
    assert Kept(st, config, k);
    if n == 1 {
      assert NamedOnce(config, k);
      Once(before, p);
      StrikeExact(before, p);
      SetOrder.RemovedMembers(before.list, p);
    } else if n >= 2 {
      AloneComesAndGoes(p, n);
    }
  }

  lemma DeactivateSucceeds(st: State, p: nat, config: Config)
    requires PrivateRepeats(config) && AllKept(st, config) && p in st.active.list
    ensures Apply(st, Deactivate(p), config).Ok?
    ensures var after := Apply(st, Deactivate(p), config).value.dependents;
            forall k: nat :: StrikeTimes(At(st.dependents, k), p, Count(config(p).dependencies, k)) == Ok(At(after, k))
  {
    ExactIsListed(st.active, p);
    StrikeExact(st.active, p);
    forall k: nat
      ensures StrikeTimes(At(st.dependents, k), p, Count(config(p).dependencies, k)).Ok?
    {
      DeactivateStrikes(st, p, config, k);
    }
    StrikeAllAt(st.dependents, config(p).dependencies, p);
  }

  lemma KeptWithout(st: State, next: State, p: nat, config: Config, k: nat)
    requires PrivateRepeats(config) && Kept(st, config, k) && p in st.active.list
    requires forall q: nat :: q in next.active.list <==> q != p && q in st.active.list
    requires var n, before, after := Count(config(p).dependencies, k), At(st.dependents, k), At(next.dependents, k);
             && (n == 0 ==> after == before)
             && (n == 1 ==> Exact(after) && forall q: nat :: q in after.list <==> q != p && q in before.list)
             && (n >= 2 ==> after == EMPTY)
    ensures Kept(next, config, k)
  {
  }

  lemma DeactivateKeeps(st: State, p: nat, config: Config, k: nat)
    requires PrivateRepeats(config) && AllKept(st, config) && p in st.active.list
    ensures Apply(st, Deactivate(p), config).Ok?
    ensures Kept(Apply(st, Deactivate(p), config).value, config, k)
  {
    DeactivateSucceeds(st, p, config);
    var next := Apply(st, Deactivate(p), config).value;
    ApplyActive(st, Deactivate(p), config);
    DeactivateStrikes(st, p, config, k);
    assert StrikeTimes(At(st.dependents, k), p, Count(config(p).dependencies, k)) == Ok(At(next.dependents, k));
    KeptWithout(st, next, p, config, k);
  }

  /** While repeated names are private, an action reverts only for the documented reason. */
  lemma StepKeeps(st: State, a: Action, config: Config)
    requires PrivateRepeats(config) && AllKept(st, config)
    ensures AllKept(Next(st, a, config), config)
    ensures Apply(st, a, config).Ok? <==> (a.policy in st.active.list <==> a.Deactivate?)
    ensures match Apply(st, a, config)
            case Ok(_) => true
            case Revert(error) => error == if a.Activate? then PolicyAlreadyActivated else PolicyNotActivated
  {
    ExactIsListed(st.active, a.policy);
    ApplyActive(st, a, config);
    if a.policy in st.active.list <==> a.Deactivate? {
      if a.Activate? {
        ActivateKeeps(st, a.policy, config, 0);
      } else {
        DeactivateSucceeds(st, a.policy, config);
      }
      forall k: nat
        ensures Apply(st, a, config).Ok? && Kept(Next(st, a, config), config, k)
      {
        if a.Activate? {
          ActivateKeeps(st, a.policy, config, k);
        } else {
          DeactivateKeeps(st, a.policy, config, k);
        }
      }
    }
  }

  /** Whether `p` is to be active: as the last action about it says. */
  ghost function LastSays(now: bool, actions: seq<Action>, p: nat): bool
    decreases |actions|
  {
    if actions == [] then now
    else LastSays(if actions[0].policy == p then actions[0].Activate? else now, actions[1..], p)
  }

  lemma {:induction false} RunKeeps(st: State, actions: seq<Action>, config: Config, p: nat)
    requires PrivateRepeats(config) && AllKept(st, config)
    ensures AllKept(Run(st, actions, config), config)
    ensures p in Run(st, actions, config).active.list <==> LastSays(p in st.active.list, actions, p)
    decreases |actions|
  {
    if actions != [] {
      StepKeeps(st, actions[0], config);
      ApplyActive(st, actions[0], config);
      RunKeeps(Next(st, actions[0], config), actions[1..], config, p);
    }
  }

  lemma StartKept(config: Config)
    ensures AllKept(START, config)
  {
    forall k: nat
      ensures Kept(START, config, k)
    {
      assert At(START.dependents, k) == EMPTY;
    }
  }

  lemma KeptIsFaithful(st: State, config: Config)
    requires PrivateRepeats(config) && AllKept(st, config)
    ensures Faithful(st, config)
  {
    forall k: nat, p: nat
      ensures p in At(st.dependents, k).list <==> p in st.active.list && k in config(p).dependencies
    {
      assert Kept(st, config, k);
      if q: nat :| Count(config(q).dependencies, k) >= 2 {
        var full := EnlistTimes(EMPTY, q, Count(config(q).dependencies, k));
        EnlistTimesList(EMPTY, q, Count(config(q).dependencies, k));
        assert full.list[0] == q && forall u: nat :: u in full.list ==> u == q;
      }
    }
  }

  // ----- no panic, whatever the dependency lists

  /** How often the listed policies name a module, together. */
  ghost function Named(list: seq<nat>, config: Config, k: nat): int {
    Sum(NamedEach(list, config, k))
  }

  ghost function NamedEach(list: seq<nat>, config: Config, k: nat): (s: seq<int>)
    ensures |s| == |list| && forall i :: 0 <= i < |s| ==> s[i] == Count(config(list[i]).dependencies, k)
  {
    seq(|list|, i requires 0 <= i < |list| => Count(config(list[i]).dependencies, k))
  }

  lemma NamedAdded(list: seq<nat>, p: nat, config: Config, k: nat)
    requires p !in list
    ensures Named(SetOrder.Added(list, p), config, k) == Named(list, config, k) + Count(config(p).dependencies, k)
  {
    var more := list + [p];
    assert NamedEach(more, config, k)[..|list|] == NamedEach(list, config, k);
  }

  lemma NamedRemoved(list: seq<nat>, p: nat, config: Config, k: nat)
    requires p in list
    ensures Named(SetOrder.Removed(list, p), config, k) == Named(list, config, k) - Count(config(p).dependencies, k)
    ensures Count(config(p).dependencies, k) <= Named(list, config, k)
  {
    var i, n, each := IndexOf(list, p), |list| - 1, NamedEach(list, config, k);
    var swapped := each[i := each[n]];
    SumUpdate(each, i, each[n]);
    PartAtMost(each, i);
    assert NamedEach(SetOrder.Removed(list, p), config, k) == swapped[..n];
    assert Sum(swapped) == Sum(swapped[..n]) + swapped[n];
  }

  /** Every roster is as long as the active policies name its module, with every index in range. */
  ghost predicate Balanced(st: State, config: Config) {
    && Exact(st.active)
    && forall k: nat :: InRange(At(st.dependents, k))
                        && |At(st.dependents, k).list| == Named(st.active.list, config, k)
  }

  lemma ActivateBalanced(st: State, p: nat, config: Config)
    requires Balanced(st, config) && p !in st.active.list
    ensures Apply(st, Activate(p), config).Ok? && Balanced(Apply(st, Activate(p), config).value, config)
  {
    ExactIsListed(st.active, p);
    EnlistExact(st.active, p);
    var next := Apply(st, Activate(p), config).value;
    forall k: nat
      ensures InRange(At(next.dependents, k)) && |At(next.dependents, k).list| == Named(next.active.list, config, k)
    {
      EnlistAllAt(st.dependents, config(p).dependencies, p, k);
      EnlistTimesInRange(At(st.dependents, k), p, Count(config(p).dependencies, k));
      NamedAdded(st.active.list, p, config, k);
    }
  }

  lemma DeactivateBalanced(st: State, p: nat, config: Config)
    requires Balanced(st, config) && p in st.active.list
    ensures Apply(st, Deactivate(p), config).Ok? && Balanced(Apply(st, Deactivate(p), config).value, config)
  {
    ExactIsListed(st.active, p);
    StrikeExact(st.active, p);
    forall k: nat
      ensures var n := Count(config(p).dependencies, k);
              && StrikeTimes(At(st.dependents, k), p, n).Ok?
              && InRange(StrikeTimes(At(st.dependents, k), p, n).value)
              && |StrikeTimes(At(st.dependents, k), p, n).value.list|
                 == Named(SetOrder.Removed(st.active.list, p), config, k)
    {
      NamedRemoved(st.active.list, p, config, k);
      StrikeTimesInRange(At(st.dependents, k), p, Count(config(p).dependencies, k));
    }
    StrikeAllAt(st.dependents, config(p).dependencies, p);
    var next := Apply(st, Deactivate(p), config).value;
    forall k: nat
      ensures InRange(At(next.dependents, k)) && |At(next.dependents, k).list| == Named(next.active.list, config, k)
    {
      assert StrikeTimes(At(st.dependents, k), p, Count(config(p).dependencies, k)) == Ok(At(next.dependents, k));
    }
  }

  lemma StepBalanced(st: State, a: Action, config: Config)
    requires Balanced(st, config)
    ensures Balanced(Next(st, a, config), config)
    ensures match Apply(st, a, config)
            case Ok(_) => a.policy in st.active.list <==> a.Deactivate?
            case Revert(error) =>
              if a.Activate? then a.policy in st.active.list && error == PolicyAlreadyActivated
              else a.policy !in st.active.list && error == PolicyNotActivated
  {
    ExactIsListed(st.active, a.policy);
    if a.Activate? && a.policy !in st.active.list {
      ActivateBalanced(st, a.policy, config);
    } else if a.Deactivate? && a.policy in st.active.list {
      DeactivateBalanced(st, a.policy, config);
    }
  }

  lemma {:induction false} RunBalanced(st: State, actions: seq<Action>, config: Config, p: nat)
    requires Balanced(st, config)
    ensures Balanced(Run(st, actions, config), config)
    ensures p in Run(st, actions, config).active.list <==> LastSays(p in st.active.list, actions, p)
    decreases |actions|
  {
    if actions != [] {
      StepBalanced(st, actions[0], config);
      ApplyActive(st, actions[0], config);
      RunBalanced(Next(st, actions[0], config), actions[1..], config, p);
    }
  }

  /** Over every run, for any dependency lists, no array is accessed past its end: an action reverts only
      as documented, and a policy is active as the last action about it says. */
  lemma NeverPanics(actions: seq<Action>, a: Action, config: Config)
    ensures var st, active := Run(START, actions, config), LastSays(false, actions, a.policy);
            && IsListed(st.active, a.policy) == Ok(active)
            && (Apply(st, a, config).Ok? <==> (active <==> a.Deactivate?))
            && (Apply(st, a, config).Revert? ==>
                  Apply(st, a, config).error == if a.Activate? then PolicyAlreadyActivated else PolicyNotActivated)
  {
    forall k: nat
      ensures InRange(At(START.dependents, k)) && |At(START.dependents, k).list| == Named(START.active.list, config, k)
    {
      assert NamedEach([], config, k) == [];
    }
    RunBalanced(START, actions, config, a.policy);
    StepBalanced(Run(START, actions, config), a, config);
    ExactIsListed(Run(START, actions, config).active, a.policy);
  }

  // ----- every run

  /** Any run, with the kernel as built: a policy is active as the last action about it says,
      nothing reverts but as documented, and the dependents are the active policies. */
  lemma EveryRunKeeps(actions: seq<Action>, config: Config, p: nat)
    requires PrivateRepeats(config)
    ensures var st := Run(START, actions, config);
            && Faithful(st, config)
            && IsListed(st.active, p) == Ok(LastSays(false, actions, p))
            && (Apply(st, Activate(p), config).Ok? <==> !LastSays(false, actions, p))
            && (Apply(st, Deactivate(p), config).Ok? <==> LastSays(false, actions, p))
  {
    var st := Run(START, actions, config);
    StartKept(config);
    RunKeeps(START, actions, config, p);
    KeptIsFaithful(st, config);
    ExactIsListed(st.active, p);
    StepKeeps(st, Activate(p), config);
    StepKeeps(st, Deactivate(p), config);
  }

  // ----- the run that fails

  /** The other policy, then the one that repeats a keycode, which then leaves. */
  function BehindAndOut(q: nat, p: nat): seq<Action> {
    [Activate(q), Activate(p), Deactivate(p)]
  }

  lemma RunOne(st: State, a: Action, config: Config)
    ensures Run(st, [a], config) == Next(st, a, config)
  {
    assert [a][1..] == [];
    assert Run(Next(st, a, config), [], config) == Next(st, a, config);
  }

  lemma RunThree(st: State, a: Action, b: Action, c: Action, config: Config)
    ensures Run(st, [a, b, c], config) == Next(Next(Next(st, a, config), b, config), c, config)
  {
    var one := Next(st, a, config);
    assert [a, b, c][1..] == [b, c] && [b, c][1..] == [c];
    assert Run(one, [b, c], config) == Run(Next(one, b, config), [c], config);
    RunOne(Next(one, b, config), c, config);
  }

  /** The policy that left takes the first slot of the one that stayed. */
  lemma BehindAndOutDrops(q: nat, p: nat, k: nat, config: Config)
    requires p != q && Count(config(p).dependencies, k) >= 2 && k in config(q).dependencies
    ensures var st := Run(START, BehindAndOut(q, p), config);
            && st.active.list == [q]
            && At(st.dependents, k).list == [p] + Copies(q, Count(config(q).dependencies, k) - 1)
  {
    RunThree(START, Activate(q), Activate(p), Deactivate(p), config);
    var one := Next(START, Activate(q), config);
    assert one == Activated(START, q, config(q));
    var two := Next(one, Activate(p), config);
    ApplyActive(START, Activate(q), config);
    ExactIsListed(one.active, p);
    assert two == Activated(one, p, config(p));
    ApplyActive(one, Activate(p), config);
    forall j: nat
      ensures At(two.dependents, j)
              == EnlistTimes(EnlistTimes(EMPTY, q, Count(config(q).dependencies, j)),
                             p, Count(config(p).dependencies, j))
      ensures StrikeTimes(At(two.dependents, j), p, Count(config(p).dependencies, j)).Ok?
    {
      EnlistAllAt(map[], config(q).dependencies, q, j);
      EnlistAllAt(one.dependents, config(p).dependencies, p, j);
      BehindAnother(q, p, Count(config(q).dependencies, j), Count(config(p).dependencies, j));
    }
    StrikeAllAt(two.dependents, config(p).dependencies, p);
    ExactIsListed(two.active, p);
    StrikeExact(two.active, p);
    BehindAnother(q, p, Count(config(q).dependencies, k), Count(config(p).dependencies, k));
  }

  /** Over every run a module's dependents are the active policies that name it: exactly when
      every repeated name is private. */
  lemma FaithfulIffPrivateRepeats(config: Config)
    ensures (forall actions: seq<Action> :: Faithful(Run(START, actions, config), config))
            <==> PrivateRepeats(config)
  {
    if PrivateRepeats(config) {
      forall actions: seq<Action>
        ensures Faithful(Run(START, actions, config), config)
      {
        EveryRunKeeps(actions, config, 0);
      }
    } else {
      var p: nat, q: nat, k: nat :| p != q && Count(config(p).dependencies, k) >= 2 && k in config(q).dependencies;
      BehindAndOutDrops(q, p, k, config);
      var st := Run(START, BehindAndOut(q, p), config);
      assert At(st.dependents, k).list[0] == p;
      assert p in At(st.dependents, k).list && p !in st.active.list;
      assert !Faithful(st, config);
    }
  }

  lemma CountPositive(ks: seq<nat>, k: nat)
    ensures k in ks <==> Count(ks, k) >= 1
  {
  }

  lemma {:induction false} DistinctIffCounts(ks: seq<nat>)
    ensures Distinct(ks) <==> forall k: nat :: Count(ks, k) <= 1
  {
    if ks != [] {
      var first, rest := ks[0], ks[1..];
      DistinctIffCounts(rest);
      DistinctFirst(ks);
      forall k: nat
        ensures Count(ks, k) == Count(rest, k) + if k == first then 1 else 0
      {
        CountFirst(ks, k);
      }
      CountPositive(rest, first);
    }
  }

  lemma DistinctFirst(ks: seq<nat>)
    requires ks != []
    ensures Distinct(ks) <==> ks[0] !in ks[1..] && Distinct(ks[1..])
  {
    assert forall i :: 0 < i < |ks| ==> ks[i] == ks[1..][i - 1];
    if ks[0] in ks[1..] {
      var j := IndexOf(ks[1..], ks[0]);
      assert ks[0] == ks[j + 1];
    }
  }

  /** Over every run the kernel lists every policy once, at exact indexes: exactly when no
      policy names a module twice. */
  lemma ListsOnceIffNamesOnce(config: Config)
    ensures (forall actions: seq<Action> :: ListsOnce(Run(START, actions, config))) <==> NamesOnce(config)
  {
    if NamesOnce(config) {
      forall p: nat, k: nat
        ensures Count(config(p).dependencies, k) <= 1
      {
        DistinctIffCounts(config(p).dependencies);
      }
      forall actions: seq<Action>
        ensures ListsOnce(Run(START, actions, config))
      {
        StartKept(config);
        RunKeeps(START, actions, config, 0);
        forall k: nat
          ensures Exact(At(Run(START, actions, config).dependents, k))
        {
          assert Kept(Run(START, actions, config), config, k);
        }
      }
    } else {
      var p: nat :| !Distinct(config(p).dependencies);
      DistinctIffCounts(config(p).dependencies);
      var k: nat :| Count(config(p).dependencies, k) >= 2;
      var st := Run(START, [Activate(p)], config);
      RunOne(START, Activate(p), config);
      EnlistAllAt(map[], config(p).dependencies, p, k);
      EnlistTimesList(EMPTY, p, Count(config(p).dependencies, k));
      var list := At(st.dependents, k).list;
      assert list[0] == list[1];
      assert !ListsOnce(st);
    }
  }

  // ----- the kernel itself

  method Execute(kernel: Kernel, a: Action, config: Config) returns (r: Result<()>)
    modifies kernel
    ensures kernel.Abstract() == Next(old(kernel.Abstract()), a, config)
    ensures r.Ok? <==> Apply(old(kernel.Abstract()), a, config).Ok?
  {
    match a {
      case Activate(p) => r := kernel.ActivatePolicy(p, config(p));
      case Deactivate(p) => r := kernel.DeactivatePolicy(p, config(p));
    }
  }

  /** Every run of a kernel from its creation ends as the same run of `Run`; so its permissions are those
      of the active policies, and while repeated names are private so are its dependents. */
  method Replay(actions: seq<Action>, config: Config) returns (kernel: Kernel)
    ensures fresh(kernel) && kernel.Abstract() == Run(START, actions, config)
    ensures Exact(kernel.active) && GrantsAreActive(kernel.Abstract(), config)
    ensures PrivateRepeats(config) ==> Faithful(kernel.Abstract(), config)
  {
    kernel := new Kernel();
    for i := 0 to |actions|
      invariant fresh(kernel)
      invariant Run(kernel.Abstract(), actions[i..], config) == Run(START, actions, config)
    {
      assert actions[i..][0] == actions[i] && actions[i..][1..] == actions[i + 1..];
      var r := Execute(kernel, actions[i], config);
    }
    ActiveExact(START, actions, config);
    GrantsFollowActivity(actions, config);
    FaithfulIffPrivateRepeats(config);
  }
}
