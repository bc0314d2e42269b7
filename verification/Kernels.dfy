/** The protocol kernel: which policies are active, which policies depend on each module, and what
    each may call on it. */
module Kernels {
  import opened Evm
  import opened Rosters

  type Dependents = map<nat, Roster>

  function At(m: Dependents, keycode: nat): Roster {
    if keycode in m then m[keycode] else EMPTY
  }

  function EnlistAll(m: Dependents, dependencies: seq<nat>, p: nat): Dependents
    decreases |dependencies|
  {
    if dependencies == [] then m
    else EnlistAll(m[dependencies[0] := Enlist(At(m, dependencies[0]), p)], dependencies[1..], p)
  }

  function StrikeAll(m: Dependents, dependencies: seq<nat>, p: nat): Result<Dependents>
    decreases |dependencies|
  {
    if dependencies == [] then Ok(m)
    else match Strike(At(m, dependencies[0]), p)
      case Ok(struck) => StrikeAll(m[dependencies[0] := struck], dependencies[1..], p)
      case Revert(error) => Revert(error)
  }

  /** A function of a module that a policy asks to call. */
  datatype Permission = Permission(keycode: nat, selector: nat)

  datatype Grant = Grant(keycode: nat, policy: nat, selector: nat)

  /** `_setPolicyPermissions`: every request set to `granted`, in turn. */
  function SetPermissions(granted: set<Grant>, requests: seq<Permission>, p: nat, grant: bool): set<Grant>
    decreases |requests|
  {
    if requests == [] then granted
    else
      var g := Grant(requests[0].keycode, p, requests[0].selector);
      SetPermissions(if grant then granted + {g} else granted - {g}, requests[1..], p, grant)
  }

  /** `granted` holds the entries of `modulePermissions` that read true. */
  datatype State = State(active: Roster, dependents: Dependents, granted: set<Grant>)

  datatype Action = Activate(policy: nat) | Deactivate(policy: nat)

  /** What a policy answers when asked for its dependencies and its permissions. */
  datatype Answers = Answers(dependencies: seq<nat>, requests: seq<Permission>)

  /** What each policy answers, at activation and at deactivation. */
  type Config = nat -> Answers

  function Activated(st: State, p: nat, answers: Answers): State {
    State(Enlist(st.active, p), EnlistAll(st.dependents, answers.dependencies, p),
          SetPermissions(st.granted, answers.requests, p, true))
  }

  function Deactivated(st: State, p: nat, answers: Answers): Result<State> {
    var active :- Strike(st.active, p);
    var dependents :- StrikeAll(st.dependents, answers.dependencies, p);
    Ok(State(active, dependents, SetPermissions(st.granted, answers.requests, p, false)))
  }

  function Apply(st: State, a: Action, config: Config): Result<State> {
    var listed :- IsListed(st.active, a.policy);
    match a
    case Activate(p) => if listed then Revert(PolicyAlreadyActivated) else Ok(Activated(st, p, config(p)))
    case Deactivate(p) => if !listed then Revert(PolicyNotActivated) else Deactivated(st, p, config(p))
  }

  /** A reverted action changes nothing. */
  function Next(st: State, a: Action, config: Config): State {
    match Apply(st, a, config)
    case Ok(next) => next
    case Revert(_) => st
  }

  function Run(st: State, actions: seq<Action>, config: Config): State
    decreases |actions|
  {
    if actions == [] then st else Run(Next(st, actions[0], config), actions[1..], config)
  }

  const START := State(EMPTY, map[], {})

  class Kernel {
    var active: Roster
    var dependents: Dependents
    var granted: set<Grant>

    ghost function Abstract(): State
      reads this
    {
      State(active, dependents, granted)
    }

    constructor ()
      ensures Abstract() == START
    {
      active, dependents, granted := EMPTY, map[], {};
    }

    /** `_activatePolicy`, given what the policy answers. */
    method ActivatePolicy(p: nat, answers: Answers) returns (r: Result<()>)
      modifies this
      ensures match Apply(old(Abstract()), Activate(p), (_: nat) => answers)
              case Ok(next) => r == Ok(()) && Abstract() == next
              case Revert(error) => r == Revert(error) && Abstract() == old(Abstract())
    {
      var listed := IsListed(active, p);
      if listed.Revert? {
        return Revert(listed.error);
      }
      if listed.value {
        return Revert(PolicyAlreadyActivated);
      }
      active := Enlist(active, p);
      RecordDependencies(p, answers.dependencies);
      SetPolicyPermissions(p, answers.requests, true);
      r := Ok(());
    }

    method RecordDependencies(p: nat, dependencies: seq<nat>)
      modifies this`dependents
      ensures dependents == EnlistAll(old(dependents), dependencies, p)
    {
      for i := 0 to |dependencies|
        invariant EnlistAll(dependents, dependencies[i..], p) == EnlistAll(old(dependents), dependencies, p)
      {
        var keycode := dependencies[i];
        assert dependencies[i..][0] == keycode && dependencies[i..][1..] == dependencies[i + 1..];
        dependents := dependents[keycode := Enlist(At(dependents, keycode), p)];
      }
    }

    /** `_setPolicyPermissions`. */
    method SetPolicyPermissions(p: nat, requests: seq<Permission>, grant: bool)
      modifies this`granted
      ensures granted == SetPermissions(old(granted), requests, p, grant)
    {
      for i := 0 to |requests|
        invariant SetPermissions(granted, requests[i..], p, grant) == SetPermissions(old(granted), requests, p, grant)
      {
        var request := requests[i];
        assert requests[i..][0] == request && requests[i..][1..] == requests[i + 1..];
        var g := Grant(request.keycode, p, request.selector);
        granted := if grant then granted + {g} else granted - {g};
      }
    }

    /** `_deactivatePolicy`; a revert inside it undoes what was done before. */
    method DeactivatePolicy(p: nat, answers: Answers) returns (r: Result<()>)
      modifies this
      ensures match Apply(old(Abstract()), Deactivate(p), (_: nat) => answers)
              case Ok(next) => r == Ok(()) && Abstract() == next
              case Revert(error) => r == Revert(error) && Abstract() == old(Abstract())
    {
      var listed := IsListed(active, p);
      if listed.Revert? {
        return Revert(listed.error);
      }
      if !listed.value {
        return Revert(PolicyNotActivated);
      }
      var savedActive, savedDependents, savedGranted := active, dependents, granted;
      SetPolicyPermissions(p, answers.requests, false);
      active := Strike(active, p).value;
      r := PruneFromDependents(p, answers.dependencies);
      if r.Revert? {
        active, dependents, granted := savedActive, savedDependents, savedGranted;
      }
    }

    /** `_pruneFromDependents`. */
    method PruneFromDependents(p: nat, dependencies: seq<nat>) returns (r: Result<()>)
      modifies this`dependents
      ensures match StrikeAll(old(dependents), dependencies, p)
              case Ok(struck) => r == Ok(()) && dependents == struck
              case Revert(error) => r == Revert(error)
    {
      ghost var before := dependents;
      for i := 0 to |dependencies|
        invariant StrikeAll(dependents, dependencies[i..], p) == StrikeAll(before, dependencies, p)
      {
        var keycode := dependencies[i];
        assert dependencies[i..][0] == keycode && dependencies[i..][1..] == dependencies[i + 1..];
        var struck := Strike(At(dependents, keycode), p);
        if struck.Revert? {
          return Revert(struck.error);
        }
        dependents := dependents[keycode := struck.value];
      }
      r := Ok(());
    }
  }

  // ----- one module at a time

  ghost function Count(dependencies: seq<nat>, keycode: nat): nat {
    multiset(dependencies)[keycode]
  }

  lemma CountFirst(dependencies: seq<nat>, keycode: nat)
    requires dependencies != []
    ensures Count(dependencies, keycode)
            == Count(dependencies[1..], keycode) + if dependencies[0] == keycode then 1 else 0
  {
    assert dependencies == [dependencies[0]] + dependencies[1..];
  }

  /** The list of one module only sees how often its keycode is named. */
  lemma {:induction false} EnlistAllAt(m: Dependents, dependencies: seq<nat>, p: nat, keycode: nat)
    ensures At(EnlistAll(m, dependencies, p), keycode) == EnlistTimes(At(m, keycode), p, Count(dependencies, keycode))
    decreases |dependencies|
  {
    if dependencies != [] {
      CountFirst(dependencies, keycode);
      EnlistAllAt(m[dependencies[0] := Enlist(At(m, dependencies[0]), p)], dependencies[1..], p, keycode);
    }
  }

  ghost predicate CanStrike(m: Dependents, dependencies: seq<nat>, p: nat) {
    forall k: nat :: StrikeTimes(At(m, k), p, Count(dependencies, k)).Ok?
  }

  lemma {:induction false} StrikeAllAt(m: Dependents, dependencies: seq<nat>, p: nat)
    requires CanStrike(m, dependencies, p)
    ensures StrikeAll(m, dependencies, p).Ok?
    ensures forall k: nat ::
              StrikeTimes(At(m, k), p, Count(dependencies, k)) == Ok(At(StrikeAll(m, dependencies, p).value, k))
    decreases |dependencies|
  {
    if dependencies != [] {
      var first, rest := dependencies[0], dependencies[1..];
      CountFirst(dependencies, first);
      assert StrikeTimes(At(m, first), p, Count(dependencies, first)).Ok?;
      var next := m[first := Strike(At(m, first), p).value];
      forall k: nat
        ensures StrikeTimes(At(next, k), p, Count(rest, k)) == StrikeTimes(At(m, k), p, Count(dependencies, k))
      {
        CountFirst(dependencies, k);
      }
      StrikeAllAt(next, rest, p);
    }
  }
}
