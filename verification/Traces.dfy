/** The `Trace224` and `Trace160` flavours: values of `size` bits under keys of the other
    `256 - size` bits. */
module Traces {
  import opened Evm
  import opened CheckpointArray

  /** What a run of pushes leaves in the log: every push whose key does not go back. */
  ghost function Accepted(log: seq<Checkpoint>, pushes: seq<Checkpoint>): seq<Checkpoint>
    decreases |pushes|
  {
    if pushes == [] then log
    else
      var e := pushes[0];
      Accepted(if log != [] && e.key < log[|log| - 1].key then log else log + [e], pushes[1..])
  }

  /** Below the newest key the past is immutable: no run of pushes changes its lookups. */
  lemma {:induction false} PastIsImmutable(log: seq<Checkpoint>, pushes: seq<Checkpoint>, key: nat)
    requires log != [] && key < log[|log| - 1].key
    ensures ValueAt(Accepted(log, pushes), key) == ValueAt(log, key)
    decreases |pushes|
  {
    if pushes != [] {
      var e := pushes[0];
      if e.key < log[|log| - 1].key {
        PastIsImmutable(log, pushes[1..], key);
      } else {
        ValueAtAppend(log, e, key);
        PastIsImmutable(log + [e], pushes[1..], key);
      }
    }
  }

  lemma AcceptedCons(log: seq<Checkpoint>, e: Checkpoint, pushes: seq<Checkpoint>)
    requires log == [] || log[|log| - 1].key <= e.key
    ensures Accepted(log, [e] + pushes) == Accepted(log + [e], pushes)
  {
    var all := [e] + pushes;
    assert all[0] == e && all[1..] == pushes;
  }

  /** After an accepted push every lookup from its key on gives the new value, and every
      lookup below it what it gave before. */
  lemma PushShadowsFromKeyOn(log: seq<Checkpoint>, e: Checkpoint, pushes: seq<Checkpoint>, key: nat)
    requires log == [] || log[|log| - 1].key <= e.key
    ensures e.key <= key ==> ValueAt(Accepted(log, [e]), key) == e.value
    ensures key < e.key ==> ValueAt(Accepted(log, [e] + pushes), key) == ValueAt(log, key)
  {
    AcceptedCons(log, e, []);
    AcceptedCons(log, e, pushes);
    assert [e] + [] == [e];
    ValueAtAppend(log, e, key);
    if key < e.key {
      PastIsImmutable(log + [e], pushes, key);
    }
  }

  class Trace {
    const size: nat
    var checkpoints: seq<Checkpoint>
    ghost var log: seq<Checkpoint>  // every accepted push, oldest first

    ghost predicate Valid()
      reads this
    {
      && size <= 256
      && Represents(checkpoints, log)
      && Fits(checkpoints, Pow2(256 - size), Pow2(size))
    }

    constructor (size: nat)
      requires size == 224 || size == 160
      ensures Valid() && log == [] && this.size == size
    {
      this.size := size;
      checkpoints, log := [], [];
    }

    /** `push`: rejected exactly when the key goes back, and then nothing changes. */
    method Push(key: nat, value: nat) returns (r: Result<(nat, nat)>)
      requires Valid() && key < Pow2(256 - size) && value < Pow2(size)
      modifies this
      ensures Valid()
      ensures r == if old(log) != [] && key < old(log)[|old(log)| - 1].key then Revert(InvalidKey)
                   else Ok((Latest(old(log)), value))
      ensures r.Ok? ==> log == old(log) + [Checkpoint(key, value)]
      ensures r.Revert? ==> log == old(log) && checkpoints == old(checkpoints)
    {
      InsertRepresents(checkpoints, log, key, value);
      match Insert(checkpoints, key, value) {
        case Revert(error) =>
          r := Revert(error);
        case Ok((inserted, previous, current)) =>
          checkpoints := inserted;
          log := log + [Checkpoint(key, value)];
          r := Ok((previous, current));
      }
    }

    /** `lowerLookup`: what the log holds at its smallest key that is at least `key`. */
    method LowerLookup(key: nat) returns (v: nat)
      requires Valid()
      ensures v == ValueFrom(log, key) < Pow2(size)
    {
      var len := |checkpoints|;
      ghost var probes;
      var pos;
      pos, probes := LowerBinaryLookup(checkpoints, key, 0, len);
      ValueFromSplit(checkpoints, log, key, pos);
      v := if pos == len then 0 else checkpoints[pos].value;
    }

    /** `upperLookup`: the last value pushed at a key no greater than `key`. */
    method UpperLookup(key: nat) returns (v: nat)
      requires Valid()
      ensures v == ValueAt(log, key) < Pow2(size)
    {
      ghost var probes;
      var pos;
      pos, probes := UpperBinaryLookup(checkpoints, key, 0, |checkpoints|);
      ValueAtSplit(checkpoints, key, pos);
      v := if pos == 0 then 0 else checkpoints[pos - 1].value;
    }

    /** The two search positions for one key, as counts of the stored keys. */
    method Positions(key: nat) returns (lower: nat, upper: nat)
      requires Valid()
      ensures lower == CountBelow(checkpoints, key) && upper == CountBelow(checkpoints, key + 1)
      ensures upper == lower + if key in Keys(log) then 1 else 0
      ensures key in Keys(log) ==> ValueFrom(log, key) == ValueAt(log, key)
    {
      ghost var probes;
      lower, probes := LowerBinaryLookup(checkpoints, key, 0, |checkpoints|);
      upper, probes := UpperBinaryLookup(checkpoints, key, 0, |checkpoints|);
      SplitCounts(checkpoints, key, lower);
      SplitCounts(checkpoints, key + 1, upper);
      PositionsDiffer(checkpoints, key);
      if key in Keys(log) {
        StoredKeyLookupsAgree(log, key);
      }
    }

    method LatestValue() returns (v: nat)
      requires Valid()
      ensures v == Latest(log)
    {
      v := CheckpointArray.LatestValue(checkpoints, log);
    }

    method LatestCheckpoint() returns (found: bool, key: nat, value: nat)
      requires Valid()
      ensures (found, key, value) == if log == [] then (false, 0, 0)
                                     else (true, log[|log| - 1].key, log[|log| - 1].value)
    {
      found, key, value := CheckpointArray.LatestCheckpoint(checkpoints, log);
    }

    /** `length`: how many distinct keys were ever pushed at. */
    method Length() returns (n: nat)
      requires Valid()
      ensures n == |Keys(log)|
    {
      n := CheckpointArray.Length(checkpoints, log);
    }
  }

  /** Every run of a trace from its creation: the log holds the accepted pushes and the array
      is its one compressed form. */
  method Replay(size: nat, pushes: seq<Checkpoint>) returns (t: Trace)
    requires size == 224 || size == 160
    requires Fits(pushes, Pow2(256 - size), Pow2(size))
    ensures fresh(t) && t.Valid() && t.log == Accepted([], pushes)
    ensures forall s: seq<Checkpoint> :: Represents(s, t.log) ==> s == t.checkpoints
  {
    t := new Trace(size);
    for i := 0 to |pushes|
      invariant fresh(t) && t.Valid() && t.size == size
      invariant Accepted(t.log, pushes[i..]) == Accepted([], pushes)
    {
      assert pushes[i..][0] == pushes[i] && pushes[i..][1..] == pushes[i + 1..];
      var _ := t.Push(pushes[i].key, pushes[i].value);
    }
    forall s: seq<Checkpoint> | Represents(s, t.log)
      ensures s == t.checkpoints
    {
      RepresentationUnique(s, t.checkpoints);
    }
  }
}
