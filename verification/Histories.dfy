/** The legacy `History`: checkpoints keyed by block number. */
module Histories {
  import opened Evm
  import opened CheckpointArray
  import opened HistoryLog
  import opened SafeCasts
  import opened Sequences
  import opened WordMath

  /** How many comparisons `getAtProbablyRecentBlock` may need among `n` checkpoints: a key not
      older than the checkpoint `n - sqrt(n)` is searched among the last `sqrt(n) - 1`. */
  ghost function RecentBudget(s: seq<Checkpoint>, key: nat): nat {
    var n, root := |s|, FloorSqrt(|s|);
    if n == 0 then 0
    else if n <= 5 then Log2(n) + 1
    else if s[n - root].key <= key then 2 + Log2(root - 1)
    else 2 + Log2(n - root)
  }

  class History {
    var now: nat  // block.number
    var checkpoints: seq<Checkpoint>
    ghost var log: seq<Checkpoint>  // every accepted push, oldest first

    ghost function Abstract(): Record
      reads this
    {
      Record(now, log)
    }

    ghost predicate Valid()
      reads this
    {
      && Represents(checkpoints, log)
      && Fits(checkpoints, UINT32_LIMIT, UINT224_LIMIT)
      && WellFormed(Abstract())
    }

    constructor (now: nat)
      ensures Valid() && Abstract() == Record(now, [])
    {
      this.now := now;
      checkpoints, log := [], [];
    }

    /** Blocks pass between transactions. */
    method AdvanceBlocks(blocks: nat)
      requires Valid()
      modifies this`now
      ensures Valid() && Abstract() == Apply(old(Abstract()), Advance(blocks)).0
    {
      now := now + blocks;
    }

    /** `push(value)`: never rejected for its key, since the block number never goes back. */
    method PushValue(value: nat) returns (r: Outcome)
      requires Valid()
      modifies this
      ensures Valid()
      ensures (Abstract(), r) == PushAt(old(Abstract()), value)
      ensures r.Revert? ==> checkpoints == old(checkpoints)
    {
      var key, narrowed := ToUint(32, now), ToUint(224, value);
      assert key == (if now < UINT32_LIMIT then Ok(now) else Revert(CastOverflow)) by { HistoryCasts(now); }
      assert narrowed == (if value < UINT224_LIMIT then Ok(value) else Revert(CastOverflow)) by { HistoryCasts(value); }
      if key.Revert? {
        return Revert(key.error);
      }
      if narrowed.Revert? {
        return Revert(narrowed.error);
      }
      InsertRepresents(checkpoints, log, key.value, narrowed.value);
      var inserted := Insert(checkpoints, key.value, narrowed.value).value;
      checkpoints := inserted.0;
      log := log + [Checkpoint(now, value)];
      r := Ok((inserted.1, inserted.2));
    }

    /** `push(op, delta)`: pushes `op(latest, delta)`; the operator may read the contract. */
    method PushOperator(op: Operator, storage: map<nat, nat>, delta: nat) returns (r: Outcome)
      requires Valid()
      modifies this
      ensures Valid()
      ensures (Abstract(), r) == Apply(old(Abstract()), PushOp(op, storage, delta))
      ensures r.Revert? ==> checkpoints == old(checkpoints)
    {
      CompressedRepresents(log);
      RepresentationUnique(checkpoints, Compressed(log));
      var latest := LatestValue();
      match op(View(now, checkpoints, storage), latest, delta) {
        case Ok(value) => r := PushValue(value);
        case Revert(error) => r := Revert(error);
      }
    }

    method LatestValue() returns (v: nat)
      requires Valid()
      ensures v == Latest(log)
    {
      v := CheckpointArray.LatestValue(checkpoints, log);
    }

    method LatestCheckpoint() returns (found: bool, key: nat, value: nat)
      requires Valid()
      ensures (found, key, value) == if log == [] then (false, 0, 0)
                                     else (true, log[|log| - 1].key, log[|log| - 1].value)
    {
      found, key, value := CheckpointArray.LatestCheckpoint(checkpoints, log);
    }

    /** `length`: how many distinct blocks were ever pushed at. */
    method Length() returns (n: nat)
      requires Valid()
      ensures n == |Keys(log)|
    {
      n := CheckpointArray.Length(checkpoints, log);
    }

    /** `getAtBlock`, with the number of key comparisons it makes. */
    method GetAtBlock(blockNumber: nat) returns (r: Result<nat>, ghost probes: nat)
      requires Valid()
      ensures r == AtBlock(Abstract(), blockNumber)
      ensures blockNumber >= now ==> r == Revert(BlockNotYetMined)
      ensures UINT32_LIMIT <= blockNumber < now ==> r == Revert(CastOverflow)
      ensures blockNumber < now && blockNumber < UINT32_LIMIT ==> r == Ok(ValueAt(log, blockNumber))
      ensures probes <= if checkpoints == [] then 0 else Log2(|checkpoints|) + 1
    {
      probes := 0;
      if blockNumber >= now {
        return Revert(BlockNotYetMined), 0;
      }
      var key := ToUint(32, blockNumber);
      assert key == (if blockNumber < UINT32_LIMIT then Ok(blockNumber) else Revert(CastOverflow)) by {
        HistoryCasts(blockNumber);
      }
      if key.Revert? {
        return Revert(key.error), 0;
      }
      var pos;
      pos, probes := UpperBinaryLookup(checkpoints, key.value, 0, |checkpoints|);
      ValueAtSplit(checkpoints, blockNumber, pos);
      r := Ok(if pos == 0 then 0 else checkpoints[pos - 1].value);
    }

    /** The window `getAtProbablyRecentBlock` searches: past five checkpoints, one comparison
        tells the last `sqrt(n) - 1` from those before `n - sqrt(n)`. */
    method RecentWindow(key: nat) returns (low: nat, high: nat, ghost probes: nat)
      requires Valid()
      ensures low <= high <= |checkpoints|
      ensures low > 0 ==> checkpoints[low - 1].key <= key
      ensures high < |checkpoints| ==> key < checkpoints[high].key
      ensures var n := |checkpoints|;
              if n <= 5 then (low, high, probes) == (0, n, 0)
              else if key < checkpoints[n - FloorSqrt(n)].key then (low, high, probes) == (0, n - FloorSqrt(n), 1)
              else (low, high, probes) == (n - FloorSqrt(n) + 1, n, 1)
    {
      var len := |checkpoints|;
      low, high, probes := 0, len, 0;
      if len > 5 {
        LengthBelowKeys(checkpoints, UINT32_LIMIT);
        var root := Sqrt(len);
        var mid := len - root;
        probes := 1;
        if key < checkpoints[mid].key {
          high := mid;
        } else {
          low := mid + 1;
        }
      }
    }

    /** `getAtProbablyRecentBlock`: the same answer as `getAtBlock` on every input. */
    method GetAtProbablyRecentBlock(blockNumber: nat) returns (r: Result<nat>, ghost probes: nat)
      requires Valid()
      ensures r == AtBlock(Abstract(), blockNumber)
      ensures blockNumber >= now ==> r == Revert(BlockNotYetMined)
      ensures UINT32_LIMIT <= blockNumber < now ==> r == Revert(CastOverflow)
      ensures blockNumber < now && blockNumber < UINT32_LIMIT ==> r == Ok(ValueAt(log, blockNumber))
      ensures probes <= RecentBudget(checkpoints, blockNumber)
    {
      probes := 0;
      if blockNumber >= now {
        return Revert(BlockNotYetMined), 0;
      }
      var key := ToUint(32, blockNumber);
      assert key == (if blockNumber < UINT32_LIMIT then Ok(blockNumber) else Revert(CastOverflow)) by {
        HistoryCasts(blockNumber);
      }
      if key.Revert? {
        return Revert(key.error), 0;
      }
      var value;
      value, probes := SearchRecent(key.value);
      r := Ok(value);
    }

    method SearchRecent(key: nat) returns (value: nat, ghost probes: nat)
      requires Valid()
      ensures value == ValueAt(log, key)
      ensures probes <= RecentBudget(checkpoints, key)
    {
      var low, high;
      low, high, probes := RecentWindow(key);
      var pos;
      ghost var inner;
      pos, inner := UpperBinaryLookup(checkpoints, key, low, high);
      probes := probes + inner;
      ValueAtSplit(checkpoints, key, pos);
      value := if pos == 0 then 0 else checkpoints[pos - 1].value;
    }
  }

  method Execute(h: History, e: Event) returns (r: Outcome)
    requires h.Valid()
    modifies h
    ensures h.Valid() && (h.Abstract(), r) == Apply(old(h.Abstract()), e)
  {
    match e {
      case Advance(blocks) =>
        h.AdvanceBlocks(blocks);
        r := Ok((0, 0));
      case Push(value) => r := h.PushValue(value);
      case PushOp(op, storage, delta) => r := h.PushOperator(op, storage, delta);
    }
  }

  /** The pair an accepted push returns joins those before it. */
  method ExecuteReturning(h: History, e: Event, returned: seq<(nat, nat)>) returns (more: seq<(nat, nat)>)
    requires h.Valid()
    modifies h
    ensures h.Valid() && h.Abstract() == Apply(old(h.Abstract()), e).0
    ensures more == returned + Pair(e, Apply(old(h.Abstract()), e).1)
  {
    var outcome := Execute(h, e);
    more := if !e.Advance? && outcome.Ok? then returned + [outcome.value] else returned;
  }

  lemma ReturnedStep(rec: Record, events: seq<Event>, i: nat, returned: seq<(nat, nat)>)
    requires i < |events|
    ensures var (next, outcome) := Apply(rec, events[i]);
            (returned + Pair(events[i], outcome)) + Returned(next, events[i + 1..])
            == returned + Returned(rec, events[i..])
  {
    RunStep(rec, events, i);
    var (next, outcome) := Apply(rec, events[i]);
    ConcatAssociates(returned, Pair(events[i], outcome), Returned(next, events[i + 1..]));
  }

  /** Every run of a history from its creation: the array it ends with is the one compressed
      form of the log that the same run writes, and the accepted pushes return what the log
      machine says. */
  method Replay(start: nat, events: seq<Event>) returns (h: History, returned: seq<(nat, nat)>)
    ensures fresh(h) && h.Valid()
    ensures h.Abstract() == RunFrom(Record(start, []), events)
    ensures returned == Returned(Record(start, []), events)
    ensures forall s: seq<Checkpoint> :: Represents(s, h.log) ==> s == h.checkpoints
  {
    h := new History(start);
    returned := [];
    for i := 0 to |events|
      invariant fresh(h) && h.Valid()
      invariant RunFrom(h.Abstract(), events[i..]) == RunFrom(Record(start, []), events)
      invariant returned + Returned(h.Abstract(), events[i..]) == Returned(Record(start, []), events)
    {
      RunStep(h.Abstract(), events, i);
      ReturnedStep(h.Abstract(), events, i, returned);
      returned := ExecuteReturning(h, events[i], returned);
    }
    forall s: seq<Checkpoint> | Represents(s, h.log)
      ensures s == h.checkpoints
    {
      RepresentationUnique(s, h.checkpoints);
    }
  }
}
