/** What a history promises, told on the uncompressed log alone: no array, no search. */
module HistoryLog {
  import opened Evm
  import opened CheckpointArray

  /** What a `view` operator can read when it is called: the block, the history's own array, and
      the rest of the contract's storage. */
  datatype View = View(now: nat, checkpoints: seq<Checkpoint>, storage: map<nat, nat>)

  type Operator = (View, nat, nat) -> Result<nat>

  datatype Event =
    | Advance(blocks: nat)
    | Push(value: nat)
    | PushOp(op: Operator, storage: map<nat, nat>, delta: nat)

  /** The current block number and every accepted push so far. */
  datatype Record = Record(now: nat, log: seq<Checkpoint>)

  type Outcome = Result<(nat, nat)>

  /** A push is accepted exactly when the block and the value pass their narrowing casts. */
  ghost function PushAt(rec: Record, value: nat): (Record, Outcome) {
    if rec.now < UINT32_LIMIT && value < UINT224_LIMIT
    then (rec.(log := rec.log + [Checkpoint(rec.now, value)]), Ok((Latest(rec.log), value)))
    else (rec, Revert(CastOverflow))
  }

  ghost function ViewOf(rec: Record, storage: map<nat, nat>): View {
    View(rec.now, Compressed(rec.log), storage)
  }

  ghost function Apply(rec: Record, e: Event): (Record, Outcome) {
    match e
    case Advance(blocks) => (rec.(now := rec.now + blocks), Ok((0, 0)))
    case Push(value) => PushAt(rec, value)
    case PushOp(op, storage, delta) =>
      match op(ViewOf(rec, storage), Latest(rec.log), delta)
      case Ok(value) => PushAt(rec, value)
      case Revert(error) => (rec, Revert(error))
  }

  ghost function RunFrom(rec: Record, events: seq<Event>): Record
    decreases |events|
  {
    if events == [] then rec else RunFrom(Apply(rec, events[0]).0, events[1..])
  }

  /** What `getAtBlock` and `getAtProbablyRecentBlock` both answer. */
  ghost function AtBlock(rec: Record, blockNumber: nat): Result<nat> {
    if blockNumber >= rec.now then Revert(BlockNotYetMined)
    else if blockNumber >= UINT32_LIMIT then Revert(CastOverflow)
    else Ok(ValueAt(rec.log, blockNumber))
  }

  /** No entry of the log was made after the current block, and entries never go back. */
  ghost predicate WellFormed(rec: Record) {
    && NonDecreasing(rec.log)
    && forall i :: 0 <= i < |rec.log| ==> rec.log[i].key <= rec.now
  }

  /** A block has an answer exactly once it is mined: `blocks` blocks on, those before have the value pushed
      last, the current one and those to come have none. */
  lemma AnsweredOnceMined(rec: Record, blocks: nat, k: nat)
    requires WellFormed(rec) && rec.now + k < UINT32_LIMIT
    ensures AtBlock(Apply(rec, Advance(blocks)).0, rec.now + k)
            == if k < blocks then Ok(Latest(rec.log)) else Revert(BlockNotYetMined)
  {
    if rec.log != [] {
      assert rec.log[|rec.log| - 1].key <= rec.now;
    }
  }

  /** What an operator sees: the block, the history's checkpoints, which mean its log, and the storage. */
  lemma ViewShowsHistory(rec: Record, storage: map<nat, nat>)
    requires WellFormed(rec)
    ensures var view := ViewOf(rec, storage);
            view.now == rec.now && view.storage == storage && Represents(view.checkpoints, rec.log)
  {
    CompressedRepresents(rec.log);
  }

  /** The past is immutable: once a block is mined, no later run changes its answer. */
  lemma {:induction false} PastIsImmutable(rec: Record, events: seq<Event>, blockNumber: nat)
    requires blockNumber < rec.now
    ensures AtBlock(RunFrom(rec, events), blockNumber) == AtBlock(rec, blockNumber)
    decreases |events|
  {
    if events != [] {
      var next := Apply(rec, events[0]).0;
      if next.log != rec.log {
        ValueAtAppend(rec.log, next.log[|rec.log|], blockNumber);
        assert next.log == rec.log + [next.log[|rec.log|]];
      }
      PastIsImmutable(next, events[1..], blockNumber);
    }
  }

  /** The value pushed last in a block is the answer for that block ever after. */
  lemma AnswerIsLastPush(rec: Record, value: nat, blocks: nat, events: seq<Event>)
    requires rec.now < UINT32_LIMIT && value < UINT224_LIMIT && blocks > 0
    ensures var mined := Apply(PushAt(rec, value).0, Advance(blocks)).0;
            AtBlock(RunFrom(mined, events), rec.now) == Ok(value)
  {
    PastIsImmutable(Apply(PushAt(rec, value).0, Advance(blocks)).0, events, rec.now);
    ValueAtAppend(rec.log, Checkpoint(rec.now, value), rec.now);
  }

  // ----- accumulating with one operator

  /** Every push of the run goes through `op`. */
  ghost predicate OnlyOperator(events: seq<Event>, op: Operator) {
    forall i :: 0 <= i < |events| ==> events[i].Advance? || (events[i].PushOp? && events[i].op == op)
  }

  /** The deltas of the pushes that were accepted, in order, each with what the operator saw. */
  ghost function AcceptedSteps(rec: Record, events: seq<Event>): seq<(View, nat)>
    decreases |events|
  {
    if events == [] then []
    else
      var (next, outcome) := Apply(rec, events[0]);
      (if events[0].PushOp? && outcome.Ok? then [(ViewOf(rec, events[0].storage), events[0].delta)] else [])
      + AcceptedSteps(next, events[1..])
  }

  /** The (previous, new) pair an accepted push returns. */
  ghost function Pair(e: Event, outcome: Outcome): seq<(nat, nat)> {
    if !e.Advance? && outcome.Ok? then [outcome.value] else []
  }

  /** The pairs the accepted pushes returned, in order. */
  ghost function Returned(rec: Record, events: seq<Event>): seq<(nat, nat)>
    decreases |events|
  {
    if events == [] then []
    else
      var (next, outcome) := Apply(rec, events[0]);
      Pair(events[0], outcome) + Returned(next, events[1..])
  }

  lemma RunStep(rec: Record, events: seq<Event>, i: nat)
    requires i < |events|
    ensures var (next, outcome) := Apply(rec, events[i]);
            && RunFrom(rec, events[i..]) == RunFrom(next, events[i + 1..])
            && Returned(rec, events[i..]) == Pair(events[i], outcome) + Returned(next, events[i + 1..])
  {
    assert events[i..][0] == events[i] && events[i..][1..] == events[i + 1..];
  }

  ghost function FoldLeft(op: Operator, start: Result<nat>, steps: seq<(View, nat)>): Result<nat>
    decreases |steps|
  {
    if steps == [] || start.Revert? then start
    else FoldLeft(op, op(steps[0].0, start.value, steps[0].1), steps[1..])
  }

  /** The latest value is the left fold of the operator over the accepted deltas, each taken with
      what the operator saw at its push. */
  lemma {:induction false} LatestIsFold(rec: Record, events: seq<Event>, op: Operator)
    requires OnlyOperator(events, op)
    ensures Ok(Latest(RunFrom(rec, events).log)) == FoldLeft(op, Ok(Latest(rec.log)), AcceptedSteps(rec, events))
    decreases |events|
  {
    if events != [] {
      var (next, outcome) := Apply(rec, events[0]);
      LatestIsFold(next, events[1..], op);
      var rest := AcceptedSteps(next, events[1..]);
      if events[0].PushOp? && outcome.Ok? {
        assert ([(ViewOf(rec, events[0].storage), events[0].delta)] + rest)[1..] == rest;
      } else {
        assert [] + rest == rest;
      }
    }
  }

  /** Each pair starts from the value the pair before it ended with. */
  ghost predicate Linked(start: nat, pairs: seq<(nat, nat)>, end: nat)
    decreases |pairs|
  {
    if pairs == [] then start == end
    else pairs[0].0 == start && Linked(pairs[0].1, pairs[1..], end)
  }

  /** Whatever pushes are mixed, each accepted one returns as previous value what the accepted
      push before it returned as new value, and the last new value is the latest. */
  lemma {:induction false} ReturnsAreLinked(rec: Record, events: seq<Event>)
    ensures Linked(Latest(rec.log), Returned(rec, events), Latest(RunFrom(rec, events).log))
    decreases |events|
  {
    if events != [] {
      var (next, outcome) := Apply(rec, events[0]);
      var rest, end := Returned(next, events[1..]), Latest(RunFrom(rec, events).log);
      ReturnsAreLinked(next, events[1..]);
      ApplyReturns(rec, events[0]);
      if !events[0].Advance? && outcome.Ok? {
        LinkedCons(outcome.value, rest, end);
      } else {
        assert [] + rest == rest;
      }
    }
  }

  lemma ApplyReturns(rec: Record, e: Event)
    ensures var (next, outcome) := Apply(rec, e);
            if !e.Advance? && outcome.Ok? then outcome.value == (Latest(rec.log), Latest(next.log))
            else Latest(next.log) == Latest(rec.log)
  {
  }

  lemma LinkedCons(pair: (nat, nat), rest: seq<(nat, nat)>, end: nat)
    requires Linked(pair.1, rest, end)
    ensures Linked(pair.0, [pair] + rest, end)
  {
    assert ([pair] + rest)[1..] == rest;
  }
}
