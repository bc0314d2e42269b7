/** The generic enumerable set: an array of values beside a 1-based index, with swap-and-pop
    removal. The class carries the index and is proved against the order alone. */
module EnumerableSets {
  import opened Evm
  import opened Sequences
  import opened Storage
  import opened SetOrder

  /** The index of a value is its position plus one, and 0 exactly for non-members. */
  ghost predicate Indexed(values: seq<nat>, indexes: Mapping) {
    && (forall i :: 0 <= i < |values| ==> Read(indexes, values[i]) == i + 1)
    && (forall v: nat :: Read(indexes, v) != 0 ==> v in values)
  }

  lemma IndexedIsDistinct(values: seq<nat>, indexes: Mapping)
    requires Indexed(values, indexes)
    ensures Distinct(values)
  {
    forall i, j | 0 <= i < j < |values|
      ensures values[i] != values[j]
    {
      assert Read(indexes, values[i]) == i + 1 && Read(indexes, values[j]) == j + 1;
    }
  }

  /** What the two index writes of a removal at `p` leave: the last value now at `p`, then the
      removed value cleared. When `p` is last itself there is only the second write. */
  function Reindexed(values: seq<nat>, index: Mapping, p: nat): Mapping
    requires p < |values|
  {
    var last := |values| - 1;
    Write(if last != p then Write(index, values[last], p + 1) else index, values[p], 0)
  }

  lemma ReindexedReads(values: seq<nat>, before: Mapping, p: nat)
    requires Indexed(values, before) && p < |values|
    ensures forall v: nat :: Read(Reindexed(values, before, p), v) == if v == values[p] then 0
                                                                      else if v == values[|values| - 1] then p + 1
                                                                      else Read(before, v)
  {
  }

  /** Moving the last value's index to `p` and clearing the removed one keeps the invariant. */
  lemma SwapPopIndexed(values: seq<nat>, before: Mapping, after: Mapping, p: nat)
    requires Indexed(values, before) && p < |values|
    requires forall v: nat :: Read(after, v) == if v == values[p] then 0
                                                else if v == values[|values| - 1] then p + 1
                                                else Read(before, v)
    ensures Indexed(SwapPop(values, p), after)
  {
    var n, rest := |values| - 1, SwapPop(values, p);
    assert forall i :: 0 <= i < n ==> rest[i] == if i == p then values[n] else values[i];
    forall v: nat | Read(after, v) != 0
      ensures v in rest
    {
      if v == values[n] {
        assert rest[p] == v;
      } else {
        var i := IndexOf(values, v);
        assert rest[i] == v;
      }
    }
  }

  /** A value with index 0 is absent; any other is one past its position. */
  lemma IndexMeaning(values: seq<nat>, index: Mapping, v: nat)
    requires Indexed(values, index)
    ensures Read(index, v) == 0 ==> v !in values
    ensures Read(index, v) != 0 ==> Read(index, v) <= |values| && values[Read(index, v) - 1] == v
  {
    if v in values {
      var i :| 0 <= i < |values| && values[i] == v;
    }
  }

  class Set {
    var values: seq<nat>
    var indexes: Mapping

    ghost predicate Valid()
      reads this
    {
      Indexed(values, indexes)
    }

    constructor ()
      ensures Valid() && values == []
    {
      values, indexes := [], map[];
    }

    method Contains(value: nat) returns (r: bool)
      requires Valid()
      ensures r == (value in values)
    {
      r := Read(indexes, value) != 0;
    }

    method Add(value: nat) returns (r: bool)
      requires Valid()
      modifies this
      ensures Valid()
      ensures r == (value !in old(values))
      ensures values == Added(old(values), value)
    {
      var present := Contains(value);
      if present {
        return false;
      }
      values := values + [value];
      indexes := Write(indexes, value, |values|);
      return true;
    }

    method Remove(value: nat) returns (r: bool)
      requires Valid()
      modifies this
      ensures Valid()
      ensures r == (value in old(values))
      ensures values == Removed(old(values), value)
    {
      IndexMeaning(values, indexes, value);
      var valueIndex := Read(indexes, value);
      if valueIndex == 0 {
        return false;
      }
      var toDeleteIndex := valueIndex - 1;
      ghost var before, after := values, Reindexed(values, indexes, toDeleteIndex);
      ReindexedReads(values, indexes, toDeleteIndex);
      SwapPopIndexed(values, indexes, after, toDeleteIndex);
      IndexedIsDistinct(values, indexes);
      IndexOfUnique(values, toDeleteIndex);
      var lastIndex := |values| - 1;
      if lastIndex != toDeleteIndex {
        var lastValue := values[lastIndex];
        values := values[toDeleteIndex := lastValue];
        indexes := Write(indexes, lastValue, valueIndex);
      }
      values := values[..|values| - 1];
      indexes := Write(indexes, value, 0);
      assert values == SwapPop(before, toDeleteIndex) && indexes == after;
      return true;
    }

    method Length() returns (n: nat)
      requires Valid()
      ensures n == |values| == |Elements(values)|
    {
      IndexedIsDistinct(values, indexes);
      LengthIsCardinality(values);
      n := |values|;
    }

    /** `_at`: an index at or past the length reverts, and no two indexes give one value. */
    method At(index: nat) returns (r: Result<nat>)
      requires Valid()
      ensures r == if index < |values| then Ok(values[index]) else Revert(IndexOutOfBounds)
      ensures Distinct(values)
    {
      IndexedIsDistinct(values, indexes);
      if index >= |values| {
        return Revert(IndexOutOfBounds);
      }
      r := Ok(values[index]);
    }
  }

  /** The order leaves the index no freedom: two sets with one order have one index. So
      whatever restores the order restores the whole structure. */
  lemma IndexDetermined(values: seq<nat>, m: Mapping, n: Mapping)
    requires Indexed(values, m) && Indexed(values, n)
    ensures m == n
  {
    forall k: nat
      ensures Read(m, k) == Read(n, k)
    {
      if k in values {
        var i :| 0 <= i < |values| && values[i] == k;
      }
    }
    MappingExtensional(m, n);
  }

  /** Adding a fresh value and removing it leaves both the array and the index as they were. */
  method AddThenRemove(s: Set, value: nat)
    requires s.Valid() && value !in s.values
    modifies s
    ensures s.Valid() && s.values == old(s.values) && s.indexes == old(s.indexes)
  {
    ghost var values, indexes := s.values, s.indexes;
    IndexedIsDistinct(values, indexes);
    AddThenRemoveRestores(values, value);
    var _ := s.Add(value);
    var _ := s.Remove(value);
    IndexDetermined(values, indexes, s.indexes);
  }

  /** Every run of a set from its creation follows the order, and through it the
      mathematical set; the returned flags are the set's own verdicts. */
  method Replay(ops: seq<Op>) returns (s: Set, flags: seq<bool>)
    ensures fresh(s) && s.Valid()
    ensures s.values == Run([], ops)
    ensures Elements(s.values) == RunOnSet({}, ops)
    ensures |flags| == |ops|
    ensures forall i :: 0 <= i < |ops| ==>
              flags[i] == (ops[i].Add? <==> ops[i].v !in RunOnSet({}, ops[..i]))
  {
    s := new Set();
    flags := [];
    for i := 0 to |ops|
      invariant fresh(s) && s.Valid() && |flags| == i
      invariant s.values == Run([], ops[..i])
      invariant forall j :: 0 <= j < i ==> flags[j] == (ops[j].Add? <==> ops[j].v !in RunOnSet({}, ops[..j]))
    {
      RunFromEmpty(ops[..i]);
      RunAppend([], ops[..i], ops[i]);
      assert ops[..i + 1] == ops[..i] + [ops[i]];
      assert ops[i].v in s.values <==> ops[i].v in Elements(s.values);
      var flag;
      match ops[i] {
        case Add(v) => flag := s.Add(v);
        case Remove(v) => flag := s.Remove(v);
      }
      flags := flags + [flag];
    }
    assert ops[..|ops|] == ops;
    RunFromEmpty(ops);
  }

  lemma RunFromEmpty(ops: seq<Op>)
    ensures Elements(Run([], ops)) == RunOnSet({}, ops)
  {
    var none: seq<nat> := [];
    assert Elements(none) == {};
    RunRefinesSet(none, ops);
  }

  lemma {:induction false} RunAppend(vs: seq<nat>, ops: seq<Op>, op: Op)
    ensures Run(vs, ops + [op]) == Applied(Run(vs, ops), op)
    decreases |ops|
  {
    if ops == [] {
      assert [op][1..] == [];
    } else {
      assert (ops + [op])[1..] == ops[1..] + [op];
      RunAppend(Applied(vs, ops[0]), ops[1..], op);
    }
  }
}
