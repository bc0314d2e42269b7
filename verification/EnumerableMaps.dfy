/** The generic enumerable map: an enumerable set of keys beside a value mapping that is read
    without asking the set whenever the stored word is not zero. */
module EnumerableMaps {
  import opened Evm
  import opened Sequences
  import opened Storage
  import opened SetOrder
  import opened EnumerableSets

  /** A key outside the set has stored value 0: what makes the non-zero shortcut exact. */
  ghost predicate ZeroOutside(keys: seq<nat>, values: Mapping) {
    forall k: nat :: k !in keys ==> Read(values, k) == 0
  }

  ghost function Bound(keys: seq<nat>, values: Mapping): map<nat, nat> {
    map k | k in keys :: Read(values, k)
  }

  lemma PutBinds(keys: seq<nat>, values: Mapping, key: nat, value: nat)
    requires ZeroOutside(keys, values)
    ensures ZeroOutside(Added(keys, key), Write(values, key, value))
    ensures Bound(Added(keys, key), Write(values, key, value)) == Bound(keys, values)[key := value]
  {
    AddedMembers(keys, key);
  }

  lemma RemoveUnbinds(keys: seq<nat>, values: Mapping, key: nat)
    requires Distinct(keys) && ZeroOutside(keys, values)
    ensures ZeroOutside(Removed(keys, key), Write(values, key, 0))
    ensures Bound(Removed(keys, key), Write(values, key, 0)) == Bound(keys, values) - {key}
  {
    RemovedMembers(keys, key);
  }

  class EnumerableMap {
    const keys: Set
    var values: Mapping

    ghost predicate Valid()
      reads this, keys
    {
      keys.Valid() && ZeroOutside(keys.values, values)
    }

    /** The partial map this structure stands for; a key may be bound to 0. */
    ghost function View(): map<nat, nat>
      reads this, keys
    {
      Bound(keys.values, values)
    }

    constructor ()
      ensures Valid() && View() == map[] && keys.values == []
      ensures fresh(keys)
    {
      keys := new Set();
      values := map[];
    }

    method Put(key: nat, value: nat) returns (added: bool)
      requires Valid()
      modifies this, keys
      ensures Valid()
      ensures added == (key !in old(View()))
      ensures View() == old(View())[key := value]
      ensures keys.values == Added(old(keys.values), key)
    {
      PutBinds(keys.values, values, key, value);
      values := Write(values, key, value);
      added := keys.Add(key);
    }

    method Remove(key: nat) returns (removed: bool)
      requires Valid()
      modifies this, keys
      ensures Valid()
      ensures removed == (key in old(View()))
      ensures View() == old(View()) - {key}
      ensures keys.values == Removed(old(keys.values), key)
    {
      IndexedIsDistinct(keys.values, keys.indexes);
      RemoveUnbinds(keys.values, values, key);
      values := Write(values, key, 0);
      removed := keys.Remove(key);
    }

    method Contains(key: nat) returns (r: bool)
      requires Valid()
      ensures r == (key in View())
    {
      r := keys.Contains(key);
    }

    method Length() returns (n: nat)
      requires Valid()
      ensures n == |View()| == |keys.values|
    {
      n := keys.Length();
      assert View().Keys == Elements(keys.values);
    }

    method At(index: nat) returns (r: Result<(nat, nat)>)
      requires Valid()
      ensures r == if index < |keys.values| then Ok((keys.values[index], View()[keys.values[index]]))
                   else Revert(IndexOutOfBounds)
    {
      var key := keys.At(index);
      match key {
        case Ok(k) => r := Ok((k, Read(values, k)));
        case Revert(error) => r := Revert(error);
      }
    }

    /** `tryGet`: only a stored zero is looked up in the key set. */
    method TryGet(key: nat) returns (found: bool, value: nat)
      requires Valid()
      ensures (found, value) == if key in View() then (true, View()[key]) else (false, 0)
    {
      value := Read(values, key);
      if value == 0 {
        found := Contains(key);
        return found, 0;
      }
      return true, value;
    }

    method Get(key: nat) returns (r: Result<nat>)
      requires Valid()
      ensures r == if key in View() then Ok(View()[key]) else Revert(NonexistentKey)
    {
      var value := Read(values, key);
      var present := value != 0;
      if !present {
        present := Contains(key);
      }
      r := if present then Ok(value) else Revert(NonexistentKey);
    }
  }

  datatype MapOp = Put(key: nat, value: nat) | Remove(key: nat)

  /** The mathematical map after a run. */
  ghost function RunOnMap(m: map<nat, nat>, ops: seq<MapOp>): map<nat, nat>
    decreases |ops|
  {
    if ops == [] then m
    else
      RunOnMap(match ops[0]
               case Put(k, v) => m[k := v]
               case Remove(k) => m - {k},
               ops[1..])
  }

  /** The run of the key set that a run of the map drives. */
  ghost function KeyOps(ops: seq<MapOp>): seq<Op> {
    seq(|ops|, i requires 0 <= i < |ops| => match ops[i]
                                            case Put(k, _) => SetOrder.Add(k)
                                            case Remove(k) => SetOrder.Remove(k))
  }

  /** Every run of a map from its creation stands for the mathematical map of that run, and
      enumerates its keys in the order the key set alone would. */
  method Replay(ops: seq<MapOp>) returns (m: EnumerableMap)
    ensures fresh(m) && fresh(m.keys) && m.Valid()
    ensures m.View() == RunOnMap(map[], ops)
    ensures m.keys.values == SetOrder.Run([], KeyOps(ops))
    ensures Distinct(m.keys.values) && Elements(m.keys.values) == RunOnMap(map[], ops).Keys
  {
    m := new EnumerableMap();
    for i := 0 to |ops|
      invariant fresh(m) && fresh(m.keys) && m.Valid()
      invariant RunOnMap(m.View(), ops[i..]) == RunOnMap(map[], ops)
      invariant SetOrder.Run(m.keys.values, KeyOps(ops[i..])) == SetOrder.Run([], KeyOps(ops))
    {
      assert ops[i..][0] == ops[i] && ops[i..][1..] == ops[i + 1..];
      assert KeyOps(ops[i..])[1..] == KeyOps(ops[i + 1..]);
      match ops[i] {
        case Put(k, v) => var _ := m.Put(k, v);
        case Remove(k) => var _ := m.Remove(k);
      }
    }
    IndexedIsDistinct(m.keys.values, m.keys.indexes);
    assert m.View().Keys == Elements(m.keys.values);
  }
}
