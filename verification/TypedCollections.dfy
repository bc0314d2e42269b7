/** The typed wrappers: sets and maps that send every argument and result through the word
    conversions. */
module TypedCollections {
  import opened Evm
  import opened Sequences
  import opened SetOrder
  import opened EnumerableSets
  import opened EnumerableMaps
  import opened Conversion

  /** Typed values read back, in order, from stored words. */
  ghost function Typed(kind: Kind, words: seq<nat>): (vs: seq<nat>)
    ensures |vs| == |words|
  {
    seq(|words|, i requires 0 <= i < |words| => FromBytes32(kind, words[i]))
  }

  ghost predicate AllInType(kind: Kind, words: seq<nat>) {
    forall i :: 0 <= i < |words| ==> InType(kind, words[i])
  }

  /** On words of the type's image, reading is the identity: what lets `values()` hand the
      stored words out as typed values without converting them. */
  lemma ReinterpretedAgrees(kind: Kind, words: seq<nat>)
    requires AllInType(kind, words)
    ensures Typed(kind, words) == words
  {
    forall i | 0 <= i < |words|
      ensures FromBytes32(kind, words[i]) == words[i]
    {
      CastsKeep(kind, words[i]);
    }
  }

  lemma AddedInType(kind: Kind, words: seq<nat>, w: nat)
    requires AllInType(kind, words) && InType(kind, w)
    ensures AllInType(kind, Added(words, w))
  {
  }

  ghost predicate ValuesInType(kind: Kind, m: map<nat, nat>) {
    forall k :: k in m ==> InType(kind, m[k])
  }

  lemma PutInType(kind: Kind, m: map<nat, nat>, k: nat, v: nat)
    requires ValuesInType(kind, m) && InType(kind, v)
    ensures ValuesInType(kind, m[k := v])
  {
  }

  class TypedSet {
    const kind: Kind
    const inner: Set

    ghost predicate Valid()
      reads this, inner
    {
      inner.Valid() && AllInType(kind, inner.values)
    }

    /** The typed members in enumeration order: the stored words read through the cast. */
    ghost function Members(): seq<nat>
      reads this, inner
    {
      Typed(kind, inner.values)
    }

    constructor (kind: Kind)
      ensures Valid() && Members() == [] && this.kind == kind && fresh(inner)
    {
      this.kind := kind;
      inner := new Set();
    }

    method Add(value: nat) returns (r: bool)
      requires Valid() && InType(kind, value)
      modifies inner
      ensures Valid()
      ensures r == (value !in old(Members())) && Members() == Added(old(Members()), value)
    {
      ReinterpretedAgrees(kind, inner.values);
      CastsKeep(kind, value);
      AddedInType(kind, inner.values, value);
      r := inner.Add(ToBytes32(kind, value));
      ReinterpretedAgrees(kind, inner.values);
    }

    method Remove(value: nat) returns (r: bool)
      requires Valid() && InType(kind, value)
      modifies inner
      ensures Valid()
      ensures r == (value in old(Members())) && Members() == Removed(old(Members()), value)
    {
      ReinterpretedAgrees(kind, inner.values);
      CastsKeep(kind, value);
      r := inner.Remove(ToBytes32(kind, value));
      ReinterpretedAgrees(kind, inner.values);
    }

    method Contains(value: nat) returns (r: bool)
      requires Valid() && InType(kind, value)
      ensures r == (value in Members())
    {
      ReinterpretedAgrees(kind, inner.values);
      CastsKeep(kind, value);
      r := inner.Contains(ToBytes32(kind, value));
    }

    method Length() returns (n: nat)
      requires Valid()
      ensures n == |Members()| == |Elements(Members())|
    {
      ReinterpretedAgrees(kind, inner.values);
      n := inner.Length();
    }

    /** `at`: the truncating read; distinct indexes never give equal members. */
    method At(index: nat) returns (r: Result<nat>)
      requires Valid()
      ensures r == if index < |Members()| then Ok(Members()[index]) else Revert(IndexOutOfBounds)
      ensures Distinct(Members())
    {
      ReinterpretedAgrees(kind, inner.values);
      IndexedIsDistinct(inner.values, inner.indexes);
      var word := inner.At(index);
      match word {
        case Ok(w) => r := Ok(FromBytes32(kind, w));
        case Revert(error) => r := Revert(error);
      }
    }

    /** `values()`: the stored words handed out uncast; index by index what `at` returns. */
    method Values() returns (store: seq<nat>)
      requires Valid()
      ensures store == Members()
    {
      ReinterpretedAgrees(kind, inner.values);
      store := inner.values;
    }
  }

  class TypedMap {
    const keyKind: Kind
    const valueKind: Kind
    const inner: EnumerableMap

    ghost predicate Valid()
      reads this, inner, inner.keys
    {
      && inner.Valid()
      && AllInType(keyKind, inner.keys.values)
      && ValuesInType(valueKind, inner.View())
    }

    /** The typed keys in enumeration order, read through the key cast. */
    ghost function Order(): seq<nat>
      reads this, inner, inner.keys
    {
      Typed(keyKind, inner.keys.values)
    }

    constructor (keyKind: Kind, valueKind: Kind)
      ensures Valid() && inner.View() == map[] && Order() == []
      ensures this.keyKind == keyKind && this.valueKind == valueKind && fresh(inner) && fresh(inner.keys)
    {
      this.keyKind, this.valueKind := keyKind, valueKind;
      inner := new EnumerableMap();
    }

    method Put(key: nat, value: nat) returns (added: bool)
      requires Valid() && InType(keyKind, key) && InType(valueKind, value)
      modifies inner, inner.keys
      ensures Valid()
      ensures added == (key !in old(inner.View()))
      ensures inner.View() == old(inner.View())[key := value] && Order() == Added(old(Order()), key)
    {
      ReinterpretedAgrees(keyKind, inner.keys.values);
      CastsKeep(keyKind, key);
      CastsKeep(valueKind, value);
      AddedInType(keyKind, inner.keys.values, key);
      PutInType(valueKind, inner.View(), key, value);
      added := inner.Put(ToBytes32(keyKind, key), ToBytes32(valueKind, value));
      ReinterpretedAgrees(keyKind, inner.keys.values);
    }

    method Remove(key: nat) returns (removed: bool)
      requires Valid() && InType(keyKind, key)
      modifies inner, inner.keys
      ensures Valid()
      ensures removed == (key in old(inner.View()))
      ensures inner.View() == old(inner.View()) - {key} && Order() == Removed(old(Order()), key)
    {
      ReinterpretedAgrees(keyKind, inner.keys.values);
      CastsKeep(keyKind, key);
      removed := inner.Remove(ToBytes32(keyKind, key));
      ReinterpretedAgrees(keyKind, inner.keys.values);
    }

    method Contains(key: nat) returns (r: bool)
      requires Valid() && InType(keyKind, key)
      ensures r == (key in inner.View())
    {
      CastsKeep(keyKind, key);
      r := inner.Contains(ToBytes32(keyKind, key));
    }

    method Length() returns (n: nat)
      requires Valid()
      ensures n == |inner.View()| == |Order()|
    {
      n := inner.Length();
    }

    /** `at`: distinct indexes give distinct typed keys, each with the value it is bound to. */
    method At(index: nat) returns (r: Result<(nat, nat)>)
      requires Valid()
      ensures r.Ok? <==> index < |Order()|
      ensures r.Revert? ==> r.error == IndexOutOfBounds
      ensures r.Ok? ==> r.value.0 == Order()[index] && r.value.0 in inner.View() && r.value.1 == inner.View()[r.value.0]
      ensures Distinct(Order()) && Elements(Order()) == inner.View().Keys
    {
      ReinterpretedAgrees(keyKind, inner.keys.values);
      IndexedIsDistinct(inner.keys.values, inner.keys.indexes);
      var entry := inner.At(index);
      match entry {
        case Ok((k, v)) =>
          CastsKeep(keyKind, k);
          CastsKeep(valueKind, v);
          r := Ok((FromBytes32(keyKind, k), FromBytes32(valueKind, v)));
        case Revert(error) => r := Revert(error);
      }
    }

    method TryGet(key: nat) returns (found: bool, value: nat)
      requires Valid() && InType(keyKind, key)
      ensures (found, value) == if key in inner.View() then (true, inner.View()[key]) else (false, 0)
    {
      CastsKeep(keyKind, key);
      var word;
      found, word := inner.TryGet(ToBytes32(keyKind, key));
      CastsKeep(valueKind, word);
      value := FromBytes32(valueKind, word);
    }

    method Get(key: nat) returns (r: Result<nat>)
      requires Valid() && InType(keyKind, key)
      ensures r == if key in inner.View() then Ok(inner.View()[key]) else Revert(NonexistentKey)
    {
      CastsKeep(keyKind, key);
      var word := inner.Get(ToBytes32(keyKind, key));
      match word {
        case Ok(w) =>
          CastsKeep(valueKind, w);
          r := Ok(FromBytes32(valueKind, w));
        case Revert(error) => r := Revert(error);
      }
    }
  }
}
