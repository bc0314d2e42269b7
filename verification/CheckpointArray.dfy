/** What every checkpoint flavour shares: an append-or-overwrite array searched by key, and its
    meaning, the plain log of every accepted push. */
module CheckpointArray {
  import opened Evm
  import opened WordMath

  datatype Checkpoint = Checkpoint(key: nat, value: nat)

  ghost predicate Increasing(s: seq<Checkpoint>) {
    forall i, j :: 0 <= i < j < |s| ==> s[i].key < s[j].key
  }

  ghost predicate NonDecreasing(log: seq<Checkpoint>) {
    forall i, j :: 0 <= i < j < |log| ==> log[i].key <= log[j].key
  }

  /** Every key and value fits the widths of its struct. */
  ghost predicate Fits(s: seq<Checkpoint>, keyLimit: nat, valueLimit: nat) {
    forall i :: 0 <= i < |s| ==> s[i].key < keyLimit && s[i].value < valueLimit
  }

  ghost function Keys(s: seq<Checkpoint>): set<nat> {
    set i | 0 <= i < |s| :: s[i].key
  }

  /** The meaning of a log at `key`: the value of the last entry made at a key no greater, or 0. */
  ghost function ValueAt(log: seq<Checkpoint>, key: nat): nat {
    if log == [] then 0
    else if log[|log| - 1].key <= key then log[|log| - 1].value
    else ValueAt(log[..|log| - 1], key)
  }

  ghost function Latest(log: seq<Checkpoint>): nat {
    if log == [] then 0 else log[|log| - 1].value
  }

  ghost predicate IsLeastFrom(keys: set<nat>, key: nat, least: nat) {
    least in keys && key <= least && forall k :: k in keys && key <= k ==> least <= k
  }

  /** The meaning of a log at or after `key`: what it holds at its smallest key that is at
      least `key`, or 0 when every key is smaller. */
  ghost function ValueFrom(log: seq<Checkpoint>, key: nat): nat {
    if exists least :: IsLeastFrom(Keys(log), key, least) then
      var least :| IsLeastFrom(Keys(log), key, least);
      ValueAt(log, least)
    else 0
  }

  /** The smallest key is one key, and there is one unless every key is smaller. */
  lemma ValueFromMeaning(log: seq<Checkpoint>, key: nat)
    ensures forall least: nat :: IsLeastFrom(Keys(log), key, least) ==> ValueFrom(log, key) == ValueAt(log, least)
    ensures (forall k :: k in Keys(log) ==> k < key) ==> ValueFrom(log, key) == 0
    ensures (exists k :: k in Keys(log) && key <= k) ==> exists least :: IsLeastFrom(Keys(log), key, least)
  {
    if bound :| bound in Keys(log) && key <= bound {
      LeastExists(Keys(log), key, bound);
    }
  }

  lemma {:induction false} LeastExists(keys: set<nat>, key: nat, bound: nat)
    requires bound in keys && key <= bound
    ensures exists least :: IsLeastFrom(keys, key, least)
    decreases bound
  {
    if j :| j in keys && key <= j < bound {
      LeastExists(keys, key, j);
    } else {
      assert IsLeastFrom(keys, key, bound);
    }
  }

  /** `s` is the compressed form of `log`: strictly increasing keys, the same keys, and the
      same meaning at every key. */
  ghost predicate Represents(s: seq<Checkpoint>, log: seq<Checkpoint>) {
    && Increasing(s)
    && NonDecreasing(log)
    && Keys(s) == Keys(log)
    && forall k: nat :: ValueAt(s, k) == ValueAt(log, k)
  }

  // ----- the private functions of the library

  /** `_insert` on values: the new array, the previous value and the new one. */
  function Insert(s: seq<Checkpoint>, key: nat, value: nat): Result<(seq<Checkpoint>, nat, nat)> {
    if s == [] then Ok(([Checkpoint(key, value)], 0, value))
    else
      var last := s[|s| - 1];
      if last.key > key then Revert(InvalidKey)
      else if last.key == key then Ok((s[..|s| - 1] + [Checkpoint(key, value)], last.value, value))
      else Ok((s + [Checkpoint(key, value)], last.value, value))
  }

  /** `_upperBinaryLookup` over a sorted window: the split between keys at most `key` and keys
      above it, found with at most one comparison per halving. */
  method UpperBinaryLookup(s: seq<Checkpoint>, key: nat, low: nat, high: nat)
    returns (pos: nat, ghost probes: nat)
    requires low <= high <= |s| && Increasing(s)
    ensures low <= pos <= high
    ensures forall i :: low <= i < pos ==> s[i].key <= key
    ensures forall i :: pos <= i < high ==> key < s[i].key
    ensures probes <= if low < high then Log2(high - low) + 1 else 0
  {
    var lo, hi := low, high;
    probes := 0;
    while lo < hi
      invariant low <= lo <= hi <= high
      invariant forall i :: low <= i < lo ==> s[i].key <= key
      invariant forall i :: hi <= i < high ==> key < s[i].key
      invariant probes + Budget(hi - lo) <= Budget(high - low)
    {
      var mid := Average(lo, hi);
      BudgetHalves(hi - lo, mid - lo, hi - mid - 1);
      probes := probes + 1;
      if s[mid].key > key {
        hi := mid;
      } else {
        lo := mid + 1;
      }
    }
    pos := hi;
  }

  /** `_lowerBinaryLookup`: the split between keys below `key` and keys at least `key`. */
  method LowerBinaryLookup(s: seq<Checkpoint>, key: nat, low: nat, high: nat)
    returns (pos: nat, ghost probes: nat)
    requires low <= high <= |s| && Increasing(s)
    ensures low <= pos <= high
    ensures forall i :: low <= i < pos ==> s[i].key < key
    ensures forall i :: pos <= i < high ==> key <= s[i].key
    ensures probes <= if low < high then Log2(high - low) + 1 else 0
  {
    var lo, hi := low, high;
    probes := 0;
    while lo < hi
      invariant low <= lo <= hi <= high
      invariant forall i :: low <= i < lo ==> s[i].key < key
      invariant forall i :: hi <= i < high ==> key <= s[i].key
      invariant probes + Budget(hi - lo) <= Budget(high - low)
    {
      var mid := Average(lo, hi);
      BudgetHalves(hi - lo, mid - lo, hi - mid - 1);
      probes := probes + 1;
      if s[mid].key < key {
        lo := mid + 1;
      } else {
        hi := mid;
      }
    }
    pos := hi;
  }

  ghost function Budget(w: nat): nat {
    if w == 0 then 0 else Log2(w) + 1
  }

  lemma BudgetHalves(w: nat, left: nat, right: nat)
    requires w > 0 && left == w / 2 && left + right + 1 == w
    ensures Budget(left) < Budget(w) && Budget(right) < Budget(w)
  {
    Log2Monotone(right, left);
  }

  // ----- an array means its log

  lemma {:induction false} ValueAtSplit(s: seq<Checkpoint>, key: nat, pos: nat)
    requires pos <= |s|
    requires pos > 0 ==> s[pos - 1].key <= key
    requires forall i :: pos <= i < |s| ==> key < s[i].key
    ensures ValueAt(s, key) == if pos == 0 then 0 else s[pos - 1].value
  {
    if pos < |s| {
      ValueAtSplit(s[..|s| - 1], key, pos);
    }
  }

  lemma ValueAtAppend(log: seq<Checkpoint>, e: Checkpoint, key: nat)
    ensures ValueAt(log + [e], key) == if e.key <= key then e.value else ValueAt(log, key)
  {
    assert (log + [e])[..|log|] == log;
  }

  lemma KeysAppend(log: seq<Checkpoint>, e: Checkpoint)
    ensures Keys(log + [e]) == Keys(log) + {e.key}
  {
    forall k | k in Keys(log) + {e.key}
      ensures k in Keys(log + [e])
    {
      if k == e.key {
        assert (log + [e])[|log|].key == k;
      } else {
        var i :| 0 <= i < |log| && log[i].key == k;
        assert (log + [e])[i].key == k;
      }
    }
    forall k | k in Keys(log + [e])
      ensures k in Keys(log) + {e.key}
    {
      var i :| 0 <= i < |log + [e]| && (log + [e])[i].key == k;
      if i < |log| {
        assert log[i].key == k;
      }
    }
  }

  /** The newest checkpoint is the newest log entry. */
  lemma LatestAgrees(s: seq<Checkpoint>, log: seq<Checkpoint>)
    requires Represents(s, log)
    ensures s == [] <==> log == []
    ensures s != [] ==> s[|s| - 1] == log[|log| - 1]
    ensures Latest(s) == Latest(log)
  {
    if s != [] {
      var k := s[|s| - 1].key;
      assert k in Keys(s);
      var i :| 0 <= i < |log| && log[i].key == k;
    }
    if log != [] {
      var k := log[|log| - 1].key;
      assert k in Keys(log);
      var i :| 0 <= i < |s| && s[i].key == k;
      assert ValueAt(s, k) == ValueAt(log, k);
    }
  }

  /** `_insert` keeps the representation: it is accepted exactly when the key does not go
      back, and then the array means the log with one more entry. */
  lemma InsertRepresents(s: seq<Checkpoint>, log: seq<Checkpoint>, key: nat, value: nat)
    requires Represents(s, log)
    ensures Insert(s, key, value).Revert? <==> log != [] && key < log[|log| - 1].key
    ensures Insert(s, key, value).Revert? ==> Insert(s, key, value).error == InvalidKey
    ensures Insert(s, key, value).Ok? ==>
              && Represents(Insert(s, key, value).value.0, log + [Checkpoint(key, value)])
              && Insert(s, key, value).value.1 == Latest(log)
              && Insert(s, key, value).value.2 == value
  {
    LatestAgrees(s, log);
    if Insert(s, key, value).Ok? {
      if s != [] && s[|s| - 1].key == key {
        OverwriteRepresents(s, log, Checkpoint(key, value));
      } else {
        AppendRepresents(s, log, Checkpoint(key, value));
        assert Insert(s, key, value).value.0 == s + [Checkpoint(key, value)];
      }
    }
  }

  lemma AppendRepresents(s: seq<Checkpoint>, log: seq<Checkpoint>, e: Checkpoint)
    requires Represents(s, log) && (s == [] || s[|s| - 1].key < e.key)
    ensures Represents(s + [e], log + [e])
  {
    LatestAgrees(s, log);
    KeysAppend(log, e);
    KeysAppend(s, e);
    forall k: nat
      ensures ValueAt(s + [e], k) == ValueAt(log + [e], k)
    {
      ValueAtAppend(log, e, k);
      ValueAtAppend(s, e, k);
    }
  }

  lemma OverwriteRepresents(s: seq<Checkpoint>, log: seq<Checkpoint>, e: Checkpoint)
    requires Represents(s, log) && s != [] && s[|s| - 1].key == e.key
    ensures Represents(s[..|s| - 1] + [e], log + [e])
  {
    var kept, last := s[..|s| - 1], s[|s| - 1];
    assert s == kept + [last];
    LatestAgrees(s, log);
    KeysAppend(log, e);
    KeysAppend(kept, e);
    KeysAppend(kept, last);
    forall k: nat
      ensures ValueAt(kept + [e], k) == ValueAt(log + [e], k)
    {
      ValueAtAppend(log, e, k);
      ValueAtAppend(kept, e, k);
      ValueAtAppend(kept, last, k);
    }
  }

  /** The array a log compresses to. */
  ghost function Compressed(log: seq<Checkpoint>): seq<Checkpoint> {
    if log == [] then []
    else
      var before, e := Compressed(log[..|log| - 1]), log[|log| - 1];
      match Insert(before, e.key, e.value)
      case Ok(inserted) => inserted.0
      case Revert(_) => before
  }

  lemma {:induction false} CompressedRepresents(log: seq<Checkpoint>)
    requires NonDecreasing(log)
    ensures Represents(Compressed(log), log)
  {
    if log != [] {
      var before, e := log[..|log| - 1], log[|log| - 1];
      CompressedRepresents(before);
      InsertRepresents(Compressed(before), before, e.key, e.value);
      assert log == before + [Checkpoint(e.key, e.value)];
    }
  }

  /** A log has one compressed form: the meaning leaves the array no freedom. */
  lemma {:induction false} RepresentationUnique(s: seq<Checkpoint>, t: seq<Checkpoint>)
    requires Increasing(s) && Increasing(t) && Keys(s) == Keys(t)
    requires forall k: nat :: ValueAt(s, k) == ValueAt(t, k)
    ensures s == t
  {
    assert Represents(s, t);
    LatestAgrees(s, t);
    if s != [] {
      var e := s[|s| - 1];
      var s', t' := s[..|s| - 1], t[..|t| - 1];
      assert s == s' + [e] && t == t' + [e];
      PrefixKeys(s', e);
      PrefixKeys(t', e);
      forall k: nat
        ensures ValueAt(s', k) == ValueAt(t', k)
      {
        PrefixValue(s', e, k);
        PrefixValue(t', e, k);
      }
      RepresentationUnique(s', t');
    }
  }

  lemma PrefixKeys(s: seq<Checkpoint>, e: Checkpoint)
    requires Increasing(s + [e])
    ensures Increasing(s) && Keys(s) == Keys(s + [e]) - {e.key}
  {
    KeysAppend(s, e);
    forall i, j | 0 <= i < j <= |s|
      ensures (s + [e])[i].key < (s + [e])[j].key && (j < |s| ==> s[i].key < s[j].key)
    {
    }
    assert forall i :: 0 <= i < |s| ==> s[i].key < (s + [e])[|s|].key;
  }

  /** Below its last key, an increasing array already has the meaning of its prefix; from that
      key on, the prefix means its own last value. */
  lemma PrefixValue(s: seq<Checkpoint>, e: Checkpoint, k: nat)
    requires Increasing(s + [e])
    ensures k < e.key ==> ValueAt(s, k) == ValueAt(s + [e], k)
    ensures e.key <= k && e.key > 0 ==> ValueAt(s, k) == ValueAt(s + [e], e.key - 1)
    ensures e.key == 0 ==> s == []
  {
    ValueAtAppend(s, e, k);
    assert s != [] ==> (s + [e])[|s| - 1].key < (s + [e])[|s|].key;
    if e.key > 0 {
      ValueAtAppend(s, e, e.key - 1);
    }
  }

  /** `length` counts the distinct keys ever accepted. */
  lemma {:induction false} LengthCountsKeys(s: seq<Checkpoint>)
    requires Increasing(s)
    ensures |s| == |Keys(s)|
  {
    if s != [] {
      var s', e := s[..|s| - 1], s[|s| - 1];
      assert s == s' + [e];
      LengthCountsKeys(s');
      KeysAppend(s', e);
      assert e.key !in Keys(s');
    }
  }

  /** Distinct keys of a width leave no room for more checkpoints than the width has keys. */
  lemma LengthBelowKeys(s: seq<Checkpoint>, keyLimit: nat)
    requires Increasing(s) && forall i :: 0 <= i < |s| ==> s[i].key < keyLimit
    ensures |s| <= keyLimit
  {
    if s != [] {
      KeysGrow(s, |s| - 1);
    }
  }

  lemma {:induction false} KeysGrow(s: seq<Checkpoint>, i: nat)
    requires Increasing(s) && i < |s|
    ensures i <= s[i].key
  {
    if i > 0 {
      KeysGrow(s, i - 1);
    }
  }

  // ----- the readers every flavour has

  method LatestValue(s: seq<Checkpoint>, ghost log: seq<Checkpoint>) returns (v: nat)
    requires Represents(s, log)
    ensures v == Latest(log)
  {
    LatestAgrees(s, log);
    var pos := |s|;
    v := if pos == 0 then 0 else s[pos - 1].value;
  }

  method LatestCheckpoint(s: seq<Checkpoint>, ghost log: seq<Checkpoint>)
    returns (found: bool, key: nat, value: nat)
    requires Represents(s, log)
    ensures (found, key, value) == if log == [] then (false, 0, 0)
                                   else (true, log[|log| - 1].key, log[|log| - 1].value)
  {
    LatestAgrees(s, log);
    var pos := |s|;
    if pos == 0 {
      return false, 0, 0;
    }
    return true, s[pos - 1].key, s[pos - 1].value;
  }

  /** How many distinct keys were ever accepted. */
  method Length(s: seq<Checkpoint>, ghost log: seq<Checkpoint>) returns (n: nat)
    requires Represents(s, log)
    ensures n == |Keys(log)|
  {
    LengthCountsKeys(s);
    n := |s|;
  }

  // ----- what the two search positions count

  ghost function CountBelow(s: seq<Checkpoint>, key: nat): nat {
    if s == [] then 0 else CountBelow(s[..|s| - 1], key) + if s[|s| - 1].key < key then 1 else 0
  }

  /** A split position is the number of keys before it. */
  lemma {:induction false} SplitCounts(s: seq<Checkpoint>, key: nat, pos: nat)
    requires pos <= |s|
    requires forall i :: 0 <= i < pos ==> s[i].key < key
    requires forall i :: pos <= i < |s| ==> key <= s[i].key
    ensures CountBelow(s, key) == pos
  {
    if s != [] {
      SplitCounts(s[..|s| - 1], key, if pos == |s| then pos - 1 else pos);
    }
  }

  /** The upper position for `key` is the lower one for `key + 1`; the two positions for one
      key differ by one exactly when the key is stored. */
  lemma {:induction false} PositionsDiffer(s: seq<Checkpoint>, key: nat)
    requires Increasing(s)
    ensures CountBelow(s, key + 1) == CountBelow(s, key) + if key in Keys(s) then 1 else 0
  {
    if s != [] {
      var s', e := s[..|s| - 1], s[|s| - 1];
      assert s == s' + [e];
      PositionsDiffer(s', key);
      KeysAppend(s', e);
    }
  }

  /** The value at a lower position, in log terms. */
  lemma ValueFromSplit(s: seq<Checkpoint>, log: seq<Checkpoint>, key: nat, pos: nat)
    requires Represents(s, log) && pos <= |s|
    requires forall i :: 0 <= i < pos ==> s[i].key < key
    requires forall i :: pos <= i < |s| ==> key <= s[i].key
    ensures ValueFrom(log, key) == if pos == |s| then 0 else s[pos].value
  {
    ValueFromMeaning(log, key);
    forall k | k in Keys(log)
      ensures pos == |s| ==> k < key
      ensures pos < |s| && key <= k ==> s[pos].key <= k
    {
      var i :| 0 <= i < |s| && s[i].key == k;
    }
    if pos < |s| {
      assert IsLeastFrom(Keys(log), key, s[pos].key);
      ValueAtSplit(s, s[pos].key, pos + 1);
    }
  }

  /** At a stored key the two lookups agree. */
  lemma StoredKeyLookupsAgree(log: seq<Checkpoint>, key: nat)
    requires key in Keys(log)
    ensures ValueFrom(log, key) == ValueAt(log, key)
  {
    ValueFromMeaning(log, key);
    assert IsLeastFrom(Keys(log), key, key);
  }
}
