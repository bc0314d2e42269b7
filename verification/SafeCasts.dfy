/** Checked narrowing of 256-bit integers: cast by dropping high bits, then compare. */
module SafeCasts {
  import opened Evm

  const WORD_BITS: nat := 256

  /** `intN(v)`: the low `n` bits of `v` in two's complement, read back with their top bit as
      the sign. */
  function Wrap(n: nat, v: int): (r: int)
    requires n > 0
    ensures InRange(n, r)
  {
    var low := Truncate(v, Pow2(n));
    if low < Pow2(n - 1) then low else low - Pow2(n)
  }

  predicate InRange(n: nat, v: int)
    requires n > 0
  {
    0 - Pow2(n - 1) <= v < Pow2(n - 1)
  }

  /** `toUintN(uint256)`. */
  function ToUint(n: nat, v: nat): Result<nat> {
    if v <= Pow2(n) - 1 then Ok(Truncate(v, Pow2(n))) else Revert(CastOverflow)
  }

  /** `toIntN(int256)`: cast first, then require that nothing was lost. */
  function ToInt(n: nat, v: int): Result<int>
    requires n > 0
  {
    var downcasted := Wrap(n, v);
    if downcasted == v then Ok(downcasted) else Revert(CastOverflow)
  }

  /** `toInt256(uint256)`. */
  function ToSigned(v: nat): Result<int> {
    if v <= Pow2(WORD_BITS - 1) - 1 then Ok(Wrap(WORD_BITS, v)) else Revert(CastOverflow)
  }

  /** `toUint256(int256)`. */
  function ToUnsigned(v: int): Result<nat> {
    if v >= 0 then Ok(Truncate(v, Pow2(WORD_BITS))) else Revert(NegativeValue)
  }

  /** Truncation is the one value of the target range congruent to its argument. */
  lemma WrapUnique(n: nat, v: int, r: int, k: int)
    requires n > 0 && InRange(n, r) && v == r + k * Pow2(n)
    ensures Wrap(n, v) == r
  {
    SignedRemainder(Pow2(n - 1), Pow2(n), v, r, k);
  }

  lemma SignedRemainder(half: nat, m: nat, v: int, r: int, k: int)
    requires half > 0 && m == 2 * half && 0 - half <= r < half && v == r + k * m
    ensures v % m == if r >= 0 then r else r + m
  {
    if r >= 0 {
      DivisionUnique(v, k, m, r);
    } else {
      assert v == (k - 1) * m + (r + m);
      DivisionUnique(v, k - 1, m, r + m);
    }
  }

  lemma WrapCongruent(n: nat, v: int) returns (k: int)
    requires n > 0
    ensures v == Wrap(n, v) + k * Pow2(n)
  {
    var q := v / Pow2(n);
    k := if v % Pow2(n) < Pow2(n - 1) then q else q + 1;
    assert (q + 1) * Pow2(n) == q * Pow2(n) + Pow2(n);
  }

  /** `toIntN` succeeds exactly on the range of `intN`, and then changes nothing. */
  lemma ToIntExact(n: nat, v: int)
    requires n > 0
    ensures ToInt(n, v) == if InRange(n, v) then Ok(v) else Revert(CastOverflow)
  {
    if InRange(n, v) {
      WrapUnique(n, v, v, 0);
    }
  }

  /** `toUintN` succeeds exactly on the range of `uintN`, and then changes nothing. */
  lemma ToUintExact(n: nat, v: nat)
    ensures ToUint(n, v) == if v < Pow2(n) then Ok(v) else Revert(CastOverflow)
  {
    if v < Pow2(n) {
      DivisionUnique(v, 0, Pow2(n), v);
    }
  }

  /** Truncating through a wider width changes nothing. */
  lemma WrapThroughWider(m: nat, n: nat, v: int)
    requires 0 < m <= n
    ensures Wrap(m, Wrap(n, v)) == Wrap(m, v)
  {
    var k := WrapCongruent(n, v);
    var j := WrapCongruent(m, Wrap(n, v));
    Pow2Add(n - m, m);
    Regroup(j, k, Pow2(n - m), Pow2(m));
    WrapUnique(m, v, Wrap(m, Wrap(n, v)), j + k * Pow2(n - m));
  }

  lemma Regroup(j: int, k: int, f: int, p: int)
    ensures j * p + k * (f * p) == (j + k * f) * p
  {
  }

  /** The casts the checkpoint histories narrow with, by their limits. */
  lemma HistoryCasts(v: nat)
    ensures ToUint(32, v) == if v < UINT32_LIMIT then Ok(v) else Revert(CastOverflow)
    ensures ToUint(224, v) == if v < UINT224_LIMIT then Ok(v) else Revert(CastOverflow)
  {
    WordLimits();
    ToUintExact(32, v);
    ToUintExact(224, v);
  }

  ghost function Then<T, U>(r: Result<T>, f: T -> Result<U>): Result<U> {
    match r
    case Ok(v) => f(v)
    case Revert(error) => Revert(error)
  }

  /** Narrowing by way of any wider width gives the value or the revert of narrowing at once. */
  lemma NarrowThroughWider(m: nat, n: nat, v: int)
    requires 0 < m <= n
    ensures Then(ToInt(n, v), (w: int) => ToInt(m, w)) == ToInt(m, v)
    ensures v >= 0 ==> Then(ToUint(n, v), (w: nat) => ToUint(m, w)) == ToUint(m, v)
  {
    Pow2Monotone(m, n);
    Pow2Monotone(m - 1, n - 1);
    ToIntExact(n, v);
    ToIntExact(m, v);
    if v >= 0 {
      ToUintExact(n, v);
      ToUintExact(m, v);
    }
  }

  /** The two 256-bit conversions undo each other wherever they succeed, and each succeeds
      exactly on the non-negative half the other produces. */
  lemma SignConversionsInverse(u: nat, s: int)
    requires u < Pow2(WORD_BITS) && InRange(WORD_BITS, s)
    ensures ToSigned(u).Ok? <==> u < Pow2(WORD_BITS - 1)
    ensures ToUnsigned(s).Ok? <==> 0 <= s
    ensures ToSigned(u).Ok? ==> ToUnsigned(ToSigned(u).value) == Ok(u)
    ensures ToUnsigned(s).Ok? ==> ToSigned(ToUnsigned(s).value) == Ok(s)
  {
    if u < Pow2(WORD_BITS - 1) {
      WrapUnique(WORD_BITS, u, u, 0);
      DivisionUnique(u, 0, Pow2(WORD_BITS), u);
    }
    if 0 <= s {
      DivisionUnique(s, 0, Pow2(WORD_BITS), s);
      WrapUnique(WORD_BITS, s, s, 0);
    }
  }
}
