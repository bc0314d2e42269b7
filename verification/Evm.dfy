/** What every modelled library shares: reverts as values, machine words and their widths. */
module Evm {
  datatype Error =
    | BlockNotYetMined
    | CastOverflow
    | NegativeValue
    | InvalidKey
    | NonexistentKey
    | IndexOutOfBounds
    | PolicyAlreadyActivated
    | PolicyNotActivated
    | VaultCapExceeded
    | AddressZero
    | WithdrawZero
    | NotEnoughShares
    | PeriodNotFinished
    | ValueZero
    | RewardRateZero
    | RewardExceedsBalance
    | InsufficientAllowance
    | InsufficientBalance
    | ArithmeticPanic
    | QuotientOverflow

  /** The outcome of an external call: a value, or a revert. */
  datatype Result<+T> = Ok(value: T) | Revert(error: Error) {
    predicate IsFailure() {
      Revert?
    }

    function PropagateFailure<U>(): Result<U>
      requires Revert?
    {
      Revert(error)
    }

    function Extract(): T
      requires Ok?
    {
      value
    }
  }

  function Pow2(n: nat): (r: nat)
    ensures r > 0
  {
    if n == 0 then 1 else 2 * Pow2(n - 1)
  }

  lemma {:induction false} Pow2Monotone(m: nat, n: nat)
    requires m <= n
    ensures Pow2(m) <= Pow2(n)
    ensures m < n ==> 2 * Pow2(m) <= Pow2(n)
  {
    if m < n {
      Pow2Monotone(m, n - 1);
    }
  }

  lemma {:induction false} Pow2Add(m: nat, n: nat)
    ensures Pow2(m + n) == Pow2(m) * Pow2(n)
  {
    if n > 0 {
      Pow2Add(m, n - 1);
      assert Pow2(m + n) == 2 * Pow2(m + (n - 1));
    }
  }

  // one past the largest uint32, uint128, uint160, uint224 and uint256
  const UINT32_LIMIT: nat := 0x100000000
  const UINT128_LIMIT: nat := 0x100000000000000000000000000000000
  const UINT160_LIMIT: nat := 0x10000000000000000000000000000000000000000
  const UINT224_LIMIT: nat := 0x100000000000000000000000000000000000000000000000000000000
  const UINT256_LIMIT: nat := 0x10000000000000000000000000000000000000000000000000000000000000000

  /** The limits are the powers of two of their widths. */
  lemma WordLimits()
    ensures Pow2(32) == UINT32_LIMIT && Pow2(128) == UINT128_LIMIT && Pow2(160) == UINT160_LIMIT
    ensures Pow2(224) == UINT224_LIMIT && Pow2(256) == UINT256_LIMIT
  {
    assert Pow2(4) == 0x10;
    Pow2Sum(4, 4, 0x10, 0x10);
    Pow2Sum(8, 8, 0x100, 0x100);
    Pow2Sum(16, 16, 0x1_0000, 0x1_0000);
    Pow2Sum(32, 32, UINT32_LIMIT, UINT32_LIMIT);
    Pow2Sum(64, 64, 0x1_0000_0000_0000_0000, 0x1_0000_0000_0000_0000);
    Pow2Sum(128, 32, UINT128_LIMIT, UINT32_LIMIT);
    Pow2Sum(160, 64, UINT160_LIMIT, 0x1_0000_0000_0000_0000);
    Pow2Sum(128, 128, UINT128_LIMIT, UINT128_LIMIT);
  }

  lemma Pow2Sum(m: nat, n: nat, p: nat, q: nat)
    requires Pow2(m) == p && Pow2(n) == q
    ensures Pow2(m + n) == p * q
  {
    Pow2Add(m, n);
  }

  /** The cast that keeps the bits below `limit`. */
  function Truncate(w: int, limit: nat): (r: nat)
    requires limit > 0
    ensures r < limit
  {
    w % limit
  }

  /** Quotient and remainder are the one way to write a number by a divisor. */
  lemma DivisionUnique(a: int, q: int, m: nat, r: nat)
    requires m > 0 && a == q * m + r && r < m
    ensures a / m == q && a % m == r
  {
    var d := a / m - q;
    assert m * d == r - a % m;
    MultipleIsFar(m, d);
  }

  lemma MultipleIsFar(m: nat, d: int)
    ensures d > 0 ==> m * d >= m
    ensures d < 0 ==> m * d <= 0 - m
  {
  }
}
