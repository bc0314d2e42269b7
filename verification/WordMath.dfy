/** The `Math` helpers the checkpoint lookups call: the average that cannot overflow, the
    logarithm by shifts, and the square root in seven Newton steps. */
module WordMath {
  import opened Evm

  // ----- average

  function BitAnd(a: nat, b: nat): nat {
    if a == 0 || b == 0 then 0
    else 2 * BitAnd(a / 2, b / 2) + if a % 2 == 1 && b % 2 == 1 then 1 else 0
  }

  function BitXor(a: nat, b: nat): nat {
    if a == 0 then b
    else if b == 0 then a
    else 2 * BitXor(a / 2, b / 2) + if a % 2 != b % 2 then 1 else 0
  }

  lemma {:induction false} SumOfBits(a: nat, b: nat)
    ensures a + b == 2 * BitAnd(a, b) + BitXor(a, b)
  {
    if a > 0 && b > 0 {
      SumOfBits(a / 2, b / 2);
    }
  }

  /** `average`: half the sum rounded down, without ever adding the two words. */
  function Average(a: nat, b: nat): (r: nat)
    ensures 2 * r <= a + b <= 2 * r + 1
  {
    SumOfBits(a, b);
    BitAnd(a, b) + BitXor(a, b) / 2
  }

  // ----- logarithm

  /** Floor logarithm to base two; 0 for 0 and 1. */
  function Log2(w: nat): nat {
    if w < 2 then 0 else 1 + Log2(w / 2)
  }

  lemma {:induction false} Log2Meaning(w: nat)
    requires w > 0
    ensures Pow2(Log2(w)) <= w < Pow2(Log2(w) + 1)
  {
    if w >= 2 {
      Log2Meaning(w / 2);
    }
  }

  lemma {:induction false} Log2Monotone(v: nat, w: nat)
    requires v <= w
    ensures Log2(v) <= Log2(w)
  {
    if v >= 2 {
      Log2Monotone(v / 2, w / 2);
    }
  }

  lemma Log2Unique(w: nat, k: nat)
    requires Pow2(k) <= w < Pow2(k + 1)
    ensures Log2(w) == k
  {
    Log2Meaning(w);
    if Log2(w) < k {
      Pow2Monotone(Log2(w) + 1, k);
    } else if k < Log2(w) {
      Pow2Monotone(k + 1, Log2(w));
    }
  }

  lemma DivideTwice(a: nat, b: nat, c: nat)
    requires b > 0 && c > 0
    ensures b * c > 0 && a / (b * c) == a / b / c
  {
    var q, r := a / b, a % b;
    var p, t := q / c, q % c;
    Expand(p, c, t, b);
    MultiplyMonotone(b, t, c - 1);
    MultiplyMonotone(b, 1, c);
    DivisionUnique(a, p, b * c, b * t + r);
  }

  lemma Expand(p: int, c: int, t: int, b: int)
    ensures (p * c + t) * b == p * (b * c) + b * t
    ensures b * (c - 1) == b * c - b
  {
  }

  lemma MultiplyMonotone(c: int, x: int, y: int)
    requires c >= 0
    ensures x <= y ==> c * x <= c * y
  {
  }

  /** One shift of `log2`: if the word has bits from `k` up, drop the `k` low ones and count them. */
  method ShiftStep(ghost whole: nat, value: nat, result: nat, k: nat) returns (shifted: nat, counted: nat)
    requires value == whole / Pow2(result) && value < Pow2(k + k)
    ensures shifted == whole / Pow2(counted) && shifted < Pow2(k)
    ensures if value == 0 then (shifted, counted) == (0, result) else shifted > 0
  {
    shifted, counted := value, result;
    if value / Pow2(k) > 0 {
      DivideTwice(whole, Pow2(result), Pow2(k));
      Pow2Add(result, k);
      Pow2Add(k, k);
      QuotientBound(value, Pow2(k));
      shifted := value / Pow2(k);
      counted := result + k;
    }
  }

  lemma QuotientBound(a: nat, m: nat)
    requires m > 0 && a < m * m
    ensures a / m < m
  {
    MultiplyMonotone(m, m, a / m);
  }

  /** `log2`: halving the width eight times. */
  method FloorLog2(value: nat) returns (result: nat)
    requires value < UINT256_LIMIT
    ensures result == Log2(value)
  {
    var word;
    word, result := HighShifts(value);
    word, result := ShiftStep(value, word, result, 8);
    word, result := ShiftStep(value, word, result, 4);
    word, result := ShiftStep(value, word, result, 2);
    word, result := ShiftStep(value, word, result, 1);
    LastBit(value, result);
  }

  /** The first four shifts, down to sixteen bits. */
  method HighShifts(value: nat) returns (word: nat, result: nat)
    requires value < UINT256_LIMIT
    ensures word == value / Pow2(result) && word < Pow2(16)
    ensures if value == 0 then (word, result) == (0, 0) else word > 0
  {
    assert value < Pow2(128 + 128) by { WordLimits(); }
    assert value == value / Pow2(0);
    word, result := ShiftStep(value, value, 0, 128);
    word, result := ShiftStep(value, word, result, 64);
    word, result := ShiftStep(value, word, result, 32);
    word, result := ShiftStep(value, word, result, 16);
  }

  /** A word of which a shift leaves one bit has its logarithm there. */
  lemma LastBit(value: nat, k: nat)
    requires value / Pow2(k) < 2 && (value > 0 ==> value / Pow2(k) > 0) && (value == 0 ==> k == 0)
    ensures k == Log2(value)
  {
    if value > 0 {
      assert value / Pow2(k) == 1;
      assert value == Pow2(k) + value % Pow2(k);
      Log2Unique(value, k);
    }
  }

  // ----- square root

  ghost predicate IsFloorSqrt(n: nat, r: nat) {
    r * r <= n < (r + 1) * (r + 1)
  }

  ghost function FloorSqrt(n: nat): (r: nat)
    ensures n > 5 ==> 2 <= r < n
    decreases n, 0
  {
    if n == 0 then 0
    else
      var below := FloorSqrt(n - 1);
      var r := if (below + 1) * (below + 1) <= n then below + 1 else below;
      assert n > 5 ==> 2 <= r < n by {
        FloorSqrtMeaning(n - 1);
        if n > 5 { SqrtBounds(n, r); }
      }
      r
  }

  lemma {:induction false} FloorSqrtMeaning(n: nat)
    ensures IsFloorSqrt(n, FloorSqrt(n))
    decreases n, 1
  {
    if n > 0 {
      FloorSqrtMeaning(n - 1);
    }
  }

  lemma FloorSqrtUnique(n: nat, r: nat)
    requires IsFloorSqrt(n, r)
    ensures r == FloorSqrt(n)
  {
    var q := FloorSqrt(n);
    FloorSqrtMeaning(n);
    if r < q {
      Squares(r + 1, q);
    } else if q < r {
      Squares(q + 1, r);
    }
  }

  lemma SqrtBounds(n: nat, r: nat)
    requires n > 5 && IsFloorSqrt(n, r)
    ensures 2 <= r < n
  {
    if r < 2 {
      Squares(r + 1, 2);
    }
    if r >= n {
      Squares(6, r);
    }
  }

  lemma Squares(a: int, b: int)
    requires 0 <= a <= b
    ensures a * a <= b * b
  {
  }

  /** One Newton step for the square root of `a`, in whole numbers. */
  function Newton(a: nat, x: nat): nat
    requires x > 0
  {
    (x + a / x) / 2
  }

  /** `sqrt`: seven Newton steps from half the bits give the floor square root of every word. */
  method Sqrt(a: nat) returns (r: nat)
    requires a < UINT256_LIMIT
    ensures r == FloorSqrt(a)
  {
    if a == 0 {
      return 0;
    }
    var log := FloorLog2(a);
    var result := Pow2(log / 2);
    FirstGuess(a);
    FirstStep(a, result);
    result := Newton(a, result);
    SecondStep(a, result);
    result := Newton(a, result);
    NextStep(a, result, 8);
    result := Newton(a, result);
    NextStep(a, result, 0x100);
    result := Newton(a, result);
    NextStep(a, result, 0x4_0000);
    result := Newton(a, result);
    NextStep(a, result, 0x40_0000_0000);
    result := Newton(a, result);
    NextStep(a, result, 0x4000_0000_0000_0000_0000);
    result := Newton(a, result);
    CloseEnough(a, result, UINT128_LIMIT, 4 * (0x4000_0000_0000_0000_0000 * 0x4000_0000_0000_0000_0000));
    r := if result < a / result then result else a / result;
  }

  /** The first guess has half the bits: its square is within a factor four below. */
  lemma FirstGuess(a: nat)
    requires a > 0
    ensures var x := Pow2(Log2(a) / 2); x * x <= a < 4 * (x * x)
  {
    var k := Log2(a);
    Log2Meaning(a);
    Pow2Add(k / 2, k / 2);
    if k % 2 == 1 {
      assert Pow2(k) == 2 * Pow2(k / 2 + k / 2);
    }
  }

  lemma HalvesBelow(a: nat, x: nat)
    requires x > 0
    ensures 0 <= 2 * (x * Newton(a, x)) <= x * x + a
  {
    assert x * (a / x) <= a;
    HalfProduct(x, a / x, Newton(a, x));
  }

  lemma HalfProduct(x: nat, q: nat, y: nat)
    requires 2 * y <= x + q
    ensures 0 <= 2 * (x * y) <= x * x + x * q
  {
    assert x * (2 * y) <= x * (x + q);
  }

  lemma SquaredBound(a: nat, x: nat, y: nat)
    requires 2 * (x * y) <= x * x + a
    ensures 4 * (x * x) * (y * y - a) <= (x * x - a) * (x * x - a)
  {
    Squares(2 * (x * y), x * x + a);
    SquareOfProduct(x, y);
    SquareOfSum(x * x, a);
    TimesDifference(4 * (x * x), y * y, a);
  }

  lemma TimesDifference(c: int, b: int, a: int)
    ensures c * (b - a) == c * b - c * a
  {
  }

  /** The error of a step, by the square: `4x^2 (y^2 - a) <= (x^2 - a)^2`; and a step never lands
      below the floor root. */
  lemma NewtonError(a: nat, x: nat)
    requires a > 0 && x > 0
    ensures var y := Newton(a, x);
            && 0 < y && a < (y + 1) * (y + 1)
            && 4 * (x * x) * (y * y - a) <= (x * x - a) * (x * x - a)
  {
    StaysAbove(a, x);
    HalvesBelow(a, x);
    SquaredBound(a, x, Newton(a, x));
    assert Newton(a, x) == 0 ==> a < 1;
  }

  lemma SquareOfProduct(x: int, y: int)
    ensures (2 * (x * y)) * (2 * (x * y)) == 4 * (x * x) * (y * y)
  {
  }

  lemma SquareOfSum(b: int, a: int)
    ensures (b + a) * (b + a) == (b - a) * (b - a) + 4 * b * a
  {
  }

  lemma StaysAbove(a: nat, x: nat)
    requires 0 < x
    ensures a < (Newton(a, x) + 1) * (Newton(a, x) + 1)
  {
    QuotientAbove(a, x);
    AmGm(x, a / x + 1, Newton(a, x) + 1);
  }

  lemma QuotientAbove(a: nat, x: nat)
    requires x > 0
    ensures a < x * (a / x + 1)
  {
    assert a == a / x * x + a % x;
  }

  lemma AmGm(a: int, b: int, s: int)
    requires 0 <= a && 0 <= b && a + b <= 2 * s
    ensures a * b <= s * s
  {
    assert 0 <= (a - b) * (a - b);
    assert 4 * (a * b) == (a + b) * (a + b) - (a - b) * (a - b);
    Squares(a + b, 2 * s);
  }

  /** `x` is not below the floor root, and its square exceeds `a` by at most one, or by at most
      one part in `m`. */
  ghost predicate Close(a: nat, x: nat, m: nat) {
    && 0 < x && a < (x + 1) * (x + 1)
    && (x * x - a <= 1 || (x * x - a) * m <= a)
  }

  lemma FirstStep(a: nat, x: nat)
    requires x > 0 && x * x <= a < 4 * (x * x)
    ensures var y := Newton(a, x); 0 < y && a < (y + 1) * (y + 1) && 16 * (y * y - a) <= 9 * a
  {
    NewtonError(a, x);
    var y := Newton(a, x);
    FirstStepBound(a, x * x, y * y - a);
  }

  lemma FirstStepBound(a: int, b: int, d: int)
    requires 0 < b <= a < 4 * b && 4 * b * d <= (b - a) * (b - a)
    ensures 16 * d <= 9 * a
  {
    assert 0 <= (4 * a - b) * (4 * b - a);
    assert (4 * a - b) * (4 * b - a) == 9 * (a * b) - 4 * ((b - a) * (b - a));
    assert b * (16 * d) == 4 * (4 * b * d);
    assert b * (16 * d) <= b * (9 * a);
    CancelFactor(b, 16 * d, 9 * a);
  }

  lemma CancelFactor(b: int, x: int, y: int)
    requires b > 0 && b * x <= b * y
    ensures x <= y
  {
    MultiplyMonotone(b, y + 1, x);
  }

  lemma SecondStep(a: nat, x: nat)
    requires a > 0 && x > 0 && a < (x + 1) * (x + 1) && 16 * (x * x - a) <= 9 * a
    ensures Close(a, Newton(a, x), 8)
  {
    NewtonError(a, x);
    var y := Newton(a, x);
    var d, e := x * x - a, y * y - a;
    if d <= 1 {
      SmallError(a, x, e);
    } else if e > 1 {
      ErrorShrinks(a, d, e);
      SecondStepBound(a, d, e);
    }
  }

  lemma SecondStepBound(a: int, d: int, e: int)
    requires a > 0 && 0 <= d && 16 * d <= 9 * a && 4 * a * e <= d * d
    ensures 1024 * e <= 81 * a
  {
    Squares(16 * d, 9 * a);
    assert (16 * d) * (16 * d) == 256 * (d * d);
    assert (9 * a) * (9 * a) == a * (81 * a);
    assert a * (1024 * e) == 256 * (4 * a * e);
    CancelFactor(a, 1024 * e, 81 * a);
  }

  lemma NextStep(a: nat, x: nat, m: nat)
    requires a > 0 && m > 0 && Close(a, x, m)
    ensures Close(a, Newton(a, x), 4 * (m * m))
  {
    NewtonError(a, x);
    var y := Newton(a, x);
    var d, e := x * x - a, y * y - a;
    if d <= 1 {
      SmallError(a, x, e);
    } else if e > 1 {
      ErrorShrinks(a, d, e);
      NextStepBound(a, d, e, m);
    }
  }

  lemma NextStepBound(a: int, d: int, e: int, m: int)
    requires a > 0 && 0 <= d && 0 < m && d * m <= a && 4 * a * e <= d * d
    ensures e * (4 * (m * m)) <= a
  {
    Squares(d * m, a);
    assert (d * m) * (d * m) == (m * m) * (d * d);
    MultiplyMonotone(m * m, 4 * a * e, d * d);
    assert (m * m) * (4 * a * e) == a * (e * (4 * (m * m)));
    CancelFactor(a, e * (4 * (m * m)), a);
  }

  lemma ErrorShrinks(a: int, d: int, e: int)
    requires a > 0 && d >= 0 && e >= 0 && 4 * (a + d) * e <= d * d
    ensures 4 * a * e <= d * d
  {
    assert 4 * (a + d) * e == 4 * a * e + 4 * (d * e);
  }

  /** From an error of at most one, or from the floor root itself, a step errs by at most one. */
  lemma SmallError(a: nat, x: nat, e: int)
    requires x > 0 && a < (x + 1) * (x + 1) && x * x - a <= 1
    requires 4 * (x * x) * e <= (x * x - a) * (x * x - a)
    ensures e <= 1
  {
    var d := x * x - a;
    if d >= 0 {
      assert d * d <= 1;
    } else {
      assert -d <= 2 * x;
      Squares(-d, 2 * x);
    }
    assert x * x >= 1;
    assert d * d <= 4 * (x * x);
    CancelFactor(4 * (x * x), e, 1);
  }

  /** Once the error is below one part in the largest root, the smaller of `x` and `a / x` is the
      floor root. */
  lemma CloseEnough(a: nat, x: nat, n: nat, m: nat)
    requires 0 < a < n * n && n <= m && Close(a, x, m)
    ensures (if x < a / x then x else a / x) == FloorSqrt(a)
  {
    var s := FloorSqrt(a);
    FloorSqrtMeaning(a);
    if s >= n {
      Squares(n, s);
    }
    assert x >= s by { if x < s { Squares(x + 1, s); } }
    assert x <= s + 1 && (x == s + 1 ==> s * x <= a) by { RootOrNext(a, x, s, n, m); }
    DivisionAtLeast(a, x, s);
    if x == s + 1 {
      QuotientBound(a, x);
    }
  }

  lemma RootOrNext(a: int, x: int, s: int, n: int, m: int)
    requires 0 < s <= x && s < n <= m && s * s <= a < (s + 1) * (s + 1)
    requires x * x - a <= 1 || (x * x - a) * m <= a
    ensures x <= s + 1
    ensures x == s + 1 ==> s * x <= a
  {
    var d := x * x - a;
    if d > 1 {
      ExcessBelowRoot(a, s, d, n, m);
    }
    assert (s + 1) * (s + 1) == s * s + 2 * s + 1 && (s + 2) * (s + 2) == s * s + 4 * s + 4;
    if x >= s + 2 {
      Squares(s + 2, x);
    }
    assert s * (s + 1) == s * s + s;
  }

  lemma ExcessBelowRoot(a: int, s: int, d: int, n: int, m: int)
    requires 0 <= s < n <= m && 0 <= d && a < (s + 1) * (s + 1) && d * m <= a
    ensures d <= s
  {
    MultiplyMonotone(s + 1, s + 1, n);
    MultiplyMonotone(d, n, m);
    MultiplyMonotone(n, s + 1, d);
  }

  lemma DivisionAtLeast(a: nat, m: nat, q: nat)
    requires m > 0 && q * m <= a
    ensures q <= a / m
  {
    MultiplyMonotone(m, a / m + 1, q);
  }
}
