/** `mulDiv`: the quotient of a 512-bit product by a word, in 256-bit arithmetic throughout. */
module MulDivs {
  import opened Evm
  import opened WordMath

  function Word(v: int): (r: nat)
    ensures r < UINT256_LIMIT
  {
    Truncate(v, UINT256_LIMIT)
  }

  // ----- the product, by the Chinese remainder theorem

  /** The remainder modulo `w - 1` is the sum of the two words, or one turn less. */
  lemma RemainderBelow(high: nat, low: nat, w: nat)
    requires low < w && high + 1 < w
    ensures (high * w + low) % (w - 1) == if high + low < w - 1 then high + low else high + low - (w - 1)
  {
    var p, s, m := high * w + low, high + low, w - 1;
    assert p == high * m + s by { assert high * w == high * m + high; }
    if s < m {
      DivisionUnique(p, high, m, s);
    } else {
      assert (high + 1) * m == high * m + m;
      DivisionUnique(p, high + 1, m, s - m);
    }
  }

  lemma HighWordBound(high: nat, low: nat, w: nat)
    requires w >= 2 && high * w + low <= (w - 1) * (w - 1)
    ensures high + 1 < w
  {
    if high >= w - 1 {
      MultiplyMonotone(w, w - 1, high);
    }
  }

  lemma WholeTurns(v: int, w: nat)
    requires w > 0
    ensures 0 <= v < w ==> v % w == v
    ensures 0 - w <= v < 0 ==> v % w == v + w
  {
    if 0 <= v < w {
      DivisionUnique(v, 0, w, v);
    } else if 0 - w <= v < 0 {
      DivisionUnique(v, -1, w, v + w);
    }
  }

  /** The high word from the remainders modulo `w` and `w - 1`. */
  function HighWord(mm: nat, low: nat, w: nat): nat
    requires w > 0
  {
    Truncate(Truncate(mm - low, w) - if mm < low then 1 else 0, w)
  }

  lemma HighWordExact(high: nat, low: nat, w: nat)
    requires low < w && high + 1 < w
    ensures HighWord((high * w + low) % (w - 1), low, w) == high
  {
    RemainderBelow(high, low, w);
    var mm := (high * w + low) % (w - 1);
    WholeTurns(mm - low, w);
    WholeTurns(high, w);
  }

  lemma HighWordOf(p: nat, high: nat, low: nat, w: nat)
    requires w >= 2 && p <= (w - 1) * (w - 1) && p == high * w + low && low < w
    ensures HighWord(p % (w - 1), low, w) == high < w
  {
    HighWordBound(high, low, w);
    HighWordExact(high, low, w);
  }

  method WideProduct(x: nat, y: nat) returns (prod0: nat, prod1: nat)
    requires x < UINT256_LIMIT && y < UINT256_LIMIT
    ensures x * y == prod1 * UINT256_LIMIT + prod0
    ensures prod0 < UINT256_LIMIT && prod1 < UINT256_LIMIT
  {
    ProductBound(x, y, UINT256_LIMIT - 1);
    prod0, prod1 := TwoWords(x * y);
  }

  /** Both words of a product from its two remainders. */
  method TwoWords(p: nat) returns (low: nat, high: nat)
    requires p <= (UINT256_LIMIT - 1) * (UINT256_LIMIT - 1)
    ensures p == high * UINT256_LIMIT + low
    ensures low < UINT256_LIMIT && high < UINT256_LIMIT
  {
    var mm := p % (UINT256_LIMIT - 1);
    low := p % UINT256_LIMIT;
    high := HighWord(mm, low, UINT256_LIMIT);
    HighWordOf(p, p / UINT256_LIMIT, low, UINT256_LIMIT);
  }

  lemma ProductBound(x: nat, y: nat, m: nat)
    requires x <= m && y <= m
    ensures 0 <= x * y <= m * m
  {
    MultiplyMonotone(y, x, m);
    MultiplyMonotone(m, y, m);
  }

  // ----- the largest power of two in the denominator

  lemma {:induction false} ComplementDisjoint(k: nat, n: nat)
    requires k < Pow2(n)
    ensures BitAnd(k, Pow2(n) - 1 - k) == 0
  {
    if n > 0 && k > 0 && Pow2(n) - 1 - k > 0 {
      var half := Pow2(n - 1);
      assert (Pow2(n) - 1 - k) / 2 == half - 1 - k / 2;
      ComplementDisjoint(k / 2, n - 1);
    }
  }

  lemma OddAndMinus(d: nat, n: nat)
    requires d % 2 == 1 && d < Pow2(n)
    ensures BitAnd(d, Pow2(n) - d) == 1
  {
    assert (Pow2(n) - d) / 2 == Pow2(n - 1) - 1 - d / 2;
    ComplementDisjoint(d / 2, n - 1);
  }

  lemma EvenAndMinus(d: nat, n: nat)
    requires d % 2 == 0 && 0 < d < Pow2(n)
    ensures n > 0 && d / 2 < Pow2(n - 1)
    ensures BitAnd(d, Pow2(n) - d) == 2 * BitAnd(d / 2, Pow2(n - 1) - d / 2)
  {
    assert (Pow2(n) - d) / 2 == Pow2(n - 1) - d / 2;
  }

  lemma DoubleProduct(p: int, odd: int)
    ensures 2 * (odd * p) == odd * (2 * p)
  {
  }

  /** `d & -d` is the largest power of two that divides `d`. */
  lemma {:induction false} LowestBit(d: nat, n: nat) returns (s: nat, odd: nat)
    requires 0 < d < Pow2(n)
    ensures BitAnd(d, Pow2(n) - d) == Pow2(s) && s < n
    ensures d == odd * Pow2(s) && odd % 2 == 1
  {
    if d % 2 == 1 {
      OddAndMinus(d, n);
      s, odd := 0, d;
    } else {
      EvenAndMinus(d, n);
      s, odd := LowestBit(d / 2, n - 1);
      DoubleProduct(Pow2(s), odd);
      s := s + 1;
    }
  }

  function BitOr(a: nat, b: nat): nat {
    if a == 0 then b
    else if b == 0 then a
    else 2 * BitOr(a / 2, b / 2) + if a % 2 == 1 || b % 2 == 1 then 1 else 0
  }

  /** Words without common bits: or is plus. */
  lemma {:induction false} OrIsSum(a: nat, c: nat, m: nat)
    requires a < Pow2(m)
    ensures BitOr(a, c * Pow2(m)) == a + c * Pow2(m)
  {
    if a > 0 && c > 0 {
      assert c * Pow2(m) == 2 * (c * Pow2(m - 1));
      OrIsSum(a / 2, c, m - 1);
    }
  }

  // ----- the inverse of the odd part

  lemma XorTwo(v: nat)
    ensures BitXor(v, 2) == FlipTwo(v)
  {
    assert v / 2 > 0 ==> BitXor(v / 2, 1) == 2 * (v / 4) + if v / 2 % 2 == 1 then 0 else 1;
  }

  lemma ProductMod(a: nat, b: nat, m: nat)
    requires m > 0
    ensures (a * b) % m == ((a % m) * (b % m)) % m
  {
    var q, r, s, t := a / m, a % m, b / m, b % m;
    assert a == q * m + r && b == s * m + t;
    ProductModParts(q, r, s, t, m);
  }

  lemma ProductModParts(q: nat, r: nat, s: nat, t: nat, m: nat)
    requires m > 0
    ensures ((q * m + r) * (s * m + t)) % m == (r * t) % m
  {
    var u, k := r * t / m, q * (s * m + t) + r * s;
    assert r * t == u * m + (r * t) % m;
    Multiply(q, m, r, s, t);
    assert (k + u) * m == k * m + u * m;
    DivisionUnique((q * m + r) * (s * m + t), k + u, m, (r * t) % m);
  }

  lemma Multiply(q: int, m: int, r: int, s: int, t: int)
    ensures (q * m + r) * (s * m + t) == (q * (s * m + t) + r * s) * m + r * t
  {
    assert (q * m + r) * (s * m + t) == q * m * (s * m + t) + r * (s * m) + r * t;
    assert q * m * (s * m + t) == (q * (s * m + t)) * m;
    assert r * (s * m) == (r * s) * m;
  }

  function FlipTwo(v: nat): nat {
    if v / 2 % 2 == 1 then v - 2 else v + 2
  }

  lemma TurnsMod(q: nat, r: nat, m: nat)
    requires m > 0
    ensures (q * m + r) % m == r % m
  {
    assert q * m + r == (q + r / m) * m + r % m by {
      assert (q + r / m) * m == q * m + r / m * m;
    }
    DivisionUnique(q * m + r, q + r / m, m, r % m);
  }

  lemma FlipMod(v: nat)
    ensures FlipTwo(v) % 16 == FlipTwo(v % 16) % 16
  {
    var q, b := v / 16, v % 16;
    assert v == 16 * q + b;
    assert v / 2 == 8 * q + b / 2;
    assert v / 2 % 2 == b / 2 % 2;
    assert FlipTwo(v) == q * 16 + FlipTwo(b);
    TurnsMod(q, FlipTwo(b), 16);
  }

  /** A divisor of the modulus sees through the wrap. */
  lemma WrapMod(v: nat, m: nat, c: nat)
    requires m > 0 && c > 0
    ensures m * c > 0 && v % (m * c) % m == v % m
  {
    var k, r := v / (m * c), v % (m * c);
    assert v == k * (m * c) + r;
    assert v == (k * c + r / m) * m + r % m by {
      assert r == r / m * m + r % m;
      assert k * (m * c) == k * c * m;
    }
    DivisionUnique(v, k * c + r / m, m, r % m);
  }

  lemma Nibble(d: nat, v: nat) returns (b: nat)
    requires d % 2 == 1 && v % 16 == 3 * d % 16
    ensures b == d % 16 < 16 && b % 2 == 1 && v % 16 == 3 * b % 16
  {
    b := d % 16;
    WrapMod(d, 2, 8);
    TripleMod(d, d / 16, b);
  }

  lemma TripleMod(d: nat, q: nat, b: nat)
    requires d == 16 * q + b
    ensures 3 * d % 16 == 3 * b % 16
  {
    TurnsMod(3 * q, 3 * b, 16);
  }

  lemma SeedRemainders(b: nat, v: nat) returns (i: nat)
    requires b < 16 && b % 2 == 1 && v % 16 == 3 * b % 16
    ensures i == FlipTwo(v) % 16 && b * i % 16 == 1
  {
    FlipMod(v);
    i := FlipTwo(v) % 16;
    SeedProduct(b, v % 16, i);
  }

  /** `3 * d ^ 2` inverts an odd `d` modulo sixteen. */
  lemma SeedInverts(d: nat, v: nat)
    requires d % 2 == 1 && v % 16 == 3 * d % 16
    ensures d * BitXor(v, 2) % 16 == 1
  {
    XorTwo(v);
    var b := Nibble(d, v);
    var i := SeedRemainders(b, v);
    SeedTimes(d, BitXor(v, 2), b, i);
  }

  lemma SeedTimes(d: nat, f: nat, b: nat, i: nat)
    requires b == d % 16 && i == f % 16 && b * i % 16 == 1
    ensures d * f % 16 == 1
  {
    ProductMod(d, f, 16);
  }

  lemma SeedProduct(b: nat, n: nat, i: nat)
    requires b < 16 && b % 2 == 1 && n == 3 * b % 16 && i == FlipTwo(n) % 16
    ensures b * i % 16 == 1
  {
    assert b in {1, 3, 5, 7, 9, 11, 13, 15};
  }

  /** One Newton step for the inverse, all of it modulo `w`. */
  function Hensel(d: nat, inv: nat, w: nat): nat
    requires w > 0
  {
    Truncate(inv * Truncate(2 - Truncate(d * inv, w), w), w)
  }

  lemma SquareLeft(e: int, t: int, m: int, k: int, w: int)
    requires e == t * m + 1
    ensures e * (2 - e + k * w) == 1 - t * t * (m * m) + e * k * w
  {
    assert e * (2 - e) == (1 + t * m) * (1 - t * m);
    assert (1 + t * m) * (1 - t * m) == 1 - (t * m) * (t * m);
    assert (t * m) * (t * m) == t * t * (m * m);
    assert e * (2 - e + k * w) == e * (2 - e) + e * (k * w);
    assert e * (k * w) == e * k * w;
  }

  lemma HenselProduct(d: int, inv: int, t: int, m: int, c: int, k: int, l: int)
    requires d * inv == t * m + 1
    ensures var w := m * m * c;
            d * (inv * (2 - d * inv + k * w) - l * w) == (c * (d * inv * k - d * l) - t * t) * (m * m) + 1
  {
    var e, w := d * inv, m * m * c;
    SquareLeft(e, t, m, k, w);
    var v := 2 - e + k * w;
    assert d * (inv * v - l * w) == e * v - d * l * w by {
      assert d * (inv * v) == e * v;
      assert d * (l * w) == d * l * w;
    }
    Factor(c, e * k, d * l, t * t, m * m);
  }

  lemma Factor(c: int, a: int, b: int, s: int, n: int)
    ensures 1 - s * n + a * (n * c) - b * (n * c) == (c * (a - b) - s) * n + 1
  {
    assert a * (n * c) - b * (n * c) == (a - b) * (n * c);
    assert (a - b) * (n * c) == c * (a - b) * n;
  }

  /** A step doubles the bits that are right, while they are within the word. */
  lemma HenselDoubles(d: nat, inv: nat, m: nat, c: nat)
    requires m > 1 && c > 0 && d * inv % m == 1
    ensures m * m > 1 && m * m * c > 0
    ensures d * Hensel(d, inv, m * m * c) % (m * m) == 1
  {
    var w, e, t := m * m * c, d * inv, d * inv / m;
    assert e == t * m + 1;
    Positive(m, c);
    var u := Truncate(e, w);
    var v := Truncate(2 - u, w);
    var k := e / w - (2 - u) / w;
    assert v == 2 - e + k * w by {
      assert k * w == e / w * w - (2 - u) / w * w;
    }
    var l := inv * v / w;
    HenselProduct(d, inv, t, m, c, k, l);
    DivisionUnique(d * Hensel(d, inv, w), c * (d * inv * k - d * l) - t * t, m * m, 1);
  }

  lemma Positive(m: nat, c: nat)
    requires m > 1 && c > 0
    ensures m * m > 1 && m * m * c > 0
  {
    assert m * m >= 2 * m;
  }

  // ----- the exact division

  lemma ProductLeft(a: nat, b: nat, m: nat)
    requires m > 0
    ensures (a % m) * b % m == a * b % m
  {
    var q, r := a / m, a % m;
    assert a * b == (q * b) * m + r * b by {
      assert a == q * m + r;
      assert (q * m + r) * b == q * m * b + r * b;
      assert q * m * b == (q * b) * m;
    }
    assert r * b >= 0 && q * b >= 0;
    TurnsMod(q * b, r * b, m);
  }

  lemma InverseProduct(q: int, odd: int, inv: int, j: int, w: int)
    requires odd * inv == j * w + 1
    ensures (q * odd) * inv == q * j * w + q
  {
    assert (q * odd) * inv == q * (odd * inv);
    assert q * (j * w + 1) == q * (j * w) + q;
  }

  lemma RemainderIs(a: int, k: int, w: nat, r: nat)
    requires r < w && a == k * w + r
    ensures a % w == r
  {
    DivisionUnique(a, k, w, r);
  }

  /** Once the denominator is odd, multiplying by its inverse divides. */
  lemma InverseDivides(q: nat, odd: nat, inv: nat, w: nat)
    requires q < w && w > 1 && odd * inv % w == 1
    ensures (q * odd % w) * inv % w == q
  {
    var j := odd * inv / w;
    assert odd * inv == j * w + 1;
    ProductLeft(q * odd, inv, w);
    InverseProduct(q, odd, inv, j, w);
    RemainderIs((q * odd) * inv, q * j, w, q);
  }

  /** The other factor of the modulus, as the code gets it; 0 when that is the modulus itself. */
  function Flipped(twos: nat, w: nat): nat
    requires twos > 0 && w > 0
  {
    Truncate(Truncate(0 - twos, w) / twos + 1, w)
  }

  lemma FlippedIs(p: nat, f: nat)
    requires p > 0 && f > 1
    ensures p * f > 1 && Flipped(p, p * f) == if p > 1 then f else 0
  {
    var w := p * f;
    MultiplyMonotone(p, 2, f);
    WholeTurns(0 - p, w);
    DivisionUnique(w - p, f - 1, p, 0);
    if p > 1 {
      MultiplyMonotone(f, 2, p);
      WholeTurns(f, w);
    } else {
      DivisionUnique(f, 1, w, 0);
    }
  }

  /** Dividing both words by `p`: the low word, and the bits that the high word shifts into it. */
  lemma ShiftParts(high: nat, low: nat, p: nat, f: nat, r: nat)
    requires p > 0 && f > 0 && high * (p * f) + low == p * r && low < p * f
    ensures low / p == r - high * f && 0 <= r - high * f < f
    ensures low / p + high % p * f == r % (p * f)
    ensures high * f % (p * f) == high % p * f
  {
    var n, a, b, w := r - high * f, high / p, high % p, p * f;
    assert low == p * n by {
      assert high * (p * f) == p * (high * f);
      assert p * r - p * (high * f) == p * n;
    }
    BelowFactor(p, n, f);
    DivisionUnique(low, n, p, 0);
    assert high * f == a * w + b * f by {
      assert high == a * p + b;
      assert (a * p + b) * f == a * p * f + b * f;
      assert a * p * f == a * (p * f);
    }
    assert b * f + f <= w by { ProductStep(b, p, f); }
    assert b * f >= 0;
    DivisionUnique(r, a, w, n + b * f);
    DivisionUnique(high * f, a, w, b * f);
  }

  lemma BelowFactor(p: nat, n: int, f: nat)
    requires p > 0 && 0 <= p * n < p * f
    ensures 0 <= n < f
  {
    if n < 0 {
      MultiplyMonotone(p, n, -1);
    } else if n >= f {
      MultiplyMonotone(p, f, n);
    }
  }

  lemma ProductStep(b: nat, p: nat, f: nat)
    requires b < p
    ensures b * f + f <= p * f
  {
    MultiplyMonotone(f, b + 1, p);
    assert f * (b + 1) == b * f + f;
  }

  /** The low word without its factor `twos`, and the bits of the high word that move into it. */
  function Joined(high: nat, low: nat, twos: nat, w: nat): nat
    requires twos > 0 && w > 0
  {
    BitOr(low / twos, Truncate(high * Flipped(twos, w), w))
  }

  lemma OrParts(a: nat, c: nat, f: nat, m: nat, shifted: nat, total: nat)
    requires f == Pow2(m) && a < f && shifted == c * f && a + c * f == total
    ensures BitOr(a, shifted) == total
  {
    OrIsSum(a, c, m);
  }

  lemma FlippedProduct(high: nat, p: nat, f: nat, w: nat)
    requires p > 0 && f > 1 && w == p * f > 1 && high * f % w == high % p * f
    ensures Truncate(high * Flipped(p, w), w) == high % p * f
  {
    FlippedIs(p, f);
    if p == 1 {
      assert high % p == 0 && high * 0 == 0;
    }
  }

  lemma ShiftedBits(high: nat, low: nat, p: nat, f: nat, w: nat, r: nat) returns (a: nat, c: nat, shifted: nat)
    requires p > 0 && f > 1 && w == p * f > 1 && high * w + low == p * r && low < w
    ensures a < f && shifted == c * f && a + c * f == r % w
    ensures Joined(high, low, p, w) == BitOr(a, shifted)
  {
    ShiftParts(high, low, p, f, r);
    FlippedProduct(high, p, f, w);
    a, c, shifted := low / p, high % p, Truncate(high * Flipped(p, w), w);
  }

  lemma JoinedParts(high: nat, low: nat, p: nat, f: nat, m: nat, w: nat, r: nat)
    requires p > 0 && f > 1 && f == Pow2(m) && w == p * f > 1 && high * w + low == p * r && low < w
    ensures Joined(high, low, p, w) == r % w
  {
    var a, c, shifted := ShiftedBits(high, low, p, f, w, r);
    OrParts(a, c, f, m, shifted, r % w);
  }

  /** Joined so, the two words give the whole quotient, wrapped. */
  lemma JoinedIs(high: nat, low: nat, twos: nat, s: nat, n: nat, w: nat, r: nat)
    requires s < n && twos == Pow2(s) && w == Pow2(n) && high * w + low == twos * r && low < w
    ensures Joined(high, low, twos, w) == r % w
  {
    var f := Pow2(n - s);
    Pow2Add(s, n - s);
    Pow2Monotone(1, n - s);
    MultiplyMonotone(f, 1, twos);
    JoinedParts(high, low, twos, f, n - s, w, r);
  }

  /** The quotient leaves the word exactly when the high word is not below the denominator. */
  lemma QuotientLeavesWord(high: nat, low: nat, d: nat, w: nat)
    requires d > 0 && low < w
    ensures (high * w + low) / d >= w <==> high >= d
  {
    var p := high * w + low;
    var q := p / d;
    assert q * d <= p < q * d + d;
    if high >= d {
      MultiplyMonotone(w, d, high);
      if q < w {
        MultiplyMonotone(d, q + 1, w);
      }
    } else {
      MultiplyMonotone(w, high + 1, d);
      if q >= w {
        MultiplyMonotone(d, w, q);
      }
    }
  }

  /** Taking a word from a double word, with the borrow. */
  lemma Borrow(high: nat, low: nat, r: nat, w: nat)
    requires w > 0 && low < w && r < w && r <= high * w + low && high < w
    ensures var h, l := Truncate(high - (if r > low then 1 else 0), w), Truncate(low - r, w);
            h * w + l == high * w + low - r && l < w
  {
    WholeTurns(low - r, w);
    if r > low {
      assert high > 0;
      WholeTurns(high - 1, w);
      assert (high - 1) * w == high * w - w;
    } else {
      WholeTurns(high, w);
    }
  }

  // ----- the whole of it

  /** The quotient when it fits in a word; the reverts are a division by zero and, without a
      reason, a quotient beyond a word. */
  function Quotient(x: nat, y: nat, denominator: nat): Result<nat> {
    if denominator == 0 then Revert(if x * y < UINT256_LIMIT then ArithmeticPanic else QuotientOverflow)
    else if x * y / denominator >= UINT256_LIMIT then Revert(QuotientOverflow)
    else Ok(x * y / denominator)
  }

  lemma QuotientParts(p: nat, high: nat, low: nat, d: nat, w: nat)
    requires d > 0 && p == high * w + low && low < w
    ensures p / d >= w <==> high >= d
    ensures high == 0 ==> p == low
    ensures p - p % d == p / d * d
  {
    QuotientLeavesWord(high, low, d, w);
  }

  method MulDiv(x: nat, y: nat, denominator: nat) returns (r: Result<nat>)
    requires x < UINT256_LIMIT && y < UINT256_LIMIT && denominator < UINT256_LIMIT
    ensures r == Quotient(x, y, denominator)
  {
    var prod0, prod1 := WideProduct(x, y);
    if denominator > 0 {
      QuotientParts(x * y, prod1, prod0, denominator, UINT256_LIMIT);
    }
    if prod1 == 0 {
      if denominator == 0 {
        return Revert(ArithmeticPanic);
      }
      return Ok(prod0 / denominator);
    }
    if denominator <= prod1 {
      return Revert(QuotientOverflow);
    }
    var remainder := x * y % denominator;
    var result := DivideWide(prod1, prod0, denominator, remainder, x * y / denominator);
    r := Ok(result);
  }

  /** The division of a double word: take the remainder off, then divide exactly. */
  method DivideWide(high: nat, low: nat, denominator: nat, remainder: nat, ghost q: nat) returns (result: nat)
    requires 0 < denominator < UINT256_LIMIT && high < UINT256_LIMIT && low < UINT256_LIMIT && q < UINT256_LIMIT
    requires remainder < denominator && high * UINT256_LIMIT + low - remainder == q * denominator
    ensures result == q
  {
    RemainderTaken(high, low, remainder, q, denominator);
    var prod1 := Word(high - if remainder > low then 1 else 0);
    var prod0 := Word(low - remainder);
    Borrow(high, low, remainder, UINT256_LIMIT);
    result := ExactQuotient(prod1, prod0, denominator, q);
  }

  lemma RemainderTaken(high: nat, low: nat, remainder: nat, q: nat, d: nat)
    requires high * UINT256_LIMIT + low - remainder == q * d
    ensures remainder <= high * UINT256_LIMIT + low
  {
    assert q * d >= 0;
  }

  /** The division once it leaves no remainder. */
  method ExactQuotient(high: nat, low: nat, denominator: nat, ghost q: nat) returns (result: nat)
    requires 0 < denominator < UINT256_LIMIT && low < UINT256_LIMIT && q < UINT256_LIMIT
    requires high * UINT256_LIMIT + low == q * denominator
    ensures result == q
  {
    var twos, rest, s := TakeTwos(denominator);
    Reassociate(q, rest, twos);
    var prod := ShiftTwos(high, low, twos, s, q * rest);
    result := DivideOdd(prod, rest, q);
  }

  lemma LowestBitOfWord(d: nat) returns (s: nat, odd: nat)
    requires 0 < d < UINT256_LIMIT
    ensures s < 256 && odd % 2 == 1 && d == odd * Pow2(s)
    ensures BitAnd(d, Word(UINT256_LIMIT - 1 - d + 1)) == Pow2(s)
  {
    WordLimits();
    WholeTurns(UINT256_LIMIT - d, UINT256_LIMIT);
    s, odd := LowestBit(d, 256);
  }

  method TakeTwos(denominator: nat) returns (twos: nat, rest: nat, ghost s: nat)
    requires 0 < denominator < UINT256_LIMIT
    ensures s < 256 && twos == Pow2(s) && rest % 2 == 1 && denominator == rest * twos
  {
    ghost var odd;
    s, odd := LowestBitOfWord(denominator);
    twos := BitAnd(denominator, Word(UINT256_LIMIT - 1 - denominator + 1));
    DivisionUnique(denominator, odd, twos, 0);
    rest := denominator / twos;
  }

  method ShiftTwos(high: nat, low: nat, twos: nat, ghost s: nat, ghost r: nat) returns (prod: nat)
    requires s < 256 && twos == Pow2(s) && low < UINT256_LIMIT
    requires high * UINT256_LIMIT + low == twos * r
    ensures prod == r % UINT256_LIMIT
  {
    WordLimits();
    JoinedIs(high, low, twos, s, 256, UINT256_LIMIT, r);
    prod := Joined(high, low, twos, UINT256_LIMIT);
  }

  /** The division by an odd denominator: the product with its inverse. */
  method DivideOdd(prod: nat, denominator: nat, ghost q: nat) returns (result: nat)
    requires denominator % 2 == 1 && q < UINT256_LIMIT && prod == q * denominator % UINT256_LIMIT
    ensures result == q
  {
    var inverse := Invert(denominator);
    InverseDivides(q, denominator, inverse, UINT256_LIMIT);
    result := Word(prod * inverse);
  }

  lemma Reassociate(q: int, odd: int, p: int)
    ensures q * (odd * p) == p * (q * odd)
  {
    assert q * (odd * p) == (q * odd) * p;
  }

  lemma HenselTo(d: nat, inv: nat, m: nat, next: nat, c: nat, w: nat)
    requires m > 1 && d * inv % m == 1 && next == m * m && c > 0 && w == next * c
    ensures next > 0 && w > 0 && d * Hensel(d, inv, w) % next == 1
  {
    HenselDoubles(d, inv, m, c);
  }

  /** Six steps from four right bits give all of them. */
  method Invert(d: nat) returns (inverse: nat)
    requires d % 2 == 1
    ensures d * inverse % UINT256_LIMIT == 1
  {
    inverse := BitXor(Word(3 * d), 2);
    WrapMod(3 * d, 16, UINT256_LIMIT / 16);
    SeedInverts(d, Word(3 * d));
    HenselTo(d, inverse, 0x10, 0x100, UINT256_LIMIT / 0x100, UINT256_LIMIT);
    inverse := Hensel(d, inverse, UINT256_LIMIT);
    HenselTo(d, inverse, 0x100, 0x1_0000, UINT256_LIMIT / 0x1_0000, UINT256_LIMIT);
    inverse := Hensel(d, inverse, UINT256_LIMIT);
    HenselTo(d, inverse, 0x1_0000, 0x1_0000_0000, UINT256_LIMIT / 0x1_0000_0000, UINT256_LIMIT);
    inverse := Hensel(d, inverse, UINT256_LIMIT);
    HenselTo(d, inverse, 0x1_0000_0000, 0x1_0000_0000_0000_0000, UINT256_LIMIT / 0x1_0000_0000_0000_0000,
             UINT256_LIMIT);
    inverse := Hensel(d, inverse, UINT256_LIMIT);
    HenselTo(d, inverse, 0x1_0000_0000_0000_0000, UINT128_LIMIT, UINT256_LIMIT / UINT128_LIMIT, UINT256_LIMIT);
    inverse := Hensel(d, inverse, UINT256_LIMIT);
    HenselTo(d, inverse, UINT128_LIMIT, UINT256_LIMIT, UINT256_LIMIT / UINT256_LIMIT, UINT256_LIMIT);
    inverse := Hensel(d, inverse, UINT256_LIMIT);
  }

  /** `mulDiv` with a rounding: up adds one to an inexact quotient, and can leave the word doing so. */
  method MulDivRounded(x: nat, y: nat, denominator: nat, up: bool) returns (r: Result<nat>)
    requires x < UINT256_LIMIT && y < UINT256_LIMIT && denominator < UINT256_LIMIT
    ensures r.Ok? <==>
              denominator > 0 && (x * y + if up then denominator - 1 else 0) / denominator < UINT256_LIMIT
    ensures r.Ok? ==> r.value == (x * y + if up then denominator - 1 else 0) / denominator
  {
    r := MulDiv(x, y, denominator);
    if denominator > 0 {
      RoundedUp(x * y, denominator);
    }
    if r.Ok? && up && x * y % denominator > 0 {
      r := if r.value + 1 == UINT256_LIMIT then Revert(ArithmeticPanic) else Ok(r.value + 1);
    }
  }

  lemma RoundedUp(p: nat, d: nat)
    requires d > 0
    ensures (p + (d - 1)) / d == if p % d > 0 then p / d + 1 else p / d
  {
    var q, r := p / d, p % d;
    if r > 0 {
      assert (q + 1) * d == q * d + d;
      DivisionUnique(p + (d - 1), q + 1, d, r - 1);
    } else {
      DivisionUnique(p + (d - 1), q, d, d - 1);
    }
  }
}
