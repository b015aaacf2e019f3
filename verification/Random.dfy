/** `rand`: a linear congruential generator modulo 2^32. The period of its seed is exactly 2^32, that of the values it
    returns exactly 2^31, because the top bit of the seed is never returned. */
module Random {
  import opened Arithmetic
  import opened Words

  const MULTIPLIER: nat := 1103515245
  const INCREMENT: nat := 12345
  const HALF: nat := 0x8000_0000

  // ---------- The generator ----------

  function Next(s: Word): Word {
    (s * MULTIPLIER + INCREMENT) % MODULUS
  }

  /** Bits 16 to 30 of the seed. */
  function Output(s: Word): (r: nat)
    ensures r < 0x8000
  {
    s / 0x1_0000 % 0x8000
  }

  /** The seed after `n` calls. */
  function After(s: Word, n: nat): Word {
    if n == 0 then s else Next(After(s, n - 1))
  }

  /** Wrapping after each operation or once at the end gives the same word. */
  lemma WordStep(s: Word)
    ensures Add32(Mul32(s, MULTIPLIER), INCREMENT) == Next(s)
  {
    var x := s * MULTIPLIER;
    AddMultiple(x % MODULUS + INCREMENT, MODULUS, x / MODULUS);
    assert x == x / MODULUS * MODULUS + x % MODULUS;
  }

  /** From the first seed, 1, the first four calls return these values. */
  lemma FirstValues()
    ensures Output(After(1, 1)) == 16838 && Output(After(1, 2)) == 5758
    ensures Output(After(1, 3)) == 10113 && Output(After(1, 4)) == 17515
  {
    assert After(1, 1) == Next(1) == 1103527590;
    assert After(1, 2) == Next(1103527590) == 2524885223;
    assert After(1, 3) == Next(2524885223) == 662824084;
    assert After(1, 4) == Next(662824084) == 3295386429;
  }

  class Generator {
    var seed: Word

    constructor ()
      ensures seed == 1
    {
      seed := 1;
    }

    method Rand() returns (r: nat)
      modifies this
      ensures seed == Next(old(seed)) && r == Output(seed)
      ensures seed == (old(seed) * 1103515245 + 12345) % 0x1_0000_0000
      ensures r == seed / 0x1_0000 % 0x8000
    {
      WordStep(seed);
      seed := Add32(Mul32(seed, MULTIPLIER), INCREMENT);
      r := seed / 0x1_0000 % 0x8000;
    }
  }

  // ---------- Divisibility by powers of two ----------

  function Pow2(k: nat): (p: nat)
    ensures p > 0
  {
    if k == 0 then 1 else 2 * Pow2(k - 1)
  }

  /** 2^k divides `x`, by halving. */
  predicate Divides2(k: nat, x: nat) {
    k == 0 || (x % 2 == 0 && Divides2(k - 1, x / 2))
  }

  lemma {:induction false} DividesIsMod(k: nat, x: nat)
    ensures Divides2(k, x) <==> x % Pow2(k) == 0
  {
    if k > 0 {
      var p := Pow2(k - 1);
      DividesIsMod(k - 1, x / 2);
      HalveMod(x, p);
    }
  }

  lemma HalveMod(x: nat, p: nat)
    requires p > 0
    ensures x % (2 * p) == 0 <==> x % 2 == 0 && (x / 2) % p == 0
  {
    if x % (2 * p) == 0 {
      var q := x / (2 * p);
      assert x == q * (2 * p) == 2 * (q * p);
      DivModUnique(q * p, p, q, 0);
    }
    if x % 2 == 0 && (x / 2) % p == 0 {
      var q := (x / 2) / p;
      assert x == 2 * (q * p) == q * (2 * p) + 0;
      DivModUnique(x, 2 * p, q, 0);
    }
  }

  /** Parity by counting, which keeps products out of remainders. */
  predicate Odd(n: nat) {
    n > 0 && !Odd(n - 1)
  }

  lemma {:induction false} OddIsMod(n: nat)
    ensures Odd(n) <==> n % 2 == 1
  {
    if n > 0 {
      OddIsMod(n - 1);
    }
  }

  lemma {:induction false} OddSum(x: nat, y: nat)
    ensures Odd(x + y) <==> Odd(x) != Odd(y)
  {
    if y > 0 {
      OddSum(x, y - 1);
    }
  }

  lemma {:induction false} OddProduct(x: nat, y: nat)
    ensures Odd(x * y) <==> Odd(x) && Odd(y)
  {
    if y > 0 {
      OddProduct(x, y - 1);
      OddSum(x * (y - 1), x);
      assert x * y == x * (y - 1) + x;
    } else {
      assert x * y == 0;
    }
  }

  lemma OddTimes(odd: nat, x: nat)
    requires odd % 2 == 1
    ensures (x * odd) % 2 == x % 2
  {
    OddProduct(x, odd);
    OddIsMod(odd);
    OddIsMod(x);
    OddIsMod(x * odd);
  }

  /** An odd factor does not change which powers of two divide. */
  lemma {:induction false} OddFactor(k: nat, x: nat, odd: nat)
    requires odd % 2 == 1
    ensures Divides2(k, x * odd) <==> Divides2(k, x)
  {
    if k > 0 {
      var h := x / 2;
      OddTimes(odd, x);
      if x % 2 == 0 {
        assert x * odd == 2 * (h * odd);
        OddFactor(k - 1, h, odd);
      }
    }
  }

  // ---------- Geometric sums ----------

  lemma Mod4Product(x: nat, y: nat)
    ensures x % 4 == 1 && y % 4 == 1 ==> (x * y) % 4 == 1
  {
    if x % 4 == 1 && y % 4 == 1 {
      var b, c := x / 4, y / 4;
      assert x * y == (4 * b + 1) * (4 * c + 1) == 4 * (4 * (b * c) + b + c) + 1;
    }
  }

  function Power(a: nat, n: nat): (p: nat)
    ensures a % 4 == 1 ==> p % 4 == 1
  {
    if n == 0 then 1
    else
      var p := Power(a, n - 1);
      Mod4Product(a, p);
      a * p
  }

  /** 1 + a + ... + a^(n-1), by Horner's rule. */
  function Geometric(a: nat, n: nat): (g: nat)
    ensures Odd(a) ==> (Odd(g) <==> Odd(n))
  {
    if n == 0 then 0
    else
      var g := Geometric(a, n - 1);
      OddProduct(a, g);
      1 + a * g
  }

  lemma {:induction false} GeometricAdd(a: nat, m: nat, n: nat)
    ensures Geometric(a, m + n) == Geometric(a, m) + Power(a, m) * Geometric(a, n)
  {
    if m > 0 {
      GeometricAdd(a, m - 1, n);
      assert Geometric(a, m + n) == 1 + a * Geometric(a, (m - 1) + n);
      Factor(a, Geometric(a, m - 1), Power(a, m - 1), Geometric(a, n));
    }
  }

  lemma Factor(a: nat, g: nat, p: nat, h: nat)
    ensures a * (g + p * h) == a * g + (a * p) * h
  {
    assert a * (p * h) == (a * p) * h;
  }

  /** The geometric sum of `n` terms has the same powers of two as `n` itself. */
  lemma {:induction false} GeometricValuation(a: nat, k: nat, n: nat)
    requires a % 4 == 1
    ensures Divides2(k, Geometric(a, n)) <==> Divides2(k, n)
  {
    if k > 0 {
      OddIsMod(a);
      OddIsMod(n);
      OddIsMod(Geometric(a, n));
      if n % 2 == 0 {
        var m := n / 2;
        var odd := HalvedGeometric(a, m);
        OddFactor(k - 1, Geometric(a, m), odd);
        GeometricValuation(a, k - 1, m);
      }
    }
  }

  /** S(2m) = S(m) (1 + a^m), and 1 + a^m is twice an odd number. */
  lemma HalvedGeometric(a: nat, m: nat) returns (odd: nat)
    requires a % 4 == 1
    ensures odd % 2 == 1
    ensures Geometric(a, 2 * m) == 2 * (Geometric(a, m) * odd)
  {
    odd := Halve(Geometric(a, m), Power(a, m));
    GeometricAdd(a, m, m);
  }

  lemma Halve(g: nat, p: nat) returns (odd: nat)
    requires p % 4 == 1
    ensures odd % 2 == 1 && g + p * g == 2 * (g * odd)
  {
    odd := 2 * (p / 4) + 1;
    assert 1 + p == 2 * odd;
    assert g + p * g == (1 + p) * g == (2 * odd) * g;
  }

  // ---------- The period ----------

  /** The seed after `n` calls if words had no bound. */
  function Unbounded(s: nat, n: nat): nat {
    if n == 0 then s else Unbounded(s, n - 1) * MULTIPLIER + INCREMENT
  }

  lemma AddMultiple(t: nat, p: nat, q: nat)
    requires p > 0
    ensures (q * p + t) % p == t % p
  {
    assert q * p + t == (q + t / p) * p + t % p;
    DivModUnique(q * p + t, p, q + t / p, t % p);
  }

  lemma StepMod(x: nat, a: nat, c: nat, p: nat)
    requires p > 0
    ensures (x % p * a + c) % p == (x * a + c) % p
  {
    var q, r := x / p, x % p;
    assert x * a + c == (q * p + r) * a + c == (q * a) * p + (r * a + c);
    AddMultiple(r * a + c, p, q * a);
  }

  lemma {:induction false} AfterIsUnbounded(s: Word, n: nat)
    ensures After(s, n) == Unbounded(s, n) % MODULUS
  {
    if n > 0 {
      AfterIsUnbounded(s, n - 1);
      StepMod(Unbounded(s, n - 1), MULTIPLIER, INCREMENT, MODULUS);
    }
  }

  /** What one more call adds, per unit of the geometric sum; it is odd. */
  function Drift(s: nat): (d: nat)
    ensures d % 2 == 1
  {
    assert (MULTIPLIER - 1) * s + INCREMENT == 2 * (551757622 * s + 6172) + 1;
    (MULTIPLIER - 1) * s + INCREMENT
  }

  /** How far `n` calls move the unbounded seed. */
  function Shift(s: nat, n: nat): nat {
    Geometric(MULTIPLIER, n) * Drift(s)
  }

  /** After `n` calls the unbounded seed has moved by a geometric sum times an odd number. */
  lemma {:induction false} ClosedForm(s: nat, n: nat)
    ensures Unbounded(s, n) == s + Shift(s, n)
  {
    if n > 0 {
      ClosedForm(s, n - 1);
      ClosedStep(s, MULTIPLIER, INCREMENT, Geometric(MULTIPLIER, n - 1), Drift(s));
    }
  }

  lemma ClosedStep(s: nat, a: nat, c: nat, g: nat, d: nat)
    requires a > 0 && d == (a - 1) * s + c
    ensures (s + g * d) * a + c == s + (1 + a * g) * d
  {
    assert (s + g * d) * a + c == s * a + (a * g) * d + c;
    assert d == s * a - s + c;
  }

  lemma Pow2Of32()
    ensures Pow2(30) == HALF / 2 && Pow2(31) == HALF && Pow2(32) == MODULUS
  {
    assert Pow2(8) == 0x100;
    assert Pow2(16) == 0x1_0000;
    assert Pow2(24) == 0x100_0000;
    assert Pow2(30) == 0x4000_0000;
  }

  lemma ReturnsIff(s: nat, t: nat, p: nat)
    requires s < p
    ensures (s + t) % p == s <==> t % p == 0
  {
    var q, r := t / p, t % p;
    assert s + t == q * p + (s + r);
    AddMultiple(s + r, p, q);
    if s + r < p {
      DivModUnique(s + r, p, 0, s + r);
    } else {
      DivModUnique(s + r, p, 1, s + r - p);
    }
  }

  lemma AfterShift(s: Word, n: nat)
    ensures After(s, n) == (s + Shift(s, n)) % MODULUS
  {
    AfterIsUnbounded(s, n);
    ClosedForm(s, n);
  }

  /** The powers of two that divide the move are those that divide the number of calls. */
  lemma ShiftDivisible(s: nat, n: nat, k: nat)
    ensures Shift(s, n) % Pow2(k) == 0 <==> n % Pow2(k) == 0
  {
    DividesIsMod(k, Shift(s, n));
    OddFactor(k, Geometric(MULTIPLIER, n), Drift(s));
    GeometricValuation(MULTIPLIER, k, n);
    DividesIsMod(k, n);
  }

  /** `n` calls return to the starting seed exactly when 2^32 divides `n`. */
  lemma FullPeriod(s: Word, n: nat)
    ensures After(s, n) == s <==> n % MODULUS == 0
  {
    Pow2Of32();
    AfterShift(s, n);
    ShiftDivisible(s, n, 32);
    ReturnsIff(s, Shift(s, n), MODULUS);
  }

  // ---------- Every seed once ----------

  lemma {:induction false} AfterAdd(s: Word, m: nat, n: nat)
    ensures After(After(s, m), n) == After(s, m + n)
  {
    if n > 0 {
      AfterAdd(s, m, n - 1);
    }
  }

  /** The seeds of one period are distinct. */
  lemma NoRepeat(s: Word, i: nat, j: nat)
    requires i < MODULUS && j < MODULUS && After(s, i) == After(s, j)
    ensures i == j
  {
    var a, b := if i < j then i else j, if i < j then j else i;
    AfterAdd(s, a, b - a);
    FullPeriod(After(s, a), b - a);
    SmallMultiple(b - a);
  }

  lemma SmallMultiple(n: nat)
    requires n < MODULUS && n % MODULUS == 0
    ensures n == 0
  {
  }

  predicate AtLeast(t: nat, lo: nat) {
    lo <= t
  }

  /** The `n` naturals from `lo` on. */
  ghost function Interval(lo: nat, n: nat): (r: set<nat>)
    ensures forall t: nat :: t in r <==> lo <= t < lo + n
  {
    set t: nat | t < lo + n && AtLeast(t, lo)
  }

  lemma {:induction false} IntervalSize(lo: nat, n: nat)
    ensures |Interval(lo, n)| == n
  {
    if n > 0 {
      IntervalSize(lo, n - 1);
      assert Interval(lo, n) == Interval(lo, n - 1) + {lo + n - 1};
    }
  }

  ghost predicate InjectiveOn(f: nat -> nat, a: set<nat>) {
    forall x, y :: x in a && y in a && f(x) == f(y) ==> x == y
  }

  lemma {:induction false} ImageSize(f: nat -> nat, a: set<nat>)
    requires InjectiveOn(f, a)
    ensures |Image(f, a)| == |a|
    decreases |a|
  {
    if a != {} {
      var x :| x in a;
      ImageSize(f, a - {x});
      assert Image(f, a) == Image(f, a - {x}) + {f(x)};
    }
  }

  lemma SubsetSize(a: set<nat>, b: set<nat>)
    requires a <= b && |a| == |b|
    ensures a == b
  {
    assert b == a + (b - a);
  }

  ghost function Image(f: nat -> nat, a: set<nat>): set<nat> {
    set x | x in a :: f(x)
  }

  function SeedAt(s: Word): nat -> nat {
    n => After(s, n)
  }

  lemma PeriodIsInjective(s: Word, a: set<nat>)
    requires a <= Interval(0, MODULUS)
    ensures InjectiveOn(SeedAt(s), a)
  {
    forall i, j | i in a && j in a && SeedAt(s)(i) == SeedAt(s)(j) ensures i == j {
      NoRepeat(s, i, j);
    }
  }

  lemma PeriodCoversWords(s: Word)
    ensures Image(SeedAt(s), Interval(0, MODULUS)) == Interval(0, MODULUS)
  {
    PeriodIsInjective(s, Interval(0, MODULUS));
    ImageSize(SeedAt(s), Interval(0, MODULUS));
    SubsetSize(Image(SeedAt(s), Interval(0, MODULUS)), Interval(0, MODULUS));
  }

  /** Every 32-bit seed occurs exactly once among any 2^32 consecutive calls. */
  lemma EverySeedOnce(s: Word, t: Word) returns (i: nat)
    ensures i < MODULUS && After(s, i) == t
    ensures forall j: nat :: j < MODULUS && After(s, j) == t ==> j == i
  {
    PeriodCoversWords(s);
    assert t in Image(SeedAt(s), Interval(0, MODULUS));
    i :| i in Interval(0, MODULUS) && SeedAt(s)(i) == t;
    forall j: nat | j < MODULUS && After(s, j) == t ensures j == i {
      NoRepeat(s, i, j);
    }
  }

  /** The seeds that give output `v`. */
  ghost function Producing(v: nat): set<nat> {
    set t | t in Interval(0, MODULUS) && Output(t) == v
  }

  lemma ProducingSize(v: nat)
    requires v < 0x8000
    ensures |Producing(v)| == 0x2_0000
  {
    var low, high := Interval(v * 0x1_0000, 0x1_0000), Interval(v * 0x1_0000 + 0x8000_0000, 0x1_0000);
    IntervalSize(v * 0x1_0000, 0x1_0000);
    IntervalSize(v * 0x1_0000 + 0x8000_0000, 0x1_0000);
    assert Producing(v) == low + high;
    assert low !! high;
  }

  /** What call number `i`, counted from 0, returns. */
  function Returned(s: Word, i: nat): nat {
    Output(After(s, i + 1))
  }

  /** The calls among the next `n` that return `v`. */
  ghost function CallsReturning(s: Word, v: nat, n: nat): set<nat> {
    set i | i in Interval(0, n) && Returned(s, i) == v
  }

  lemma ReturnedFromNext(s: Word, i: nat)
    ensures Returned(s, i) == Output(After(Next(s), i))
  {
    AfterAdd(s, 1, i);
    assert After(s, 1) == Next(After(s, 0));
  }

  lemma CallsCoverProducing(s: Word, v: nat)
    ensures Image(SeedAt(Next(s)), CallsReturning(s, v, MODULUS)) == Producing(v)
  {
    var calls, f := CallsReturning(s, v, MODULUS), SeedAt(Next(s));
    forall i | i in calls ensures f(i) in Producing(v) {
      ReturnedFromNext(s, i);
    }
    forall t | t in Producing(v) ensures t in Image(f, calls) {
      var i := EverySeedOnce(Next(s), t);
      ReturnedFromNext(s, i);
      assert i in calls && f(i) == t;
    }
  }

  lemma FullPeriodCount(s: Word, v: nat)
    requires v < 0x8000
    ensures |CallsReturning(s, v, MODULUS)| == 0x2_0000
  {
    PeriodIsInjective(Next(s), CallsReturning(s, v, MODULUS));
    ImageSize(SeedAt(Next(s)), CallsReturning(s, v, MODULUS));
    CallsCoverProducing(s, v);
    ProducingSize(v);
  }

  // ---------- The period of the returned values ----------

  /** `n` calls later the same values come again. */
  ghost predicate Repeats(s: Word, n: nat) {
    forall i: nat :: Returned(s, i + n) == Returned(s, i)
  }

  lemma ReturnedLater(s: Word, i: nat, n: nat)
    ensures Returned(s, i + n) == Output(After(After(s, i + 1), n))
  {
    AfterAdd(s, i + 1, n);
  }

  lemma HalfPeriodRepeats(s: Word, n: nat)
    requires n % HALF == 0
    ensures Repeats(s, n)
  {
    Pow2Of32();
    forall i: nat ensures Returned(s, i + n) == Returned(s, i) {
      var t := After(s, i + 1);
      AfterShift(t, n);
      ShiftDivisible(t, n, 31);
      ReturnedLater(s, i, n);
      OutputIgnoresTopBit(t, Shift(t, n));
    }
  }

  lemma OutputIsLow(x: Word)
    ensures Output(x) == x % HALF / 0x1_0000
  {
    assert x / HALF <= 1;
  }

  /** A sum reduced modulo 2^32 keeps its remainder modulo 2^31. */
  lemma LowOfSum(x: nat)
    ensures x % MODULUS % HALF == x % HALF
  {
    var w, u := x / MODULUS, x % MODULUS;
    AddMultiple(u, HALF, 2 * w);
    assert x == (2 * w) * HALF + u;
  }

  lemma OutputIgnoresTopBit(t: Word, d: nat)
    requires d % HALF == 0
    ensures Output((t + d) % MODULUS) == Output(t)
  {
    OutputIsLow((t + d) % MODULUS);
    OutputIsLow(t);
    LowOfSum(t + d);
    AddMultiple(t, HALF, d / HALF);
  }

  /** A move by an odd multiple of 2^30 flips the highest returned bit. */
  lemma OutputSeesBit30(t: Word, d: nat)
    requires d % (HALF / 2) == 0 && d % HALF != 0
    ensures Output((t + d) % MODULUS) != Output(t)
  {
    OutputIsLow((t + d) % MODULUS);
    OutputIsLow(t);
    LowOfSum(t + d);
    HalfRemains(d);
    AddMultiple(t + HALF / 2, HALF, d / HALF);
    HalfwayRound(t);
  }

  lemma HalfRemains(d: nat)
    requires d % (HALF / 2) == 0 && d % HALF != 0
    ensures d == d / HALF * HALF + HALF / 2
  {
    var q := d / (HALF / 2);
    assert d == q * (HALF / 2);
  }

  lemma HalfwayRound(t: Word)
    ensures (t + HALF / 2) % HALF / 0x1_0000 != t % HALF / 0x1_0000
  {
    var r := t % HALF;
    assert (t + HALF / 2) % HALF == if r < HALF / 2 then r + HALF / 2 else r - HALF / 2;
  }

  lemma FlipsBit30(s: Word, n: nat)
    requires Divides2(30, n) && !Divides2(31, n)
    ensures Returned(s, n) != Returned(s, 0)
  {
    Pow2Of32();
    var t := After(s, 1);
    DividesIsMod(30, n);
    DividesIsMod(31, n);
    AfterShift(t, n);
    ShiftDivisible(t, n, 30);
    ShiftDivisible(t, n, 31);
    ReturnedLater(s, 0, n);
    OutputSeesBit30(t, Shift(t, n));
  }

  lemma {:induction false} NotRepeating(s: Word, n: nat, k: nat)
    requires k <= 30 && Divides2(k, n) && !Divides2(k + 1, n)
    ensures !Repeats(s, n)
    decreases 30 - k
  {
    if k == 30 {
      FlipsBit30(s, n);
      assert Returned(s, 0 + n) != Returned(s, 0);
    } else {
      NotRepeating(s, 2 * n, k + 1);
      RepeatsTwice(s, n);
    }
  }

  lemma RepeatsTwice(s: Word, n: nat)
    ensures Repeats(s, n) ==> Repeats(s, 2 * n)
  {
    if Repeats(s, n) {
      forall i: nat ensures Returned(s, i + 2 * n) == Returned(s, i) {
        assert Returned(s, (i + n) + n) == Returned(s, i + n);
      }
    }
  }

  lemma {:induction false} HighestPower(n: nat, top: nat) returns (k: nat)
    requires !Divides2(top, n)
    ensures k < top && Divides2(k, n) && !Divides2(k + 1, n)
  {
    if Divides2(top - 1, n) {
      k := top - 1;
    } else {
      k := HighestPower(n, top - 1);
    }
  }

  /** The values `rand` returns repeat after `n` calls exactly when 2^31 divides `n`. */
  lemma OutputPeriod(s: Word, n: nat)
    ensures Repeats(s, n) <==> n % HALF == 0
  {
    if n % HALF == 0 {
      HalfPeriodRepeats(s, n);
    } else {
      Pow2Of32();
      DividesIsMod(31, n);
      var k := HighestPower(n, 31);
      NotRepeating(s, n, k);
    }
  }

  /** Each output is returned exactly 2^16 times among any 2^31 consecutive calls. */
  lemma OutputsUniform(s: Word, v: nat)
    requires v < 0x8000
    ensures |CallsReturning(s, v, HALF)| == 0x1_0000
  {
    var low, shift := CallsReturning(s, v, HALF), (i: nat) => i + HALF;
    var high := Image(shift, low);
    HalfPeriodRepeats(s, HALF);
    ImageSize(shift, low);
    FullPeriodCount(s, v);
    forall i | i in CallsReturning(s, v, MODULUS) && i !in low ensures i in high {
      assert Returned(s, (i - HALF) + HALF) == Returned(s, i - HALF);
      assert i - HALF in low && shift(i - HALF) == i;
    }
    forall i | i in high ensures i in CallsReturning(s, v, MODULUS) {
      assert Returned(s, (i - HALF) + HALF) == Returned(s, i - HALF);
    }
    assert CallsReturning(s, v, MODULUS) == low + high;
    assert low !! high;
  }
}
