/** Boost prices: chained percentages in decimal arithmetic of 28 significant
    digits, rounded once at the end. */
module BoostPricing {
  import opened Decimal

  // ---- Rounding ----

  function Abs(x: int): nat {
    if x < 0 then -x else x
  }

  /** n / d to the nearest whole number, ties to the even one. */
  function HalfEven(n: int, d: int): int
    requires 0 < d
  {
    var q, r := n / d, n % d;
    if 2 * r < d || (2 * r == d && q % 2 == 0) then q else q + 1
  }

  /** What rounding half to even means: at most half a unit away, and even when
      exactly half. */
  predicate IsHalfEven(n: int, d: int, r: int) {
    2 * Abs(r * d - n) <= d && (2 * Abs(r * d - n) == d ==> r % 2 == 0)
  }

  lemma HalfEvenIs(n: int, d: int)
    requires 0 < d
    ensures IsHalfEven(n, d, HalfEven(n, d))
  {
    var q, r := n / d, n % d;
    assert n == q * d + r;
    assert (q + 1) * d == q * d + d;
  }

  lemma HalfEvenNoLarger(n: int, d: int, r: int, s: int)
    requires 0 < d && IsHalfEven(n, d, r) && IsHalfEven(n, d, s)
    ensures s <= r
  {
    if r < s {
      var gap := (s - r) * d;
      assert s * d - r * d == gap;
      assert gap <= d;
      MulOrder(s - r, 1, d);
    }
  }

  /** A number has one half-even rounding. */
  lemma HalfEvenUnique(n: int, d: int, r: int, s: int)
    requires 0 < d && IsHalfEven(n, d, r) && IsHalfEven(n, d, s)
    ensures r == s
  {
    HalfEvenNoLarger(n, d, r, s);
    HalfEvenNoLarger(n, d, s, r);
  }

  lemma HalfEvenScale(n: int, d: int, m: int)
    requires 0 < d && 0 < m
    ensures 0 < d * m && HalfEven(n * m, d * m) == HalfEven(n, d)
  {
    var r := HalfEven(n, d);
    HalfEvenIs(n, d);
    assert 0 < d * m;
    assert r * (d * m) - n * m == (r * d - n) * m;
    AbsScale(r * d - n, m);
    var a := Abs(r * d - n);
    assert 2 * (a * m) == (2 * a) * m;
    MulOrder(2 * a, d, m);
    assert IsHalfEven(n * m, d * m, r);
    HalfEvenIs(n * m, d * m);
    HalfEvenUnique(n * m, d * m, r, HalfEven(n * m, d * m));
  }

  lemma AbsScale(x: int, m: int)
    requires 0 < m
    ensures Abs(x * m) == Abs(x) * m
  {
    if x < 0 {
      assert x * m < 0;
      assert -(x * m) == (-x) * m;
    }
  }

  lemma MulOrder(a: int, b: int, m: int)
    requires 0 < m
    ensures a <= b <==> a * m <= b * m
    ensures a == b <==> a * m == b * m
  {
    if a <= b {
      assert (b - a) * m >= 0;
    } else {
      assert (a - b) * m > 0;
    }
    assert a * m - b * m == (a - b) * m;
  }

  lemma HalfEvenMonotone(a: int, b: int, d: int)
    requires 0 < d && a <= b
    ensures HalfEven(a, d) <= HalfEven(b, d)
  {
    if a < b {
      HalfEvenIs(a, d);
      HalfEvenIs(b, d);
      HalfEvenOrder(a, b, d, HalfEven(a, d), HalfEven(b, d));
    }
  }

  lemma HalfEvenOrder(a: int, b: int, d: int, r: int, s: int)
    requires 0 < d && a < b && IsHalfEven(a, d, r) && IsHalfEven(b, d, s)
    ensures r <= s
  {
    assert (r - s) * d == r * d - s * d;
    if s < r {
      MulOrder(1, r - s, d);
    }
  }

  // ---- Decimal numbers ----

  /** coefficient * 10^exponent. */
  datatype Dec = Dec(coefficient: int, exponent: int)

  const PRECISION: nat := 28

  /** The number times 10^k, for k that clears its fraction. */
  function Scaled(x: Dec, k: nat): int
    requires 0 <= k + x.exponent
  {
    x.coefficient * Pow10(k + x.exponent)
  }

  /** Rounding to the context: nothing happens to 28 digits or fewer. */
  function InContext(x: Dec): Dec {
    var digits := |Print(Abs(x.coefficient))|;
    if digits <= PRECISION then x
    else
      Pow10Positive(digits - PRECISION);
      Dec(HalfEven(x.coefficient, Pow10(digits - PRECISION)), x.exponent + digits - PRECISION)
  }

  function Mul(a: Dec, b: Dec): Dec {
    InContext(Dec(a.coefficient * b.coefficient, a.exponent + b.exponent))
  }

  /** One plus a fraction, at the fraction's exponent. */
  function OnePlus(x: Dec): Dec
    requires x.exponent <= 0
  {
    InContext(Dec(Pow10(-x.exponent) + x.coefficient, x.exponent))
  }

  /** p / 100 without trailing zeros, as an exact decimal quotient is given. */
  function Percent(p: int): Dec {
    if p % 100 == 0 then Dec(p / 100, 0)
    else if p % 10 == 0 then Dec(p / 10, -1)
    else Dec(p, -2)
  }

  function Negated(x: Dec): Dec {
    x.(coefficient := -x.coefficient)
  }

  /** To two places, half to even: the result in hundredths. */
  function QuantizedCents(x: Dec): int {
    if -2 <= x.exponent then x.coefficient * Pow10(x.exponent + 2)
    else
      Pow10Positive(-2 - x.exponent);
      HalfEven(x.coefficient, Pow10(-2 - x.exponent))
  }

  // ---- Prices ----

  datatype BoostConfig = BoostConfig(
    rateCents: int,
    discount6: int, discount12: int, discount24: int, discount72: int, discount168: int,
    impressionRate: int, platformFee: int, surcharge: int)

  function Discount(c: BoostConfig, hours: int): int {
    if hours == 6 then c.discount6
    else if hours == 12 then c.discount12
    else if hours == 24 then c.discount24
    else if hours == 72 then c.discount72
    else if hours == 168 then c.discount168
    else 0
  }

  function DiscountedCost(rateCents: int, hours: int, discount: int): Dec {
    Mul(Mul(Dec(rateCents, -2), Dec(hours, 0)), OnePlus(Negated(Percent(discount))))
  }

  function FinalCost(discounted: Dec, premium: bool, surcharge: int, fee: int): Dec {
    var targeted := if premium then Mul(discounted, OnePlus(Percent(surcharge))) else discounted;
    Mul(targeted, OnePlus(Percent(fee)))
  }

  /** The cost in hundredths of a coin. */
  function CalculateCost(c: BoostConfig, hours: int, premium: bool): int {
    QuantizedCents(FinalCost(DiscountedCost(c.rateCents, hours, Discount(c, hours)), premium, c.surcharge, c.platformFee))
  }

  /** int() of a decimal: the fraction is cut off, towards zero. */
  function Truncated(x: Dec): int {
    if 0 <= x.exponent then x.coefficient * Pow10(x.exponent)
    else
      Pow10Positive(-x.exponent);
      if x.coefficient < 0 then -((-x.coefficient) / Pow10(-x.exponent)) else x.coefficient / Pow10(-x.exponent)
  }

  function ExpectedImpressions(c: BoostConfig, costCents: int): int {
    Truncated(Mul(Dec(costCents, -2), Dec(c.impressionRate, 0)))
  }

  // ---- Exactness ----

  lemma Pow10Positive(k: nat)
    ensures 1 <= Pow10(k)
  {
  }

  lemma {:induction false} Pow10Add(i: nat, j: nat)
    ensures Pow10(i + j) == Pow10(i) * Pow10(j)
  {
    if i > 0 {
      Pow10Add(i - 1, j);
      assert Pow10(i - 1 + j) == Pow10(i - 1) * Pow10(j);
      MulAssoc(10, Pow10(i - 1), Pow10(j));
    }
  }

  lemma MulAssoc(a: int, b: int, c: int)
    ensures (a * b) * c == a * (b * c)
  {
  }

  /** A coefficient is no larger than the scaled number. */
  lemma CoefficientIsSmall(x: Dec, k: nat)
    requires 0 <= k + x.exponent
    ensures Abs(x.coefficient) <= Abs(Scaled(x, k))
  {
    var m := Pow10(k + x.exponent);
    Pow10Positive(k + x.exponent);
    AbsScale(x.coefficient, m);
    assert Abs(x.coefficient) * m >= Abs(x.coefficient);
  }

  lemma ShortIsKept(x: Dec)
    requires Abs(x.coefficient) < Pow10(PRECISION)
    ensures InContext(x) == x
  {
    PrintLength(Abs(x.coefficient), PRECISION);
  }

  /** A longer coefficient, of either sign, is rounded half to even to its leading
      28 digits, and the exponent makes up for the digits dropped. */
  lemma LongIsRounded(x: Dec, e: nat)
    requires 0 < e && Pow10(PRECISION + e - 1) <= Abs(x.coefficient) < Pow10(PRECISION + e)
    ensures InContext(x).exponent == x.exponent + e && IsHalfEven(x.coefficient, Pow10(e), InContext(x).coefficient)
  {
    PrintLength(Abs(x.coefficient), PRECISION + e);
    PrintLength(Abs(x.coefficient), PRECISION + e - 1);
    Pow10Positive(e);
    HalfEvenIs(x.coefficient, Pow10(e));
  }

  lemma MulRegroup(a: int, b: int, m: int, n: int)
    ensures (a * b) * (m * n) == (a * m) * (b * n)
  {
    assert (a * b) * (m * n) == a * (b * (m * n));
    assert b * (m * n) == m * (b * n);
    assert (a * m) * (b * n) == a * (m * (b * n));
  }

  /** A product whose scaled value is short is computed without rounding. */
  lemma MulExact(a: Dec, i: nat, b: Dec, j: nat)
    requires 0 <= i + a.exponent && 0 <= j + b.exponent
    requires Abs(Scaled(a, i) * Scaled(b, j)) < Pow10(PRECISION)
    ensures var p := Mul(a, b); 0 <= i + j + p.exponent && Scaled(p, i + j) == Scaled(a, i) * Scaled(b, j)
  {
    var p := Dec(a.coefficient * b.coefficient, a.exponent + b.exponent);
    var m, n := Pow10(i + a.exponent), Pow10(j + b.exponent);
    Pow10Add(i + a.exponent, j + b.exponent);
    assert Scaled(p, i + j) == (a.coefficient * b.coefficient) * (m * n);
    MulRegroup(a.coefficient, b.coefficient, m, n);
    CoefficientIsSmall(p, i + j);
    ShortIsKept(p);
  }

  lemma PercentIs(p: int)
    ensures var q := Percent(p); -2 <= q.exponent <= 0 && Scaled(q, 2) == p && Scaled(Negated(q), 2) == -p
  {
    assert Pow10(1) == 10 && Pow10(2) == 100 && Pow10(0) == 1;
    assert p == 100 * (p / 100) + p % 100 && p == 10 * (p / 10) + p % 10;
  }

  lemma OnePlusScaled(q: Dec)
    requires -2 <= q.exponent <= 0
    ensures Scaled(Dec(Pow10(-q.exponent) + q.coefficient, q.exponent), 2) == 100 + Scaled(q, 2)
  {
    assert Pow10(1) == 10 && Pow10(2) == 100 && Pow10(0) == 1;
    assert q.exponent == 0 || q.exponent == -1 || q.exponent == -2;
  }

  /** One plus so many hundredths is exactly a hundred more hundredths. */
  lemma OnePlusIs(q: Dec)
    requires -2 <= q.exponent <= 0 && Abs(Scaled(q, 2)) < Pow10(PRECISION) - 100
    ensures var x := OnePlus(q); 0 <= 2 + x.exponent && Scaled(x, 2) == 100 + Scaled(q, 2)
  {
    OnePlusScaled(q);
    var x := Dec(Pow10(-q.exponent) + q.coefficient, q.exponent);
    CoefficientIsSmall(x, 2);
    ShortIsKept(x);
  }

  /** Quantizing rounds the exact value, at whatever scale it is written. */
  lemma QuantizedIs(x: Dec, k: nat)
    requires 2 <= k && 0 <= k + x.exponent
    ensures 0 < Pow10(k - 2) && QuantizedCents(x) == HalfEven(Scaled(x, k), Pow10(k - 2))
  {
    Pow10Positive(k - 2);
    var m := Pow10(k + x.exponent);
    Pow10Positive(k + x.exponent);
    if -2 <= x.exponent {
      Pow10Add(x.exponent + 2, k - 2);
      var n := x.coefficient * Pow10(x.exponent + 2);
      assert Scaled(x, k) == n * Pow10(k - 2);
      HalfEvenScale(n, 1, Pow10(k - 2));
      assert HalfEven(n, 1) == n;
    } else {
      Pow10Positive(-2 - x.exponent);
      Pow10Add(-2 - x.exponent, k + x.exponent);
      HalfEvenScale(x.coefficient, Pow10(-2 - x.exponent), m);
    }
  }

  /** The price times 10^8, as one product of whole numbers. */
  function ExactPrice(rateCents: int, hours: int, discount: int, surcharge: int, fee: int): int {
    rateCents * hours * (100 - discount) * (100 + surcharge) * (100 + fee)
  }

  const MICROCENTS: int := 1_000_000

  /** No partial product, written out in whole numbers, exceeds 28 digits. */
  predicate Fits(rateCents: int, hours: int, discount: int, surcharge: int, fee: int) {
    && Abs(rateCents * hours) < Pow10(PRECISION)
    && Abs(rateCents * hours * (100 - discount)) < Pow10(PRECISION)
    && Abs(rateCents * hours * (100 - discount) * (100 + surcharge)) < Pow10(PRECISION)
    && Abs(ExactPrice(rateCents, hours, discount, surcharge, fee)) < Pow10(PRECISION)
    && Abs(discount) < Pow10(PRECISION) - 100
    && Abs(surcharge) < Pow10(PRECISION) - 100 && Abs(fee) < Pow10(PRECISION) - 100
  }

  /** A percentage step: scale 2 more, exactly. */
  lemma PercentStep(x: Dec, k: nat, q: Dec)
    requires 0 <= k + x.exponent && -2 <= q.exponent <= 0 && Abs(Scaled(q, 2)) < Pow10(PRECISION) - 100
    requires Abs(Scaled(x, k) * (100 + Scaled(q, 2))) < Pow10(PRECISION)
    ensures var y := Mul(x, OnePlus(q)); 0 <= k + 2 + y.exponent && Scaled(y, k + 2) == Scaled(x, k) * (100 + Scaled(q, 2))
  {
    OnePlusIs(q);
    MulExact(x, k, OnePlus(q), 2);
  }

  lemma BaseIs(rateCents: int, hours: int)
    requires Abs(rateCents * hours) < Pow10(PRECISION)
    ensures var x := Mul(Dec(rateCents, -2), Dec(hours, 0)); 0 <= 2 + x.exponent && Scaled(x, 2) == rateCents * hours
  {
    assert Pow10(0) == 1;
    MulExact(Dec(rateCents, -2), 2, Dec(hours, 0), 0);
  }

  lemma DiscountedIs(r: int, h: int, d: int)
    requires Abs(r * h) < Pow10(PRECISION) && Abs(r * h * (100 - d)) < Pow10(PRECISION) && Abs(d) < Pow10(PRECISION) - 100
    ensures var x := DiscountedCost(r, h, d); 0 <= 4 + x.exponent && Scaled(x, 4) == r * h * (100 - d)
  {
    BaseIs(r, h);
    PercentIs(d);
    PercentStep(Mul(Dec(r, -2), Dec(h, 0)), 2, Negated(Percent(d)));
  }

  lemma AbsFactor(x: int, m: int)
    requires 1 <= m
    ensures Abs(x) <= Abs(x * m)
  {
    AbsScale(x, m);
    MulOrder(1, m, 1);
    assert Abs(x) * m >= Abs(x);
  }

  lemma Scales()
    ensures Pow10(4) == 10_000 && Pow10(6) == MICROCENTS
  {
    assert Pow10(3) == 1000;
    Pow10Add(3, 3);
    Pow10Add(3, 1);
  }

  /** The two ways the price ends, from the discounted cost on. */
  lemma PremiumEnding(x: Dec, n: int, s: int, f: int)
    requires 0 <= 4 + x.exponent && Scaled(x, 4) == n
    requires Abs(n * (100 + s)) < Pow10(PRECISION) && Abs(n * (100 + s) * (100 + f)) < Pow10(PRECISION)
    requires Abs(s) < Pow10(PRECISION) - 100 && Abs(f) < Pow10(PRECISION) - 100
    ensures QuantizedCents(FinalCost(x, true, s, f)) == HalfEven(n * (100 + s) * (100 + f), MICROCENTS)
  {
    PercentIs(s);
    PercentIs(f);
    PercentStep(x, 4, Percent(s));
    var y := Mul(x, OnePlus(Percent(s)));
    PercentStep(y, 6, Percent(f));
    QuantizedIs(Mul(y, OnePlus(Percent(f))), 8);
    Scales();
  }

  lemma PlainEnding(x: Dec, n: int, f: int)
    requires 0 <= 4 + x.exponent && Scaled(x, 4) == n
    requires Abs(n * 100 * (100 + f)) < Pow10(PRECISION) && Abs(f) < Pow10(PRECISION) - 100
    ensures forall s :: QuantizedCents(FinalCost(x, false, s, f)) == HalfEven(n * 100 * (100 + f), MICROCENTS)
  {
    var exact := n * (100 + f);
    HundredfoldMoves(n, 100 + f);
    AbsFactor(exact, 100);
    PercentIs(f);
    PercentStep(x, 4, Percent(f));
    QuantizedIs(Mul(x, OnePlus(Percent(f))), 6);
    Scales();
    HalfEvenScale(exact, 10_000, 100);
  }

  lemma HundredfoldMoves(n: int, m: int)
    ensures n * 100 * m == n * m * 100
  {
  }

  /** Nothing is lost before the final rounding: while the partial products fit
      28 digits, the price is the half-even rounding of the exact one, where a
      plain price has no surcharge. */
  lemma CostIsRoundedOnce(r: int, h: int, d: int, premium: bool, s: int, f: int)
    requires Fits(r, h, d, if premium then s else 0, f)
    ensures QuantizedCents(FinalCost(DiscountedCost(r, h, d), premium, s, f))
         == HalfEven(ExactPrice(r, h, d, if premium then s else 0, f), MICROCENTS)
  {
    DiscountedIs(r, h, d);
    if premium {
      PremiumEnding(DiscountedCost(r, h, d), r * h * (100 - d), s, f);
    } else {
      PlainEnding(DiscountedCost(r, h, d), r * h * (100 - d), f);
    }
  }

  /** Values the configuration's columns allow, percentages of at most a hundred,
      and any duration an integer column holds: the views take all of them. */
  predicate Ordinary(c: BoostConfig, hours: int) {
    && 0 <= c.rateCents < 10_000_000_000 && Abs(hours) <= 2_147_483_648
    && 0 <= Discount(c, hours) <= 100 && 0 <= c.surcharge <= 100 && 0 <= c.platformFee <= 100
  }

  lemma ProductBound(x: int, m: int, y: int, n: int)
    requires 0 <= x <= m && 0 <= y <= n
    ensures 0 <= x * y <= m * n
  {
    assert 0 <= x * y;
    assert x * y <= m * y;
    assert m * y <= m * n;
  }

  lemma TenToThe28()
    ensures Pow10(PRECISION) >= 100_000_000_000_000_000_000_000_000
  {
    assert Pow10(5) == 100_000 && Pow10(6) == 1_000_000 && Pow10(2) == 100;
    Pow10Add(5, 5); Pow10Add(10, 10); Pow10Add(20, 6); Pow10Add(26, 2);
  }

  lemma AbsProduct(x: int, m: int, y: int, n: int)
    requires Abs(x) <= m && 0 <= y <= n
    ensures Abs(x * y) <= m * n
  {
    ProductBound(Abs(x), m, y, n);
    if 0 < y {
      AbsScale(x, y);
    }
  }

  lemma OrdinaryFits(r: int, h: int, d: int, s: int, f: int)
    requires 0 <= r < 10_000_000_000 && Abs(h) <= 2_147_483_648 && 0 <= d <= 100 && 0 <= s <= 100 && 0 <= f <= 100
    ensures Fits(r, h, d, s, f)
  {
    TenToThe28();
    var x := r * h;
    AbsProduct(h, 2_147_483_648, r, 10_000_000_000);
    var y := x * (100 - d);
    AbsProduct(x, 21_474_836_480_000_000_000, 100 - d, 100);
    var z := y * (100 + s);
    AbsProduct(y, 2_147_483_648_000_000_000_000, 100 + s, 200);
    AbsProduct(z, 429_496_729_600_000_000_000_000, 100 + f, 200);
  }

  /** The exact price of a purchase, in millionths of a cent. */
  function ExactCost(c: BoostConfig, hours: int, premium: bool): int {
    ExactPrice(c.rateCents, hours, Discount(c, hours), if premium then c.surcharge else 0, c.platformFee)
  }

  /** For ordinary values the price is the exact one rounded half to even: at
      most half a cent off, the even cent on a tie. */
  lemma CostIsHalfEven(c: BoostConfig, hours: int, premium: bool)
    requires Ordinary(c, hours)
    ensures CalculateCost(c, hours, premium) == HalfEven(ExactCost(c, hours, premium), MICROCENTS)
    ensures IsHalfEven(ExactCost(c, hours, premium), MICROCENTS, CalculateCost(c, hours, premium))
  {
    var d, s := Discount(c, hours), if premium then c.surcharge else 0;
    OrdinaryFits(c.rateCents, hours, d, s, c.platformFee);
    CostIsRoundedOnce(c.rateCents, hours, d, premium, c.surcharge, c.platformFee);
    HalfEvenIs(ExactCost(c, hours, premium), MICROCENTS);
  }

  // ---- Monotonicity ----

  /** b charges no less than a: a rate, surcharge and fee at least as high and a
      discount at most as deep. */
  predicate ChargesNoLess(a: BoostConfig, b: BoostConfig, hours: int) {
    && a.rateCents <= b.rateCents && Discount(b, hours) <= Discount(a, hours)
    && a.surcharge <= b.surcharge && a.platformFee <= b.platformFee
  }

  lemma ExactPriceMonotone(r: int, r': int, h: int, d: int, d': int, s: int, s': int, f: int, f': int)
    requires 0 <= r <= r' && 0 <= h && d' <= d <= 100 && -100 <= s <= s' && -100 <= f <= f'
    ensures ExactPrice(r, h, d, s, f) <= ExactPrice(r', h, d', s', f')
  {
    var x, x' := r * h, r' * h;
    ProductBound(r, r', h, h);
    var y, y' := x * (100 - d), x' * (100 - d');
    ProductBound(x, x', 100 - d, 100 - d');
    var z, z' := y * (100 + s), y' * (100 + s');
    ProductBound(y, y', 100 + s, 100 + s');
    ProductBound(z, z', 100 + f, 100 + f');
  }

  /** The price is monotone in rate, surcharge and fee and antitone in the
      discount; and premium targeting never lowers it. */
  lemma CostMonotone(a: BoostConfig, b: BoostConfig, hours: int, premium: bool, premium': bool)
    requires Ordinary(a, hours) && Ordinary(b, hours) && 0 <= hours && ChargesNoLess(a, b, hours) && (premium ==> premium')
    ensures CalculateCost(a, hours, premium) <= CalculateCost(b, hours, premium')
  {
    CostIsHalfEven(a, hours, premium);
    CostIsHalfEven(b, hours, premium');
    ExactPriceMonotone(a.rateCents, b.rateCents, hours, Discount(a, hours), Discount(b, hours),
                       if premium then a.surcharge else 0, if premium' then b.surcharge else 0, a.platformFee, b.platformFee);
    HalfEvenMonotone(ExactCost(a, hours, premium), ExactCost(b, hours, premium'), MICROCENTS);
  }

  lemma CostIsNotNegative(c: BoostConfig, hours: int, premium: bool)
    requires Ordinary(c, hours) && 0 <= hours
    ensures 0 <= CalculateCost(c, hours, premium)
  {
    CostIsHalfEven(c, hours, premium);
    ExactIsNotNegative(c.rateCents, hours, Discount(c, hours), if premium then c.surcharge else 0, c.platformFee);
    HalfEvenNotNegative(ExactCost(c, hours, premium));
  }

  lemma HalfEvenNotNegative(n: nat)
    ensures 0 <= HalfEven(n, MICROCENTS)
  {
  }

  lemma ExactIsNotNegative(r: int, h: int, d: int, s: int, f: int)
    requires 0 <= r && 0 <= h && d <= 100 && 0 <= s && 0 <= f
    ensures 0 <= ExactPrice(r, h, d, s, f)
  {
    ProductBound(r, r, h, h);
    ProductBound(r * h, r * h, 100 - d, 100 - d);
    ProductBound(r * h * (100 - d), r * h * (100 - d), 100 + s, 100 + s);
    ProductBound(r * h * (100 - d) * (100 + s), r * h * (100 - d) * (100 + s), 100 + f, 100 + f);
  }

  /** Expected impressions follow the price, through the rounding of a product
      that outgrows the precision and the cut to a whole number. */
  lemma ImpressionsMonotone(a: BoostConfig, b: BoostConfig, hours: int, premium: bool, premium': bool)
    requires Ordinary(a, hours) && Ordinary(b, hours) && 0 <= hours && ChargesNoLess(a, b, hours) && (premium ==> premium')
    requires 0 <= a.impressionRate == b.impressionRate
    ensures ExpectedImpressions(a, CalculateCost(a, hours, premium)) <= ExpectedImpressions(b, CalculateCost(b, hours, premium'))
  {
    CostMonotone(a, b, hours, premium, premium');
    CostIsNotNegative(a, hours, premium);
    TruncatedProduct(CalculateCost(a, hours, premium), CalculateCost(b, hours, premium'), a.impressionRate);
  }

  lemma TruncatedProduct(x: int, y: int, r: int)
    requires 0 <= x <= y && 0 <= r
    ensures Truncated(Mul(Dec(x, -2), Dec(r, 0))) <= Truncated(Mul(Dec(y, -2), Dec(r, 0)))
  {
    ProductBound(x, y, r, r);
    TruncatedIs(x * r);
    TruncatedIs(y * r);
    KeptMonotone(x * r, y * r);
  }

  /** The digits of a number beyond the precision. */
  function Excess(n: nat): nat {
    if |Print(n)| <= PRECISION then 0 else |Print(n)| - PRECISION
  }

  /** What rounding to the precision keeps of a whole number. */
  function Kept(n: nat): int {
    Pow10Positive(Excess(n));
    HalfEven(n, Pow10(Excess(n))) * Pow10(Excess(n))
  }

  /** Rounding keeps on its side of every number short enough to be kept. */
  lemma KeptIsBetween(n: nat, k: int)
    ensures k * Pow10(Excess(n)) <= n ==> k * Pow10(Excess(n)) <= Kept(n)
    ensures n <= k * Pow10(Excess(n)) ==> Kept(n) <= k * Pow10(Excess(n))
  {
    var p := Pow10(Excess(n));
    Pow10Positive(Excess(n));
    WholeMultiple(k, p);
    if k * p <= n {
      HalfEvenMonotone(k * p, n, p);
      MulOrder(k, HalfEven(n, p), p);
    }
    if n <= k * p {
      HalfEvenMonotone(n, k * p, p);
      MulOrder(HalfEven(n, p), k, p);
    }
  }

  lemma WholeMultiple(k: int, p: int)
    requires 0 < p
    ensures HalfEven(k * p, p) == k
  {
    HalfEvenIs(k * p, p);
    HalfEvenUnique(k * p, p, k, HalfEven(k * p, p));
  }

  lemma {:induction false} Pow10Grows(i: nat, j: nat)
    requires i <= j
    ensures Pow10(i) <= Pow10(j)
  {
    Pow10Add(i, j - i);
    Pow10Positive(j - i);
    Pow10Positive(i);
    MulOrder(1, Pow10(j - i), Pow10(i));
  }

  lemma KeptBelow(x: nat)
    ensures Kept(x) <= Pow10(|Print(x)|)
  {
    var d := |Print(x)|;
    PrintLength(x, d);
    Pow10Add(d - Excess(x), Excess(x));
    KeptIsBetween(x, Pow10(d - Excess(x)));
  }

  lemma KeptAbove(y: nat)
    requires 1 < |Print(y)|
    ensures Pow10(|Print(y)| - 1) <= Kept(y)
  {
    var e := |Print(y)| - 1;
    PrintLength(y, e);
    Pow10Add(e - Excess(y), Excess(y));
    KeptIsBetween(y, Pow10(e - Excess(y)));
  }

  /** More digits, and the power of ten between them. */
  lemma PowerBetween(x: nat, y: nat)
    requires |Print(x)| < |Print(y)|
    ensures Kept(x) <= Kept(y)
  {
    KeptBelow(x);
    Pow10Grows(|Print(x)|, |Print(y)| - 1);
    KeptAbove(y);
  }

  lemma FewerDigits(x: nat, y: nat)
    requires x <= y
    ensures |Print(x)| <= |Print(y)|
  {
    PrintLength(y, |Print(y)|);
    PrintLength(x, |Print(y)|);
  }

  lemma KeptMonotone(x: nat, y: nat)
    requires x <= y
    ensures Kept(x) <= Kept(y)
  {
    FewerDigits(x, y);
    if |Print(x)| < |Print(y)| {
      PowerBetween(x, y);
    } else {
      var p := Pow10(Excess(x));
      Pow10Positive(Excess(x));
      HalfEvenMonotone(x, y, p);
      MulOrder(HalfEven(x, p), HalfEven(y, p), p);
    }
  }

  lemma WholeIsKept(n: nat)
    ensures HalfEven(n, 1) == n
  {
  }

  lemma InContextIs(n: nat)
    ensures 0 < Pow10(Excess(n)) && InContext(Dec(n, -2)) == Dec(HalfEven(n, Pow10(Excess(n))), Excess(n) - 2)
  {
    Pow10Positive(Excess(n));
    WholeIsKept(n);
  }

  lemma SmallPowers()
    ensures Pow10(0) == 1 && Pow10(1) == 10 && Pow10(2) == 100
  {
  }

  lemma Hundredth(c: int, p: int)
    ensures c * (100 * p) / 100 == c * p
  {
    var q := c * p;
    assert c * (100 * p) == 100 * q;
    assert 100 * q / 100 == q;
  }

  lemma TenthOf(c: nat)
    ensures c / 10 == c * 10 / 100
  {
  }

  lemma HundredthsOf(c: nat, e: nat)
    ensures Truncated(Dec(c, e - 2)) == c * Pow10(e) / 100
  {
    SmallPowers();
    if e < 2 {
      TenthOf(c);
    } else {
      Pow10Add(2, e - 2);
      Hundredth(c, Pow10(e - 2));
    }
  }

  /** The expected impressions are the kept product, in hundredths. */
  lemma TruncatedIs(n: nat)
    ensures Truncated(InContext(Dec(n, -2))) == Kept(n) / 100
  {
    InContextIs(n);
    KeptIsBetween(n, 0);
    var c := HalfEven(n, Pow10(Excess(n)));
    HalfEvenMonotone(0, n, Pow10(Excess(n)));
    HundredthsOf(c, Excess(n));
  }

  // ---- Impressions ----

  lemma {:induction false} ShortIsWhole(n: nat)
    requires n < Pow10(PRECISION)
    ensures Kept(n) == n
  {
    PrintLength(n, PRECISION);
    WholeIsKept(n);
    assert Pow10(0) == 1;
  }

  /** Expected impressions are the price times the impressions a coin buys, with
      the fraction cut off, as long as the product has at most 28 digits. */
  lemma ImpressionsAre(c: BoostConfig, costCents: nat)
    requires 0 <= c.impressionRate && costCents * c.impressionRate < Pow10(PRECISION)
    ensures ExpectedImpressions(c, costCents) == costCents * c.impressionRate / 100
  {
    TruncatedIs(costCents * c.impressionRate);
    ShortIsWhole(costCents * c.impressionRate);
  }

  /** Past that, of the product rounded half to even to its leading 28 digits. */
  lemma LongImpressionsAre(c: BoostConfig, costCents: nat, e: nat)
    requires 0 <= c.impressionRate && 0 < e
    requires Pow10(PRECISION + e - 1) <= costCents * c.impressionRate < Pow10(PRECISION + e)
    ensures exists k: int :: 0 < Pow10(e) && IsHalfEven(costCents * c.impressionRate, Pow10(e), k)
                     && ExpectedImpressions(c, costCents) == k * Pow10(e) / 100
  {
    var n := costCents * c.impressionRate;
    DigitsBetween(n, PRECISION + e);
    Pow10Positive(e);
    TruncatedIs(n);
    HalfEvenIs(n, Pow10(e));
    assert Kept(n) == HalfEven(n, Pow10(e)) * Pow10(e);
  }

  lemma DigitsBetween(n: nat, d: nat)
    requires 1 < d && Pow10(d - 1) <= n < Pow10(d)
    ensures |Print(n)| == d
  {
    PrintLength(n, d);
    PrintLength(n, d - 1);
  }

  lemma Opposite(x: int, r: int)
    ensures (-x) * r == -(x * r)
  {
  }

  lemma TruncatedOpposite(n: int)
    requires 0 <= n < Pow10(PRECISION)
    ensures Truncated(InContext(Dec(-n, -2))) == -Truncated(InContext(Dec(n, -2)))
  {
    ShortIsKept(Dec(n, -2));
    ShortIsKept(Dec(-n, -2));
  }

  /** A price below nothing counts as far down as its opposite counts up. */
  lemma NegativeImpressionsAre(c: BoostConfig, costCents: int)
    requires 0 <= costCents && 0 <= c.impressionRate && costCents * c.impressionRate < Pow10(PRECISION)
    ensures ExpectedImpressions(c, -costCents) == -ExpectedImpressions(c, costCents)
  {
    Opposite(costCents, c.impressionRate);
    ProductBound(costCents, costCents, c.impressionRate, c.impressionRate);
    TruncatedOpposite(costCents * c.impressionRate);
  }

  // ---- Duration ----

  /** n / d rounds to k or less: it lies below the boundary between k and
      k + 1, or on it with k the even one. */
  predicate RoundsWithin(n: int, d: int, k: int) {
    2 * n < (2 * k + 1) * d || (2 * n == (2 * k + 1) * d && k % 2 == 0)
  }

  lemma RoundsWithinIff(n: int, d: int, k: int)
    requires 0 < d
    ensures HalfEven(n, d) <= k <==> RoundsWithin(n, d, k)
  {
    var q, r := n / d, n % d;
    assert n == q * d + r;
    if k < q {
      MulOrder(k + 1, q, d);
      assert (2 * k + 1) * d == 2 * ((k + 1) * d) - d;
    } else if q < k {
      MulOrder(q + 1, k, d);
      assert (2 * k + 1) * d == 2 * (k * d) + d;
      assert (q + 1) * d == q * d + d;
    } else {
      assert (2 * k + 1) * d == 2 * (q * d) + d;
    }
  }

  /** A rounding boundary parts two amounts: one rounds to some k or less, the
      other does not. */
  ghost predicate Parted(n: int, m: int, d: int) {
    exists k :: RoundsWithin(n, d, k) && !RoundsWithin(m, d, k)
  }

  lemma RoundedLessIff(n: int, m: int, d: int)
    requires 0 < d
    ensures HalfEven(n, d) < HalfEven(m, d) <==> Parted(n, m, d)
  {
    var k := HalfEven(n, d);
    RoundsWithinIff(n, d, k);
    RoundsWithinIff(m, d, k);
    if j :| RoundsWithin(n, d, j) && !RoundsWithin(m, d, j) {
      RoundsWithinIff(n, d, j);
      RoundsWithinIff(m, d, j);
    }
  }

  /** What a duration weighs in the price: the hours left after the discount, in
      hundredths. */
  function Weight(c: BoostConfig, hours: int): int {
    hours * (100 - Discount(c, hours))
  }

  /** What a hundredth of an hour costs, in millionths of a cent. */
  function Rate(c: BoostConfig, premium: bool): int {
    c.rateCents * ((100 + (if premium then c.surcharge else 0)) * (100 + c.platformFee))
  }

  lemma ExactCostIs(c: BoostConfig, hours: int, premium: bool)
    ensures ExactCost(c, hours, premium) == Weight(c, hours) * Rate(c, premium)
  {
    Regrouped(c.rateCents, hours, 100 - Discount(c, hours), 100 + (if premium then c.surcharge else 0), 100 + c.platformFee);
  }

  lemma PriceOfWeight(c: BoostConfig, hours: int, premium: bool)
    requires Ordinary(c, hours)
    ensures CalculateCost(c, hours, premium) == HalfEven(Weight(c, hours) * Rate(c, premium), MICROCENTS)
  {
    CostIsHalfEven(c, hours, premium);
    ExactCostIs(c, hours, premium);
  }

  lemma PositiveRate(r: int, s: int, f: int)
    requires 0 <= r && 0 <= s && 0 <= f
    ensures 0 <= r * ((100 + s) * (100 + f)) && (0 < r ==> 0 < r * ((100 + s) * (100 + f)))
  {
    var m := (100 + s) * (100 + f);
    assert 0 < m;
    assert 0 <= r * m;
    if 0 < r {
      assert 0 < r * m;
    }
  }

  /** For any two durations, the price of one is below the price of the other
      exactly when a rounding boundary parts their weights times the rate. */
  lemma DurationOrderIff(c: BoostConfig, h: int, h': int, premium: bool)
    requires Ordinary(c, h) && Ordinary(c, h')
    ensures CalculateCost(c, h', premium) < CalculateCost(c, h, premium)
       <==> Parted(Weight(c, h') * Rate(c, premium), Weight(c, h) * Rate(c, premium), MICROCENTS)
  {
    PriceOfWeight(c, h, premium);
    PriceOfWeight(c, h', premium);
    RoundedLessIff(Weight(c, h') * Rate(c, premium), Weight(c, h) * Rate(c, premium), MICROCENTS);
  }

  lemma HeavierIsNoCheaper(w: int, w': int, k: int)
    requires 0 <= k && w <= w'
    ensures HalfEven(w * k, MICROCENTS) <= HalfEven(w' * k, MICROCENTS)
  {
    assert (w' - w) * k >= 0;
    assert (w' - w) * k == w' * k - w * k;
    HalfEvenMonotone(w * k, w' * k, MICROCENTS);
  }

  lemma CentApart(n: int, n': int)
    requires n - n' > MICROCENTS
    ensures HalfEven(n', MICROCENTS) < HalfEven(n, MICROCENTS)
  {
    HalfEvenIs(n, MICROCENTS);
    HalfEvenIs(n', MICROCENTS);
  }

  lemma WholeRateOrder(w: int, w': int, k: int)
    requires 0 < k && k % MICROCENTS == 0
    ensures HalfEven(w' * k, MICROCENTS) < HalfEven(w * k, MICROCENTS) <==> w' < w
  {
    var cents := k / MICROCENTS;
    WholeRate(w, k, cents);
    WholeRate(w', k, cents);
    MulOrder(w, w', cents);
  }

  /** So a price follows the weight but for rounding: never lower for a weight
      no lower; */
  lemma NoLowerForTheWeight(c: BoostConfig, h: int, h': int, premium: bool)
    requires Ordinary(c, h) && Ordinary(c, h') && Weight(c, h) <= Weight(c, h')
    ensures CalculateCost(c, h, premium) <= CalculateCost(c, h', premium)
  {
    PositiveRate(c.rateCents, if premium then c.surcharge else 0, c.platformFee);
    HeavierIsNoCheaper(Weight(c, h), Weight(c, h'), Rate(c, premium));
    PriceOfWeight(c, h, premium);
    PriceOfWeight(c, h', premium);
  }

  /** lower for certain once the exact prices lie more than a cent apart; */
  lemma LowerPastACent(c: BoostConfig, h: int, h': int, premium: bool)
    requires Ordinary(c, h) && Ordinary(c, h')
    requires Weight(c, h) * Rate(c, premium) - Weight(c, h') * Rate(c, premium) > MICROCENTS
    ensures CalculateCost(c, h', premium) < CalculateCost(c, h, premium)
  {
    CentApart(Weight(c, h) * Rate(c, premium), Weight(c, h') * Rate(c, premium));
    PriceOfWeight(c, h, premium);
    PriceOfWeight(c, h', premium);
  }

  /** and in the order of the weights where the rate is a whole number of cents. */
  lemma WholeRateFollowsWeight(c: BoostConfig, h: int, h': int, premium: bool, cents: nat)
    requires Ordinary(c, h) && Ordinary(c, h') && 0 < cents && Rate(c, premium) == cents * MICROCENTS
    ensures CalculateCost(c, h', premium) < CalculateCost(c, h, premium) <==> Weight(c, h') < Weight(c, h)
  {
    WholeRateOrder(Weight(c, h), Weight(c, h'), Rate(c, premium));
    PriceOfWeight(c, h, premium);
    PriceOfWeight(c, h', premium);
  }

  lemma WholeRate(w: int, k: int, cents: int)
    requires k == cents * MICROCENTS
    ensures HalfEven(w * k, MICROCENTS) == w * cents
  {
    assert w * k == (w * cents) * MICROCENTS;
    WholeCents(w * k, w * cents);
  }

  lemma Regrouped(r: int, h: int, p: int, a: int, b: int)
    ensures r * h * p * a * b == h * p * (r * (a * b))
  {
    assert r * h * p == r * (h * p);
    assert r * (h * p) * a * b == r * (h * p) * (a * b);
    MulRegroup(r, 1, h * p, a * b);
  }

  // ---- The default prices ----

  function Defaults(): BoostConfig {
    BoostConfig(5000, 17, 33, 42, 56, 71, 10, 10, 20)
  }

  lemma DefaultExact(h: int, d: int)
    ensures ExactPrice(5000, h, d, 0, 10) == h * (100 - d) * 55 * MICROCENTS
  {
    MulAssoc(5000, h, 100 - d);
  }

  lemma WholeCents(n: int, cents: int)
    requires n == cents * MICROCENTS
    ensures HalfEven(n, MICROCENTS) == cents
  {
  }

  /** The percentage advertised beside a duration tier, none for the others. */
  function AdvertisedDiscount(hours: int): int {
    match hours
    case 6 => 17
    case 12 => 33
    case 24 => 42
    case 72 => 56
    case 168 => 71
    case _ => 0
  }

  lemma DefaultsAreAsAdvertised(hours: int)
    ensures Discount(Defaults(), hours) == AdvertisedDiscount(hours)
  {
  }

  lemma DefaultCost(hours: int)
    ensures ExactCost(Defaults(), hours, false) == hours * (100 - AdvertisedDiscount(hours)) * 55 * MICROCENTS
  {
    DefaultsAreAsAdvertised(hours);
    DefaultExact(hours, AdvertisedDiscount(hours));
  }

  /** What the defaults charge, fee included, for any duration: the advertised
      percentage off, at 55 coins an hour. */
  lemma DefaultPrice(hours: int)
    requires Abs(hours) <= 2_147_483_648
    ensures CalculateCost(Defaults(), hours, false) == hours * (100 - AdvertisedDiscount(hours)) * 55
  {
    DefaultCost(hours);
    CostIsHalfEven(Defaults(), hours, false);
    WholeCents(ExactCost(Defaults(), hours, false), hours * (100 - AdvertisedDiscount(hours)) * 55);
  }

  /** Ten impressions a coin. */
  lemma DefaultImpressions(costCents: nat)
    requires costCents < 1_000_000_000_000_000_000_000_000
    ensures ExpectedImpressions(Defaults(), costCents) == costCents / 10
  {
    TenToThe28();
    ImpressionsAre(Defaults(), costCents);
  }

  /** The longer durations that the defaults sell for less than a shorter one. */
  predicate Undercuts(longer: int, shorter: int) {
    || (longer == 6 && shorter == 5)
    || (longer == 12 && 9 <= shorter < 12)
    || (longer == 24 && 14 <= shorter < 24)
    || (longer == 72 && 32 <= shorter < 72)
    || (longer == 168 && 49 <= shorter < 168 && shorter != 72)
  }

  lemma DefaultWeights(h: int, h': int)
    requires 0 <= h < h'
    ensures Weight(Defaults(), h') < Weight(Defaults(), h) <==> Undercuts(h', h)
  {
    DefaultsAreAsAdvertised(h);
    DefaultsAreAsAdvertised(h');
  }

  lemma DefaultRate(premium: bool)
    ensures Rate(Defaults(), premium) == (if premium then 66 else 55) * MICROCENTS
  {
  }

  lemma DefaultsAreOrdinary(hours: int)
    requires Abs(hours) <= 2_147_483_648
    ensures Ordinary(Defaults(), hours)
  {
  }

  /** With or without premium targeting, the defaults charge less for a longer
      boost exactly in these cases. */
  lemma DefaultUndercutsIff(h: int, h': int, premium: bool)
    requires 0 <= h < h' <= 2_147_483_648
    ensures CalculateCost(Defaults(), h', premium) < CalculateCost(Defaults(), h, premium) <==> Undercuts(h', h)
  {
    DefaultRate(premium);
    DefaultsAreOrdinary(h);
    DefaultsAreOrdinary(h');
    DefaultWeights(h, h');
    WholeRateFollowsWeight(Defaults(), h, h', premium, if premium then 66 else 55);
  }
}
