/**
  Checked conversion between integral durations (fmt/chrono.h, `safe_duration_cast`), for
  integer types of every width and signedness.
 */
module SafeDuration {

  /** An integer type by `numeric_limits`: its signedness and its number of value bits. */
  datatype IntType = IntType(signed: bool, digits: nat) {
    function Max(): int { Pow2(digits) - 1 }

    function Min(): int { if signed then 0 - Pow2(digits) else 0 }

    function Width(): nat { if signed then digits + 1 else digits }

    predicate Fits(x: int) { Min() <= x <= Max() }
  }

  function Pow2(n: nat): (p: nat)
    ensures p >= 1
  {
    if n == 0 then 1 else 2 * Pow2(n - 1)
  }

  lemma {:induction false} Pow2Monotone(m: nat, n: nat)
    requires m <= n
    ensures Pow2(m) <= Pow2(n)
    decreases n - m
  {
    if m < n {
      Pow2Monotone(m, n - 1);
    }
  }

  /** A C++ function with an `ec` out-parameter; on an error it returns zero. */
  datatype Checked = Checked(value: int, ec: bool)

  // The wider type; of two equally wide types, an unsigned one if there is one.
  function CommonType(a: IntType, b: IntType): IntType {
    if a.Width() > b.Width() then a
    else if b.Width() > a.Width() then b
    else if !a.signed then a
    else b
  }

  const INTMAX := IntType(true, 63)

  function IntermediateType(from: IntType, to: IntType): IntType {
    CommonType(CommonType(from, to), INTMAX)
  }

  // Division as C++ rounds it, toward zero.
  function TruncDiv(a: int, b: int): int
    requires b > 0
  {
    if a >= 0 then a / b else -(-a / b)
  }

  // The overloads for equal types, for equal signedness and for different signedness.
  function LosslessConversion(to: IntType, from: IntType, x: int): Checked {
    if from == to then Checked(x, false)
    else if from.signed == to.signed then
      if from.digits <= to.digits then Checked(x, false)
      else if x < to.Min() || x > to.Max() then Checked(0, true)
      else Checked(x, false)
    else if from.signed && !to.signed && x < 0 then Checked(0, true)
    else if from.signed && !to.signed && from.digits > to.digits && x > to.Max() then Checked(0, true)
    else if !from.signed && to.signed && from.digits >= to.digits && x > to.Max() then Checked(0, true)
    else Checked(x, false)
  }

  /** No dynamic check is missing and none is superfluous. */
  lemma LosslessExactly(to: IntType, from: IntType, x: int)
    requires from.Fits(x)
    ensures LosslessConversion(to, from, x) == if to.Fits(x) then Checked(x, false) else Checked(0, true)
  {
    if from.digits <= to.digits {
      Pow2Monotone(from.digits, to.digits);
    } else {
      Pow2Monotone(to.digits, from.digits);
    }
  }

  /** Duration periods and the factor between them, in lowest terms. */
  datatype Ratio = Ratio(num: nat, den: nat)

  predicate Positive(r: Ratio) {
    r.num > 0 && r.den > 0
  }

  function Gcd(a: nat, b: nat): (g: nat)
    requires a > 0 && b > 0
    ensures g > 0 && a % g == 0 && b % g == 0
    decreases a + b
  {
    if a == b then a
    else if a < b then
      var g := Gcd(a, b - a);
      SumOfMultiples(a, b - a, g);
      g
    else
      var g := Gcd(a - b, b);
      SumOfMultiples(a - b, b, g);
      g
  }

  lemma SumOfMultiples(a: nat, b: nat, g: nat)
    requires g > 0 && a % g == 0 && b % g == 0
    ensures (a + b) % g == 0
  {
    assert a == g * (a / g) && b == g * (b / g);
    MultipleOf(a / g + b / g, g);
    assert a + b == g * (a / g + b / g);
  }

  lemma MultipleOf(k: int, g: nat)
    requires g > 0
    ensures (g * k) % g == 0 && (g * k) / g == k
  {
    DivUnique(g * k, g, k, 0);
  }

  lemma DivUnique(a: int, d: int, q: int, r: int)
    requires d > 0 && a == d * q + r && 0 <= r < d
    ensures a / d == q && a % d == r
  {
    var q', r' := a / d, a % d;
    assert d * (q - q') == r' - r;
    AtLeastOnce(d, q - q');
  }

  lemma AtLeastOnce(d: int, k: int)
    requires d > 0
    ensures k >= 1 ==> d * k >= d
    ensures k <= -1 ==> d * k <= -d
  {
    if k >= 1 {
      assert d * k == d + d * (k - 1);
    } else if k <= -1 {
      assert d * k == -d + d * (k + 1);
    }
  }

  lemma {:induction false} GcdSymmetric(a: nat, b: nat)
    requires a > 0 && b > 0
    ensures Gcd(a, b) == Gcd(b, a)
    decreases a + b
  {
    if a < b {
      GcdSymmetric(a, b - a);
    } else if b < a {
      GcdSymmetric(a - b, b);
    }
  }

  // `std::ratio_divide` of the two periods.
  function Factor(from: Ratio, to: Ratio): (f: Ratio)
    requires Positive(from) && Positive(to)
    ensures Positive(f)
    ensures f.num * (from.den * to.num) == f.den * (from.num * to.den)
  {
    ProductPositive(from.num, to.den);
    ProductPositive(from.den, to.num);
    var n, d := from.num * to.den, from.den * to.num;
    var g := Gcd(n, d);
    Reduced(n, d, g);
    Ratio(n / g, d / g)
  }

  lemma ProductPositive(a: nat, b: nat)
    requires a > 0 && b > 0
    ensures a * b > 0
  {
  }

  lemma Reduced(n: nat, d: nat, g: nat)
    requires n > 0 && d > 0 && g > 0 && n % g == 0 && d % g == 0
    ensures n / g > 0 && d / g > 0 && (n / g) * d == (d / g) * n
  {
    var a, b := n / g, d / g;
    assert n == g * a && d == g * b;
    assert a * (g * b) == b * (g * a);
  }

  // Counts are scaled by `f`; every step that could overflow is checked before it is taken.
  function SafeCast(to: IntType, from: IntType, f: Ratio, count: int): Checked
    requires Positive(f)
  {
    var inter := IntermediateType(from, to);
    var c := LosslessConversion(inter, from, count);
    if c.ec then Checked(0, true)
    else if f.num != 1 && c.value > TruncDiv(inter.Max(), f.num) then Checked(0, true)
    else if f.num != 1 && c.value < TruncDiv(inter.Min(), f.num) then Checked(0, true)
    else
      var scaled := if f.num != 1 then c.value * f.num else c.value;
      var quotient := if f.den != 1 then TruncDiv(scaled, f.den) else scaled;
      var tocount := LosslessConversion(to, inter, quotient);
      if tocount.ec then Checked(0, true) else Checked(tocount.value, false)
  }

  function SafeDurationCast(to: IntType, toPeriod: Ratio, from: IntType, fromPeriod: Ratio, count: int): Checked
    requires Positive(toPeriod) && Positive(fromPeriod)
  {
    SafeCast(to, from, Factor(fromPeriod, toPeriod), count)
  }

  lemma ScaleBound(b: int, q: int)
    requires b >= 1 && q >= 0
    ensures b * q >= q
  {
    assert b * q == q + (b - 1) * q;
  }

  lemma EuclidParts(m: nat, b: int, q: int, r: int)
    requires b > 0 && m == b * q + r && 0 <= r < b
    ensures 0 <= q <= m && b * q <= m < b * q + b
  {
    AtLeastOnce(b, q);
    if q >= 0 {
      ScaleBound(b, q);
    }
  }

  lemma QuotientBounds(m: nat, b: int)
    requires b > 0
    ensures 0 <= m / b <= m && b * (m / b) <= m < b * (m / b) + b
  {
    EuclidParts(m, b, m / b, m % b);
  }

  lemma TruncDivBounds(a: int, b: int)
    requires b > 0
    ensures a >= 0 ==> 0 <= TruncDiv(a, b) <= a && b * TruncDiv(a, b) <= a < b * TruncDiv(a, b) + b
    ensures a <= 0 ==> a <= TruncDiv(a, b) <= 0 && b * TruncDiv(a, b) - b < a <= b * TruncDiv(a, b)
  {
    if a >= 0 {
      QuotientBounds(a, b);
    } else {
      QuotientBounds(-a, b);
      assert b * -(-a / b) == -(b * (-a / b));
    }
  }

  lemma TimesOrdered(b: int, x: int, y: int)
    requires b > 0
    ensures x <= y ==> b * x <= b * y
  {
    if x <= y {
      assert b * (y - x) >= 0;
    }
  }

  lemma GuardsOn(min: int, max: int, num: nat, c: int)
    requires num > 0 && min <= 0 <= max
    ensures TruncDiv(min, num) <= c <==> min <= c * num
    ensures c <= TruncDiv(max, num) <==> c * num <= max
  {
    var lo, hi := TruncDiv(min, num), TruncDiv(max, num);
    TruncDivBounds(max, num);
    TruncDivBounds(min, num);
    TimesOrdered(num, c, hi);
    TimesOrdered(num, hi + 1, c);
    TimesOrdered(num, lo, c);
    TimesOrdered(num, c, lo - 1);
    assert num * (hi + 1) == num * hi + num && num * (lo - 1) == num * lo - num;
    assert c * num == num * c;
  }

  /** The two comparisons before the multiplication refuse exactly the products that overflow. */
  lemma GuardsExact(inter: IntType, num: nat, c: int)
    requires num > 0
    ensures TruncDiv(inter.Min(), num) <= c <= TruncDiv(inter.Max(), num) <==> inter.Fits(c * num)
  {
    GuardsOn(inter.Min(), inter.Max(), num, c);
  }

  /** What the cast is for: the exact quotient, rounded toward zero. */
  function Exact(f: Ratio, count: int): int
    requires f.den > 0
  {
    TruncDiv(count * f.num, f.den)
  }

  /**
    The cast succeeds exactly when the count and the product fit the intermediate type and
    the quotient fits the target, and then it is the truncated exact quotient.
   */
  lemma CastExactly(to: IntType, from: IntType, f: Ratio, count: int)
    requires Positive(f) && from.Fits(count)
    ensures var inter := IntermediateType(from, to);
            SafeCast(to, from, f, count) ==
              if inter.Fits(count) && inter.Fits(count * f.num) && to.Fits(Exact(f, count))
              then Checked(Exact(f, count), false) else Checked(0, true)
  {
    var inter := IntermediateType(from, to);
    LosslessExactly(inter, from, count);
    GuardsExact(inter, f.num, count);
    assert count * 1 == count;
    if inter.Fits(count) && inter.Fits(count * f.num) {
      QuotientFits(inter, count * f.num, f.den);
      LosslessExactly(to, inter, Exact(f, count));
      assert f.den == 1 ==> TruncDiv(count * f.num, 1) == count * f.num;
    }
  }

  lemma QuotientFits(t: IntType, x: int, d: nat)
    requires d > 0 && t.Fits(x)
    ensures t.Fits(TruncDiv(x, d))
  {
    TruncDivBounds(x, d);
  }

  /** A product that overflows is refused even where the final quotient would have fitted. */
  lemma RefusesEarly()
    ensures var seconds := IntType(true, 63);
            var count := Pow2(62);
            && seconds.Fits(count) && seconds.Fits(Exact(Ratio(3, 4), count))
            && SafeCast(seconds, seconds, Ratio(3, 4), count).ec
  {
    var seconds, count := IntType(true, 63), Pow2(62);
    assert Pow2(63) == 2 * Pow2(62) && Pow2(62) == 2 * Pow2(61) && Pow2(61) == 2 * Pow2(60);
    DivUnique(count * 3, 4, 3 * Pow2(60), 0);
    CastExactly(seconds, seconds, Ratio(3, 4), count);
  }

  /** So the early refusal is the only loss: with a wide enough intermediate type there is none. */
  lemma RefusesEarlyExactly(to: IntType, from: IntType, f: Ratio, count: int)
    requires Positive(f) && from.Fits(count) && to.Fits(Exact(f, count))
    ensures SafeCast(to, from, f, count).ec <==>
              !IntermediateType(from, to).Fits(count) || !IntermediateType(from, to).Fits(count * f.num)
  {
    CastExactly(to, from, f, count);
  }

  /** The factor back is the factor there upside down. */
  lemma FactorInverse(a: Ratio, b: Ratio)
    requires Positive(a) && Positive(b)
    ensures Factor(b, a) == Ratio(Factor(a, b).den, Factor(a, b).num)
  {
    ProductPositive(a.num, b.den);
    ProductPositive(a.den, b.num);
    var n, d := a.num * b.den, a.den * b.num;
    assert b.num * a.den == d && b.den * a.num == n;
    GcdSymmetric(n, d);
  }

  lemma QuotientOfProduct(count: int, k: nat)
    requires k > 0
    ensures TruncDiv(count * k, k) == count
  {
    if count >= 0 {
      DivUnique(count * k, k, count, 0);
    } else {
      DivUnique(-(count * k), k, -count, 0);
      ProductPositive(-count, k);
      assert (-count) * k == -(count * k);
    }
  }

  lemma BackFromFiner(to: IntType, from: IntType, k: nat, count: int)
    requires k > 0 && from.Fits(count) && !SafeCast(to, from, Ratio(k, 1), count).ec
    ensures SafeCast(to, from, Ratio(k, 1), count).value == count * k && to.Fits(count * k)
    ensures SafeCast(from, to, Ratio(1, k), count * k) == Checked(count, false)
  {
    var fine := count * k;
    assert TruncDiv(fine, 1) == fine;
    assert fine * 1 == fine;
    CastExactly(to, from, Ratio(k, 1), count);
    SameIntermediate(from, to);
    QuotientOfProduct(count, k);
    assert Exact(Ratio(1, k), fine) == count;
    CastExactly(from, to, Ratio(1, k), fine);
  }

  /** Casting to a finer unit and back returns the original count. */
  lemma FinerAndBack(to: IntType, toPeriod: Ratio, from: IntType, fromPeriod: Ratio, count: int)
    requires Positive(toPeriod) && Positive(fromPeriod) && from.Fits(count)
    requires Factor(fromPeriod, toPeriod).den == 1
    requires !SafeDurationCast(to, toPeriod, from, fromPeriod, count).ec
    ensures var fine := SafeDurationCast(to, toPeriod, from, fromPeriod, count).value;
            to.Fits(fine) && SafeDurationCast(from, fromPeriod, to, toPeriod, fine) == Checked(count, false)
  {
    FactorInverse(fromPeriod, toPeriod);
    BackFromFiner(to, from, Factor(fromPeriod, toPeriod).num, count);
  }

  lemma SameIntermediate(a: IntType, b: IntType)
    ensures IntermediateType(a, b) == IntermediateType(b, a)
  {
  }

  // ------------------------------------------------------------------ the intermediate type

  /** It is one of the two types and the 64-bit signed one, the widest, and unsigned if any of the widest is. */
  lemma IntermediateExactly(from: IntType, to: IntType)
    ensures var t := IntermediateType(from, to);
            var width := (x: IntType) => if x.signed then x.digits + 1 else x.digits;
            && (t == from || t == to || t == IntType(true, 63))
            && width(t) >= width(from) && width(t) >= width(to) && width(t) >= 64
            && (t.signed <==> (width(from) == width(t) ==> from.signed) && (width(to) == width(t) ==> to.signed))
  {
  }

  lemma Doubled(a: nat, b: nat)
    ensures 2 * (a * b) == (2 * a) * b
  {
  }

  lemma {:induction false} Pow2Sum(m: nat, n: nat)
    ensures Pow2(m + n) == Pow2(m) * Pow2(n)
  {
    if m > 0 {
      Pow2Sum(m - 1, n);
      assert Pow2(m + n) == 2 * Pow2(m - 1 + n);
      Doubled(Pow2(m - 1), Pow2(n));
    }
  }

  /** The range of the widest type that the casts of a 64-bit machine compute in. */
  lemma SixtyFourBits(x: int)
    ensures IntType(true, 63).Fits(x) <==> -0x8000_0000_0000_0000 <= x < 0x8000_0000_0000_0000
    ensures IntType(false, 64).Fits(x) <==> 0 <= x < 0x1_0000_0000_0000_0000
  {
    Squared(1, 2);
    Squared(2, 4);
    Squared(4, 0x10);
    Squared(8, 0x100);
    Squared(16, 0x1_0000);
    Squared(32, 0x1_0000_0000);
    assert Pow2(64) == 2 * Pow2(63);
  }

  lemma Squared(n: nat, p: nat)
    requires Pow2(n) == p
    ensures Pow2(2 * n) == p * p
  {
    Pow2Sum(n, n);
  }

  /** The quotient that a cast returns, by multiplication: rounded toward zero. */
  lemma ExactTowardZero(f: Ratio, count: int)
    requires Positive(f)
    ensures var q := Exact(f, count);
            && (count >= 0 ==> 0 <= f.den * q <= count * f.num < f.den * (q + 1))
            && (count <= 0 ==> f.den * (q - 1) < count * f.num <= f.den * q <= 0)
  {
    var product, q := count * f.num, Exact(f, count);
    TruncDivBounds(product, f.den);
    SignOfProduct(count, f.num);
    assert f.den * (q + 1) == f.den * q + f.den && f.den * (q - 1) == f.den * q - f.den;
    SignOfProduct(q, f.den);
    assert f.den * q == q * f.den;
  }

  lemma SignOfProduct(x: int, k: nat)
    requires k > 0
    ensures (x >= 0 ==> x * k >= 0) && (x <= 0 ==> x * k <= 0)
  {
    if x < 0 {
      ProductPositive(-x, k);
      assert (-x) * k == -(x * k);
    }
  }

  /**
    Signed counts of at most 64 bits: the cast succeeds exactly when the product fits 64 bits and
    the quotient fits the target.
   */
  lemma SignedCastExactly(to: IntType, from: IntType, f: Ratio, count: int)
    requires Positive(f) && from.signed && to.signed && from.digits <= 63 && to.digits <= 63
    requires 0 - Pow2(from.digits) <= count < Pow2(from.digits)
    ensures SafeCast(to, from, f, count) ==
              if && -0x8000_0000_0000_0000 <= count * f.num < 0x8000_0000_0000_0000
                 && 0 - Pow2(to.digits) <= Exact(f, count) < Pow2(to.digits)
              then Checked(Exact(f, count), false) else Checked(0, true)
  {
    assert IntermediateType(from, to) == IntType(true, 63);
    Pow2Monotone(from.digits, 63);
    CastExactly(to, from, f, count);
    SixtyFourBits(count * f.num);
  }

  /** A negative count is refused where the target is unsigned and as wide as anything in the cast. */
  lemma NegativeRefused(to: IntType, from: IntType, f: Ratio, count: int)
    requires Positive(f) && from.Fits(count) && count < 0
    requires !to.signed && to.digits >= 64 && from.digits + 1 <= to.digits
    ensures SafeCast(to, from, f, count) == Checked(0, true)
  {
    IntermediateExactly(from, to);
    CastExactly(to, from, f, count);
  }

  /** A millisecond before zero is no second in 64 unsigned bits, but in 32 it is zero seconds. */
  lemma MillisecondBeforeZero()
    ensures SafeCast(IntType(false, 64), IntType(true, 63), Ratio(1, 1000), -1) == Checked(0, true)
    ensures SafeCast(IntType(false, 32), IntType(true, 63), Ratio(1, 1000), -1) == Checked(0, false)
  {
    NegativeRefused(IntType(false, 64), IntType(true, 63), Ratio(1, 1000), -1);
    CastExactly(IntType(false, 32), IntType(true, 63), Ratio(1, 1000), -1);
    IntermediateExactly(IntType(true, 63), IntType(false, 32));
    SixtyFourBits(-1);
  }

  // ------------------------------------------------------------------ lowest terms

  /** Every common divisor divides the greatest one. */
  lemma {:induction false} GcdGreatest(a: nat, b: nat, k: nat, x: nat, y: nat) returns (z: nat)
    requires a > 0 && b > 0 && a == k * x && b == k * y
    ensures Gcd(a, b) == k * z
    decreases a + b
  {
    if a == b {
      z := x;
    } else if a < b {
      assert k * (y - x) == b - a;
      AtLeastOnce(k, y - x);
      z := GcdGreatest(a, b - a, k, x, y - x);
    } else {
      assert k * (x - y) == a - b;
      AtLeastOnce(k, x - y);
      z := GcdGreatest(a - b, b, k, x - y, y);
    }
  }

  /** The factor is in lowest terms, so no smaller one scales as it does. */
  lemma FactorLowest(from: Ratio, to: Ratio, k: nat, x: nat, y: nat)
    requires Positive(from) && Positive(to)
    requires Factor(from, to) == Ratio(k * x, k * y)
    ensures k == 1
  {
    ProductPositive(from.num, to.den);
    ProductPositive(from.den, to.num);
    var n, d := from.num * to.den, from.den * to.num;
    var g := Gcd(n, d);
    Regrouped(n, g, k, x);
    Regrouped(d, g, k, y);
    var z := GcdGreatest(n, d, g * k, x, y);
    OneFactor(g, k, z);
  }

  lemma Regrouped(n: nat, g: nat, k: nat, x: nat)
    requires g > 0 && n % g == 0 && n / g == k * x
    ensures n == (g * k) * x
  {
    assert n == g * (n / g);
    assert g * (k * x) == (g * k) * x;
  }

  lemma OneFactor(g: nat, k: nat, z: nat)
    requires g > 0 && g == (g * k) * z
    ensures k == 1
  {
    var m := k * z;
    assert (g * k) * z == g * m;
    assert g * (m - 1) == 0;
    AtLeastOnce(g, m - 1);
    if k > 1 {
      AtLeastOnce(k, z);
    }
  }
}
