/** Exact rationals as numerator/denominator pairs (src/Math/Symbolic/Fraction.ts).
    Numerators and denominators are host numbers that always hold integers; they are
    modelled as unbounded `int`. */
module Fractions {
  import Arith

  datatype Fraction = Fraction(numerator: int, denominator: int)

  function Abs(x: int): nat { if x < 0 then -x else x }

  /** `d` divides `n`; zero divides only zero. */
  predicate Divides(d: nat, n: int) {
    if d == 0 then n == 0 else n % d == 0
  }

  /** Euclid's algorithm on non-negative numbers: the specification of `Gcd`. */
  function EuclidGcd(a: nat, b: nat): nat
    decreases b
  {
    if b == 0 then a else EuclidGcd(b, a % b)
  }

  /** The rational number a fraction with a nonzero denominator stands for. */
  function Value(f: Fraction): real
    requires f.denominator != 0
  {
    f.numerator as real / f.denominator as real
  }

  /** FractionUtils.Gcd: the while loop on the absolute values. */
  method Gcd(a: int, b: int) returns (g: nat)
    ensures g == EuclidGcd(Abs(a), Abs(b))
    ensures Divides(g, a) && Divides(g, b)
    ensures forall d: nat :: Divides(d, a) && Divides(d, b) ==> Divides(d, g)
    ensures b == 0 ==> g == Abs(a)
  {
    var x: nat, y: nat := Abs(a), Abs(b);
    while y != 0
      invariant EuclidGcd(x, y) == EuclidGcd(Abs(a), Abs(b))
      decreases y
    {
      x, y := y, x % y;
    }
    g := x;
    GcdDivides(Abs(a), Abs(b));
    DividesAbs(g, a);
    DividesAbs(g, b);
    forall d: nat | Divides(d, a) && Divides(d, b) ensures Divides(d, g) {
      DividesAbs(d, a);
      DividesAbs(d, b);
      GcdGreatest(Abs(a), Abs(b), d);
    }
  }

  // ---- divisibility facts ----

  lemma DividesMultiple(d: nat, k: int)
    ensures Divides(d, d * k)
  {
    if d != 0 {
      Arith.MulDivExact(k, d);
      assert d * k == k * d;
    }
  }

  lemma DividesWitness(d: nat, n: int)
    requires Divides(d, n)
    ensures n == d * (if d == 0 then 0 else n / d)
  {
  }

  lemma DividesAbs(d: nat, n: int)
    ensures Divides(d, n) <==> Divides(d, Abs(n))
  {
    if d != 0 && n < 0 {
      if Divides(d, n) {
        DividesNegate(d, n);
      }
      if Divides(d, -n) {
        DividesNegate(d, -n);
      }
    }
  }

  lemma DividesNegate(d: nat, n: int)
    requires d != 0 && Divides(d, n)
    ensures Divides(d, -n)
  {
    var k := n / d;
    DividesWitness(d, n);
    Arith.MulNeg(k, d);
    assert -n == d * -k;
    DividesMultiple(d, -k);
  }

  /** Divisibility is closed under `c * x + y`. */
  lemma DividesLinear(d: nat, x: int, y: int, c: int)
    requires Divides(d, x) && Divides(d, y)
    ensures Divides(d, c * x + y)
  {
    if d != 0 {
      DividesWitness(d, x);
      DividesWitness(d, y);
      var p, q := x / d, y / d;
      assert c * x == d * (c * p);
      assert c * x + y == d * (c * p + q);
      DividesMultiple(d, c * p + q);
    }
  }

  lemma DividesLe(d: nat, n: nat)
    requires Divides(d, n) && n > 0
    ensures 0 < d <= n
  {
    DividesWitness(d, n);
    var k := n / d;
    if k <= 0 {
      Arith.MulLeMono(k, 0, d);
    } else {
      Arith.MulGe(k, d);
    }
  }

  lemma {:induction false} GcdDivides(a: nat, b: nat)
    ensures Divides(EuclidGcd(a, b), a) && Divides(EuclidGcd(a, b), b)
    decreases b
  {
    if b != 0 {
      GcdDivides(b, a % b);
      var g := EuclidGcd(a, b);
      assert a == (a / b) * b + a % b;
      DividesLinear(g, b, a % b, a / b);
    }
  }

  lemma {:induction false} GcdGreatest(a: nat, b: nat, d: nat)
    requires Divides(d, a) && Divides(d, b)
    ensures Divides(d, EuclidGcd(a, b))
    decreases b
  {
    if b != 0 {
      assert a % b == -(a / b) * b + a;
      DividesLinear(d, b, a, -(a / b));
      GcdGreatest(b, a % b, d);
    }
  }

  lemma GcdZero(a: nat, b: nat)
    ensures EuclidGcd(a, b) == 0 <==> a == 0 && b == 0
  {
    GcdDivides(a, b);
  }

  /** FractionUtils.Simplify. A 0/0 input produces NaN in the host; here it is returned as is. */
  function Simplify(f: Fraction): Fraction {
    var divisor := EuclidGcd(Abs(f.numerator), Abs(f.denominator));
    var sign := if f.denominator < 0 then -1 else 1;
    if divisor == 0 then f
    else Fraction(f.numerator * sign / divisor, f.denominator * sign / divisor)
  }

  function SimplifyDivisor(f: Fraction): nat {
    EuclidGcd(Abs(f.numerator), Abs(f.denominator))
  }

  function SimplifySign(f: Fraction): int {
    if f.denominator < 0 then -1 else 1
  }

  lemma DividesScale(d: nat, x: int, c: int)
    requires Divides(d, x)
    ensures Divides(d, x * c)
  {
    DividesLinear(d, x, 0, c);
    assert c * x + 0 == x * c;
  }

  /** The divisor is positive and divides both signed fields exactly. */
  lemma SimplifyExact(f: Fraction)
    requires f.denominator != 0
    ensures var g, s, r := SimplifyDivisor(f), SimplifySign(f), Simplify(f);
      g > 0 && f.numerator * s == g * r.numerator && f.denominator * s == g * r.denominator
      && r.denominator > 0
  {
    var n, d := f.numerator, f.denominator;
    var g, s := SimplifyDivisor(f), SimplifySign(f);
    GcdDivides(Abs(n), Abs(d));
    GcdZero(Abs(n), Abs(d));
    DividesAbs(g, n);
    DividesAbs(g, d);
    DividesScale(g, n, s);
    DividesScale(g, d, s);
    DividesWitness(g, n * s);
    DividesWitness(g, d * s);
    var rd := d * s / g;
    assert d * s == Abs(d);
    if rd <= 0 {
      Arith.MulLeMono(rd, 0, g);
    }
  }

  lemma ValueCancel(n: int, d: int, k: int)
    requires d != 0 && k != 0
    ensures Value(Fraction(n * k, d * k)) == Value(Fraction(n, d))
  {
    assert (n * k) as real == n as real * k as real;
    assert (d * k) as real == d as real * k as real;
    Arith.RealCancel(n as real, d as real, k as real);
  }

  /** Lowest terms: the only common positive divisor of the two fields is 1. */
  predicate LowestTerms(f: Fraction) {
    EuclidGcd(Abs(f.numerator), Abs(f.denominator)) == 1
  }

  lemma DividesMulBoth(h: nat, x: int, g: nat)
    requires Divides(h, x)
    ensures Divides(g * h, g * x)
  {
    DividesWitness(h, x);
    var k := if h == 0 then 0 else x / h;
    assert g * x == (g * h) * k;
    DividesMultiple(g * h, k);
  }

  lemma DividesUnsign(d: nat, x: int, s: int)
    requires (s == 1 || s == -1) && Divides(d, x * s)
    ensures Divides(d, x)
  {
    DividesScale(d, x * s, s);
    assert x * s * s == x;
  }

  /** Dividing both fields by their gcd leaves no common factor. */
  lemma SimplifyCoprime(f: Fraction)
    requires f.denominator != 0
    ensures LowestTerms(Simplify(f))
  {
    SimplifyExact(f);
    var r := Simplify(f);
    QuotientsCoprime(f.numerator, f.denominator, SimplifySign(f), SimplifyDivisor(f), r.numerator, r.denominator);
  }

  lemma QuotientsCoprime(n: int, d: int, s: int, g: nat, rn: int, rd: int)
    requires s == 1 || s == -1
    requires g > 0 && rd > 0 && n * s == g * rn && d * s == g * rd
    requires g == EuclidGcd(Abs(n), Abs(d))
    ensures EuclidGcd(Abs(rn), Abs(rd)) == 1
  {
    var h := EuclidGcd(Abs(rn), Abs(rd));
    GcdDivides(Abs(rn), Abs(rd));
    GcdZero(Abs(rn), Abs(rd));
    DividesAbs(h, rn);
    DividesAbs(h, rd);
    assert h > 0;
    var gh := g * h;
    DividesMulBoth(h, rn, g);
    DividesMulBoth(h, rd, g);
    assert Divides(gh, n * s) && Divides(gh, d * s);
    DividesUnsign(gh, n, s);
    DividesUnsign(gh, d, s);
    DividesAbs(gh, n);
    DividesAbs(gh, d);
    GcdGreatest(Abs(n), Abs(d), gh);
    DividesLe(gh, g);
    Arith.MulOneBound(h, g);
  }

  /** A nonzero denominator: Simplify keeps the value, makes the denominator positive
      and reduces to lowest terms. */
  lemma SimplifyNormalises(f: Fraction)
    requires f.denominator != 0
    ensures Simplify(f).denominator > 0
    ensures Value(Simplify(f)) == Value(f)
    ensures LowestTerms(Simplify(f))
  {
    SimplifyExact(f);
    SimplifyCoprime(f);
    var g, s, r := SimplifyDivisor(f), SimplifySign(f), Simplify(f);
    ValueCancel(f.numerator, f.denominator, s);
    ValueCancel(r.numerator, r.denominator, g);
    assert r.numerator * g == f.numerator * s && r.denominator * g == f.denominator * s;
  }

  /** A zero denominator with a nonzero numerator reduces to sign(n)/0. */
  lemma SimplifyZeroDenominator(f: Fraction)
    requires f.denominator == 0 && f.numerator != 0
    ensures Simplify(f) == Fraction(if f.numerator < 0 then -1 else 1, 0)
  {
    assert EuclidGcd(Abs(f.numerator), 0) == Abs(f.numerator);
  }

  function Add(a: Fraction, b: Fraction): Fraction {
    Simplify(Fraction(a.numerator * b.denominator + b.numerator * a.denominator, a.denominator * b.denominator))
  }

  function Subtract(a: Fraction, b: Fraction): Fraction {
    Simplify(Fraction(a.numerator * b.denominator - b.numerator * a.denominator, a.denominator * b.denominator))
  }

  function Multiply(a: Fraction, b: Fraction): Fraction {
    Simplify(Fraction(a.numerator * b.numerator, a.denominator * b.denominator))
  }

  /** Add and Multiply give the same fraction, fields included, in either order. */
  lemma Commute(a: Fraction, b: Fraction)
    ensures Add(a, b) == Add(b, a) && Multiply(a, b) == Multiply(b, a)
  {
    assert a.numerator * b.denominator + b.numerator * a.denominator == b.numerator * a.denominator + a.numerator * b.denominator;
    assert a.denominator * b.denominator == b.denominator * a.denominator;
    assert a.numerator * b.numerator == b.numerator * a.numerator;
  }

  /** No check of a zero divisor: the result then has a zero denominator. */
  function Divide(a: Fraction, b: Fraction): Fraction {
    Simplify(Fraction(a.numerator * b.denominator, a.denominator * b.numerator))
  }

  function Zero(): Fraction { Fraction(0, 1) }
  function One(): Fraction { Fraction(1, 1) }

  /** Field-wise comparison, not comparison of values. */
  predicate Equal(a: Fraction, b: Fraction) {
    a.numerator == b.numerator && a.denominator == b.denominator
  }

  function FractionFromNumber(v: int): Fraction { Simplify(Fraction(v, 1)) }

  predicate IsZero(f: Fraction) { f.numerator == 0 }

  /** `numerator % 1 === 0` always holds of an integer numerator. */
  predicate IsInteger(f: Fraction) { f.numerator % 1 == 0 && f.denominator == 1 }

  /** A fraction with a positive denominator in lowest terms. */
  predicate Normal(f: Fraction) {
    f.denominator > 0 && LowestTerms(f)
  }

  lemma CastMul(p: int, q: int)
    ensures (p * q) as real == p as real * q as real
  {
  }

  /** Simplify keeps a nonzero-denominator fraction's value and normalises it. */
  lemma SimplifyValue(raw: Fraction, v: real)
    requires raw.denominator != 0 && Value(raw) == v
    ensures Normal(Simplify(raw)) && Value(Simplify(raw)) == v
  {
    SimplifyNormalises(raw);
  }

  lemma AddRaw(a: Fraction, b: Fraction)
    requires a.denominator != 0 && b.denominator != 0
    ensures var raw := Fraction(a.numerator * b.denominator + b.numerator * a.denominator, a.denominator * b.denominator);
      raw.denominator != 0 && Value(raw) == Value(a) + Value(b)
  {
    CastMul(a.numerator, b.denominator);
    CastMul(b.numerator, a.denominator);
    CastMul(a.denominator, b.denominator);
    Arith.RealAddFrac(a.numerator as real, a.denominator as real, b.numerator as real, b.denominator as real);
  }

  lemma SubtractRaw(a: Fraction, b: Fraction)
    requires a.denominator != 0 && b.denominator != 0
    ensures var raw := Fraction(a.numerator * b.denominator - b.numerator * a.denominator, a.denominator * b.denominator);
      raw.denominator != 0 && Value(raw) == Value(a) - Value(b)
  {
    CastMul(a.numerator, b.denominator);
    CastMul(b.numerator, a.denominator);
    CastMul(a.denominator, b.denominator);
    Arith.RealSubFrac(a.numerator as real, a.denominator as real, b.numerator as real, b.denominator as real);
  }

  lemma MultiplyRaw(a: Fraction, b: Fraction)
    requires a.denominator != 0 && b.denominator != 0
    ensures var raw := Fraction(a.numerator * b.numerator, a.denominator * b.denominator);
      raw.denominator != 0 && Value(raw) == Value(a) * Value(b)
  {
    CastMul(a.numerator, b.numerator);
    CastMul(a.denominator, b.denominator);
    Arith.RealMulFrac(a.numerator as real, a.denominator as real, b.numerator as real, b.denominator as real);
  }

  lemma DivideRaw(a: Fraction, b: Fraction)
    requires a.denominator != 0 && b.denominator != 0 && b.numerator != 0
    ensures var raw := Fraction(a.numerator * b.denominator, a.denominator * b.numerator);
      raw.denominator != 0 && Value(raw) == Value(a) / Value(b)
  {
    Arith.MulNonzero(a.denominator, b.numerator);
    ValueOfProducts(a.numerator, b.denominator, a.denominator, b.numerator);
    Arith.RealDivFrac(a.numerator as real, a.denominator as real, b.numerator as real, b.denominator as real);
  }

  lemma AddIsSum(a: Fraction, b: Fraction)
    requires a.denominator != 0 && b.denominator != 0
    ensures Normal(Add(a, b)) && Value(Add(a, b)) == Value(a) + Value(b)
  {
    AddRaw(a, b);
    SimplifyValue(Fraction(a.numerator * b.denominator + b.numerator * a.denominator, a.denominator * b.denominator), Value(a) + Value(b));
  }

  lemma SubtractIsDifference(a: Fraction, b: Fraction)
    requires a.denominator != 0 && b.denominator != 0
    ensures Normal(Subtract(a, b)) && Value(Subtract(a, b)) == Value(a) - Value(b)
  {
    SubtractRaw(a, b);
    SimplifyValue(Fraction(a.numerator * b.denominator - b.numerator * a.denominator, a.denominator * b.denominator), Value(a) - Value(b));
  }

  lemma MultiplyIsProduct(a: Fraction, b: Fraction)
    requires a.denominator != 0 && b.denominator != 0
    ensures Normal(Multiply(a, b)) && Value(Multiply(a, b)) == Value(a) * Value(b)
  {
    MultiplyRaw(a, b);
    SimplifyValue(Fraction(a.numerator * b.numerator, a.denominator * b.denominator), Value(a) * Value(b));
  }

  lemma DivideIsQuotient(a: Fraction, b: Fraction)
    requires a.denominator != 0 && b.denominator != 0 && b.numerator != 0
    ensures Normal(Divide(a, b)) && Value(Divide(a, b)) == Value(a) / Value(b)
  {
    DivideRaw(a, b);
    SimplifyValue(Fraction(a.numerator * b.denominator, a.denominator * b.numerator), Value(a) / Value(b));
  }

  lemma ValueOfProducts(p: int, q: int, r: int, t: int)
    requires r * t != 0
    ensures Value(Fraction(p * q, r * t)) == (p as real * q as real) / (r as real * t as real)
  {
    CastMul(p, q);
    CastMul(r, t);
  }

  /** A zero divisor is not rejected: 1/1 divided by 0/1 is the unnormalised 1/0. */
  lemma DivideByZeroAccepted()
    ensures Divide(One(), Zero()) == Fraction(1, 0)
  {
    SimplifyZeroDenominator(Fraction(1, 0));
  }

  /** Equal is field-wise: 1/2 and 2/4 have one value but are not Equal. */
  lemma EqualIsFieldwise()
    ensures Value(Fraction(1, 2)) == Value(Fraction(2, 4)) && !Equal(Fraction(1, 2), Fraction(2, 4))
  {
  }

  /** On normal fractions Equal coincides with equality of values. */
  lemma EqualOnNormal(a: Fraction, b: Fraction)
    requires Normal(a) && Normal(b)
    ensures Equal(a, b) <==> Value(a) == Value(b)
  {
    if Value(a) == Value(b) {
      NormalUnique(a, b);
    }
  }

  lemma NormalUnique(a: Fraction, b: Fraction)
    requires Normal(a) && Normal(b) && Value(a) == Value(b)
    ensures a == b
  {
    var an, ad, bn, bd := a.numerator, a.denominator, b.numerator, b.denominator;
    Arith.RealCross(an as real, ad as real, bn as real, bd as real);
    CastMul(an, bd);
    CastMul(bn, ad);
    assert an * bd == bn * ad;
    CoprimeDividesProduct(ad, an, bd, bn);
    assert bn * ad == an * bd;
    CoprimeDividesProduct(bd, bn, ad, an);
    DividesLe(ad, bd);
    DividesLe(bd, ad);
    Arith.MulCancel(an, bn, ad);
  }

  lemma AbsMul(n: int, e: nat)
    ensures Abs(n * e) == Abs(n) * e
  {
    if n < 0 {
      Arith.MulNeg(n, e);
      Arith.MulNonneg(-n, e);
    } else {
      Arith.MulNonneg(n, e);
    }
  }

  /** If d is coprime with n and n * e == m * d then d divides e. */
  lemma CoprimeDividesProduct(d: int, n: int, e: int, m: int)
    requires d > 0 && e > 0 && EuclidGcd(Abs(n), d) == 1 && n * e == m * d
    ensures Divides(d, e)
  {
    GcdScale(Abs(n), d, e);
    AbsMul(n, e);
    DividesMultiple(d, m);
    assert m * d == d * m;
    DividesAbs(d, n * e);
    DividesMultiple(d, e);
    GcdGreatest(Abs(n) * e, d * e, d);
  }

  lemma {:induction false} GcdScale(a: nat, b: nat, k: nat)
    ensures EuclidGcd(a * k, b * k) == EuclidGcd(a, b) * k
    decreases b
  {
    if b == 0 {
    } else if k == 0 {
      GcdZeroArgs(a * k, b * k);
    } else {
      assert (a * k) % (b * k) == (a % b) * k by { ModScale(a, b, k); }
      GcdScale(b, a % b, k);
    }
  }

  lemma GcdZeroArgs(a: nat, b: nat)
    requires a == 0 && b == 0
    ensures EuclidGcd(a, b) == 0
  {
  }

  lemma ModScale(a: nat, b: nat, k: nat)
    requires b > 0 && k > 0
    ensures (a * k) % (b * k) == (a % b) * k
  {
    var q, r := a / b, a % b;
    assert a * k == q * (b * k) + r * k;
    assert 0 <= r * k < b * k;
    Arith.DivModUnique(a * k, b * k, q, r * k);
  }


  /** For an integer numerator IsInteger is exactly a unit denominator. */
  lemma IsIntegerIffUnitDenominator(f: Fraction)
    ensures IsInteger(f) <==> f.denominator == 1
  {
  }

  /** A whole number is already in lowest terms. */
  lemma FromNumberIsWhole(v: int)
    ensures FractionFromNumber(v) == Fraction(v, 1)
    ensures IsInteger(FractionFromNumber(v)) && Value(FractionFromNumber(v)) == v as real
  {
    assert EuclidGcd(Abs(v), 1) == EuclidGcd(1, 0);
  }

  lemma ValueZeroIff(f: Fraction)
    requires f.denominator != 0
    ensures Value(f) == 0.0 <==> IsZero(f)
  {
    var n, d := f.numerator as real, f.denominator as real;
    if Value(f) == 0.0 {
      assert n == (n / d) * d;
    }
  }
}
