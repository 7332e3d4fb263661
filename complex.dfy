/** Complex rationals: a real and an imaginary Fraction (src/Math/Symbolic/Complex.ts). */
module Complexes {
  import F = Fractions

  /** The fields are `real` and `imaginary` in the source. */
  datatype Complex = Complex(re: F.Fraction, im: F.Fraction)

  /** Both parts have a nonzero denominator, so the number has a value. */
  predicate Proper(c: Complex) {
    c.re.denominator != 0 && c.im.denominator != 0
  }

  /** Both parts are normalised fractions. */
  predicate Normal(c: Complex) {
    F.Normal(c.re) && F.Normal(c.im)
  }

  function Re(c: Complex): real requires Proper(c) { F.Value(c.re) }
  function Im(c: Complex): real requires Proper(c) { F.Value(c.im) }

  function Add(a: Complex, b: Complex): Complex {
    Complex(F.Add(a.re, b.re), F.Add(a.im, b.im))
  }

  function Subtract(a: Complex, b: Complex): Complex {
    Complex(F.Subtract(a.re, b.re), F.Subtract(a.im, b.im))
  }

  /** `multiply`: the parts ac - bd and ad + bc, see ProductRe and ProductIm. */
  function Multiply(a: Complex, b: Complex): Complex {
    Complex(ProductRe(a, b), ProductIm(a, b))
  }

  /** `divide`: numeratorReal / denominator and numeratorComplex / denominator,
      see QuotientRe, QuotientIm and NormSquared. */
  function Divide(a: Complex, b: Complex): Complex {
    Complex(F.Divide(QuotientRe(a, b), NormSquared(b)), F.Divide(QuotientIm(a, b), NormSquared(b)))
  }

  /** Field-wise on both parts. */
  predicate Equal(a: Complex, b: Complex) {
    F.Equal(a.re, b.re) && F.Equal(a.im, b.im)
  }

  function FromNumber(re: int, im: int := 0): Complex {
    Complex(F.Fraction(re, 1), F.Fraction(im, 1))
  }

  /** The fractions are stored as given, without normalisation. */
  function FromNumbers(realNum: int, realDen: int, imagNum: int := 0, imagDen: int := 1): Complex {
    Complex(F.Fraction(realNum, realDen), F.Fraction(imagNum, imagDen))
  }

  function Zero(): Complex { FromNumber(0) }
  function One(): Complex { FromNumber(1) }
  function OneI(): Complex { FromNumber(0, 1) }

  lemma AddIsSum(a: Complex, b: Complex)
    requires Proper(a) && Proper(b)
    ensures Normal(Add(a, b))
    ensures Re(Add(a, b)) == Re(a) + Re(b) && Im(Add(a, b)) == Im(a) + Im(b)
  {
    F.AddIsSum(a.re, b.re);
    F.AddIsSum(a.im, b.im);
  }

  lemma SubtractIsDifference(a: Complex, b: Complex)
    requires Proper(a) && Proper(b)
    ensures Normal(Subtract(a, b))
    ensures Re(Subtract(a, b)) == Re(a) - Re(b) && Im(Subtract(a, b)) == Im(a) - Im(b)
  {
    F.SubtractIsDifference(a.re, b.re);
    F.SubtractIsDifference(a.im, b.im);
  }

  /** The two parts of a product, ac - bd and ad + bc, as the product computes them. */
  function ProductRe(x: Complex, y: Complex): F.Fraction {
    F.Subtract(F.Multiply(x.re, y.re), F.Multiply(x.im, y.im))
  }

  function ProductIm(x: Complex, y: Complex): F.Fraction {
    F.Add(F.Multiply(x.re, y.im), F.Multiply(x.im, y.re))
  }

  lemma ProductReValue(x: Complex, y: Complex)
    requires Proper(x) && Proper(y)
    ensures F.Normal(ProductRe(x, y)) && F.Value(ProductRe(x, y)) == Re(x) * Re(y) - Im(x) * Im(y)
  {
    DifferenceOfProducts(x.re, y.re, x.im, y.im, ProductRe(x, y));
    PartProducts(x, y);
  }

  lemma ProductImValue(x: Complex, y: Complex)
    requires Proper(x) && Proper(y)
    ensures F.Normal(ProductIm(x, y)) && F.Value(ProductIm(x, y)) == Re(x) * Im(y) + Im(x) * Re(y)
  {
    SumOfProducts(x.re, y.im, x.im, y.re, ProductIm(x, y));
    PartProducts(x, y);
  }

  /** (a + bi)(c + di) = (ac - bd) + (ad + bc)i. */
  lemma MultiplyIsProduct(x: Complex, y: Complex)
    requires Proper(x) && Proper(y)
    ensures Normal(Multiply(x, y))
    ensures Re(Multiply(x, y)) == Re(x) * Re(y) - Im(x) * Im(y)
    ensures Im(Multiply(x, y)) == Re(x) * Im(y) + Im(x) * Re(y)
  {
    ProductReValue(x, y);
    ProductImValue(x, y);
  }

  /** The products of parts, restated on Re and Im. */
  lemma PartProducts(x: Complex, y: Complex)
    requires Proper(x) && Proper(y)
    ensures Re(x) * Re(y) == F.Value(x.re) * F.Value(y.re) && Im(x) * Im(y) == F.Value(x.im) * F.Value(y.im)
    ensures Re(x) * Im(y) == F.Value(x.re) * F.Value(y.im) && Im(x) * Re(y) == F.Value(x.im) * F.Value(y.re)
    ensures Re(x) * Re(y) + Im(x) * Im(y) == F.Value(x.re) * F.Value(y.re) + F.Value(x.im) * F.Value(y.im)
    ensures Im(x) * Re(y) - Re(x) * Im(y) == F.Value(x.im) * F.Value(y.re) - F.Value(x.re) * F.Value(y.im)
  {
  }

  /** `a·b - c·d` on fractions: normalised, with the value of the real expression. */
  lemma DifferenceOfProducts(a: F.Fraction, b: F.Fraction, c: F.Fraction, d: F.Fraction, r: F.Fraction)
    requires a.denominator != 0 && b.denominator != 0 && c.denominator != 0 && d.denominator != 0
    requires r == F.Subtract(F.Multiply(a, b), F.Multiply(c, d))
    ensures F.Normal(r) && F.Value(r) == F.Value(a) * F.Value(b) - F.Value(c) * F.Value(d)
  {
    F.MultiplyIsProduct(a, b);
    F.MultiplyIsProduct(c, d);
    F.SubtractIsDifference(F.Multiply(a, b), F.Multiply(c, d));
  }

  /** `a·b + c·d` on fractions. */
  lemma SumOfProducts(a: F.Fraction, b: F.Fraction, c: F.Fraction, d: F.Fraction, r: F.Fraction)
    requires a.denominator != 0 && b.denominator != 0 && c.denominator != 0 && d.denominator != 0
    requires r == F.Add(F.Multiply(a, b), F.Multiply(c, d))
    ensures F.Normal(r) && F.Value(r) == F.Value(a) * F.Value(b) + F.Value(c) * F.Value(d)
  {
    F.MultiplyIsProduct(a, b);
    F.MultiplyIsProduct(c, d);
    F.AddIsSum(F.Multiply(a, b), F.Multiply(c, d));
  }

  /** The divisor's squared magnitude, the common denominator of a quotient. */
  function NormSquared(y: Complex): F.Fraction {
    F.Add(F.Multiply(y.re, y.re), F.Multiply(y.im, y.im))
  }

  function QuotientRe(x: Complex, y: Complex): F.Fraction {
    F.Add(F.Multiply(x.re, y.re), F.Multiply(x.im, y.im))
  }

  function QuotientIm(x: Complex, y: Complex): F.Fraction {
    F.Subtract(F.Multiply(x.im, y.re), F.Multiply(x.re, y.im))
  }

  /** |y|² = c² + d². */
  lemma NormSquaredValue(y: Complex)
    requires Proper(y)
    ensures F.Normal(NormSquared(y))
    ensures F.Value(NormSquared(y)) == Re(y) * Re(y) + Im(y) * Im(y)
  {
    SumOfProducts(y.re, y.re, y.im, y.im, NormSquared(y));
    PartProducts(y, y);
  }

  /** The numerators of a quotient: ac + bd ... */
  lemma QuotientReValue(x: Complex, y: Complex)
    requires Proper(x) && Proper(y)
    ensures F.Normal(QuotientRe(x, y)) && F.Value(QuotientRe(x, y)) == Re(x) * Re(y) + Im(x) * Im(y)
  {
    SumOfProducts(x.re, y.re, x.im, y.im, QuotientRe(x, y));
    PartProducts(x, y);
  }

  /** ... and bc - ad. */
  lemma QuotientImValue(x: Complex, y: Complex)
    requires Proper(x) && Proper(y)
    ensures F.Normal(QuotientIm(x, y)) && F.Value(QuotientIm(x, y)) == Im(x) * Re(y) - Re(x) * Im(y)
  {
    DifferenceOfProducts(x.im, y.re, x.re, y.im, QuotientIm(x, y));
    PartProducts(x, y);
  }

  /** (a + bi)/(c + di) = ((ac + bd) + (bc - ad)i)/(c² + d²) when c² + d² is not zero;
      the values of the three fractions are given by the two lemmas above. */
  lemma DivideIsQuotient(x: Complex, y: Complex)
    requires Proper(x) && Proper(y) && NormSquared(y).numerator != 0
    ensures Normal(Divide(x, y))
    ensures F.Normal(NormSquared(y)) && F.Normal(QuotientRe(x, y)) && F.Normal(QuotientIm(x, y))
      && Normal(Divide(x, y)) && F.Value(NormSquared(y)) != 0.0
      && Re(Divide(x, y)) == F.Value(QuotientRe(x, y)) / F.Value(NormSquared(y))
      && Im(Divide(x, y)) == F.Value(QuotientIm(x, y)) / F.Value(NormSquared(y))
  {
    var n := NormSquared(y);
    NormSquaredValue(y);
    QuotientReValue(x, y);
    QuotientImValue(x, y);
    F.ValueZeroIff(n);
    F.DivideIsQuotient(QuotientRe(x, y), n);
    F.DivideIsQuotient(QuotientIm(x, y), n);
  }

  /** Add and Multiply give the same complex number, fields included, in either order. */
  lemma Commute(a: Complex, b: Complex)
    ensures Add(a, b) == Add(b, a) && Multiply(a, b) == Multiply(b, a)
  {
    F.Commute(a.re, b.re);
    F.Commute(a.im, b.im);
    F.Commute(a.re, b.im);
    F.Commute(a.im, b.re);
    F.Commute(F.Multiply(a.re, b.im), F.Multiply(a.im, b.re));
  }

  /** Equal on complex numbers is equality of both fraction pairs. */
  lemma EqualIsIdentity(a: Complex, b: Complex)
    ensures Equal(a, b) <==> a == b
  {
  }

  lemma ConstantsValues()
    ensures Proper(Zero()) && Re(Zero()) == 0.0 && Im(Zero()) == 0.0
    ensures Proper(One()) && Re(One()) == 1.0 && Im(One()) == 0.0
    ensures Proper(OneI()) && Re(OneI()) == 0.0 && Im(OneI()) == 1.0
  {
  }

  /** FromNumbers keeps unreduced fractions: 2/4 stays 2/4. */
  lemma FromNumbersUnreduced()
    ensures FromNumbers(2, 4).re == F.Fraction(2, 4) && !F.Normal(FromNumbers(2, 4).re)
    ensures FromNumbers(2, 4).im == F.Fraction(0, 1)
  {
    assert F.EuclidGcd(2, 4) == 2 by {
      assert F.EuclidGcd(2, 4) == F.EuclidGcd(4, 2) == F.EuclidGcd(2, 0);
    }
  }
}
