/** PolynomialSolver: the roots of a univariate linear or quadratic polynomial, built as
    nodes from its coefficients. */
module PolynomialSolver {
  import opened Wrappers
  import Tr = Tree
  import N = Nodes
  import B = BasicNodes
  import PA = PolynomialAnalyzer
  import P = Polynomials
  import Text
  import PowerMaps

  /** GetCoefficient: degree 0 reads the empty power map, any other degree the map
      {variable: degree}. */
  function Coefficient(info: PA.Info, variable: string, degree: int): Tr.Node {
    PA.CoefficientOf(info.polynomial.terms, PA.SignatureOf(if degree != 0 then [(variable, degree)] else []))
  }

  /** The constant coefficient is that of the first term without variables, and the
      coefficient of degree d that of the first term whose signature is `variable^d`. */
  lemma CoefficientSpec(info: PA.Info, variable: string, degree: int)
    ensures degree == 0 ==> Coefficient(info, variable, degree) == PA.CoefficientOf(info.polynomial.terms, "")
    ensures degree != 0 ==>
      Coefficient(info, variable, degree) == PA.CoefficientOf(info.polynomial.terms, variable + "^" + Text.IntStr(degree))
  {
    var m: seq<(string, int)> := [(variable, degree)];
    assert m[..0] == [];
    assert PA.Collapse(m) == m;
    assert m[1..] == [];
    assert PowerMaps.Signature(m[1..]) == "";
    assert PowerMaps.Signature(m) == variable + "^" + Text.IntStr(degree) + "";
    assert variable + "^" + Text.IntStr(degree) + "" == variable + "^" + Text.IntStr(degree);
  }

  /** The classification the solver needs: of the given type and in one variable. */
  predicate Solvable(info: PA.Info, polyType: PA.PolynomialType) {
    info.classification.polyType == polyType && info.classification.isUnivariate
  }

  /** GetQuadraticCoefficients: a, b and c of a x^2 + b x + c, or none unless the
      polynomial is a univariate quadratic. */
  function QuadraticCoefficients(info: PA.Info, variable: string): Option<(Tr.Node, Tr.Node, Tr.Node)> {
    if !Solvable(info, PA.Quadratic) then None
    else Some((Coefficient(info, variable, 2), Coefficient(info, variable, 1), Coefficient(info, variable, 0)))
  }

  /** b^2 - 4 a c, as nodes. */
  function Discriminant(a: Tr.Node, b: Tr.Node, c: Tr.Node): Tr.Node {
    N.Subtract(N.Square(b), N.Multiply([B.Literal(4), a, c]))
  }

  /** The numerator -b + sqrt(D) or -b - sqrt(D). */
  function Numerator(b: Tr.Node, d: Tr.Node, plus: bool): Tr.Node {
    var root := N.SquareRoot(d);
    if plus then N.Add([N.Negative(b), root]) else N.Subtract(N.Negative(b), root)
  }

  /** SolveQuadratic. Dividing by a malformed power node is a host error. */
  function SolveQuadratic(info: PA.Info, variable: string): Result<(Tr.Node, Tr.Node)> {
    match QuadraticCoefficients(info, variable)
    case None => Fail(PolynomialError, "Polynomial is not a quadratic or univariate")
    case Some((a, b, c)) =>
      var d := Discriminant(a, b, c);
      var low := N.Multiply([B.Literal(2), a]);
      var r1 :- P.DivideNodes(Numerator(b, d, true), low);
      var r2 :- P.DivideNodes(Numerator(b, d, false), low);
      Ok((r1, r2))
  }

  /** SolveQuadratic throws a polynomial error exactly when the polynomial is not a
      univariate quadratic; otherwise its roots are (-b + sqrt(b^2 - 4ac)) / 2a and
      (-b - sqrt(b^2 - 4ac)) / 2a, with a, b and c the coefficients of x^2, x and 1. */
  lemma SolveQuadraticSpec(info: PA.Info, variable: string)
    ensures SolveQuadratic(info, variable) == Fail(PolynomialError, "Polynomial is not a quadratic or univariate")
      <==> !Solvable(info, PA.Quadratic)
    ensures Solvable(info, PA.Quadratic) ==>
      var a := Coefficient(info, variable, 2);
      var b := Coefficient(info, variable, 1);
      var c := Coefficient(info, variable, 0);
      var low := N.Multiply([B.Literal(2), a]);
      && (SolveQuadratic(info, variable).Ok? <==> !(low.Exponentiation? && |low.args| < 2))
      && (SolveQuadratic(info, variable).Ok? ==>
            SolveQuadratic(info, variable).value
              == (N.Divide(Numerator(b, Discriminant(a, b, c), true), low),
                  N.Divide(Numerator(b, Discriminant(a, b, c), false), low)))
  {
  }

  /** GetLinearCoefficients: a and b of a x + b, or none unless the polynomial is a
      univariate linear one. */
  function LinearCoefficients(info: PA.Info, variable: string): Option<(Tr.Node, Tr.Node)> {
    if !Solvable(info, PA.Linear) then None
    else Some((Coefficient(info, variable, 1), Coefficient(info, variable, 0)))
  }

  /** SolveLinear. Dividing by a malformed power node is a host error. */
  function SolveLinear(info: PA.Info, variable: string): Result<Tr.Node> {
    match LinearCoefficients(info, variable)
    case None => Fail(PolynomialError, "Polynomial is not a linear or univariate")
    case Some((a, b)) => P.DivideNodes(b, a)
  }

  /** SolveLinear throws a polynomial error exactly when the polynomial is not a univariate
      linear one; otherwise it is the constant coefficient divided by the coefficient of x,
      with no change of sign. */
  lemma SolveLinearSpec(info: PA.Info, variable: string)
    ensures SolveLinear(info, variable) == Fail(PolynomialError, "Polynomial is not a linear or univariate")
      <==> !Solvable(info, PA.Linear)
    ensures Solvable(info, PA.Linear) ==>
      var a := Coefficient(info, variable, 1);
      var b := Coefficient(info, variable, 0);
      && (SolveLinear(info, variable).Ok? <==> !(a.Exponentiation? && |a.args| < 2))
      && (SolveLinear(info, variable).Ok? ==> SolveLinear(info, variable).value == N.Divide(b, a))
  {
  }

  // Linear roots under a valuation

  /** x is a root of a·x + b under a valuation of nodes as reals. */
  predicate RootUnder(val: Tr.Node -> real, a: Tr.Node, b: Tr.Node, x: Tr.Node) {
    val(a) * val(x) + val(b) == 0.0
  }

  /** The valuation reads q as n / d, with d nonzero. */
  predicate QuotientUnder(val: Tr.Node -> real, q: Tr.Node, n: Tr.Node, d: Tr.Node) {
    val(d) != 0.0 && val(q) * val(d) == val(n)
  }

  /** As written, under any valuation that reads the result as b / a, SolveLinear's root
      solves a·x - b = 0, so it is no root of a·x + b = 0 unless b is zero. */
  lemma SolveLinearSolvesNegated(info: PA.Info, variable: string, val: Tr.Node -> real)
    requires SolveLinear(info, variable).Ok?
    requires QuotientUnder(val, SolveLinear(info, variable).value, Coefficient(info, variable, 0),
                           Coefficient(info, variable, 1))
    ensures var a, b := Coefficient(info, variable, 1), Coefficient(info, variable, 0);
      var x := SolveLinear(info, variable).value;
      val(a) * val(x) - val(b) == 0.0 && (RootUnder(val, a, b, x) <==> val(b) == 0.0)
  {
  }

  /** SolveLinear corrected: the root -b / a of a x + b. */
  function LinearRoot(info: PA.Info, variable: string): Result<Tr.Node> {
    match LinearCoefficients(info, variable)
    case None => Fail(PolynomialError, "Polynomial is not a linear or univariate")
    case Some((a, b)) => P.DivideNodes(N.Negative(b), a)
  }

  /** LinearRoot fails exactly where SolveLinear does, with the same error; its result is
      -b / a, and under any valuation that reads it as a quotient and -b as the opposite of
      b it is a root of a·x + b. */
  lemma LinearRootSpec(info: PA.Info, variable: string, val: Tr.Node -> real)
    ensures LinearRoot(info, variable).Err? <==> SolveLinear(info, variable).Err?
    ensures LinearRoot(info, variable).Err? ==> LinearRoot(info, variable) == SolveLinear(info, variable)
    ensures LinearRoot(info, variable).Ok? ==>
      var a, b := Coefficient(info, variable, 1), Coefficient(info, variable, 0);
      var x := LinearRoot(info, variable).value;
      && x == N.Divide(N.Negative(b), a)
      && (QuotientUnder(val, x, N.Negative(b), a) && val(N.Negative(b)) == -val(b) ==> RootUnder(val, a, b, x))
  {
  }
}
