/** PolynomialAnalyzer (src/AST/Polynomials/PolynomialAnalyzer.ts): reading a polynomial
    off an expression tree, its classification, coefficients and structure. The record types
    are those of src/Typescript/Polynomials.ts. */
module PolynomialAnalyzer {
  import opened Wrappers
  import Tr = Tree
  import N = Nodes
  import C = Complexes
  import AP = ArrayPolyfill
  import opened PowerMaps
  import Text

  /** A coefficient times a product of variable powers; `degree` is stored, not derived. */
  datatype Term = Term(coefficient: Tr.Node, variables: PowerMap, degree: int)

  /** `variables` is the Set of variable names, in insertion order. */
  datatype Polynomial = Polynomial(
    terms: seq<Term>,
    variables: seq<string>,
    degree: int,
    leadingCoefficient: Tr.Node,
    constantTerm: Tr.Node,
    isHomogeneous: bool,
    isMonomial: bool,
    isBinomial: bool,
    isTrinomial: bool)

  datatype PolynomialType = Constant | Linear | Quadratic | Cubic | Quartic | Quintic | Higher

  datatype SpecialForm =
    | PerfectSquare | DifferenceOfSquares | SumOfCubes | DifferenceOfCubes | PerfectCube
    | Binomial | Trinomial | Homogeneous | Symmetric | Palindromic

  datatype Symmetry = Even | Odd | PalindromicSymmetry | Reciprocal

  datatype Classification = Classification(
    polyType: PolynomialType,
    degree: int,
    variables: seq<string>,
    isUnivariate: bool,
    isMultivariate: bool,
    specialForms: seq<SpecialForm>)

  datatype Structure = Structure(
    termCount: int,
    powers: seq<int>,
    hasConstantTerm: bool,
    hasLinearTerm: bool,
    hasQuadraticTerm: bool,
    hasCubicTerm: bool,
    symmetries: seq<Symmetry>)

  /** `coefficients` maps a power signature to a coefficient. */
  datatype Info = Info(
    polynomial: Polynomial,
    classification: Classification,
    coefficients: Entries<Tr.Node>,
    structure: Structure)

  // Parsing

  /** ExtractInteger: the real numerator of a literal whose imaginary numerator is 0 and
      whose real denominator is 1. */
  function ExtractInteger(c: C.Complex): Option<int> {
    if c.im.numerator != 0 || c.re.denominator != 1 then None else Some(c.re.numerator)
  }

  /** ParseExponentiationInfo: the variable and power of `v ^ k`. Reading the type of a
      missing base or exponent is a host error; a base that is not a variable, an exponent
      that is not an integer literal, and exponent 0 (which is falsy) give none. */
  function PowerInfo(n: Tr.Node): Result<Option<(string, int)>>
    requires n.Exponentiation?
  {
    if |n.args| == 0 then Fail(HostError, "attempt to index nil")
    else if !n.args[0].Variable? then Ok(None)
    else if |n.args| == 1 then Fail(HostError, "attempt to index nil")
    else if !n.args[1].Literal? then Ok(None)
    else match ExtractInteger(n.args[1].number)
      case None => Ok(None)
      case Some(k) => if k == 0 then Ok(None) else Ok(Some((n.args[0].name, k)))
  }

  /** A power ParseExponentiationInfo accepts: a variable to a nonzero integer. */
  predicate PowerFactor(a: Tr.Node) {
    && a.Exponentiation? && |a.args| >= 2 && a.args[0].Variable? && a.args[1].Literal?
    && ExtractInteger(a.args[1].number).Some? && ExtractInteger(a.args[1].number).value != 0
  }

  function Exponent(a: Tr.Node): int
    requires PowerFactor(a)
  {
    ExtractInteger(a.args[1].number).value
  }

  /** A power whose base or exponent is missing where ParseExponentiationInfo reads it. */
  predicate Malformed(a: Tr.Node) {
    a.Exponentiation? && (|a.args| == 0 || (|a.args| == 1 && a.args[0].Variable?))
  }

  /** ParseExponentiationInfo fails exactly on a malformed power and finds a variable
      exactly on an accepted one. */
  lemma PowerInfoSpec(a: Tr.Node)
    requires a.Exponentiation?
    ensures PowerInfo(a).Err? <==> Malformed(a)
    ensures PowerInfo(a).Ok? && PowerInfo(a).value.Some? <==> PowerFactor(a)
    ensures PowerFactor(a) ==> PowerInfo(a) == Ok(Some((a.args[0].name, Exponent(a))))
  {
  }

  /** A factor ParseMultiply accepts. */
  predicate Parsable(a: Tr.Node) {
    a.Literal? || a.Variable? || PowerFactor(a)
  }

  /** One pass of ParseMultiply's loop: fold a factor into the coefficient and powers. */
  function Absorb(coefficient: Tr.Node, powers: PowerMap, a: Tr.Node): Result<Option<(Tr.Node, PowerMap)>> {
    if a.Literal? then Ok(Some((N.Multiply([coefficient, a]), powers)))
    else if a.Variable? then Ok(Some((coefficient, Put(powers, a.name, Get(powers, a.name) + 1))))
    else if a.Exponentiation? then
      var info :- PowerInfo(a);
      if info.None? then Ok(None)
      else Ok(Some((coefficient, Put(powers, info.value.0, Get(powers, info.value.0) + info.value.1))))
    else Ok(None)
  }

  /** ParseMultiply's loop over a prefix of the factors: the coefficient and the powers,
      or none as soon as a factor is not accepted. */
  function Factors(args: seq<Tr.Node>): Result<Option<(Tr.Node, PowerMap)>>
    decreases |args|
  {
    if args == [] then Ok(Some((N.One(), [])))
    else
      var acc :- Factors(args[..|args| - 1]);
      if acc.None? then Ok(None) else Absorb(acc.value.0, acc.value.1, args[|args| - 1])
  }

  /** The term ParseMultiply reads off a product: degree is the sum of the powers. */
  function ProductTerm(n: Tr.Node): Result<Option<Term>>
    requires n.Multiply?
  {
    var f :- Factors(n.args);
    if f.None? then Ok(None) else Ok(Some(Term(f.value.0, f.value.1, Sum(f.value.1))))
  }

  /** One more factor: the loop goes on from the prefix unless it has stopped. */
  lemma FactorsSnoc(args: seq<Tr.Node>, i: nat)
    requires i < |args|
    ensures var acc := Factors(args[..i]);
      Factors(args[..i + 1])
        == if acc.Err? then Err(acc.error) else if acc.value.None? then Ok(None)
           else Absorb(acc.value.value.0, acc.value.value.1, args[i])
  {
    assert args[..i + 1][..i] == args[..i];
  }

  /** Once a prefix of the factors stops the loop, the whole product stops the same way. */
  lemma {:induction false} FactorsStop(args: seq<Tr.Node>, i: nat)
    requires i <= |args|
    requires Factors(args[..i]).Err? || Factors(args[..i]) == Ok(None)
    ensures Factors(args) == Factors(args[..i])
    decreases |args|
  {
    if i == |args| {
      assert args[..i] == args;
    } else {
      var front := args[..|args| - 1];
      assert front[..i] == args[..i];
      FactorsStop(front, i);
    }
  }

  /** The power of `v` the factors contribute: 1 per occurrence of `v`, k per `v ^ k`. */
  function PowerSum(args: seq<Tr.Node>, v: string): int
    decreases |args|
  {
    if args == [] then 0
    else
      var a := args[|args| - 1];
      PowerSum(args[..|args| - 1], v) + (if Mentions(a, v) then Weight(a) else 0)
  }

  /** The total power of the factors: 1 per variable, k per `v ^ k`. */
  function TotalPower(args: seq<Tr.Node>): int
    decreases |args|
  {
    if args == [] then 0
    else
      var a := args[|args| - 1];
      TotalPower(args[..|args| - 1]) + Weight(a)
  }

  /** The factor is the variable `v` or a power of it. */
  predicate Mentions(a: Tr.Node, v: string) {
    (a.Variable? && a.name == v) || (PowerFactor(a) && a.args[0].name == v)
  }

  /** The product of the literal factors, folded from 1 as ParseMultiply does. */
  function LiteralProduct(args: seq<Tr.Node>): Tr.Node
    decreases |args|
  {
    if args == [] then N.One()
    else
      var acc := LiteralProduct(args[..|args| - 1]);
      if args[|args| - 1].Literal? then N.Multiply([acc, args[|args| - 1]]) else acc
  }

  /** A product parses exactly when every factor is accepted; a failure comes from a
      malformed power. */
  lemma {:induction false} FactorsParse(args: seq<Tr.Node>)
    ensures Factors(args).Ok? && Factors(args).value.Some?
      <==> forall i :: 0 <= i < |args| ==> Parsable(args[i])
    ensures Factors(args).Err? ==> exists i :: 0 <= i < |args| && Malformed(args[i])
    decreases |args|
  {
    if args != [] {
      var front := args[..|args| - 1];
      var a := args[|args| - 1];
      FactorsParse(front);
      ParsableSplit(args, front);
      var acc := Factors(front);
      if acc.Ok? && acc.value.Some? {
        AbsorbSpec(acc.value.value.0, acc.value.value.1, a);
      }
      if Factors(args).Err? {
        if acc.Err? {
          var i :| 0 <= i < |front| && Malformed(front[i]);
          assert args[i] == front[i];
        } else {
          assert Malformed(args[|args| - 1]);
        }
      }
    }
  }

  /** One factor folds in exactly when it is accepted, and fails exactly when it is a
      malformed power. */
  lemma AbsorbSpec(c: Tr.Node, m: PowerMap, a: Tr.Node)
    ensures Absorb(c, m, a).Ok? && Absorb(c, m, a).value.Some? <==> Parsable(a)
    ensures Absorb(c, m, a).Err? <==> Malformed(a)
  {
    if a.Exponentiation? {
      PowerInfoSpec(a);
    }
  }

  /** Every factor is accepted exactly when every one before the last is and the last is. */
  lemma ParsableSplit(args: seq<Tr.Node>, front: seq<Tr.Node>)
    requires args != [] && front == args[..|args| - 1]
    ensures (forall i :: 0 <= i < |args| ==> Parsable(args[i])) <==>
      (forall i :: 0 <= i < |front| ==> Parsable(front[i])) && Parsable(args[|args| - 1])
  {
    if forall i :: 0 <= i < |front| ==> Parsable(front[i]) {
      if Parsable(args[|args| - 1]) {
        forall i | 0 <= i < |args| ensures Parsable(args[i]) {
          if i < |front| { assert args[i] == front[i]; }
        }
      }
    }
  }

  /** The power a factor adds and the variable it adds it to. */
  function Weight(a: Tr.Node): int {
    if a.Variable? then 1 else if PowerFactor(a) then Exponent(a) else 0
  }

  function Key(a: Tr.Node): string
    requires a.Variable? || PowerFactor(a)
  {
    if a.Variable? then a.name else a.args[0].name
  }

  /** An accepted factor either multiplies into the coefficient or adds its power at its
      variable. */
  lemma AbsorbParsable(c: Tr.Node, m: PowerMap, a: Tr.Node)
    requires Parsable(a)
    ensures a.Literal? ==> Absorb(c, m, a) == Ok(Some((N.Multiply([c, a]), m)))
    ensures !a.Literal? ==> Absorb(c, m, a) == Ok(Some((c, Put(m, Key(a), Get(m, Key(a)) + Weight(a)))))
  {
    if a.Exponentiation? {
      PowerInfoSpec(a);
    }
  }

  /** When a product parses, its powers have one entry per variable and sum to the total
      power, and the coefficient is the product of the literal factors. */
  lemma FactorsSum(args: seq<Tr.Node>)
    requires Factors(args).Ok? && Factors(args).value.Some?
    ensures var (c, m) := Factors(args).value.value;
      && Distinct(m)
      && Sum(m) == TotalPower(args)
      && c == LiteralProduct(args)
  {
    FactorsDistinct(args);
    FactorsTotal(args);
    FactorsCoefficient(args);
  }

  lemma {:induction false} FactorsDistinct(args: seq<Tr.Node>)
    requires Factors(args).Ok? && Factors(args).value.Some?
    ensures Distinct(Factors(args).value.value.1)
    decreases |args|
  {
    if args != [] {
      var front := args[..|args| - 1];
      var a := args[|args| - 1];
      FactorsLast(args);
      FactorsDistinct(front);
      AbsorbDistinct(Factors(front).value.value.1, a);
    }
  }

  /** The powers after an accepted factor: unchanged by a literal, the factor's weight added
      at its variable otherwise. */
  function AbsorbPowers(m: PowerMap, a: Tr.Node): PowerMap
    requires Parsable(a)
  {
    if a.Literal? then m else Put(m, Key(a), Get(m, Key(a)) + Weight(a))
  }

  lemma AbsorbDistinct(m: PowerMap, a: Tr.Node)
    requires Distinct(m) && Parsable(a)
    ensures Distinct(AbsorbPowers(m, a))
  {
    if !a.Literal? {
      PutDistinct(m, Key(a), Get(m, Key(a)) + Weight(a));
    }
  }

  lemma AbsorbSum(m: PowerMap, a: Tr.Node)
    requires Distinct(m) && Parsable(a)
    ensures Sum(AbsorbPowers(m, a)) == Sum(m) + Weight(a)
  {
    if !a.Literal? {
      PutSum(m, Key(a), Get(m, Key(a)) + Weight(a));
    }
  }

  lemma AbsorbGet(m: PowerMap, a: Tr.Node, v: string)
    requires Parsable(a)
    ensures Get(AbsorbPowers(m, a), v) == Get(m, v) + (if Mentions(a, v) then Weight(a) else 0)
  {
    if !a.Literal? {
      var k := Key(a);
      assert Mentions(a, v) <==> k == v;
      PutLookup(m, k, Get(m, k) + Weight(a), v);
    } else {
      assert !Mentions(a, v);
    }
  }

  lemma AbsorbHas(m: PowerMap, a: Tr.Node, v: string)
    requires Parsable(a)
    ensures Has(AbsorbPowers(m, a), v) <==> Has(m, v) || Mentions(a, v)
  {
    if !a.Literal? {
      var k := Key(a);
      assert Mentions(a, v) <==> k == v;
      PutHas(m, k, Get(m, k) + Weight(a), v);
    } else {
      assert !Mentions(a, v);
    }
  }

  lemma {:induction false} FactorsTotal(args: seq<Tr.Node>)
    requires Factors(args).Ok? && Factors(args).value.Some?
    ensures Sum(Factors(args).value.value.1) == TotalPower(args)
    decreases |args|
  {
    if args != [] {
      var front := args[..|args| - 1];
      var a := args[|args| - 1];
      FactorsLast(args);
      FactorsTotal(front);
      FactorsDistinct(front);
      AbsorbSum(Factors(front).value.value.1, a);
    }
  }

  lemma {:induction false} FactorsCoefficient(args: seq<Tr.Node>)
    requires Factors(args).Ok? && Factors(args).value.Some?
    ensures Factors(args).value.value.0 == LiteralProduct(args)
    decreases |args|
  {
    if args != [] {
      var front := args[..|args| - 1];
      var a := args[|args| - 1];
      FactorsParse(args);
      FactorsParse(front);
      FactorsCoefficient(front);
      var (c, m) := Factors(front).value.value;
      AbsorbParsable(c, m, a);
    }
  }

  /** When a product parses, each variable's power is the sum of what the factors
      contribute to it, and it has an entry exactly when some factor mentions it. */
  lemma FactorsPowers(args: seq<Tr.Node>, v: string)
    requires Factors(args).Ok? && Factors(args).value.Some?
    ensures var m := Factors(args).value.value.1;
      && Get(m, v) == PowerSum(args, v)
      && (Has(m, v) <==> SomeMentions(args, v))
  {
    FactorsGet(args, v);
    FactorsHas(args, v);
  }

  /** The last factor of a parsing product: its powers are the prefix's, with the
      factor's weight added at its variable unless it is a literal. */
  lemma FactorsLast(args: seq<Tr.Node>)
    requires args != [] && Factors(args).Ok? && Factors(args).value.Some?
    ensures var front := args[..|args| - 1];
      var a := args[|args| - 1];
      && Factors(front).Ok? && Factors(front).value.Some?
      && Parsable(a)
      && Factors(args).value.value.1 == AbsorbPowers(Factors(front).value.value.1, a)
  {
    var front := args[..|args| - 1];
    var a := args[|args| - 1];
    FactorsParse(args);
    FactorsParse(front);
    AbsorbParsable(Factors(front).value.value.0, Factors(front).value.value.1, a);
  }

  lemma {:induction false} FactorsGet(args: seq<Tr.Node>, v: string)
    requires Factors(args).Ok? && Factors(args).value.Some?
    ensures Get(Factors(args).value.value.1, v) == PowerSum(args, v)
    decreases |args|
  {
    if args != [] {
      var front := args[..|args| - 1];
      var a := args[|args| - 1];
      FactorsLast(args);
      FactorsGet(front, v);
      AbsorbGet(Factors(front).value.value.1, a, v);
    }
  }

  lemma {:induction false} FactorsHas(args: seq<Tr.Node>, v: string)
    requires Factors(args).Ok? && Factors(args).value.Some?
    ensures Has(Factors(args).value.value.1, v) <==> SomeMentions(args, v)
    decreases |args|
  {
    if args != [] {
      var front := args[..|args| - 1];
      var a := args[|args| - 1];
      FactorsLast(args);
      FactorsHas(front, v);
      MentionsSplit(args, v);
      AbsorbHas(Factors(front).value.value.1, a, v);
    }
  }

  predicate SomeMentions(args: seq<Tr.Node>, v: string) {
    exists i :: 0 <= i < |args| && Mentions(args[i], v)
  }

  /** Some factor mentions `v` exactly when one before the last does or the last does. */
  lemma MentionsSplit(args: seq<Tr.Node>, v: string)
    requires args != []
    ensures SomeMentions(args, v) <==> SomeMentions(args[..|args| - 1], v) || Mentions(args[|args| - 1], v)
  {
    if SomeMentions(args, v) {
      var i :| 0 <= i < |args| && Mentions(args[i], v);
      if i < |args| - 1 {
        assert args[..|args| - 1][i] == args[i];
      }
    }
  }

  /** ParseMultiply. */
  method ParseMultiply(n: Tr.Node) returns (r: Result<Option<Term>>)
    requires n.Multiply?
    ensures r == ProductTerm(n)
  {
    var coefficient := N.One();
    var variables: PowerMap := [];
    var i := 0;
    while i < |n.args|
      invariant 0 <= i <= |n.args|
      invariant Factors(n.args[..i]) == Ok(Some((coefficient, variables)))
    {
      var next := AbsorbFactor(coefficient, variables, n.args[i]);
      FactorsSnoc(n.args, i);
      if next.Err? || next.value.None? {
        FactorsStop(n.args, i + 1);
        if next.Err? {
          return Err(next.error);
        }
        return Ok(None);
      }
      coefficient, variables := next.value.value.0, next.value.value.1;
      i := i + 1;
    }
    assert n.args[..i] == n.args;
    var degree := SumPowers(variables);
    return Ok(Some(Term(coefficient, variables, degree)));
  }

  /** The body of ParseMultiply's loop: a literal multiplies into the coefficient, a
      variable or an accepted power adds to its power, anything else stops the loop. */
  method AbsorbFactor(coefficient: Tr.Node, variables: PowerMap, arg: Tr.Node)
    returns (r: Result<Option<(Tr.Node, PowerMap)>>)
    ensures r == Absorb(coefficient, variables, arg)
  {
    if arg.Literal? {
      return Ok(Some((N.Multiply([coefficient, arg]), variables)));
    } else if arg.Variable? {
      var power := Get(variables, arg.name);
      return Ok(Some((coefficient, Put(variables, arg.name, power + 1))));
    } else if arg.Exponentiation? {
      var info := PowerInfo(arg);
      if info.Err? {
        return Err(info.error);
      }
      if info.value.None? {
        return Ok(None);
      }
      var (name, k) := info.value.value;
      var power := Get(variables, name);
      return Ok(Some((coefficient, Put(variables, name, power + k))));
    }
    return Ok(None);
  }

  /** ParseExponentiation: a lone power `v ^ k` is the term 1 * v^k of degree k. */
  function PowerTerm(n: Tr.Node): Result<Option<Term>>
    requires n.Exponentiation?
  {
    var info :- PowerInfo(n);
    if info.None? then Ok(None)
    else Ok(Some(Term(N.One(), [(info.value.0, info.value.1)], info.value.1)))
  }

  /** ParseTerm: a variable, a literal, a product or a power; anything else gives none. */
  function TermOf(n: Tr.Node): Result<Option<Term>> {
    if n.Variable? then Ok(Some(Term(N.One(), [(n.name, 1)], 1)))
    else if n.Literal? then Ok(Some(Term(n, [], 0)))
    else if n.Multiply? then ProductTerm(n)
    else if n.Exponentiation? then PowerTerm(n)
    else Ok(None)
  }

  /** ParseAdd's loop over a prefix of the summands: their terms, or none as soon as one
      summand gives none. */
  function TermsOf(args: seq<Tr.Node>): Result<Option<seq<Term>>>
    decreases |args|
  {
    if args == [] then Ok(Some([]))
    else
      var acc :- TermsOf(args[..|args| - 1]);
      if acc.None? then Ok(None)
      else
        var t :- TermOf(args[|args| - 1]);
        if t.None? then Ok(None) else Ok(Some(acc.value + [t.value]))
  }

  /** Parse: a sum is read summand by summand, any other node as a single term. */
  function ParseSpec(n: Tr.Node): Result<Option<Polynomial>> {
    if n.Add? then
      var ts :- TermsOf(n.args);
      if ts.None? then Ok(None) else Ok(Some(Create(ts.value)))
    else
      var t :- TermOf(n);
      if t.None? then Ok(None) else Ok(Some(Create([t.value])))
  }

  /** Every summand gives a term exactly when the sum parses, and then the terms are the
      summands' terms in order. */
  lemma {:induction false} TermsOfSpec(args: seq<Tr.Node>)
    ensures TermsOf(args).Ok? && TermsOf(args).value.Some?
      <==> forall i :: 0 <= i < |args| ==> TermOf(args[i]).Ok? && TermOf(args[i]).value.Some?
    ensures TermsOf(args).Ok? && TermsOf(args).value.Some? ==>
      var ts := TermsOf(args).value.value;
      |ts| == |args| && forall i :: 0 <= i < |args| ==> ts[i] == TermOf(args[i]).value.value
    decreases |args|
  {
    if args != [] {
      var front := args[..|args| - 1];
      TermsOfSpec(front);
      forall i | 0 <= i < |args| - 1 ensures front[i] == args[i] { }
    }
  }

  /** One summand that is not a term makes the whole sum unparsable, provided no summand
      fails. */
  lemma {:induction false} OneBadSummand(args: seq<Tr.Node>, k: nat)
    requires forall i :: 0 <= i < |args| ==> TermOf(args[i]).Ok?
    requires k < |args| && TermOf(args[k]) == Ok(None)
    ensures TermsOf(args) == Ok(None)
    decreases |args|
  {
    var front := args[..|args| - 1];
    assert forall i :: 0 <= i < |front| ==> front[i] == args[i];
    TermsOfNeverFails(front);
    if k < |args| - 1 {
      OneBadSummand(front, k);
    }
  }

  /** When no summand fails, neither does the loop. */
  lemma {:induction false} TermsOfNeverFails(args: seq<Tr.Node>)
    requires forall i :: 0 <= i < |args| ==> TermOf(args[i]).Ok?
    ensures TermsOf(args).Ok?
    decreases |args|
  {
    if args != [] {
      var front := args[..|args| - 1];
      assert forall i :: 0 <= i < |front| ==> front[i] == args[i];
      TermsOfNeverFails(front);
    }
  }

  /** A power with exponent 0 is no term, alone or as a factor. */
  lemma ZeroExponentUnparsable(v: string, rest: seq<Tr.Node>)
    ensures TermOf(Tr.Exponentiation([Tr.Variable(v), N.Zero()])) == Ok(None)
    ensures !(Factors([Tr.Exponentiation([Tr.Variable(v), N.Zero()])] + rest).Ok?
              && Factors([Tr.Exponentiation([Tr.Variable(v), N.Zero()])] + rest).value.Some?)
  {
    var args := [Tr.Exponentiation([Tr.Variable(v), N.Zero()])] + rest;
    FactorsParse(args);
    assert !Parsable(args[0]);
  }

  /** ParseTerm. */
  method ParseTerm(n: Tr.Node) returns (r: Result<Option<Term>>)
    ensures r == TermOf(n)
  {
    if n.Variable? {
      return Ok(Some(Term(N.One(), Put([], n.name, 1), 1)));
    } else if n.Literal? {
      return Ok(Some(Term(n, [], 0)));
    } else if n.Multiply? {
      r := ParseMultiply(n);
    } else if n.Exponentiation? {
      r := PowerTerm(n);
    } else {
      return Ok(None);
    }
  }

  /** ParseAdd. */
  method ParseAdd(n: Tr.Node) returns (r: Result<Option<Polynomial>>)
    requires n.Add?
    ensures r == ParseSpec(n)
  {
    var terms: seq<Term> := [];
    var i := 0;
    while i < |n.args|
      invariant 0 <= i <= |n.args|
      invariant TermsOf(n.args[..i]) == Ok(Some(terms))
    {
      assert n.args[..i + 1][..i] == n.args[..i];
      var term := ParseTerm(n.args[i]);
      if term.Err? || term.value.None? {
        TermsOfStop(n.args, i + 1);
        if term.Err? {
          return Err(term.error);
        }
        return Ok(None);
      }
      terms := terms + [term.value.value];
      i := i + 1;
    }
    assert n.args[..i] == n.args;
    var p := CreatePolynomial(terms);
    return Ok(Some(p));
  }

  /** Once a prefix of the summands stops the loop, the whole sum stops the same way. */
  lemma {:induction false} TermsOfStop(args: seq<Tr.Node>, i: nat)
    requires i <= |args|
    requires TermsOf(args[..i]).Err? || TermsOf(args[..i]) == Ok(None)
    ensures TermsOf(args) == TermsOf(args[..i])
    decreases |args|
  {
    if i == |args| {
      assert args[..i] == args;
    } else {
      var front := args[..|args| - 1];
      assert front[..i] == args[..i];
      TermsOfStop(front, i);
    }
  }

  /** Parse. */
  method Parse(n: Tr.Node) returns (r: Result<Option<Polynomial>>)
    ensures r == ParseSpec(n)
  {
    if n.Add? {
      r := ParseAdd(n);
    } else {
      var term := ParseTerm(n);
      if term.Err? {
        return Err(term.error);
      }
      if term.value.None? {
        return Ok(None);
      }
      var p := CreatePolynomial([term.value.value]);
      return Ok(Some(p));
    }
  }

  // Building a polynomial from its terms

  /** Every term's variable names, term by term, in iteration order. */
  function AllKeys(terms: seq<Term>): seq<string>
    decreases |terms|
  {
    if terms == [] then [] else AllKeys(terms[..|terms| - 1]) + Keys(terms[|terms| - 1].variables)
  }

  /** `math.max` over the degrees, starting from 0. */
  function MaxDegree(terms: seq<Term>): int
    decreases |terms|
  {
    if terms == [] then 0
    else
      var m := MaxDegree(terms[..|terms| - 1]);
      var d := terms[|terms| - 1].degree;
      if m < d then d else m
  }

  /** The coefficient of the first term of the degree, if any. */
  function FirstOfDegree(terms: seq<Term>, d: int): Option<Tr.Node>
    decreases |terms|
  {
    if terms == [] then None
    else if terms[0].degree == d then Some(terms[0].coefficient)
    else FirstOfDegree(terms[1..], d)
  }

  /** IsHomogeneous: no terms, or every term has the first one's degree. */
  predicate IsHomogeneous(terms: seq<Term>) {
    |terms| == 0 || forall i :: 0 <= i < |terms| ==> terms[i].degree == terms[0].degree
  }

  /** CreatePolynomial. */
  function Create(terms: seq<Term>): Polynomial {
    var degree := MaxDegree(terms);
    var leading := FirstOfDegree(terms, degree);
    var constant := FirstOfDegree(terms, 0);
    Polynomial(
      terms,
      AP.DeDup(AllKeys(terms)),
      degree,
      if leading.Some? then leading.value else N.Zero(),
      if constant.Some? then constant.value else N.Zero(),
      IsHomogeneous(terms),
      |terms| == 1,
      |terms| == 2,
      |terms| == 3)
  }

  /** CreatePolynomial: the variable set and the maximum degree are gathered in one pass. */
  method CreatePolynomial(terms: seq<Term>) returns (p: Polynomial)
    ensures p == Create(terms)
  {
    var variables: seq<string> := [];
    var maxDegree := 0;
    var i := 0;
    while i < |terms|
      invariant 0 <= i <= |terms|
      invariant variables == AP.DeDup(AllKeys(terms[..i]))
      invariant maxDegree == MaxDegree(terms[..i])
    {
      assert terms[..i + 1][..i] == terms[..i];
      var keys := Keys(terms[i].variables);
      assert AllKeys(terms[..i]) + keys[..0] == AllKeys(terms[..i]);
      var j := 0;
      while j < |keys|
        invariant 0 <= j <= |keys|
        invariant variables == AP.DeDup(AllKeys(terms[..i]) + keys[..j])
      {
        assert (AllKeys(terms[..i]) + keys[..j + 1])[..|AllKeys(terms[..i]) + keys[..j]|]
          == AllKeys(terms[..i]) + keys[..j];
        if !(keys[j] in variables) {
          variables := variables + [keys[j]];
        }
        j := j + 1;
      }
      assert keys[..j] == keys;
      if maxDegree < terms[i].degree {
        maxDegree := terms[i].degree;
      }
      i := i + 1;
    }
    assert terms[..i] == terms;
    var leading := FirstOfDegree(terms, maxDegree);
    var constant := FirstOfDegree(terms, 0);
    p := Polynomial(
      terms,
      variables,
      maxDegree,
      if leading.Some? then leading.value else N.Zero(),
      if constant.Some? then constant.value else N.Zero(),
      IsHomogeneous(terms),
      |terms| == 1,
      |terms| == 2,
      |terms| == 3);
  }

  /** Term k is the first of degree d. */
  predicate FirstWithDegree(terms: seq<Term>, d: int, k: int) {
    0 <= k < |terms| && terms[k].degree == d && forall i :: 0 <= i < k ==> terms[i].degree != d
  }

  /** The find over the degrees: the first term of the degree, or none when no term has it. */
  lemma {:induction false} FirstOfDegreeSpec(terms: seq<Term>, d: int)
    ensures FirstOfDegree(terms, d).None? <==> forall i :: 0 <= i < |terms| ==> terms[i].degree != d
    ensures FirstOfDegree(terms, d).Some? ==>
      exists k :: FirstWithDegree(terms, d, k) && FirstOfDegree(terms, d).value == terms[k].coefficient
    decreases |terms|
  {
    if terms != [] && terms[0].degree != d {
      var rest := terms[1..];
      FirstOfDegreeSpec(rest, d);
      forall i | 1 <= i < |terms| ensures terms[i] == rest[i - 1] { }
      if FirstOfDegree(rest, d).Some? {
        var k :| FirstWithDegree(rest, d, k) && FirstOfDegree(rest, d).value == rest[k].coefficient;
        assert FirstWithDegree(terms, d, k + 1);
      }
    } else if terms != [] {
      assert FirstWithDegree(terms, d, 0);
    }
  }

  /** The degree is the largest term degree, or 0 when every degree is negative or there
      are no terms. */
  lemma {:induction false} MaxDegreeSpec(terms: seq<Term>)
    ensures MaxDegree(terms) >= 0
    ensures forall i :: 0 <= i < |terms| ==> terms[i].degree <= MaxDegree(terms)
    ensures MaxDegree(terms) == 0 || exists i :: 0 <= i < |terms| && terms[i].degree == MaxDegree(terms)
    decreases |terms|
  {
    if terms != [] {
      var front := terms[..|terms| - 1];
      MaxDegreeSpec(front);
      assert forall i :: 0 <= i < |front| ==> front[i] == terms[i];
    }
  }

  /** A name is among the polynomial's variables exactly when some term has a power of it,
      and it is listed once. */
  lemma {:induction false} AllKeysSpec(terms: seq<Term>, x: string)
    ensures x in AllKeys(terms) <==> exists i :: 0 <= i < |terms| && Has(terms[i].variables, x)
    decreases |terms|
  {
    if terms != [] {
      var front := terms[..|terms| - 1];
      var last := terms[|terms| - 1].variables;
      AllKeysSpec(front, x);
      assert forall i :: 0 <= i < |front| ==> front[i] == terms[i];
      if x in Keys(last) {
        var j :| 0 <= j < |Keys(last)| && Keys(last)[j] == x;
        assert last[j].0 == x;
      }
      if Has(last, x) {
        var j :| 0 <= j < |last| && last[j].0 == x;
        assert Keys(last)[j] == x;
      }
    }
  }

  /** CreatePolynomial: the degree is the largest term degree (at least 0); the leading
      coefficient is that of the first term of that degree and the constant term that of
      the first term of degree 0, each literal 0 when there is none; the variables are the
      names with a power in some term, each once. */
  lemma CreateSpec(terms: seq<Term>, x: string)
    ensures var p := Create(terms);
      && p.degree >= 0
      && (forall i :: 0 <= i < |terms| ==> terms[i].degree <= p.degree)
      && (p.degree == 0 || exists i :: 0 <= i < |terms| && terms[i].degree == p.degree)
      && ((forall i :: 0 <= i < |terms| ==> terms[i].degree != p.degree) ==> p.leadingCoefficient == N.Zero())
      && (forall k :: FirstWithDegree(terms, p.degree, k) ==> p.leadingCoefficient == terms[k].coefficient)
      && ((forall i :: 0 <= i < |terms| ==> terms[i].degree != 0) ==> p.constantTerm == N.Zero())
      && (forall k :: FirstWithDegree(terms, 0, k) ==> p.constantTerm == terms[k].coefficient)
      && AP.Distinct(p.variables)
      && (x in p.variables <==> exists i :: 0 <= i < |terms| && Has(terms[i].variables, x))
  {
    var p := Create(terms);
    MaxDegreeSpec(terms);
    FirstOfDegreeSpec(terms, p.degree);
    FirstOfDegreeSpec(terms, 0);
    FirstUnique(terms, p.degree);
    FirstUnique(terms, 0);
    AP.DeDupSpec(AllKeys(terms));
    AllKeysSpec(terms, x);
  }

  /** Only one term is the first of a degree. */
  lemma FirstUnique(terms: seq<Term>, d: int)
    ensures forall k, l :: FirstWithDegree(terms, d, k) && FirstWithDegree(terms, d, l) ==> k == l
  {
  }

  /** IsHomogeneous holds exactly when all terms have one degree. */
  lemma HomogeneousSpec(terms: seq<Term>)
    ensures IsHomogeneous(terms) <==> forall i, j :: 0 <= i < |terms| && 0 <= j < |terms| ==> terms[i].degree == terms[j].degree
  {
  }

  // Classification

  /** GetType: degrees 0 to 5 have names, every other degree is Higher. */
  function GetType(degree: int): (r: PolynomialType)
    ensures r == Higher <==> degree < 0 || degree > 5
  {
    match degree
    case 0 => Constant
    case 1 => Linear
    case 2 => Quadratic
    case 3 => Cubic
    case 4 => Quartic
    case 5 => Quintic
    case _ => Higher
  }

  /** DetectSpecialForms: homogeneous, binomial and trinomial, in that order. */
  function SpecialForms(p: Polynomial): seq<SpecialForm> {
    (if p.isHomogeneous then [Homogeneous] else [])
      + (if p.isBinomial then [Binomial] else [])
      + (if p.isTrinomial then [Trinomial] else [])
  }

  /** Classify. */
  function ClassificationOf(p: Polynomial): Classification {
    var variables := AP.DeDup(p.variables);
    Classification(GetType(p.degree), p.degree, variables, |variables| == 1, |variables| > 1, SpecialForms(p))
  }

  /** Classify: the variable set is copied into an array and deduplicated. */
  method Classify(p: Polynomial) returns (r: Classification)
    ensures r == ClassificationOf(p)
  {
    var variables: seq<string> := [];
    var i := 0;
    while i < |p.variables|
      invariant 0 <= i <= |p.variables|
      invariant variables == p.variables[..i]
    {
      variables := variables + [p.variables[i]];
      i := i + 1;
    }
    assert p.variables[..i] == p.variables;
    variables := AP.DeDuplicate(variables);
    r := Classification(GetType(p.degree), p.degree, variables, |variables| == 1, |variables| > 1, SpecialForms(p));
  }

  /** Exactly one name occurs in the list. */
  predicate OneName(s: seq<string>) {
    exists x :: x in s && forall y :: y in s ==> y == x
  }

  /** Two different names occur in the list. */
  predicate TwoNames(s: seq<string>) {
    exists x, y :: x in s && y in s && x != y
  }

  /** Deduplicating leaves one item exactly when one name occurs. */
  lemma DeDupOne(s: seq<string>)
    ensures |AP.DeDup(s)| == 1 <==> OneName(s)
  {
    var vs := AP.DeDup(s);
    AP.DeDupSpec(s);
    if |vs| == 1 {
      assert vs[0] in s;
      forall y | y in s ensures y == vs[0] {
        assert y in vs;
      }
    }
    if OneName(s) {
      var x :| x in s && forall y :: y in s ==> y == x;
      DeDupConstant(s, x);
    }
  }

  /** A list of one repeated name deduplicates to that name. */
  lemma {:induction false} DeDupConstant(s: seq<string>, x: string)
    requires x in s && forall y :: y in s ==> y == x
    ensures AP.DeDup(s) == [x]
    decreases |s|
  {
    var front := s[..|s| - 1];
    assert s[|s| - 1] in s;
    assert forall y :: y in front ==> y in s;
    assert front != [] ==> front[0] in front;
    if x in front {
      DeDupConstant(front, x);
    }
  }

  /** Deduplicating leaves more than one item exactly when two names occur. */
  lemma DeDupTwo(s: seq<string>)
    ensures |AP.DeDup(s)| > 1 <==> TwoNames(s)
  {
    var vs := AP.DeDup(s);
    AP.DeDupSpec(s);
    if |vs| > 1 {
      assert vs[0] in s && vs[1] in s;
    }
    if TwoNames(s) {
      var x, y :| x in s && y in s && x != y;
      assert x in vs && y in vs;
    }
  }

  /** A polynomial is univariate exactly when one name occurs among its variables and
      multivariate exactly when two different ones do; its special forms list the
      homogeneous, binomial and trinomial flags. */
  lemma ClassifySpec(p: Polynomial)
    ensures ClassificationOf(p).isUnivariate <==> OneName(p.variables)
    ensures ClassificationOf(p).isMultivariate <==> TwoNames(p.variables)
    ensures Homogeneous in ClassificationOf(p).specialForms <==> p.isHomogeneous
    ensures Binomial in ClassificationOf(p).specialForms <==> p.isBinomial
    ensures Trinomial in ClassificationOf(p).specialForms <==> p.isTrinomial
  {
    DeDupOne(p.variables);
    DeDupTwo(p.variables);
  }

  // Coefficients

  /** The map PowerSignature builds before printing: each entry adds its power to the
      key's running total. */
  function Collapse(m: PowerMap): PowerMap
    decreases |m|
  {
    if m == [] then []
    else
      var t := Collapse(m[..|m| - 1]);
      var e := m[|m| - 1];
      Put(t, e.0, Get(t, e.0) + e.1)
  }

  /** PowerSignature. */
  function SignatureOf(m: PowerMap): string {
    Signature(Collapse(m))
  }

  /** A map with one entry per key is copied unchanged, so its signature lists its own
      entries in order. */
  lemma {:induction false} CollapseDistinct(m: PowerMap)
    requires Distinct(m)
    ensures Collapse(m) == m
    decreases |m|
  {
    if m != [] {
      var front := m[..|m| - 1];
      var e := m[|m| - 1];
      assert Distinct(front);
      CollapseDistinct(front);
      LookupHas(front, e.0);
      PutAppends(front, e.0, e.1);
      assert m == front + [e];
    }
  }

  /** PowerSignature: the running totals are built, then printed. */
  method PowerSignature(m: PowerMap) returns (s: string)
    ensures s == SignatureOf(m)
  {
    var temp: PowerMap := [];
    var i := 0;
    while i < |m|
      invariant 0 <= i <= |m|
      invariant temp == Collapse(m[..i])
    {
      assert m[..i + 1][..i] == m[..i];
      temp := Put(temp, m[i].0, Get(temp, m[i].0) + m[i].1);
      i := i + 1;
    }
    assert m[..i] == m;
    s := "";
    var j := 0;
    while j < |temp|
      invariant 0 <= j <= |temp|
      invariant s + Signature(temp[j..]) == Signature(temp)
    {
      assert temp[j..][1..] == temp[j + 1..];
      s := s + (temp[j].0 + "^" + Text.IntStr(temp[j].1));
      j := j + 1;
    }
  }

  /** GetCoefficient: the coefficient of the first term whose signature is the map's, or
      literal 0. */
  function CoefficientOf(terms: seq<Term>, signature: string): Tr.Node
    decreases |terms|
  {
    if terms == [] then N.Zero()
    else if SignatureOf(terms[0].variables) == signature then terms[0].coefficient
    else CoefficientOf(terms[1..], signature)
  }

  /** Term k is the first with the signature. */
  predicate FirstWithSignature(terms: seq<Term>, signature: string, k: int) {
    && 0 <= k < |terms| && SignatureOf(terms[k].variables) == signature
    && forall i :: 0 <= i < k ==> SignatureOf(terms[i].variables) != signature
  }

  /** GetCoefficient finds the first term with the signature, or literal 0 when none has it. */
  lemma CoefficientOfSpec(terms: seq<Term>, signature: string)
    ensures (forall i :: 0 <= i < |terms| ==> SignatureOf(terms[i].variables) != signature) ==>
      CoefficientOf(terms, signature) == N.Zero()
    ensures forall k :: FirstWithSignature(terms, signature, k) ==>
      CoefficientOf(terms, signature) == terms[k].coefficient
  {
    CoefficientOfNone(terms, signature);
    forall k | FirstWithSignature(terms, signature, k)
      ensures CoefficientOf(terms, signature) == terms[k].coefficient
    {
      CoefficientOfFirst(terms, signature, k);
    }
  }

  lemma {:induction false} CoefficientOfNone(terms: seq<Term>, signature: string)
    ensures (forall i :: 0 <= i < |terms| ==> SignatureOf(terms[i].variables) != signature) ==>
      CoefficientOf(terms, signature) == N.Zero()
    decreases |terms|
  {
    if terms != [] && forall i :: 0 <= i < |terms| ==> SignatureOf(terms[i].variables) != signature {
      var rest := terms[1..];
      forall i | 0 <= i < |rest| ensures SignatureOf(rest[i].variables) != signature {
        assert rest[i] == terms[i + 1];
      }
      CoefficientOfNone(rest, signature);
    }
  }

  lemma {:induction false} CoefficientOfFirst(terms: seq<Term>, signature: string, k: int)
    requires FirstWithSignature(terms, signature, k)
    ensures CoefficientOf(terms, signature) == terms[k].coefficient
    decreases |terms|
  {
    if k > 0 {
      var rest := terms[1..];
      assert SignatureOf(terms[0].variables) != signature;
      forall i | 0 <= i < k - 1 ensures SignatureOf(rest[i].variables) != signature {
        assert rest[i] == terms[i + 1];
      }
      assert rest[k - 1] == terms[k];
      CoefficientOfFirst(rest, signature, k - 1);
    }
  }

  /** GetCoefficient. */
  method GetCoefficient(p: Polynomial, powers: PowerMap) returns (r: Tr.Node)
    ensures r == CoefficientOf(p.terms, SignatureOf(powers))
  {
    var signature := PowerSignature(powers);
    var i := 0;
    while i < |p.terms|
      invariant 0 <= i <= |p.terms|
      invariant CoefficientOf(p.terms[i..], signature) == CoefficientOf(p.terms, signature)
    {
      assert p.terms[i..][1..] == p.terms[i + 1..];
      var s := PowerSignature(p.terms[i].variables);
      if s == signature {
        return p.terms[i].coefficient;
      }
      i := i + 1;
    }
    return N.Zero();
  }

  /** GetCoefficients' loop: every term sets its signature to its coefficient. */
  function CoefficientTable(terms: seq<Term>): Entries<Tr.Node>
    decreases |terms|
  {
    if terms == [] then []
    else
      var t := terms[|terms| - 1];
      Put(CoefficientTable(terms[..|terms| - 1]), SignatureOf(t.variables), t.coefficient)
  }

  /** GetCoefficients. */
  method GetCoefficients(p: Polynomial) returns (r: Entries<Tr.Node>)
    ensures r == CoefficientTable(p.terms)
  {
    r := [];
    var i := 0;
    while i < |p.terms|
      invariant 0 <= i <= |p.terms|
      invariant r == CoefficientTable(p.terms[..i])
    {
      assert p.terms[..i + 1][..i] == p.terms[..i];
      var s := PowerSignature(p.terms[i].variables);
      r := Put(r, s, p.terms[i].coefficient);
      i := i + 1;
    }
    assert p.terms[..i] == p.terms;
  }

  /** Term k is the last with the signature. */
  predicate LastWithSignature(terms: seq<Term>, signature: string, k: int) {
    && 0 <= k < |terms| && SignatureOf(terms[k].variables) == signature
    && forall i :: k < i < |terms| ==> SignatureOf(terms[i].variables) != signature
  }

  /** GetCoefficients keeps the LAST coefficient of each signature (GetCoefficient reports
      the first), and has an entry exactly for the terms' signatures. */
  lemma {:induction false} CoefficientTableSpec(terms: seq<Term>, signature: string)
    ensures Lookup(CoefficientTable(terms), signature).None?
      <==> forall i :: 0 <= i < |terms| ==> SignatureOf(terms[i].variables) != signature
    ensures forall k :: LastWithSignature(terms, signature, k) ==>
      Lookup(CoefficientTable(terms), signature) == Some(terms[k].coefficient)
    decreases |terms|
  {
    if terms != [] {
      var front := terms[..|terms| - 1];
      var t := terms[|terms| - 1];
      CoefficientTableSpec(front, signature);
      PutLookup(CoefficientTable(front), SignatureOf(t.variables), t.coefficient, signature);
      forall k | LastWithSignature(terms, signature, k)
        ensures Lookup(CoefficientTable(terms), signature) == Some(terms[k].coefficient)
      {
        if k < |terms| - 1 {
          assert LastWithSignature(front, signature, k);
        }
      }
      assert forall i :: 0 <= i < |front| ==> front[i] == terms[i];
    }
  }

  // Structure

  /** The degrees of the terms, in order. */
  function Degrees(terms: seq<Term>): (r: seq<int>)
    ensures |r| == |terms| && forall i :: 0 <= i < |terms| ==> r[i] == terms[i].degree
  {
    seq(|terms|, i requires 0 <= i < |terms| => terms[i].degree)
  }

  /** Each item is at most the next. */
  predicate Ascending(s: seq<int>) {
    forall i :: 0 < i < |s| ==> s[i - 1] <= s[i]
  }

  /** Insert into an ascending sequence before the first larger-or-equal item. */
  function Insert(s: seq<int>, x: int): seq<int>
    decreases |s|
  {
    if s == [] then [x] else if x <= s[0] then [x] + s else [s[0]] + Insert(s[1..], x)
  }

  /** Inserting adds the one item. */
  lemma {:induction false} InsertItems(s: seq<int>, x: int)
    ensures multiset(Insert(s, x)) == multiset(s) + multiset{x}
    decreases |s|
  {
    if s != [] {
      assert s == [s[0]] + s[1..];
      if x > s[0] {
        InsertItems(s[1..], x);
      }
    }
  }

  /** Inserting keeps a sequence ascending. */
  lemma {:induction false} InsertSpec(s: seq<int>, x: int)
    requires Ascending(s)
    ensures Ascending(Insert(s, x)) && multiset(Insert(s, x)) == multiset(s) + multiset{x}
    ensures Insert(s, x)[0] == x || (s != [] && Insert(s, x)[0] == s[0])
    decreases |s|
  {
    InsertItems(s, x);
    if s != [] && x > s[0] {
      var rest := Insert(s[1..], x);
      InsertSpec(s[1..], x);
      var r := Insert(s, x);
      assert r == [s[0]] + rest;
      assert s[0] <= rest[0] by {
        if |s| > 1 {
          assert s[1..][0] == s[1];
        }
      }
      forall i | 0 < i < |r| ensures r[i - 1] <= r[i] {
        if i > 1 {
          assert r[i - 1] == rest[i - 2] && r[i] == rest[i - 1];
        }
      }
    }
  }

  /** `sort((a, b) => b > a)`: the comparator says a goes first when a < b, so the degrees
      come out ascending. */
  function SortAscending(s: seq<int>): seq<int>
    decreases |s|
  {
    if s == [] then [] else Insert(SortAscending(s[..|s| - 1]), s[|s| - 1])
  }

  /** The sort yields the same items in ascending order. */
  lemma {:induction false} SortSpec(s: seq<int>)
    ensures Ascending(SortAscending(s)) && multiset(SortAscending(s)) == multiset(s)
    decreases |s|
  {
    if s != [] {
      SortSpec(s[..|s| - 1]);
      InsertSpec(SortAscending(s[..|s| - 1]), s[|s| - 1]);
      assert s == s[..|s| - 1] + [s[|s| - 1]];
    }
  }

  /** IsEvenFunction: one variable and every degree even. */
  predicate IsEvenFunction(p: Polynomial) {
    |p.variables| == 1 && forall i :: 0 <= i < |p.terms| ==> p.terms[i].degree % 2 == 0
  }

  /** IsOddFunction: one variable and every degree odd. */
  predicate IsOddFunction(p: Polynomial) {
    |p.variables| == 1 && forall i :: 0 <= i < |p.terms| ==> p.terms[i].degree % 2 == 1
  }

  /** DetectSymmetries. */
  function Symmetries(p: Polynomial): seq<Symmetry> {
    (if IsEvenFunction(p) then [Even] else []) + (if IsOddFunction(p) then [Odd] else [])
  }

  /** AnalyzeStructure. */
  function StructureOf(p: Polynomial): Structure {
    var powers := SortAscending(Degrees(p.terms));
    Structure(|p.terms|, powers, 0 in powers, 1 in powers, 2 in powers, 3 in powers, Symmetries(p))
  }

  /** The powers are the term degrees in ascending order; a flag is set exactly when some
      term has that degree. */
  lemma PowersSpec(p: Polynomial, d: int)
    ensures var s := StructureOf(p);
      && Ascending(s.powers)
      && multiset(s.powers) == multiset(Degrees(p.terms))
      && (d in s.powers <==> exists i :: 0 <= i < |p.terms| && p.terms[i].degree == d)
      && (s.hasConstantTerm <==> exists i :: 0 <= i < |p.terms| && p.terms[i].degree == 0)
  {
    var ds := Degrees(p.terms);
    var powers := SortAscending(ds);
    SortSpec(ds);
    InSameItems(powers, ds, d);
    InSameItems(powers, ds, 0);
  }

  /** Two sequences with the same items hold the same values, and a value is in the degrees
      exactly when some term has it. */
  lemma InSameItems(a: seq<int>, ds: seq<int>, x: int)
    requires multiset(a) == multiset(ds)
    ensures x in a <==> x in ds
  {
    assert x in a <==> x in multiset(a);
    assert x in ds <==> x in multiset(ds);
  }

  /** Even and odd symmetry are reported exactly for univariate polynomials whose degrees are
      all even, respectively all odd; never both when there is a term. */
  lemma SymmetrySpec(p: Polynomial)
    ensures Even in Symmetries(p) <==> IsEvenFunction(p)
    ensures Odd in Symmetries(p) <==> IsOddFunction(p)
    ensures |p.terms| > 0 ==> !(Even in Symmetries(p) && Odd in Symmetries(p))
    ensures Even in Symmetries(p) || Odd in Symmetries(p) ==> |p.variables| == 1
  {
    if |p.terms| > 0 {
      assert IsEvenFunction(p) ==> p.terms[0].degree % 2 == 0;
    }
  }

  /** GetTermsOfDegree. */
  function TermsOfDegree(p: Polynomial, d: int): (r: seq<Term>)
    ensures forall t :: t in r <==> t in p.terms && t.degree == d
    decreases |p.terms|
  {
    if p.terms == [] then []
    else
      var rest := TermsOfDegree(p.(terms := p.terms[1..]), d);
      assert forall t :: t in p.terms <==> t == p.terms[0] || t in p.terms[1..];
      if p.terms[0].degree == d then [p.terms[0]] + rest else rest
  }

  /** Analyze: none when the node does not parse, else the polynomial with its
      classification, coefficient table and structure. */
  function AnalyzeSpec(n: Tr.Node): Result<Option<Info>> {
    var p :- ParseSpec(n);
    if p.None? then Ok(None)
    else
      var q := p.value;
      Ok(Some(Info(q, ClassificationOf(q), CoefficientTable(q.terms), StructureOf(q))))
  }

  /** Analyze. */
  method Analyze(n: Tr.Node) returns (r: Result<Option<Info>>)
    ensures r == AnalyzeSpec(n)
  {
    var p := Parse(n);
    if p.Err? {
      return Err(p.error);
    }
    if p.value.None? {
      return Ok(None);
    }
    var q := p.value.value;
    var classification := Classify(q);
    var coefficients := GetCoefficients(q);
    var structure := StructureOf(q);
    return Ok(Some(Info(q, classification, coefficients, structure)));
  }
}
