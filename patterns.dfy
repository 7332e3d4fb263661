/** The pattern builders and literal-class patterns of src/Matching/Patterns.ts. */
module Patterns {
  import opened Wrappers
  import opened Match
  import C = Complexes
  import F = Fractions
  import Tr = Tree
  import T = NodeTypes
  import B = BasicNodes
  import E = Expansion
  import M = Matcher

  /** specialNode: sets the capture name on every alternative. */
  function Capture(p: Pattern, name: string): Pattern {
    var alts := p.alternatives;
    Pattern(seq(|alts|, i requires 0 <= i < |alts| => alts[i].(capture := Some(name))))
  }

  function Add(slots: seq<Pattern>): Pattern {
    Pattern([DetectionNode(Some(T.Add), None, None, Slots(slots), None, None, Some(true))])
  }

  function Subtract(a: Pattern, b: Pattern): Pattern {
    Pattern([DetectionNode(Some(T.Add), None, None, Slots([a, Negative(b)]), None, None, Some(true))])
  }

  function Multiply(slots: seq<Pattern>): Pattern {
    Pattern([DetectionNode(Some(T.Multiply), None, None, Slots(slots), None, None, Some(true))])
  }

  /** As written: the exponent slot is Negative(b), not the literal -1. */
  function Divide(a: Pattern, b: Pattern): Pattern {
    Pattern([DetectionNode(Some(T.Multiply), None, None, Slots([a, Exponentiation(b, Negative(b))]), None, None, Some(true))])
  }

  /** The divide pattern with the exponent -1 that Nodes.Divide builds. */
  function DivideIntended(a: Pattern, b: Pattern): Pattern {
    Pattern([DetectionNode(Some(T.Multiply), None, None, Slots([a, Exponentiation(b, NegativeOne())]), None, None, Some(true))])
  }

  function Exponentiation(a: Pattern, b: Pattern): Pattern {
    Pattern([DetectionNode(Some(T.Exponentiation), None, None, Slots([a, b]), None, None, None)])
  }

  function Negative(p: Pattern): Pattern {
    Multiply([p, NegativeOne()])
  }

  function OfType(k: T.NodeType): Pattern {
    Pattern([Blank().(kind := Some(k))])
  }

  function Variable(): Pattern { OfType(T.Variable) }
  function Literal(): Pattern { OfType(T.Literal) }
  function AllComplex(): Pattern { OfType(T.Literal) }

  function LiteralOf(v: int): Pattern {
    Pattern([Blank().(kind := Some(T.Literal), number := Some(C.FromNumber(v)))])
  }

  function Zero(): Pattern { LiteralOf(0) }
  function One(): Pattern { LiteralOf(1) }
  function NegativeOne(): Pattern { LiteralOf(-1) }

  function Wildcard(): Pattern { Pattern([Blank()]) }

  function P(): Pattern { Capture(Wildcard(), "P") }
  function Q(): Pattern { Capture(Wildcard(), "Q") }
  function R(): Pattern { Capture(Wildcard(), "R") }
  function S(): Pattern { Capture(Wildcard(), "S") }

  function Classified(conds: seq<Condition>): Pattern {
    Pattern([Blank().(kind := Some(T.Literal), conditions := Some(conds))])
  }

  const IntegerConditions: seq<Condition> := [
    Condition(RealDenominator, Eq(1)), Condition(RealNumerator, Integral),
    Condition(ImaginaryDenominator, Eq(1)), Condition(ImaginaryNumerator, Eq(0))]
  const RationalConditions: seq<Condition> := [
    Condition(ImaginaryNumerator, Eq(0)), Condition(ImaginaryDenominator, Eq(1))]
  const ImaginaryConditions: seq<Condition> := [
    Condition(RealNumerator, Eq(0)), Condition(RealDenominator, Eq(1)), Condition(ImaginaryNumerator, Ne(0))]

  function Integers(): Pattern { Classified(IntegerConditions) }
  function PositiveIntegers(): Pattern { Classified(IntegerConditions + [Condition(RealNumerator, Ge(0))]) }
  function NegativeIntegers(): Pattern { Classified(IntegerConditions + [Condition(RealNumerator, Lt(0))]) }
  function Rationals(): Pattern { Classified(RationalConditions) }
  /** As written: the sign test reads the imaginary numerator. */
  function PositiveRationals(): Pattern { Classified(RationalConditions + [Condition(ImaginaryNumerator, Ge(0))]) }
  function NegativeRationals(): Pattern { Classified(RationalConditions + [Condition(ImaginaryNumerator, Lt(0))]) }
  /** The sign tests on the real numerator, as PositiveReals and NegativeReals make them. */
  function PositiveRationalsIntended(): Pattern { Classified(RationalConditions + [Condition(RealNumerator, Ge(0))]) }
  function NegativeRationalsIntended(): Pattern { Classified(RationalConditions + [Condition(RealNumerator, Lt(0))]) }
  function Reals(): Pattern { Classified(RationalConditions) }
  function PositiveReals(): Pattern { Classified(RationalConditions + [Condition(RealNumerator, Ge(0))]) }
  function NegativeReals(): Pattern { Classified(RationalConditions + [Condition(RealNumerator, Lt(0))]) }
  function Imaginaries(): Pattern { Classified(ImaginaryConditions) }
  function PositiveImaginaries(): Pattern { Classified(ImaginaryConditions + [Condition(ImaginaryNumerator, Ge(0))]) }
  function NegativeImaginaries(): Pattern { Classified(ImaginaryConditions + [Condition(ImaginaryNumerator, Lt(0))]) }
  function Complex(): Pattern {
    Classified([Condition(RealNumerator, Ne(0)), Condition(ImaginaryNumerator, Ne(0))])
  }

  // ---- properties ----

  /** The single alternative of a builder's result. */
  function Only(p: Pattern): DetectionNode
    requires |p.alternatives| == 1
  {
    p.alternatives[0]
  }

  /** Add and Multiply give one commutative alternative with one slot per argument pattern;
      Exponentiation is not commutative and has the slots [base, exponent]. */
  lemma BuilderShapes(slots: seq<Pattern>, a: Pattern, b: Pattern)
    ensures |Add(slots).alternatives| == 1 && Only(Add(slots)).kind == Some(T.Add)
      && Only(Add(slots)).commutative == Some(true) && Only(Add(slots)).args == Slots(slots)
    ensures |Multiply(slots).alternatives| == 1 && Only(Multiply(slots)).kind == Some(T.Multiply)
      && Only(Multiply(slots)).commutative == Some(true) && Only(Multiply(slots)).args == Slots(slots)
    ensures |Exponentiation(a, b).alternatives| == 1 && Only(Exponentiation(a, b)).kind == Some(T.Exponentiation)
      && Only(Exponentiation(a, b)).commutative != Some(true) && Only(Exponentiation(a, b)).args == Slots([a, b])
  {
  }

  /** Subtract is Add with a negated second slot, Negative multiplies by -1, and Divide's
      exponent slot is the negated divisor, which is not the pattern of -1. */
  lemma DerivedBuilders(a: Pattern, b: Pattern)
    ensures Subtract(a, b) == Add([a, Negative(b)])
    ensures Negative(b) == Multiply([b, NegativeOne()])
    ensures Divide(a, b) == Multiply([a, Exponentiation(b, Negative(b))])
    ensures Negative(b) != NegativeOne()
  {
    assert Only(Negative(b)).kind != Only(NegativeOne()).kind;
  }

  /** A capture keeps every alternative, changing only its capture name. */
  lemma CaptureKeepsFields(p: Pattern, name: string)
    ensures |Capture(p, name).alternatives| == |p.alternatives|
    ensures forall i :: 0 <= i < |p.alternatives| ==>
      (Capture(p, name).alternatives[i].capture == Some(name)
       && Capture(p, name).alternatives[i].(capture := p.alternatives[i].capture) == p.alternatives[i])
  {
  }

  /** Wildcard is the single empty alternative, and P..S capture it. */
  lemma SpecialNodesShape()
    ensures Wildcard() == Pattern([Blank()])
    ensures P() == Pattern([Blank().(capture := Some("P"))]) && Q() == Pattern([Blank().(capture := Some("Q"))])
    ensures R() == Pattern([Blank().(capture := Some("R"))]) && S() == Pattern([Blank().(capture := Some("S"))])
  {
  }

  /** Zero, One and NegativeOne fix the number v/1 + 0/1 i. */
  lemma UnitPatterns(v: int)
    ensures |LiteralOf(v).alternatives| == 1
    ensures Only(LiteralOf(v)).number == Some(C.Complex(F.Fraction(v, 1), F.Fraction(0, 1)))
    ensures Only(LiteralOf(v)).kind == Some(T.Literal) && Only(LiteralOf(v)).args.NoSlots?
  {
  }

  /** What the Integers conditions accept: a literal n/1 + 0/1 i. */
  lemma IntegersMeaning(n: Tr.Node)
    ensures ConditionsHold(Only(Integers()).conditions, n)
      <==> n.Literal? && n.number.re.denominator == 1 && n.number.im == F.Fraction(0, 1)
  {
    if n.Literal? && n.number.re.denominator == 1 && n.number.im == F.Fraction(0, 1) {
      assert n.number.re.numerator % 1 == 0;
    }
    if ConditionsHold(Only(Integers()).conditions, n) {
      assert Holds(IntegerConditions[0], n) && Holds(IntegerConditions[2], n) && Holds(IntegerConditions[3], n);
    }
  }

  /** What the Rationals (and Reals) conditions accept: any literal with imaginary part
      field-wise 0/1, whatever its real denominator. */
  lemma RationalsMeaning(n: Tr.Node)
    ensures ConditionsHold(Only(Rationals()).conditions, n) <==> n.Literal? && n.number.im == F.Fraction(0, 1)
    ensures Reals() == Rationals()
  {
    if ConditionsHold(Only(Rationals()).conditions, n) {
      assert Holds(RationalConditions[0], n) && Holds(RationalConditions[1], n);
    }
  }

  /** PositiveRationals tests the imaginary numerator, so -3 passes it while it fails
      PositiveReals, and NegativeRationals accepts no real number at all. */
  lemma RationalSignReadsImaginary(n: Tr.Node)
    ensures ConditionsHold(Only(PositiveRationals()).conditions, B.Literal(-3))
    ensures !ConditionsHold(Only(PositiveReals()).conditions, B.Literal(-3))
    ensures !ConditionsHold(Only(NegativeRationals()).conditions, n)
  {
    var conds := Only(PositiveReals()).conditions.value;
    assert !Holds(conds[2], B.Literal(-3));
    var neg := Only(NegativeRationals()).conditions.value;
    if ConditionsHold(Only(NegativeRationals()).conditions, n) {
      assert Holds(neg[0], n) && Holds(neg[2], n);
    }
  }

  /** A quotient carries the literal -1 as its exponent. No instance of Divide's exponent
      slot as written matches it, since every instance is a product; the corrected slot is
      the single -1 literal instance, which matches it under any captures. */
  lemma DivideExponentSlot(a: Pattern, b: Pattern, caps: Captures)
    ensures Divide(a, b) == Multiply([a, Exponentiation(b, Negative(b))])
    ensures DivideIntended(a, b) == Multiply([a, Exponentiation(b, NegativeOne())])
    ensures forall m :: m in E.Expand(Negative(b)) ==> M.MatchSingle(B.Literal(-1), m, caps).None?
    ensures E.Expand(NegativeOne()) == [Leaf(Only(NegativeOne()))]
    ensures M.MatchSingle(B.Literal(-1), Leaf(Only(NegativeOne())), caps) == Some(caps)
  {
    var d := Only(Negative(b));
    E.ExpandSingle(d);
    E.ExpandNodeShaped(d);
    E.ExpandSingle(Only(NegativeOne()));
    E.ExpandNodeCount(Only(NegativeOne()));
  }

  /** With the sign read from the real numerator, the signed rational classes accept exactly
      the real literals of that sign. */
  lemma RationalSignIntended(n: Tr.Node)
    ensures ConditionsHold(Only(PositiveRationalsIntended()).conditions, n)
      <==> n.Literal? && n.number.im == F.Fraction(0, 1) && n.number.re.numerator >= 0
    ensures ConditionsHold(Only(NegativeRationalsIntended()).conditions, n)
      <==> n.Literal? && n.number.im == F.Fraction(0, 1) && n.number.re.numerator < 0
  {
    var pos := Only(PositiveRationalsIntended()).conditions.value;
    var neg := Only(NegativeRationalsIntended()).conditions.value;
    if ConditionsHold(Only(PositiveRationalsIntended()).conditions, n) {
      assert Holds(pos[0], n) && Holds(pos[1], n) && Holds(pos[2], n);
    }
    if ConditionsHold(Only(NegativeRationalsIntended()).conditions, n) {
      assert Holds(neg[0], n) && Holds(neg[1], n) && Holds(neg[2], n);
    }
  }
}
