/** Folding literal operands (src/Node/Literal.ts). */
module LiteralUtils {
  import C = Complexes
  import Tr = Tree

  predicate AllLiterals(nodes: seq<Tr.Node>) {
    forall i :: 0 <= i < |nodes| ==> nodes[i].Literal?
  }

  predicate AllProper(nodes: seq<Tr.Node>) {
    forall i :: 0 <= i < |nodes| ==> nodes[i].Literal? && C.Proper(nodes[i].number)
  }

  /** `reduce` with no seed: a left fold of ComplexUtils.Add starting from the first number. */
  function SumNumbers(nodes: seq<Tr.Node>): C.Complex
    requires |nodes| > 0 && AllLiterals(nodes)
  {
    if |nodes| == 1 then nodes[0].number
    else C.Add(SumNumbers(nodes[..|nodes| - 1]), nodes[|nodes| - 1].number)
  }

  function ProductNumbers(nodes: seq<Tr.Node>): C.Complex
    requires |nodes| > 0 && AllLiterals(nodes)
  {
    if |nodes| == 1 then nodes[0].number
    else C.Multiply(ProductNumbers(nodes[..|nodes| - 1]), nodes[|nodes| - 1].number)
  }

  /** LiteralUtils.AddValues; an empty list is a host error (reduce of an empty array). */
  function AddValues(nodes: seq<Tr.Node>): Tr.Node
    requires |nodes| > 0 && AllLiterals(nodes)
  {
    Tr.Literal(SumNumbers(nodes))
  }

  function MultiplyValues(nodes: seq<Tr.Node>): Tr.Node
    requires |nodes| > 0 && AllLiterals(nodes)
  {
    Tr.Literal(ProductNumbers(nodes))
  }

  /** Independent references: the sums of the real and imaginary values. */
  function ReSum(nodes: seq<Tr.Node>): real
    requires AllProper(nodes)
  {
    if nodes == [] then 0.0
    else
      assert AllProper(nodes[1..]) by { assert forall i :: 0 <= i < |nodes| - 1 ==> nodes[1..][i] == nodes[i + 1]; }
      C.Re(nodes[0].number) + ReSum(nodes[1..])
  }

  function ImSum(nodes: seq<Tr.Node>): real
    requires AllProper(nodes)
  {
    if nodes == [] then 0.0
    else
      assert AllProper(nodes[1..]) by { assert forall i :: 0 <= i < |nodes| - 1 ==> nodes[1..][i] == nodes[i + 1]; }
      C.Im(nodes[0].number) + ImSum(nodes[1..])
  }

  lemma {:induction false} SumsSnoc(nodes: seq<Tr.Node>, x: Tr.Node)
    requires AllProper(nodes) && x.Literal? && C.Proper(x.number)
    ensures AllProper(nodes + [x])
    ensures ReSum(nodes + [x]) == ReSum(nodes) + C.Re(x.number)
    ensures ImSum(nodes + [x]) == ImSum(nodes) + C.Im(x.number)
  {
    assert forall i :: 0 <= i < |nodes| ==> nodes[i] == (nodes + [x])[i];
    assert (nodes + [x])[|nodes|] == x;
    if nodes != [] {
      assert (nodes + [x])[1..] == nodes[1..] + [x];
      SumsSnoc(nodes[1..], x);
    } else {
      assert (nodes + [x])[1..] == [];
    }
  }

  /** A single operand is returned without re-simplification. */
  lemma SingleOperand(n: Tr.Node)
    requires n.Literal?
    ensures AddValues([n]) == n && MultiplyValues([n]) == n
  {
  }

  /** Two operands fold to the same literal in either order. */
  lemma TwoOperandsCommute(p: Tr.Node, q: Tr.Node)
    requires p.Literal? && q.Literal?
    ensures AddValues([p, q]) == AddValues([q, p]) && MultiplyValues([p, q]) == MultiplyValues([q, p])
    ensures AddValues([p, q]) == Tr.Literal(C.Add(p.number, q.number))
    ensures MultiplyValues([p, q]) == Tr.Literal(C.Multiply(p.number, q.number))
  {
    TwoNumbers(p, q);
    TwoNumbers(q, p);
    C.Commute(p.number, q.number);
  }

  lemma TwoNumbers(p: Tr.Node, q: Tr.Node)
    requires p.Literal? && q.Literal?
    ensures SumNumbers([p, q]) == C.Add(p.number, q.number)
    ensures ProductNumbers([p, q]) == C.Multiply(p.number, q.number)
  {
    assert [p, q][..1] == [p];
  }

  /** AddValues computes the exact sum; from two operands on the result is normalised. */
  lemma {:induction false} AddValuesIsSum(nodes: seq<Tr.Node>)
    requires |nodes| > 0 && AllProper(nodes)
    ensures C.Proper(SumNumbers(nodes))
    ensures C.Re(SumNumbers(nodes)) == ReSum(nodes) && C.Im(SumNumbers(nodes)) == ImSum(nodes)
    ensures |nodes| >= 2 ==> C.Normal(SumNumbers(nodes))
  {
    if |nodes| == 1 {
      assert nodes[1..] == [];
    } else {
      var init, last := nodes[..|nodes| - 1], nodes[|nodes| - 1];
      assert nodes == init + [last];
      assert AllProper(init) by {
        assert forall i :: 0 <= i < |init| ==> init[i] == nodes[i];
      }
      SumsSnoc(init, last);
      AddValuesIsSum(init);
      C.AddIsSum(SumNumbers(init), last.number);
    }
  }

  /** A complex value as a pair of reals, the reference the folds are compared with. */
  datatype Exact = Exact(re: real, im: real)

  function Value(c: C.Complex): Exact requires C.Proper(c) {
    Exact(C.Re(c), C.Im(c))
  }

  /** (a + bi)(c + di) = (ac - bd) + (ad + bc)i on exact values. */
  function ExactProduct(p: Exact, x: Exact): Exact {
    Exact(p.re * x.re - p.im * x.im, p.re * x.im + p.im * x.re)
  }

  /** The exact product of complex values, folded left. */
  function ProductValue(nodes: seq<Tr.Node>): Exact
    requires |nodes| > 0 && AllProper(nodes)
  {
    if |nodes| == 1 then Value(nodes[0].number)
    else ExactProduct(ProductValue(nodes[..|nodes| - 1]), Value(nodes[|nodes| - 1].number))
  }

  lemma {:induction false} MultiplyValuesIsProduct(nodes: seq<Tr.Node>)
    requires |nodes| > 0 && AllProper(nodes)
    ensures C.Proper(ProductNumbers(nodes))
    ensures Value(ProductNumbers(nodes)) == ProductValue(nodes)
    ensures |nodes| >= 2 ==> C.Normal(ProductNumbers(nodes))
  {
    if |nodes| > 1 {
      var init := nodes[..|nodes| - 1];
      assert AllProper(init) by {
        assert forall i :: 0 <= i < |init| ==> init[i] == nodes[i];
      }
      MultiplyValuesIsProduct(init);
      var p, last := ProductNumbers(init), nodes[|nodes| - 1].number;
      assert ProductNumbers(nodes) == C.Multiply(p, last);
      MultiplyStep(p, last);
    }
  }

  lemma MultiplyStep(p: C.Complex, x: C.Complex)
    requires C.Proper(p) && C.Proper(x)
    ensures C.Normal(C.Multiply(p, x))
    ensures Value(C.Multiply(p, x)) == ExactProduct(Value(p), Value(x))
  {
    MultiplyParts(p, x);
    ExactProductOfParts(p, x);
  }

  /** The product's value, written on the parts of its operands. */
  lemma MultiplyParts(p: C.Complex, x: C.Complex)
    requires C.Proper(p) && C.Proper(x)
    ensures C.Normal(C.Multiply(p, x))
    ensures Value(C.Multiply(p, x))
      == Exact(C.Re(p) * C.Re(x) - C.Im(p) * C.Im(x), C.Re(p) * C.Im(x) + C.Im(p) * C.Re(x))
  {
    C.ProductReValue(p, x);
    C.ProductImValue(p, x);
  }

  lemma ExactProductOfParts(p: C.Complex, x: C.Complex)
    requires C.Proper(p) && C.Proper(x)
    ensures ExactProduct(Value(p), Value(x))
      == Exact(C.Re(p) * C.Re(x) - C.Im(p) * C.Im(x), C.Re(p) * C.Im(x) + C.Im(p) * C.Re(x))
  {
  }
}
