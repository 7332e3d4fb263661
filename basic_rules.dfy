/** The combined rule list of src/Simplification/BasicRules.ts. Each of its nine entries
    is written out again there; they are the same rules as the power, additive and
    multiplicative tables (BasicNodes.Zero and NegativeOne build the same literals as
    Nodes.Zero and NegativeOne, and the lower-case `addValues`/`multiplyValues` it calls
    are AddValues and MultiplyValues), so the model reuses those definitions. */
module BasicRules {
  import opened Wrappers
  import opened Match
  import Tr = Tree
  import B = BasicNodes
  import N = Nodes
  import Pt = Patterns
  import T = NodeTypes
  import ER = ExponentiationRules
  import AR = AdditionRules
  import MR = MultiplicationRules

  /** The list as written, with the whole-node Literal * -1 and the P * P that reads Q. */
  function RulesAsWritten(): seq<Rule> {
    [ER.ExpZero(), ER.ExpOne(), AR.AddZero(), AR.LiteralSum(),
     MR.MulZero(), MR.MulOne(), MR.NegLiteralAsWritten(), MR.LiteralProduct(), MR.PSquaredAsWritten()]
  }

  /** The list with the two corrected rules in their places. */
  function Rules(): seq<Rule> {
    [ER.ExpZero(), ER.ExpOne(), AR.AddZero(), AR.LiteralSum(),
     MR.MulZero(), MR.MulOne(), MR.NegLiteral(), MR.LiteralProduct(), MR.PSquared()]
  }

  /** The constructors the duplicated entries call build the same nodes. */
  lemma SameConstants()
    ensures B.Zero() == N.Zero() && B.NegativeOne() == N.NegativeOne() && B.One() == N.One()
  {
  }

  /** The list is the power rules, then the first two additive rules, then the first five
      multiplicative rules; the like-term and power-product rules are not in it. */
  lemma Composition()
    ensures RulesAsWritten() == ER.Rules() + AR.Rules()[..2] + MR.RulesAsWritten()[..5]
    ensures Rules() == ER.Rules() + AR.Rules()[..2] + MR.Rules()[..5]
    ensures |Rules()| == 9
  {
  }

  /** P^0, P^1 and P * 0 replace the whole node (and Literal * -1 as written); every other
      entry replaces matched arguments only. The first two are power patterns, the next
      two sums and the rest products. */
  lemma Replacements()
    ensures forall k :: 0 <= k < 9 ==> (RulesAsWritten()[k].node.Some? <==> k == 0 || k == 1 || k == 4 || k == 6)
    ensures forall k :: 0 <= k < 9 ==> (Rules()[k].node.Some? <==> k == 0 || k == 1 || k == 4)
    ensures forall k :: 0 <= k < 9 ==>
      && |Rules()[k].pattern.alternatives| == 1
      && Pt.Only(Rules()[k].pattern).kind == Some(if k < 2 then T.Exponentiation else if k < 4 then T.Add else T.Multiply)
  {
  }
}
