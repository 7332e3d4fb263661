/** The power rules (src/Simplification/ExponentiationRules.ts). Both replace the whole
    node, and Exponentiation patterns are not commutative, so each fires only on a power
    whose two arguments match the slots in order. */
module ExponentiationRules {
  import opened Wrappers
  import opened Match
  import Tr = Tree
  import NT = NodeTests
  import B = BasicNodes
  import Pt = Patterns
  import M = Matcher
  import RS = RuleSupport
  import C = Complexes

  /** P^0 -> 1: any base, no required captures. */
  function ExpZero(): Rule {
    Rule(Pt.Exponentiation(Pt.Wildcard(), Pt.Zero()), [], Some((node: Tr.Node, caps: Captures) => B.One()), None)
  }

  /** P^1 -> P */
  function ExpOne(): Rule {
    Rule(Pt.Exponentiation(Pt.P(), Pt.One()), ["P"],
      Some((node: Tr.Node, caps: Captures) => RS.Lookup(caps, "P", node)), None)
  }

  function Rules(): seq<Rule> {
    [ExpZero(), ExpOne()]
  }

  lemma ExpZeroShape()
    ensures RS.ExactRule(ExpZero(), Pt.Only(ExpZero().pattern), Blank(), RS.ValueSlot(0))
  {
    RS.SlotPatterns("P");
    Pt.SpecialNodesShape();
  }

  lemma ExpOneShape()
    ensures RS.ExactRule(ExpOne(), Pt.Only(ExpOne().pattern), RS.AnySlot("P"), RS.ValueSlot(1))
  {
    RS.SlotPatterns("P");
    assert ExpOne().requiredNodes[0] in RS.Names(RS.AnySlot("P"));
  }

  /** P^0 fires exactly on a two-argument power whose exponent is a literal 0, and gives 1. */
  lemma ExpZeroSound(node: Tr.Node, maxDepth: int)
    requires maxDepth >= 1
    ensures M.ApplyRule(node, ExpZero(), maxDepth).Ok?
    ensures var r := M.ApplyRule(node, ExpZero(), maxDepth).value;
      && (r.Some? <==> node.Exponentiation? && |node.args| == 2 && NT.Zero(node.args[1]))
      && (r.Some? ==> r.value == B.One())
  {
    ExpZeroShape();
    var d := Pt.Only(ExpZero().pattern);
    RS.ExactSound(node, ExpZero(), d, Blank(), RS.ValueSlot(0), maxDepth);
    Tr.KindOfAdd(node);
    if node.Exponentiation? && |node.args| == 2 {
      RS.SlotFields(node.args[1], "P", 0);
      assert M.FieldsMatch(node.args[0], Leaf(Blank()));
    }
  }

  /** P^1 fires exactly on a two-argument power whose exponent is a literal 1, and gives
      the base. */
  lemma ExpOneSound(node: Tr.Node, maxDepth: int)
    requires maxDepth >= 1
    ensures M.ApplyRule(node, ExpOne(), maxDepth).Ok?
    ensures var r := M.ApplyRule(node, ExpOne(), maxDepth).value;
      && (r.Some? <==> node.Exponentiation? && |node.args| == 2 && NT.One(node.args[1]))
      && (r.Some? ==> r.value == node.args[0])
  {
    ExpOneShape();
    var d := Pt.Only(ExpOne().pattern);
    RS.ExactSound(node, ExpOne(), d, RS.AnySlot("P"), RS.ValueSlot(1), maxDepth);
    Tr.KindOfAdd(node);
    if node.Exponentiation? && |node.args| == 2 {
      RS.SlotFields(node.args[0], "P", 1);
      RS.SlotFields(node.args[1], "P", 1);
      RS.SlotCaptures(node.args[0], node.args[1], "P", "Q", 1);
    }
  }
}
