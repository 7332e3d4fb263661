/** The additive rewrite rules (src/Simplification/AdditionRules.ts). */
module AdditionRules {
  import opened Wrappers
  import opened Match
  import Tr = Tree
  import NT = NodeTests
  import U = NodeUtils
  import N = Nodes
  import L = LiteralUtils
  import Pt = Patterns
  import E = Expansion
  import M = Matcher
  import RS = RuleSupport
  import C = Complexes
  import T = NodeTypes

  /** p + 0 => p */
  function AddZero(): Rule {
    Rule(Pt.Add([Pt.P(), Pt.Zero()]), ["P"], None,
      Some((node: Tr.Node, caps: Captures) => RS.Lookup(caps, "P", node)))
  }

  /** R + R => (R + R): the captures are cast to Literal unchecked; the pattern fixes
      their type, so the fallback is never taken when the rule fires. */
  function LiteralSum(): Rule {
    Rule(Pt.Add([Pt.Capture(Pt.Literal(), "P"), Pt.Capture(Pt.Literal(), "Q")]), ["P", "Q"], None,
      Some((node: Tr.Node, caps: Captures) => SumOf(RS.Lookup(caps, "P", node), RS.Lookup(caps, "Q", node), node)))
  }

  function SumOf(p: Tr.Node, q: Tr.Node, fallback: Tr.Node): Tr.Node {
    if p.Literal? && q.Literal? then L.AddValues([p, q]) else fallback
  }

  /** qp + p => (q + 1)p */
  function LikeTerm(): Rule {
    Rule(Pt.Add([Pt.P(), Pt.Multiply([Pt.Q(), Pt.P()])]), ["P", "Q"], None,
      Some((node: Tr.Node, caps: Captures) =>
        N.Multiply([RS.Lookup(caps, "P", node), U.AddOne(RS.Lookup(caps, "Q", node))])))
  }

  /** qp + rp => (r + q)p */
  function LikeTerms(): Rule {
    Rule(Pt.Add([Pt.Multiply([Pt.Q(), Pt.P()]), Pt.Multiply([Pt.R(), Pt.P()])]), ["P", "Q", "R"], None,
      Some((node: Tr.Node, caps: Captures) =>
        N.Multiply([RS.Lookup(caps, "P", node), N.Add([RS.Lookup(caps, "Q", node), RS.Lookup(caps, "R", node)])])))
  }

  /** The table, in declaration order. */
  function Rules(): seq<Rule> {
    [AddZero(), LiteralSum(), LikeTerm(), LikeTerms()]
  }

  /** Every rule replaces matched summands only: none replaces the whole node. */
  lemma AllChildren()
    ensures |Rules()| == 4
    ensures forall i :: 0 <= i < |Rules()| ==> Rules()[i].node.None? && Rules()[i].children.Some?
  {
  }

  lemma AddZeroShape()
    ensures RS.PairRule(AddZero(), Pt.Only(AddZero().pattern), RS.AnySlot("P"), RS.ValueSlot(0))
    ensures RS.RequiredWithin(AddZero(), RS.AnySlot("P"), RS.ValueSlot(0))
    ensures Pt.Only(AddZero().pattern).kind == Some(T.Add) && Pt.Only(AddZero().pattern).commutative == Some(true)
    ensures RS.ReturnsP(AddZero()) && AddZero().requiredNodes == ["P"]
  {
    RS.SlotPatterns("P");
    RS.SlotFields(Tr.Literal(C.Zero()), "P", 0);
    assert AddZero().requiredNodes == ["P"];
  }

  /** The result of p + 0 on an Add: one summand j is a literal zero, and it and another
      summand i are replaced by that summand i, appended after the untouched ones. */
  predicate ZeroDropped(node: Tr.Node, r: Tr.Node) {
    node.Add? && exists i: nat, j: nat :: (i < |node.args| && j < |node.args| && i != j
      && NT.Zero(node.args[j]) && r == Tr.Add(M.Keep(node.args, {i, j}, 0) + [node.args[i]]))
  }

  /** p + 0 never exceeds the depth limit, and when it fires a zero was dropped. */
  lemma AddZeroSound(node: Tr.Node, maxDepth: int)
    requires maxDepth >= 1
    ensures M.ApplyRule(node, AddZero(), maxDepth).Ok?
    ensures var r := M.ApplyRule(node, AddZero(), maxDepth).value; r.Some? ==> ZeroDropped(node, r.value)
  {
    AddZeroShape();
    RS.IdentitySound(node, AddZero(), Pt.Only(AddZero().pattern), 0, maxDepth);
    var r := M.ApplyRule(node, AddZero(), maxDepth).value;
    if r.Some? {
      Tr.KindOfAdd(node);
      var i: nat, j: nat :| i < |node.args| && j < |node.args| && i != j
        && M.FieldsMatch(node.args[j], Leaf(RS.ValueSlot(0)))
        && r.value == node.WithArgs(M.Keep(node.args, {i, j}, 0) + [node.args[i]]);
      RS.SlotFields(node.args[j], "P", 0);
    }
  }

  /** Conversely, an Add with a literal zero beside any other summand takes the rule. */
  lemma AddZeroComplete(node: Tr.Node, maxDepth: int, i: nat, j: nat)
    requires maxDepth >= 1 && node.Add? && i < |node.args| && j < |node.args| && i != j && NT.Zero(node.args[j])
    ensures M.ApplyRule(node, AddZero(), maxDepth).Ok? && M.ApplyRule(node, AddZero(), maxDepth).value.Some?
  {
    AddZeroShape();
    RS.SlotFields(node.args[j], "P", 0);
    RS.IdentityComplete(node, AddZero(), Pt.Only(AddZero().pattern), 0, maxDepth, i, j);
  }

  // ---- R + R ----

  lemma LiteralSumShape()
    ensures RS.PairRule(LiteralSum(), Pt.Only(LiteralSum().pattern), RS.LiteralSlot("P"), RS.LiteralSlot("Q"))
    ensures RS.RequiredWithin(LiteralSum(), RS.LiteralSlot("P"), RS.LiteralSlot("Q"))
    ensures Pt.Only(LiteralSum().pattern).kind == Some(T.Add) && Pt.Only(LiteralSum().pattern).commutative == Some(true)
    ensures RS.CombinesLiterals(LiteralSum(), C.Add) && LiteralSum().requiredNodes == ["P", "Q"]
    ensures forall x, y :: C.Add(x, y) == C.Add(y, x)
  {
    RS.SlotPatterns("P");
    RS.SlotPatterns("Q");
    RS.SlotFields(Tr.Literal(C.Zero()), "P", 0);
    RS.SlotFields(Tr.Literal(C.Zero()), "Q", 0);
    assert LiteralSum().requiredNodes == ["P", "Q"];
    forall x, y ensures C.Add(x, y) == C.Add(y, x) {
      C.Commute(x, y);
    }
    forall n: Tr.Node, caps: Captures | "P" in caps && "Q" in caps && caps["P"].Literal? && caps["Q"].Literal?
      ensures LiteralSum().children.value(n, caps) == Tr.Literal(C.Add(caps["P"].number, caps["Q"].number))
    {
      L.TwoOperandsCommute(caps["P"], caps["Q"]);
    }
  }

  /** The result of R + R on an Add: two literal summands i < j are replaced by the
      literal of their complex sum, appended after the untouched ones. */
  predicate LiteralsSummed(node: Tr.Node, r: Tr.Node) {
    node.Add? && exists i: nat, j: nat :: (i < j < |node.args|
      && node.args[i].Literal? && node.args[j].Literal?
      && r == Tr.Add(M.Keep(node.args, {i, j}, 0) + [Tr.Literal(C.Add(node.args[i].number, node.args[j].number))]))
  }

  /** R + R never exceeds the depth limit, and when it fires two literals were summed. */
  lemma LiteralSumSound(node: Tr.Node, maxDepth: int)
    requires maxDepth >= 1
    ensures M.ApplyRule(node, LiteralSum(), maxDepth).Ok?
    ensures var r := M.ApplyRule(node, LiteralSum(), maxDepth).value; r.Some? ==> LiteralsSummed(node, r.value)
  {
    LiteralSumShape();
    RS.FoldSound(node, LiteralSum(), Pt.Only(LiteralSum().pattern), C.Add, maxDepth);
    if M.ApplyRule(node, LiteralSum(), maxDepth).value.Some? {
      Tr.KindOfAdd(node);
    }
  }

  /** Conversely, an Add with two literal summands takes the rule. */
  lemma LiteralSumComplete(node: Tr.Node, maxDepth: int, i: nat, j: nat)
    requires maxDepth >= 1 && node.Add? && i < j < |node.args| && node.args[i].Literal? && node.args[j].Literal?
    ensures M.ApplyRule(node, LiteralSum(), maxDepth).Ok? && M.ApplyRule(node, LiteralSum(), maxDepth).value.Some?
  {
    LiteralSumShape();
    RS.FoldComplete(node, LiteralSum(), Pt.Only(LiteralSum().pattern), maxDepth, i, j);
  }

  // ---- the two-level rules ----

  /** qp + p and qp + rp nest one Multiply slot, so they need a depth of 2. */
  lemma NestedHeights()
    ensures E.Height(LikeTerm().pattern) == 2 && E.Height(LikeTerms().pattern) == 2
  {
    RS.SlotPatterns("P");
    RS.HeightOfLeaf(RS.AnySlot("P"));
    RS.HeightOfLeaf(RS.AnySlot("Q"));
    RS.HeightOfLeaf(RS.AnySlot("R"));
    var qp, rp := Pt.Multiply([Pt.Q(), Pt.P()]), Pt.Multiply([Pt.R(), Pt.P()]);
    RS.HeightOfPair(Pt.Only(qp), Pt.Q(), Pt.P());
    RS.HeightOfPair(Pt.Only(rp), Pt.R(), Pt.P());
    RS.HeightOfPair(Pt.Only(LikeTerm().pattern), Pt.P(), qp);
    RS.HeightOfPair(Pt.Only(LikeTerms().pattern), qp, rp);
  }

  /** The result of a two-level rule: an Add with one summand fewer. */
  predicate OneSummandFewer(node: Tr.Node, r: Tr.Node) {
    node.Add? && r.Add? && |r.args| == |node.args| - 1
  }

  /** (q + 1)p, the replacement of qp + p. */
  function LikeTermOf(p: Tr.Node, q: Tr.Node): Tr.Node {
    N.Multiply([p, U.AddOne(q)])
  }

  /** (q + r)p, the replacement of qp + rp. */
  function LikeTermsOf(p: Tr.Node, q: Tr.Node, r: Tr.Node): Tr.Node {
    N.Multiply([p, N.Add([q, r])])
  }

  /** qp + p as a leaf P beside a product over Q and P. */
  lemma LikeTermShape()
    ensures RS.LeafInnerRule(LikeTerm(), Pt.Only(LikeTerm().pattern), Pt.Only(Pt.Multiply([Pt.Q(), Pt.P()])), 1, "Q", LikeTermOf)
  {
    RS.SlotPatterns("Q");
    var rule := LikeTerm();
    forall n: Tr.Node, caps: Captures | "P" in caps && "Q" in caps
      ensures rule.children.value(n, caps) == LikeTermOf(caps["P"], caps["Q"])
    {
    }
  }

  /** qp + rp as two products over P, one with Q and one with R. */
  lemma LikeTermsShape()
    ensures RS.InnerInnerRule(LikeTerms(), Pt.Only(LikeTerms().pattern), Pt.Only(Pt.Multiply([Pt.Q(), Pt.P()])), 1, "Q",
      Pt.Only(Pt.Multiply([Pt.R(), Pt.P()])), 1, "R", LikeTermsOf)
  {
    RS.SlotPatterns("Q");
    RS.SlotPatterns("R");
    var rule := LikeTerms();
    forall n: Tr.Node, caps: Captures | "P" in caps && "Q" in caps && "R" in caps
      ensures rule.children.value(n, caps) == LikeTermsOf(caps["P"], caps["Q"], caps["R"])
    {
    }
  }

  /** qp + p at summands s and t: summand t is a product of two factors whose factor f
      is Equal to summand s; both summands go, the others keep their order, and (q + 1)p
      is appended, p being the earlier of the two Equal nodes and q the other factor. */
  predicate LikeTermAt(node: Tr.Node, s: nat, t: nat, f: nat, r: Tr.Node) {
    node.Add? && RS.LeafInnerRewrite(node, T.Multiply, s, t, f, r, LikeTermOf)
  }

  /** qp + rp at summands u and v: both are products of two factors, factor fu of the
      first Equal to factor fv of the second; both summands go, the others keep their
      order, and (q + r)p is appended, p being the earlier of the two Equal factors, q
      the other factor of u and r the other factor of v. */
  predicate LikeTermsAt(node: Tr.Node, u: nat, v: nat, fu: nat, fv: nat, r: Tr.Node) {
    node.Add? && RS.InnerInnerRewrite(node, T.Multiply, T.Multiply, u, v, fu, fv, r, LikeTermsOf)
  }

  /** qp + p never exceeds a depth of 2, and when it fires it is the rewrite at two
      summands holding p and a product with a factor Equal to p, in either order. */
  lemma LikeTermSound(node: Tr.Node, maxDepth: int)
    requires maxDepth >= 2
    ensures M.ApplyRule(node, LikeTerm(), maxDepth).Ok?
    ensures var r := M.ApplyRule(node, LikeTerm(), maxDepth).value;
      r.Some? ==> (OneSummandFewer(node, r.value) && exists s: nat, t: nat, f: nat :: LikeTermAt(node, s, t, f, r.value))
  {
    NestedHeights();
    LikeTermShape();
    var d := Pt.Only(LikeTerm().pattern);
    var dm := Pt.Only(Pt.Multiply([Pt.Q(), Pt.P()]));
    RS.LeafInnerSound(node, LikeTerm(), d, dm, 1, "Q", LikeTermOf, maxDepth);
    var r := M.ApplyRule(node, LikeTerm(), maxDepth).value;
    if r.Some? {
      var s: nat, t: nat, f: nat :| RS.InnerOrder(dm, 1, f) && RS.LeafInnerRewrite(node, T.Multiply, s, t, f, r.value, LikeTermOf);
      RS.TwoRemoved(node, s, t, LikeTermOf(RS.LeafInnerP(node, s, t, f), node.args[t].args[1 - f]));
      Tr.KindOfAdd(node);
      Tr.KindOfAdd(r.value);
      assert LikeTermAt(node, s, t, f, r.value);
    }
  }

  /** Conversely, qp + p fires on an Add with a summand s and a product t of two factors,
      one of them Equal to summand s. */
  lemma LikeTermComplete(node: Tr.Node, maxDepth: int, s: nat, t: nat, f: nat)
    requires maxDepth >= 2 && node.Add? && RS.LeafInnerAt(node, T.Multiply, s, t, f)
    ensures M.ApplyRule(node, LikeTerm(), maxDepth).Ok? && M.ApplyRule(node, LikeTerm(), maxDepth).value.Some?
  {
    NestedHeights();
    LikeTermShape();
    Tr.KindOfAdd(node);
    RS.LeafInnerComplete(node, LikeTerm(), Pt.Only(LikeTerm().pattern), Pt.Only(Pt.Multiply([Pt.Q(), Pt.P()])), 1, "Q",
      LikeTermOf, maxDepth, s, t, f);
  }

  /** qp + rp never exceeds a depth of 2, and when it fires it is the rewrite at two
      summands that are products sharing an Equal factor. */
  lemma LikeTermsSound(node: Tr.Node, maxDepth: int)
    requires maxDepth >= 2
    ensures M.ApplyRule(node, LikeTerms(), maxDepth).Ok?
    ensures var r := M.ApplyRule(node, LikeTerms(), maxDepth).value;
      r.Some? ==> (OneSummandFewer(node, r.value)
        && exists u: nat, v: nat, fu: nat, fv: nat :: LikeTermsAt(node, u, v, fu, fv, r.value))
  {
    NestedHeights();
    LikeTermsShape();
    var d := Pt.Only(LikeTerms().pattern);
    var dq, dr := Pt.Only(Pt.Multiply([Pt.Q(), Pt.P()])), Pt.Only(Pt.Multiply([Pt.R(), Pt.P()]));
    RS.InnerInnerSound(node, LikeTerms(), d, dq, 1, "Q", dr, 1, "R", LikeTermsOf, maxDepth);
    var r := M.ApplyRule(node, LikeTerms(), maxDepth).value;
    if r.Some? {
      var u: nat, v: nat, fu: nat, fv: nat :| RS.InnerOrder(dq, 1, fu) && RS.InnerOrder(dr, 1, fv)
        && RS.InnerInnerRewrite(node, T.Multiply, T.Multiply, u, v, fu, fv, r.value, LikeTermsOf);
      RS.TwoRemoved(node, u, v, LikeTermsOf(RS.InnerInnerP(node, u, v, fu, fv), node.args[u].args[1 - fu], node.args[v].args[1 - fv]));
      Tr.KindOfAdd(node);
      Tr.KindOfAdd(r.value);
      assert LikeTermsAt(node, u, v, fu, fv, r.value);
    }
  }

  /** Conversely, qp + rp fires on an Add with two summands that are products of two
      factors sharing an Equal factor. */
  lemma LikeTermsComplete(node: Tr.Node, maxDepth: int, u: nat, v: nat, fu: nat, fv: nat)
    requires maxDepth >= 2 && node.Add? && RS.InnerInnerAt(node, T.Multiply, T.Multiply, u, v, fu, fv)
    ensures M.ApplyRule(node, LikeTerms(), maxDepth).Ok? && M.ApplyRule(node, LikeTerms(), maxDepth).value.Some?
  {
    NestedHeights();
    LikeTermsShape();
    Tr.KindOfAdd(node);
    RS.InnerInnerComplete(node, LikeTerms(), Pt.Only(LikeTerms().pattern), Pt.Only(Pt.Multiply([Pt.Q(), Pt.P()])), 1, "Q",
      Pt.Only(Pt.Multiply([Pt.R(), Pt.P()])), 1, "R", LikeTermsOf, maxDepth, u, v, fu, fv);
  }
}
