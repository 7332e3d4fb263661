/** The multiplicative rewrite rules (src/Simplification/MultiplicationRules.ts). Two
    rules are modelled twice: as written, and as evidently intended (see README). */
module MultiplicationRules {
  import opened Wrappers
  import opened Match
  import Tr = Tree
  import NT = NodeTests
  import U = NodeUtils
  import N = Nodes
  import B = BasicNodes
  import L = LiteralUtils
  import Pt = Patterns
  import E = Expansion
  import M = Matcher
  import RS = RuleSupport
  import C = Complexes
  import T = NodeTypes

  /** P * 0 => 0 */
  function MulZero(): Rule {
    Rule(Pt.Multiply([Pt.Zero()]), [], Some((node: Tr.Node, caps: Captures) => N.Zero()), None)
  }

  /** P * 1 => P */
  function MulOne(): Rule {
    Rule(Pt.Multiply([Pt.P(), Pt.One()]), ["P"], None,
      Some((node: Tr.Node, caps: Captures) => RS.Lookup(caps, "P", node)))
  }

  /** The literal times -1; the capture is cast to Literal unchecked, and the pattern fixes
      its type, so the fallback is never taken when the rule fires. */
  function Negated(p: Tr.Node): Tr.Node {
    if p.Literal? then L.MultiplyValues([p, N.NegativeOne()]) else p
  }

  /** Literal * -1 as written: a `node` rule, so the whole product is replaced by the
      negated literal and every other factor is lost. */
  function NegLiteralAsWritten(): Rule {
    Rule(Pt.Multiply([Pt.Capture(Pt.Literal(), "P"), Pt.NegativeOne()]), ["P"],
      Some((node: Tr.Node, caps: Captures) => Negated(RS.Lookup(caps, "P", node))), None)
  }

  /** Literal * -1 as intended: the two matched factors become the negated literal. */
  function NegLiteral(): Rule {
    Rule(Pt.Multiply([Pt.Capture(Pt.Literal(), "P"), Pt.NegativeOne()]), ["P"], None,
      Some((node: Tr.Node, caps: Captures) => Negated(RS.Lookup(caps, "P", node))))
  }

  function ProductOf(p: Tr.Node, q: Tr.Node, fallback: Tr.Node): Tr.Node {
    if p.Literal? && q.Literal? then L.MultiplyValues([p, q]) else fallback
  }

  /** Literal * Literal => Literal */
  function LiteralProduct(): Rule {
    Rule(Pt.Multiply([Pt.Capture(Pt.Literal(), "P"), Pt.Capture(Pt.Literal(), "Q")]), ["P", "Q"], None,
      Some((node: Tr.Node, caps: Captures) => ProductOf(RS.Lookup(caps, "P", node), RS.Lookup(caps, "Q", node), node)))
  }

  /** P * P as written: the exponent is nodes["Q"], which the pattern never binds. The
      array [P, nil] has length 1, so the power is left with its base alone. */
  function PSquaredAsWritten(): Rule {
    Rule(Pt.Multiply([Pt.P(), Pt.P()]), ["P"], None,
      Some((node: Tr.Node, caps: Captures) =>
        Tr.Exponentiation([RS.Lookup(caps, "P", node)] + (if "Q" in caps then [caps["Q"]] else []))))
  }

  /** P * P => P^2, as the rule's comment says. */
  function PSquared(): Rule {
    Rule(Pt.Multiply([Pt.P(), Pt.P()]), ["P"], None,
      Some((node: Tr.Node, caps: Captures) => B.Exponentiation(RS.Lookup(caps, "P", node), B.Literal(2))))
  }

  /** P * P^Q => P^(Q+1) */
  function PTimesPower(): Rule {
    Rule(Pt.Multiply([Pt.P(), Pt.Exponentiation(Pt.P(), Pt.Q())]), ["P", "Q"], None,
      Some((node: Tr.Node, caps: Captures) =>
        B.Exponentiation(RS.Lookup(caps, "P", node), U.AddOne(RS.Lookup(caps, "Q", node)))))
  }

  /** P^Q * P^R => P^(Q+R) */
  function PowerTimesPower(): Rule {
    Rule(Pt.Multiply([Pt.Exponentiation(Pt.P(), Pt.Q()), Pt.Exponentiation(Pt.P(), Pt.R())]), ["P", "Q", "R"], None,
      Some((node: Tr.Node, caps: Captures) =>
        B.Exponentiation(RS.Lookup(caps, "P", node), B.Add([RS.Lookup(caps, "Q", node), RS.Lookup(caps, "R", node)]))))
  }

  /** The table as written, in declaration order. */
  function RulesAsWritten(): seq<Rule> {
    [MulZero(), MulOne(), NegLiteralAsWritten(), LiteralProduct(), PSquaredAsWritten(), PTimesPower(), PowerTimesPower()]
  }

  /** The table with the two corrected rules in their places. */
  function Rules(): seq<Rule> {
    [MulZero(), MulOne(), NegLiteral(), LiteralProduct(), PSquared(), PTimesPower(), PowerTimesPower()]
  }

  /** The corrected table differs from the written one in the third and fifth rules only,
      and only P * 0 replaces the whole node. */
  lemma TablesDiffer()
    ensures |RulesAsWritten()| == |Rules()| == 7
    ensures forall k :: 0 <= k < 7 && k != 2 && k != 4 ==> Rules()[k] == RulesAsWritten()[k]
    ensures Rules()[2].pattern == RulesAsWritten()[2].pattern && Rules()[2].node.None? && RulesAsWritten()[2].node.Some?
    ensures Rules()[4].pattern == RulesAsWritten()[4].pattern
    ensures forall k :: 1 <= k < 7 ==> Rules()[k].node.None? && Rules()[k].children.Some?
    ensures Rules()[0].node.Some?
  {
  }

  // ---- P * 0 ----

  lemma MulZeroShape()
    ensures RS.SingleRule(MulZero(), Pt.Only(MulZero().pattern), RS.ValueSlot(0))
    ensures RS.RequiredWithin(MulZero(), RS.ValueSlot(0), RS.ValueSlot(0))
    ensures Pt.Only(MulZero().pattern).kind == Some(T.Multiply)
  {
    RS.SlotPatterns("P");
  }

  /** P * 0 never exceeds a depth of 1; when it fires the node is a product with a zero
      factor, and the result is 0. */
  lemma MulZeroSound(node: Tr.Node, maxDepth: int)
    requires maxDepth >= 1
    ensures M.ApplyRule(node, MulZero(), maxDepth).Ok?
    ensures var r := M.ApplyRule(node, MulZero(), maxDepth).value;
      r.Some? ==> (node.Multiply? && (exists i :: 0 <= i < |node.args| && NT.Zero(node.args[i])) && r.value == N.Zero())
  {
    MulZeroShape();
    var d, a := Pt.Only(MulZero().pattern), RS.ValueSlot(0);
    RS.SingleSound(node, MulZero(), d, a, maxDepth);
    if M.ApplyRule(node, MulZero(), maxDepth).value.Some? {
      Tr.KindOfAdd(node);
      var i: nat :| i < |node.args| && M.FieldsMatch(node.args[i], Leaf(a))
        && M.ApplyRule(node, MulZero(), maxDepth).value.value == RS.SingleResult(node, MulZero(), i, RS.LeafBind(a, node.args[i], map[]));
      RS.SlotFields(node.args[i], "P", 0);
    }
  }

  /** Conversely, a product with a zero factor takes the rule. */
  lemma MulZeroComplete(node: Tr.Node, maxDepth: int, i: nat)
    requires maxDepth >= 1 && node.Multiply? && i < |node.args| && NT.Zero(node.args[i])
    ensures M.ApplyRule(node, MulZero(), maxDepth).Ok? && M.ApplyRule(node, MulZero(), maxDepth).value.Some?
  {
    MulZeroShape();
    RS.SlotFields(node.args[i], "P", 0);
    RS.SingleComplete(node, MulZero(), Pt.Only(MulZero().pattern), RS.ValueSlot(0), maxDepth, i);
  }

  // ---- P * 1 ----

  lemma MulOneShape()
    ensures RS.PairRule(MulOne(), Pt.Only(MulOne().pattern), RS.AnySlot("P"), RS.ValueSlot(1))
    ensures Pt.Only(MulOne().pattern).kind == Some(T.Multiply) && Pt.Only(MulOne().pattern).commutative == Some(true)
    ensures RS.ReturnsP(MulOne()) && MulOne().requiredNodes == ["P"]
  {
    RS.SlotPatterns("P");
    RS.SlotFields(Tr.Literal(C.One()), "P", 1);
    assert MulOne().requiredNodes == ["P"];
  }

  /** The result of P * 1 on a product: factor j is a literal one, and it and another
      factor i are replaced by that factor i, appended after the untouched ones. */
  predicate OneDropped(node: Tr.Node, r: Tr.Node) {
    node.Multiply? && exists i: nat, j: nat :: (i < |node.args| && j < |node.args| && i != j
      && NT.One(node.args[j]) && r == Tr.Multiply(M.Keep(node.args, {i, j}, 0) + [node.args[i]]))
  }

  /** P * 1 never exceeds a depth of 1, and when it fires a factor one was dropped. */
  lemma MulOneSound(node: Tr.Node, maxDepth: int)
    requires maxDepth >= 1
    ensures M.ApplyRule(node, MulOne(), maxDepth).Ok?
    ensures var r := M.ApplyRule(node, MulOne(), maxDepth).value; r.Some? ==> OneDropped(node, r.value)
  {
    MulOneShape();
    RS.IdentitySound(node, MulOne(), Pt.Only(MulOne().pattern), 1, maxDepth);
    var r := M.ApplyRule(node, MulOne(), maxDepth).value;
    if r.Some? {
      Tr.KindOfAdd(node);
      var i: nat, j: nat :| i < |node.args| && j < |node.args| && i != j
        && M.FieldsMatch(node.args[j], Leaf(RS.ValueSlot(1)))
        && r.value == node.WithArgs(M.Keep(node.args, {i, j}, 0) + [node.args[i]]);
      RS.SlotFields(node.args[j], "P", 1);
    }
  }

  /** Conversely, a product with a factor one beside any other factor takes the rule. */
  lemma MulOneComplete(node: Tr.Node, maxDepth: int, i: nat, j: nat)
    requires maxDepth >= 1 && node.Multiply? && i < |node.args| && j < |node.args| && i != j && NT.One(node.args[j])
    ensures M.ApplyRule(node, MulOne(), maxDepth).Ok? && M.ApplyRule(node, MulOne(), maxDepth).value.Some?
  {
    MulOneShape();
    RS.SlotFields(node.args[j], "P", 1);
    RS.IdentityComplete(node, MulOne(), Pt.Only(MulOne().pattern), 1, maxDepth, i, j);
  }

  // ---- Literal * -1 ----

  /** A literal whose value is field-wise -1/1 + 0/1 i. */
  predicate MinusOne(n: Tr.Node) {
    n.Literal? && C.Equal(n.number, C.FromNumber(-1))
  }

  /** Negated multiplies the literal's number by -1. */
  lemma NegatedValue(p: Tr.Node)
    requires p.Literal?
    ensures Negated(p) == Tr.Literal(C.Multiply(p.number, C.FromNumber(-1)))
  {
    L.TwoOperandsCommute(p, N.NegativeOne());
  }

  lemma NegLiteralShape(rule: Rule)
    requires rule == NegLiteralAsWritten() || rule == NegLiteral()
    ensures RS.PairRule(rule, Pt.Only(rule.pattern), RS.LiteralSlot("P"), RS.ValueSlot(-1))
    ensures Pt.Only(rule.pattern).kind == Some(T.Multiply) && Pt.Only(rule.pattern).commutative == Some(true)
    ensures RS.MapsLiteral(rule, Negated) && rule.requiredNodes == ["P"]
  {
    RS.SlotPatterns("P");
    RS.SlotFields(Tr.Literal(C.One()), "P", -1);
    assert rule.requiredNodes == ["P"];
  }

  /** A literal factor i and a factor j equal to -1, two different positions. */
  predicate NegationPair(node: Tr.Node, i: nat, j: nat) {
    node.HasArgs() && i < |node.args| && j < |node.args| && i != j && node.args[i].Literal? && MinusOne(node.args[j])
  }

  /** As written, Literal * -1 replaces the whole product by the negated literal. */
  lemma NegLiteralAsWrittenSound(node: Tr.Node, maxDepth: int)
    requires maxDepth >= 1
    ensures M.ApplyRule(node, NegLiteralAsWritten(), maxDepth).Ok?
    ensures var r := M.ApplyRule(node, NegLiteralAsWritten(), maxDepth).value;
      r.Some? ==> (node.Multiply? && exists i: nat, j: nat :: (NegationPair(node, i, j)
        && r.value == Tr.Literal(C.Multiply(node.args[i].number, C.FromNumber(-1)))))
  {
    var rule := NegLiteralAsWritten();
    NegLiteralShape(rule);
    RS.LiteralValueSound(node, rule, Pt.Only(rule.pattern), -1, Negated, maxDepth);
    var r := M.ApplyRule(node, rule, maxDepth).value;
    if r.Some? {
      Tr.KindOfAdd(node);
      var i: nat, j: nat :| i < |node.args| && j < |node.args| && i != j
        && node.args[i].Literal? && M.FieldsMatch(node.args[j], Leaf(RS.ValueSlot(-1)))
        && r.value == Negated(node.args[i]);
      RS.SlotFields(node.args[j], "P", -1);
      NegatedValue(node.args[i]);
      assert NegationPair(node, i, j);
    }
  }

  /** As intended, Literal * -1 replaces the two matched factors by the negated literal. */
  lemma NegLiteralSound(node: Tr.Node, maxDepth: int)
    requires maxDepth >= 1
    ensures M.ApplyRule(node, NegLiteral(), maxDepth).Ok?
    ensures var r := M.ApplyRule(node, NegLiteral(), maxDepth).value;
      r.Some? ==> (node.Multiply? && exists i: nat, j: nat :: (NegationPair(node, i, j)
        && r.value == Tr.Multiply(M.Keep(node.args, {i, j}, 0) + [Tr.Literal(C.Multiply(node.args[i].number, C.FromNumber(-1)))])))
  {
    var rule := NegLiteral();
    NegLiteralShape(rule);
    RS.LiteralValueSound(node, rule, Pt.Only(rule.pattern), -1, Negated, maxDepth);
    var r := M.ApplyRule(node, rule, maxDepth).value;
    if r.Some? {
      Tr.KindOfAdd(node);
      var i: nat, j: nat :| i < |node.args| && j < |node.args| && i != j
        && node.args[i].Literal? && M.FieldsMatch(node.args[j], Leaf(RS.ValueSlot(-1)))
        && r.value == node.WithArgs(M.Keep(node.args, {i, j}, 0) + [Negated(node.args[i])]);
      RS.SlotFields(node.args[j], "P", -1);
      NegatedValue(node.args[i]);
      assert NegationPair(node, i, j);
    }
  }

  /** Conversely, both versions fire on a product with a literal beside a factor -1. */
  lemma NegLiteralComplete(rule: Rule, node: Tr.Node, maxDepth: int, i: nat, j: nat)
    requires rule == NegLiteralAsWritten() || rule == NegLiteral()
    requires maxDepth >= 1 && node.Multiply? && NegationPair(node, i, j)
    ensures M.ApplyRule(node, rule, maxDepth).Ok? && M.ApplyRule(node, rule, maxDepth).value.Some?
  {
    NegLiteralShape(rule);
    RS.SlotFields(node.args[j], "P", -1);
    RS.LiteralValueComplete(node, rule, Pt.Only(rule.pattern), -1, maxDepth, i, j);
  }

  /** The product x * c * -1. */
  function TimesMinusOne(x: Tr.Node, c: Tr.Node): Tr.Node {
    Tr.Multiply([x, c, B.Literal(-1)])
  }

  /** x * c * -1 as written, for a factor x that is not a literal and a literal c other
      than -1 (2x * -1, say): x is lost and the result is the literal -c. */
  lemma NegLiteralDropsFactors(x: Tr.Node, c: Tr.Node, maxDepth: int)
    requires !x.Literal? && c.Literal? && !MinusOne(c) && maxDepth >= 1
    ensures M.ApplyRule(TimesMinusOne(x, c), NegLiteralAsWritten(), maxDepth)
      == Ok(Some(Tr.Literal(C.Multiply(c.number, C.FromNumber(-1)))))
  {
    var node := TimesMinusOne(x, c);
    assert NegationPair(node, 1, 2);
    NegLiteralComplete(NegLiteralAsWritten(), node, maxDepth, 1, 2);
    NegLiteralAsWrittenSound(node, maxDepth);
    OnlyNegationPair(node);
  }

  /** x * c * -1 with the corrected rule: x is kept beside -c. */
  lemma NegLiteralKeepsFactors(x: Tr.Node, c: Tr.Node, maxDepth: int)
    requires !x.Literal? && c.Literal? && !MinusOne(c) && maxDepth >= 1
    ensures M.ApplyRule(TimesMinusOne(x, c), NegLiteral(), maxDepth)
      == Ok(Some(Tr.Multiply([x, Tr.Literal(C.Multiply(c.number, C.FromNumber(-1)))])))
  {
    var node := TimesMinusOne(x, c);
    assert NegationPair(node, 1, 2);
    NegLiteralComplete(NegLiteral(), node, maxDepth, 1, 2);
    NegLiteralSound(node, maxDepth);
    var r := M.ApplyRule(node, NegLiteral(), maxDepth).value.value;
    var i: nat, j: nat :| NegationPair(node, i, j)
      && r == Tr.Multiply(M.Keep(node.args, {i, j}, 0) + [Tr.Literal(C.Multiply(node.args[i].number, C.FromNumber(-1)))]);
    OnlyNegationPair(node);
    assert i == 1 && j == 2;
    KeepOfThree(node.args);
    var neg := Tr.Literal(C.Multiply(c.number, C.FromNumber(-1)));
    assert [x] + [neg] == [x, neg];
  }

  /** The only literal beside the -1 of x * c * -1 is c. */
  lemma OnlyNegationPair(node: Tr.Node)
    requires node.Multiply? && |node.args| == 3 && !node.args[0].Literal? && !MinusOne(node.args[1])
    requires node.args[2] == B.Literal(-1)
    ensures forall i: nat, j: nat :: NegationPair(node, i, j) ==> i == 1 && j == 2
  {
    forall i: nat, j: nat | NegationPair(node, i, j) ensures i == 1 && j == 2 {
      assert j != 0 && j != 1;
    }
  }

  lemma KeepOfThree(args: seq<Tr.Node>)
    requires |args| == 3
    ensures M.Keep(args, {1, 2}, 0) == [args[0]]
  {
    assert M.Keep(args, {1, 2}, 3) == [];
    assert M.Keep(args, {1, 2}, 2) == [];
    assert M.Keep(args, {1, 2}, 1) == [];
  }

  // ---- Literal * Literal ----

  lemma LiteralProductShape()
    ensures RS.PairRule(LiteralProduct(), Pt.Only(LiteralProduct().pattern), RS.LiteralSlot("P"), RS.LiteralSlot("Q"))
    ensures Pt.Only(LiteralProduct().pattern).kind == Some(T.Multiply)
    ensures RS.CombinesLiterals(LiteralProduct(), C.Multiply) && LiteralProduct().requiredNodes == ["P", "Q"]
    ensures forall x, y :: C.Multiply(x, y) == C.Multiply(y, x)
  {
    RS.SlotPatterns("P");
    RS.SlotPatterns("Q");
    RS.SlotFields(Tr.Literal(C.Zero()), "P", 0);
    RS.SlotFields(Tr.Literal(C.Zero()), "Q", 0);
    assert LiteralProduct().requiredNodes == ["P", "Q"];
    forall x, y ensures C.Multiply(x, y) == C.Multiply(y, x) {
      C.Commute(x, y);
    }
    forall n: Tr.Node, caps: Captures | "P" in caps && "Q" in caps && caps["P"].Literal? && caps["Q"].Literal?
      ensures LiteralProduct().children.value(n, caps) == Tr.Literal(C.Multiply(caps["P"].number, caps["Q"].number))
    {
      L.TwoOperandsCommute(caps["P"], caps["Q"]);
    }
  }

  /** The result of Literal * Literal on a product: two literal factors i < j are replaced
      by the literal of their complex product, appended after the untouched ones. */
  predicate LiteralsMultiplied(node: Tr.Node, r: Tr.Node) {
    node.Multiply? && exists i: nat, j: nat :: (i < j < |node.args|
      && node.args[i].Literal? && node.args[j].Literal?
      && r == Tr.Multiply(M.Keep(node.args, {i, j}, 0) + [Tr.Literal(C.Multiply(node.args[i].number, node.args[j].number))]))
  }

  lemma LiteralProductSound(node: Tr.Node, maxDepth: int)
    requires maxDepth >= 1
    ensures M.ApplyRule(node, LiteralProduct(), maxDepth).Ok?
    ensures var r := M.ApplyRule(node, LiteralProduct(), maxDepth).value; r.Some? ==> LiteralsMultiplied(node, r.value)
  {
    LiteralProductShape();
    RS.FoldSound(node, LiteralProduct(), Pt.Only(LiteralProduct().pattern), C.Multiply, maxDepth);
    if M.ApplyRule(node, LiteralProduct(), maxDepth).value.Some? {
      Tr.KindOfAdd(node);
    }
  }

  /** Conversely, a product with two literal factors takes the rule. */
  lemma LiteralProductComplete(node: Tr.Node, maxDepth: int, i: nat, j: nat)
    requires maxDepth >= 1 && node.Multiply? && i < j < |node.args| && node.args[i].Literal? && node.args[j].Literal?
    ensures M.ApplyRule(node, LiteralProduct(), maxDepth).Ok? && M.ApplyRule(node, LiteralProduct(), maxDepth).value.Some?
  {
    LiteralProductShape();
    RS.FoldComplete(node, LiteralProduct(), Pt.Only(LiteralProduct().pattern), maxDepth, i, j);
  }

  // ---- P * P ----

  lemma PSquaredShape(rule: Rule)
    requires rule == PSquaredAsWritten() || rule == PSquared()
    ensures RS.TwinRule(rule, Pt.Only(rule.pattern)) && rule.requiredNodes == ["P"]
    ensures Pt.Only(rule.pattern).kind == Some(T.Multiply)
  {
    RS.SlotPatterns("P");
    assert rule.requiredNodes == ["P"];
  }

  /** Two Equal factors i < j of a product replaced by the power `pow` of the first. */
  predicate SquaredWith(node: Tr.Node, r: Tr.Node, exponent: seq<Tr.Node>) {
    node.Multiply? && exists i: nat, j: nat :: (i < j < |node.args| && U.Equal(node.args[j], node.args[i])
      && r == Tr.Multiply(M.Keep(node.args, {i, j}, 0) + [Tr.Exponentiation([node.args[i]] + exponent)]))
  }

  /** As written, P * P fires on two Equal factors and leaves a power with no exponent. */
  lemma PSquaredAsWrittenSound(node: Tr.Node, maxDepth: int)
    requires maxDepth >= 1
    ensures M.ApplyRule(node, PSquaredAsWritten(), maxDepth).Ok?
    ensures var r := M.ApplyRule(node, PSquaredAsWritten(), maxDepth).value; r.Some? ==> SquaredWith(node, r.value, [])
  {
    var rule := PSquaredAsWritten();
    PSquaredShape(rule);
    RS.TwinSound(node, rule, Pt.Only(rule.pattern), maxDepth);
    var r := M.ApplyRule(node, rule, maxDepth).value;
    if r.Some? {
      Tr.KindOfAdd(node);
      var i: nat, j: nat :| i < j < |node.args| && U.Equal(node.args[j], node.args[i])
        && r.value == RS.PairResult(node, rule, i, j, map["P" := node.args[i]]);
      assert r.value == Tr.Multiply(M.Keep(node.args, {i, j}, 0) + [Tr.Exponentiation([node.args[i]] + [])]);
    }
  }

  /** As intended, P * P replaces two Equal factors by the first squared. */
  lemma PSquaredSound(node: Tr.Node, maxDepth: int)
    requires maxDepth >= 1
    ensures M.ApplyRule(node, PSquared(), maxDepth).Ok?
    ensures var r := M.ApplyRule(node, PSquared(), maxDepth).value; r.Some? ==> SquaredWith(node, r.value, [B.Literal(2)])
  {
    var rule := PSquared();
    PSquaredShape(rule);
    RS.TwinSound(node, rule, Pt.Only(rule.pattern), maxDepth);
    var r := M.ApplyRule(node, rule, maxDepth).value;
    if r.Some? {
      Tr.KindOfAdd(node);
      var i: nat, j: nat :| i < j < |node.args| && U.Equal(node.args[j], node.args[i])
        && r.value == RS.PairResult(node, rule, i, j, map["P" := node.args[i]]);
      PSquaredChild(node, node.args[i]);
      assert r.value == Tr.Multiply(M.Keep(node.args, {i, j}, 0) + [Tr.Exponentiation([node.args[i]] + [B.Literal(2)])]);
    }
  }

  lemma PSquaredChild(node: Tr.Node, x: Tr.Node)
    ensures PSquared().children.value(node, map["P" := x]) == Tr.Exponentiation([x] + [B.Literal(2)])
  {
    assert [x] + [B.Literal(2)] == [x, B.Literal(2)];
  }

  /** Conversely, both versions fire on a product with two Equal factors. */
  lemma PSquaredComplete(rule: Rule, node: Tr.Node, maxDepth: int, i: nat, j: nat)
    requires rule == PSquaredAsWritten() || rule == PSquared()
    requires maxDepth >= 1 && node.Multiply? && i < j < |node.args| && U.Equal(node.args[j], node.args[i])
    ensures M.ApplyRule(node, rule, maxDepth).Ok? && M.ApplyRule(node, rule, maxDepth).value.Some?
  {
    PSquaredShape(rule);
    RS.TwinComplete(node, rule, Pt.Only(rule.pattern), maxDepth, i, j);
  }

  /** x * x as written: the result is a power of x with one argument and no exponent. */
  lemma PSquaredLosesExponent(x: Tr.Node, maxDepth: int)
    requires maxDepth >= 1
    ensures M.ApplyRule(Tr.Multiply([x, x]), PSquaredAsWritten(), maxDepth) == Ok(Some(Tr.Multiply([Tr.Exponentiation([x])])))
  {
    var node := Tr.Multiply([x, x]);
    U.EqualReflexive(x);
    PSquaredComplete(PSquaredAsWritten(), node, maxDepth, 0, 1);
    PSquaredAsWrittenSound(node, maxDepth);
    var r := M.ApplyRule(node, PSquaredAsWritten(), maxDepth).value.value;
    var i: nat, j: nat :| i < j < |node.args| && U.Equal(node.args[j], node.args[i])
      && r == Tr.Multiply(M.Keep(node.args, {i, j}, 0) + [Tr.Exponentiation([node.args[i]] + [])]);
    assert i == 0 && j == 1;
    KeepOfTwo(node.args);
    var e: seq<Tr.Node> := [];
    assert [x] + e == [x];
    assert e + [Tr.Exponentiation([x])] == [Tr.Exponentiation([x])];
  }

  /** x * x with the corrected rule: x^2. */
  lemma PSquaredKeepsExponent(x: Tr.Node, maxDepth: int)
    requires maxDepth >= 1
    ensures M.ApplyRule(Tr.Multiply([x, x]), PSquared(), maxDepth) == Ok(Some(Tr.Multiply([Tr.Exponentiation([x, B.Literal(2)])])))
  {
    var node := Tr.Multiply([x, x]);
    U.EqualReflexive(x);
    PSquaredComplete(PSquared(), node, maxDepth, 0, 1);
    PSquaredSound(node, maxDepth);
    var r := M.ApplyRule(node, PSquared(), maxDepth).value.value;
    var i: nat, j: nat :| i < j < |node.args| && U.Equal(node.args[j], node.args[i])
      && r == Tr.Multiply(M.Keep(node.args, {i, j}, 0) + [Tr.Exponentiation([node.args[i]] + [B.Literal(2)])]);
    assert i == 0 && j == 1;
    KeepOfTwo(node.args);
    var e: seq<Tr.Node> := [];
    assert [x] + [B.Literal(2)] == [x, B.Literal(2)];
    assert e + [Tr.Exponentiation([x, B.Literal(2)])] == [Tr.Exponentiation([x, B.Literal(2)])];
  }

  lemma KeepOfTwo(args: seq<Tr.Node>)
    requires |args| == 2
    ensures M.Keep(args, {0, 1}, 0) == []
  {
    assert M.Keep(args, {0, 1}, 2) == [];
    assert M.Keep(args, {0, 1}, 1) == [];
  }

  // ---- the two-level rules ----

  /** P * P^Q and P^Q * P^R nest an Exponentiation slot, so they need a depth of 2. */
  lemma NestedHeights()
    ensures E.Height(PTimesPower().pattern) == 2 && E.Height(PowerTimesPower().pattern) == 2
  {
    RS.SlotPatterns("P");
    RS.HeightOfLeaf(RS.AnySlot("P"));
    RS.HeightOfLeaf(RS.AnySlot("Q"));
    RS.HeightOfLeaf(RS.AnySlot("R"));
    var pq, pr := Pt.Exponentiation(Pt.P(), Pt.Q()), Pt.Exponentiation(Pt.P(), Pt.R());
    RS.HeightOfPair(Pt.Only(pq), Pt.P(), Pt.Q());
    RS.HeightOfPair(Pt.Only(pr), Pt.P(), Pt.R());
    RS.HeightOfPair(Pt.Only(PTimesPower().pattern), Pt.P(), pq);
    RS.HeightOfPair(Pt.Only(PowerTimesPower().pattern), pq, pr);
  }

  /** The result of a two-level rule: a product with one factor fewer. */
  predicate OneFactorFewer(node: Tr.Node, r: Tr.Node) {
    node.Multiply? && r.Multiply? && |r.args| == |node.args| - 1
  }

  /** p^(q + 1), the replacement of P * P^Q. */
  function RaisedPowerOf(p: Tr.Node, q: Tr.Node): Tr.Node {
    B.Exponentiation(p, U.AddOne(q))
  }

  /** p^(q + r), the replacement of P^Q * P^R. */
  function SummedPowerOf(p: Tr.Node, q: Tr.Node, r: Tr.Node): Tr.Node {
    B.Exponentiation(p, B.Add([q, r]))
  }

  /** P * P^Q as a leaf P beside a power over P and Q. */
  lemma PTimesPowerShape()
    ensures RS.LeafInnerRule(PTimesPower(), Pt.Only(PTimesPower().pattern), Pt.Only(Pt.Exponentiation(Pt.P(), Pt.Q())), 0, "Q", RaisedPowerOf)
  {
    RS.SlotPatterns("Q");
    var rule := PTimesPower();
    forall n: Tr.Node, caps: Captures | "P" in caps && "Q" in caps
      ensures rule.children.value(n, caps) == RaisedPowerOf(caps["P"], caps["Q"])
    {
    }
  }

  /** P^Q * P^R as two powers of P, one to Q and one to R. */
  lemma PowerTimesPowerShape()
    ensures RS.InnerInnerRule(PowerTimesPower(), Pt.Only(PowerTimesPower().pattern), Pt.Only(Pt.Exponentiation(Pt.P(), Pt.Q())), 0, "Q",
      Pt.Only(Pt.Exponentiation(Pt.P(), Pt.R())), 0, "R", SummedPowerOf)
  {
    RS.SlotPatterns("Q");
    RS.SlotPatterns("R");
    var rule := PowerTimesPower();
    forall n: Tr.Node, caps: Captures | "P" in caps && "Q" in caps && "R" in caps
      ensures rule.children.value(n, caps) == SummedPowerOf(caps["P"], caps["Q"], caps["R"])
    {
    }
  }

  /** P * P^Q at factors s and t: factor t is a power with two arguments whose base is
      Equal to factor s; both factors go, the others keep their order, and p^(q + 1) is
      appended, p being the earlier of the two Equal nodes and q the exponent. */
  predicate PTimesPowerAt(node: Tr.Node, s: nat, t: nat, r: Tr.Node) {
    node.Multiply? && RS.LeafInnerRewrite(node, T.Exponentiation, s, t, 0, r, RaisedPowerOf)
  }

  /** P^Q * P^R at factors u and v: both are powers with two arguments and Equal bases;
      both factors go, the others keep their order, and p^(q + r) is appended, p being the
      earlier base, q the exponent at u and r the exponent at v. */
  predicate PowerTimesPowerAt(node: Tr.Node, u: nat, v: nat, r: Tr.Node) {
    node.Multiply? && RS.InnerInnerRewrite(node, T.Exponentiation, T.Exponentiation, u, v, 0, 0, r, SummedPowerOf)
  }

  /** P * P^Q never exceeds a depth of 2, and when it fires it is the rewrite at a factor
      and a power whose base is Equal to it, in either order. */
  lemma PTimesPowerSound(node: Tr.Node, maxDepth: int)
    requires maxDepth >= 2
    ensures M.ApplyRule(node, PTimesPower(), maxDepth).Ok?
    ensures var r := M.ApplyRule(node, PTimesPower(), maxDepth).value;
      r.Some? ==> (OneFactorFewer(node, r.value) && exists s: nat, t: nat :: PTimesPowerAt(node, s, t, r.value))
  {
    NestedHeights();
    PTimesPowerShape();
    var d := Pt.Only(PTimesPower().pattern);
    var dm := Pt.Only(Pt.Exponentiation(Pt.P(), Pt.Q()));
    RS.LeafInnerSound(node, PTimesPower(), d, dm, 0, "Q", RaisedPowerOf, maxDepth);
    var r := M.ApplyRule(node, PTimesPower(), maxDepth).value;
    if r.Some? {
      var s: nat, t: nat, f: nat :| RS.InnerOrder(dm, 0, f) && RS.LeafInnerRewrite(node, T.Exponentiation, s, t, f, r.value, RaisedPowerOf);
      assert f == 0;
      RS.TwoRemoved(node, s, t, RaisedPowerOf(RS.LeafInnerP(node, s, t, 0), node.args[t].args[1]));
      Tr.KindOfAdd(node);
      Tr.KindOfAdd(r.value);
      assert PTimesPowerAt(node, s, t, r.value);
    }
  }

  /** Conversely, P * P^Q fires on a product with a factor s and a power t of two
      arguments whose base is Equal to factor s. */
  lemma PTimesPowerComplete(node: Tr.Node, maxDepth: int, s: nat, t: nat)
    requires maxDepth >= 2 && node.Multiply? && RS.LeafInnerAt(node, T.Exponentiation, s, t, 0)
    ensures M.ApplyRule(node, PTimesPower(), maxDepth).Ok? && M.ApplyRule(node, PTimesPower(), maxDepth).value.Some?
  {
    NestedHeights();
    PTimesPowerShape();
    Tr.KindOfAdd(node);
    RS.LeafInnerComplete(node, PTimesPower(), Pt.Only(PTimesPower().pattern), Pt.Only(Pt.Exponentiation(Pt.P(), Pt.Q())), 0, "Q",
      RaisedPowerOf, maxDepth, s, t, 0);
  }

  /** P^Q * P^R never exceeds a depth of 2, and when it fires it is the rewrite at two
      powers with Equal bases. */
  lemma PowerTimesPowerSound(node: Tr.Node, maxDepth: int)
    requires maxDepth >= 2
    ensures M.ApplyRule(node, PowerTimesPower(), maxDepth).Ok?
    ensures var r := M.ApplyRule(node, PowerTimesPower(), maxDepth).value;
      r.Some? ==> (OneFactorFewer(node, r.value) && exists u: nat, v: nat :: PowerTimesPowerAt(node, u, v, r.value))
  {
    NestedHeights();
    PowerTimesPowerShape();
    var d := Pt.Only(PowerTimesPower().pattern);
    var dq, dr := Pt.Only(Pt.Exponentiation(Pt.P(), Pt.Q())), Pt.Only(Pt.Exponentiation(Pt.P(), Pt.R()));
    RS.InnerInnerSound(node, PowerTimesPower(), d, dq, 0, "Q", dr, 0, "R", SummedPowerOf, maxDepth);
    var r := M.ApplyRule(node, PowerTimesPower(), maxDepth).value;
    if r.Some? {
      var u: nat, v: nat, fu: nat, fv: nat :| RS.InnerOrder(dq, 0, fu) && RS.InnerOrder(dr, 0, fv)
        && RS.InnerInnerRewrite(node, T.Exponentiation, T.Exponentiation, u, v, fu, fv, r.value, SummedPowerOf);
      assert fu == 0 && fv == 0;
      RS.TwoRemoved(node, u, v, SummedPowerOf(RS.InnerInnerP(node, u, v, 0, 0), node.args[u].args[1], node.args[v].args[1]));
      Tr.KindOfAdd(node);
      Tr.KindOfAdd(r.value);
      assert PowerTimesPowerAt(node, u, v, r.value);
    }
  }

  /** Conversely, P^Q * P^R fires on a product with two powers of two arguments whose
      bases are Equal. */
  lemma PowerTimesPowerComplete(node: Tr.Node, maxDepth: int, u: nat, v: nat)
    requires maxDepth >= 2 && node.Multiply? && RS.InnerInnerAt(node, T.Exponentiation, T.Exponentiation, u, v, 0, 0)
    ensures M.ApplyRule(node, PowerTimesPower(), maxDepth).Ok? && M.ApplyRule(node, PowerTimesPower(), maxDepth).value.Some?
  {
    NestedHeights();
    PowerTimesPowerShape();
    Tr.KindOfAdd(node);
    RS.InnerInnerComplete(node, PowerTimesPower(), Pt.Only(PowerTimesPower().pattern), Pt.Only(Pt.Exponentiation(Pt.P(), Pt.Q())), 0, "Q",
      Pt.Only(Pt.Exponentiation(Pt.P(), Pt.R())), 0, "R", SummedPowerOf, maxDepth, u, v, 0, 0);
  }
}
