/** The default rule table (src/Simplification/SimplificationRules.ts): the additive rules
    followed by the multiplicative ones. */
module SimplificationRules {
  import opened Wrappers
  import opened Match
  import Tr = Tree
  import Pt = Patterns
  import T = NodeTypes
  import M = Matcher
  import AR = AdditionRules
  import MR = MultiplicationRules

  /** The array spread, with the multiplicative table as written. */
  function RulesAsWritten(): seq<Rule> {
    AR.Rules() + MR.RulesAsWritten()
  }

  /** The same spread over the corrected multiplicative table. */
  function Rules(): seq<Rule> {
    AR.Rules() + MR.Rules()
  }

  /** Eleven rules, each sub-list in its declared order, and no power pattern among them:
      neither ExponentiationRules nor BasicRules is part of the default table. */
  lemma Layout()
    ensures |RulesAsWritten()| == |Rules()| == 11
    ensures Rules()[..4] == AR.Rules() && Rules()[4..] == MR.Rules()
    ensures RulesAsWritten()[..4] == AR.Rules() && RulesAsWritten()[4..] == MR.RulesAsWritten()
    ensures forall k :: 0 <= k < 11 ==>
      && |Rules()[k].pattern.alternatives| == 1
      && Pt.Only(Rules()[k].pattern).kind == Some(if k < 4 then T.Add else T.Multiply)
  {
    assert Rules()[..4] == AR.Rules();
    assert RulesAsWritten()[..4] == AR.Rules();
  }

  /** No rule of either table fires on a variable, nor on a sum whose only summand is a
      variable. */
  lemma IdleOnVariable(x: Tr.Node, k: nat)
    requires x.Variable? && k < 11
    ensures M.ApplyRule(x, Rules()[k], 100) == Ok(None)
    ensures M.ApplyRule(Tr.Add([x]), Rules()[k], 100) == Ok(None)
    ensures M.ApplyRule(x, RulesAsWritten()[k], 100) == Ok(None)
    ensures M.ApplyRule(Tr.Add([x]), RulesAsWritten()[k], 100) == Ok(None)
  {
    IdleOn(x, k);
    IdleOn(Tr.Add([x]), k);
  }

  lemma IdleOn(n: Tr.Node, k: nat)
    requires k < 11 && (n.Variable? || (n.Add? && |n.args| == 1 && n.args[0].Variable?))
    ensures M.ApplyRule(n, Rules()[k], 100) == Ok(None)
    ensures M.ApplyRule(n, RulesAsWritten()[k], 100) == Ok(None)
  {
    if k < 4 {
      assert Rules()[k] == RulesAsWritten()[k] == AR.Rules()[k];
      AdditionIdle(n, k);
    } else {
      assert Rules()[k] == MR.Rules()[k - 4] && RulesAsWritten()[k] == MR.RulesAsWritten()[k - 4];
      MultiplicationIdle(n, k - 4);
    }
  }

  lemma AdditionIdle(n: Tr.Node, k: nat)
    requires k < 4 && (n.Variable? || (n.Add? && |n.args| == 1 && n.args[0].Variable?))
    ensures M.ApplyRule(n, AR.Rules()[k], 100) == Ok(None)
  {
    if k == 0 {
      AR.AddZeroSound(n, 100);
    } else if k == 1 {
      AR.LiteralSumSound(n, 100);
    } else if k == 2 {
      AR.LikeTermSound(n, 100);
    } else {
      AR.LikeTermsSound(n, 100);
    }
  }

  lemma MultiplicationIdle(n: Tr.Node, k: nat)
    requires k < 7 && !n.Multiply?
    ensures M.ApplyRule(n, MR.Rules()[k], 100) == Ok(None)
    ensures M.ApplyRule(n, MR.RulesAsWritten()[k], 100) == Ok(None)
  {
    if k == 0 {
      assert MR.Rules()[k] == MR.RulesAsWritten()[k] == MR.MulZero();
      MR.MulZeroSound(n, 100);
    } else if k == 1 {
      assert MR.Rules()[k] == MR.RulesAsWritten()[k] == MR.MulOne();
      MR.MulOneSound(n, 100);
    } else if k == 2 {
      assert MR.Rules()[k] == MR.NegLiteral() && MR.RulesAsWritten()[k] == MR.NegLiteralAsWritten();
      MR.NegLiteralSound(n, 100);
      MR.NegLiteralAsWrittenSound(n, 100);
    } else if k == 3 {
      assert MR.Rules()[k] == MR.RulesAsWritten()[k] == MR.LiteralProduct();
      MR.LiteralProductSound(n, 100);
    } else if k == 4 {
      assert MR.Rules()[k] == MR.PSquared() && MR.RulesAsWritten()[k] == MR.PSquaredAsWritten();
      MR.PSquaredSound(n, 100);
      MR.PSquaredAsWrittenSound(n, 100);
    } else if k == 5 {
      assert MR.Rules()[k] == MR.RulesAsWritten()[k] == MR.PTimesPower();
      MR.PTimesPowerSound(n, 100);
    } else {
      assert MR.Rules()[k] == MR.RulesAsWritten()[k] == MR.PowerTimesPower();
      MR.PowerTimesPowerSound(n, 100);
    }
  }
}
