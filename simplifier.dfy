/** The fixpoint driver of src/Simplification/Simplifier.ts. The rules are applied through
    the matcher with its default depth limit; the expansion cache returns the uncached
    expansion whenever its keys are injective (Matcher.PatternMatcher), so it is left out
    here. The source has no termination argument: `fuel` bounds the number of restarts,
    and running out of it is reported as a Diverges error. */
module Simplifier {
  import opened Wrappers
  import opened Match
  import Tr = Tree
  import M = Matcher
  import SR = SimplificationRules

  /** PatternExpander's default maxDepth. */
  const MaxDepth := 100

  /** Which node line 23 unwraps: the input, as written, or its simplified copy. */
  datatype Unwrap = InputNode | SimplifiedNode

  /** The rule loop of lines 16-21: the first rule that returns a node gives it; an error
      thrown by the expander ends the loop. */
  function FirstRewrite(node: Tr.Node, rules: seq<Rule>): Result<Option<Tr.Node>> {
    FirstOf(Attempts(node, rules))
  }

  /** What each rule returns on the node, in the order of the list. */
  function Attempts(node: Tr.Node, rules: seq<Rule>): (r: seq<Result<Option<Tr.Node>>>)
    ensures |r| == |rules|
  {
    seq(|rules|, k requires 0 <= k < |rules| => M.ApplyRule(node, rules[k], MaxDepth))
  }

  /** The first outcome that is an error or a node. */
  function FirstOf(results: seq<Result<Option<Tr.Node>>>): Result<Option<Tr.Node>> {
    if results == [] then Ok(None)
    else if results[0] != Ok(None) then results[0]
    else FirstOf(results[1..])
  }

  /** No rule of the list fires on the node. */
  predicate Unrewritable(node: Tr.Node, rules: seq<Rule>) {
    forall k :: 0 <= k < |rules| ==> M.ApplyRule(node, rules[k], MaxDepth) == Ok(None)
  }

  /** simplify: children first, then the first rule that fires restarts on its result;
      otherwise a sum or product of one argument is unwrapped. */
  function Simplify(u: Unwrap, node: Tr.Node, rules: seq<Rule>, fuel: nat): Result<Tr.Node>
    decreases fuel, Tr.Size(node), 1
  {
    var s :- SimplifyChildren(u, node, rules, fuel);
    var hit :- FirstRewrite(s, rules);
    if hit.Some? then
      if fuel == 0 then Fail(Diverges, "rewriting did not settle")
      else Simplify(u, hit.value, rules, fuel - 1)
    else if (node.Multiply? || node.Add?) && |node.args| == 1 then
      Ok(if u == InputNode then node.args[0] else s.args[0])
    else Ok(s)
  }

  /** simplifyChildren: the same node with every argument simplified; argless nodes are
      returned as they are. */
  function SimplifyChildren(u: Unwrap, node: Tr.Node, rules: seq<Rule>, fuel: nat): (r: Result<Tr.Node>)
    decreases fuel, Tr.Size(node), 0
    ensures r.Ok? ==> r.value.Kind() == node.Kind() && (r.value.HasArgs() <==> node.HasArgs())
    ensures r.Ok? && node.HasArgs() ==> |r.value.args| == |node.args| && r.value == node.WithArgs(r.value.args)
    ensures !node.HasArgs() ==> r == Ok(node)
  {
    if node.HasArgs() then
      var args :- SimplifyAll(u, node.args, rules, fuel);
      Ok(node.WithArgs(args))
    else Ok(node)
  }

  /** `node.args.map(...)`, left to right. */
  function SimplifyAll(u: Unwrap, args: seq<Tr.Node>, rules: seq<Rule>, fuel: nat): (r: Result<seq<Tr.Node>>)
    decreases fuel, Tr.SizeAll(args), 2
    ensures r.Ok? ==> |r.value| == |args|
  {
    if args == [] then Ok([])
    else
      var first :- Simplify(u, args[0], rules, fuel);
      var rest :- SimplifyAll(u, args[1..], rules, fuel);
      Ok([first] + rest)
  }

  /** No sum or product of a single argument anywhere in the tree. */
  predicate NoUnary(n: Tr.Node)
    decreases n
  {
    && !((n.Add? || n.Multiply?) && |n.args| == 1)
    && (n.HasArgs() ==> forall i :: 0 <= i < |n.args| ==> NoUnary(n.args[i]))
  }

  // ---- the rule loop ----

  /** FirstRewrite gives nothing exactly when no rule fires; otherwise it gives the result
      of the first rule that fires or throws, every earlier rule giving nothing. */
  lemma FirstRewriteFirst(node: Tr.Node, rules: seq<Rule>)
    ensures FirstRewrite(node, rules) == Ok(None) <==> Unrewritable(node, rules)
    ensures FirstRewrite(node, rules) != Ok(None) ==> exists k :: (0 <= k < |rules|
      && FirstRewrite(node, rules) == M.ApplyRule(node, rules[k], MaxDepth)
      && forall i :: 0 <= i < k ==> M.ApplyRule(node, rules[i], MaxDepth) == Ok(None))
  {
    var a := Attempts(node, rules);
    FirstOfFirst(a);
    assert forall k :: 0 <= k < |rules| ==> a[k] == M.ApplyRule(node, rules[k], MaxDepth);
  }

  lemma {:induction false} FirstOfFirst(results: seq<Result<Option<Tr.Node>>>)
    ensures FirstOf(results) == Ok(None) <==> forall k :: 0 <= k < |results| ==> results[k] == Ok(None)
    ensures FirstOf(results) != Ok(None) ==> exists k :: (0 <= k < |results| && FirstOf(results) == results[k]
      && forall i :: 0 <= i < k ==> results[i] == Ok(None))
  {
    if results != [] {
      var rest := results[1..];
      FirstOfFirst(rest);
      assert forall j :: 0 <= j < |rest| ==> rest[j] == results[j + 1];
      if results[0] == Ok(None) && FirstOf(rest) != Ok(None) {
        var k :| 0 <= k < |rest| && FirstOf(rest) == rest[k] && forall i :: 0 <= i < k ==> rest[i] == Ok(None);
        assert FirstOf(results) == results[k + 1];
      }
    }
  }

  // ---- children ----

  /** Each argument is simplified on its own: the list succeeds exactly when every
      argument does, and then holds their results in order. */
  lemma {:induction false} SimplifyAllElementwise(u: Unwrap, args: seq<Tr.Node>, rules: seq<Rule>, fuel: nat)
    ensures SimplifyAll(u, args, rules, fuel).Ok? <==>
      forall i :: 0 <= i < |args| ==> Simplify(u, args[i], rules, fuel).Ok?
    ensures SimplifyAll(u, args, rules, fuel).Ok? ==>
      forall i :: 0 <= i < |args| ==> SimplifyAll(u, args, rules, fuel).value[i] == Simplify(u, args[i], rules, fuel).value
  {
    if args != [] {
      var rest := args[1..];
      SimplifyAllElementwise(u, rest, rules, fuel);
      assert forall i :: 1 <= i < |args| ==> args[i] == rest[i - 1];
    }
  }

  /** The children-simplified node keeps the kind and the other fields, and its argument i
      is the simplification of argument i. */
  lemma ChildrenElementwise(u: Unwrap, node: Tr.Node, rules: seq<Rule>, fuel: nat)
    requires node.HasArgs()
    ensures SimplifyChildren(u, node, rules, fuel).Ok? <==>
      forall i :: 0 <= i < |node.args| ==> Simplify(u, node.args[i], rules, fuel).Ok?
    ensures var r := SimplifyChildren(u, node, rules, fuel);
      r.Ok? ==> (r.value.HasArgs() && r.value == node.WithArgs(r.value.args) && |r.value.args| == |node.args|
        && forall i :: 0 <= i < |node.args| ==> r.value.args[i] == Simplify(u, node.args[i], rules, fuel).value)
  {
    SimplifyAllElementwise(u, node.args, rules, fuel);
  }

  // ---- what a result looks like ----

  /** With the simplified child unwrapped, every result is a normal form: no rule fires on
      it, and no sum or product of one argument is left anywhere in it. */
  lemma NormalForm(node: Tr.Node, rules: seq<Rule>, fuel: nat)
    ensures var r := Simplify(SimplifiedNode, node, rules, fuel);
      r.Ok? ==> Unrewritable(r.value, rules) && NoUnary(r.value)
  {
    NormalUnrewritable(node, rules, fuel);
    NormalNoUnary(node, rules, fuel);
  }

  /** No rule fires on a result. */
  lemma {:induction false} NormalUnrewritable(node: Tr.Node, rules: seq<Rule>, fuel: nat)
    decreases fuel, Tr.Size(node), 1
    ensures var r := Simplify(SimplifiedNode, node, rules, fuel);
      r.Ok? ==> Unrewritable(r.value, rules)
  {
    var sc := SimplifyChildren(SimplifiedNode, node, rules, fuel);
    SimplifyCases(SimplifiedNode, node, rules, fuel);
    if Settles(node, rules, fuel) {
      if (node.Multiply? || node.Add?) && |node.args| == 1 {
        UnaryUnrewritable(node, rules, fuel);
      } else {
        SettledUnrewritable(node, rules, fuel);
      }
    } else if sc.Ok? && FirstRewrite(sc.value, rules).Ok? && fuel > 0 {
      NormalUnrewritable(FirstRewrite(sc.value, rules).value.value, rules, fuel - 1);
    }
  }

  /** The children simplify and no rule fires on the result. */
  predicate Settles(node: Tr.Node, rules: seq<Rule>, fuel: nat) {
    var sc := SimplifyChildren(SimplifiedNode, node, rules, fuel);
    sc.Ok? && FirstRewrite(sc.value, rules) == Ok(None)
  }

  /** A sum or product of one argument gives what its argument gives. */
  lemma {:induction false} UnaryUnrewritable(node: Tr.Node, rules: seq<Rule>, fuel: nat)
    requires (node.Multiply? || node.Add?) && |node.args| == 1
    requires Settles(node, rules, fuel)
    decreases fuel, Tr.Size(node), 0
    ensures var r := Simplify(SimplifiedNode, node, rules, fuel);
      r.Ok? ==> Unrewritable(r.value, rules)
  {
    UnwrapsChild(node, rules, fuel);
    Tr.SizeArg(node, 0);
    NormalUnrewritable(node.args[0], rules, fuel);
  }

  /** The failures Simplify passes on, and the rewrite it goes on with. */
  lemma SimplifyCases(u: Unwrap, node: Tr.Node, rules: seq<Rule>, fuel: nat)
    ensures var sc := SimplifyChildren(u, node, rules, fuel);
      var r := Simplify(u, node, rules, fuel);
      && (sc.Err? ==> r.Err?)
      && (sc.Ok? && FirstRewrite(sc.value, rules).Err? ==> r.Err?)
      && (sc.Ok? && FirstRewrite(sc.value, rules).Ok? && FirstRewrite(sc.value, rules).value.Some? ==>
            r == if fuel == 0 then Fail(Diverges, "rewriting did not settle")
                 else Simplify(u, FirstRewrite(sc.value, rules).value.value, rules, fuel - 1))
  {
  }

  /** A node no rule fires on after its children are simplified is its own result. */
  lemma SettledUnrewritable(node: Tr.Node, rules: seq<Rule>, fuel: nat)
    requires !((node.Multiply? || node.Add?) && |node.args| == 1)
    requires Settles(node, rules, fuel)
    ensures var r := Simplify(SimplifiedNode, node, rules, fuel);
      r.Ok? && Unrewritable(r.value, rules)
  {
    var s := SimplifyChildren(SimplifiedNode, node, rules, fuel).value;
    FirstRewriteFirst(s, rules);
    assert Simplify(SimplifiedNode, node, rules, fuel) == Ok(s);
  }

  /** No sum or product of one argument is left anywhere in a result. */
  lemma {:induction false} NormalNoUnary(node: Tr.Node, rules: seq<Rule>, fuel: nat)
    decreases fuel, Tr.Size(node)
    ensures var r := Simplify(SimplifiedNode, node, rules, fuel);
      r.Ok? ==> NoUnary(r.value)
  {
    var u := SimplifiedNode;
    var sc := SimplifyChildren(u, node, rules, fuel);
    if sc.Ok? {
      var s := sc.value;
      var hit := FirstRewrite(s, rules);
      if hit.Ok? {
        if hit.value.Some? {
          if fuel > 0 {
            NormalNoUnary(hit.value.value, rules, fuel - 1);
          }
        } else if (node.Multiply? || node.Add?) && |node.args| == 1 {
          UnwrapsChild(node, rules, fuel);
          Tr.SizeArg(node, 0);
          NormalNoUnary(node.args[0], rules, fuel);
        } else {
          if node.HasArgs() {
            ChildrenElementwise(u, node, rules, fuel);
            forall i | 0 <= i < |s.args| ensures NoUnary(s.args[i]) {
              Tr.SizeArg(node, i);
              NormalNoUnary(node.args[i], rules, fuel);
            }
          }
          assert NoUnary(s);
          assert Simplify(u, node, rules, fuel) == Ok(s);
        }
      }
    }
  }

  /** A sum or product of one argument that no rule rewrites simplifies as its child. */
  lemma UnwrapsChild(node: Tr.Node, rules: seq<Rule>, fuel: nat)
    requires (node.Multiply? || node.Add?) && |node.args| == 1
    requires Settles(node, rules, fuel)
    ensures Simplify(SimplifiedNode, node, rules, fuel) == Simplify(SimplifiedNode, node.args[0], rules, fuel)
  {
    ChildrenElementwise(SimplifiedNode, node, rules, fuel);
  }

  /** A leaf no rule touches is its own simplification. */
  lemma LeafUnchanged(u: Unwrap, node: Tr.Node, rules: seq<Rule>, fuel: nat)
    requires !node.HasArgs() && Unrewritable(node, rules)
    ensures Simplify(u, node, rules, fuel) == Ok(node)
  {
    FirstRewriteFirst(node, rules);
  }

  /** There is no cycle detection: a leaf that a rule rewrites to itself never settles,
      whatever the bound. */
  lemma {:induction false} SelfRewriteDiverges(u: Unwrap, node: Tr.Node, rules: seq<Rule>, fuel: nat)
    requires !node.HasArgs() && FirstRewrite(node, rules) == Ok(Some(node))
    ensures Simplify(u, node, rules, fuel).Err?
  {
    if fuel > 0 {
      SelfRewriteDiverges(u, node, rules, fuel - 1);
    }
  }

  /** Line 23 as written: when nothing fires on a sum of one sum of one variable, the inner
      sum is unwrapped but the outer one returns that unwrapped child's input, a sum of one
      argument. Unwrapping the simplified child gives the variable. */
  lemma UnwrapsUnsimplifiedChild(x: Tr.Node, rules: seq<Rule>, fuel: nat)
    requires x.Variable? && Unrewritable(x, rules) && Unrewritable(Tr.Add([x]), rules)
    ensures Simplify(InputNode, Tr.Add([Tr.Add([x])]), rules, fuel) == Ok(Tr.Add([x]))
    ensures !NoUnary(Tr.Add([x]))
    ensures Simplify(SimplifiedNode, Tr.Add([Tr.Add([x])]), rules, fuel) == Ok(x)
  {
    FirstRewriteFirst(x, rules);
    FirstRewriteFirst(Tr.Add([x]), rules);
    forall u: Unwrap ensures Simplify(u, Tr.Add([x]), rules, fuel) == Ok(x) {
      LeafUnchanged(u, x, rules, fuel);
      assert SimplifyAll(u, [x], rules, fuel) == Ok([x]) by {
        assert [x][0] == x && [x][1..] == [] && [x] + [] == [x];
      }
    }
    forall u: Unwrap ensures SimplifyChildren(u, Tr.Add([Tr.Add([x])]), rules, fuel) == Ok(Tr.Add([x])) {
      var inner := [Tr.Add([x])];
      assert inner[0] == Tr.Add([x]) && inner[1..] == [] && [x] + [] == [x];
      assert Simplify(u, inner[0], rules, fuel) == Ok(x);
      assert SimplifyAll(u, inner, rules, fuel) == Ok([x]);
    }
  }

  /** The same on the default table: neither version of it fires on a variable or on a
      sum of one variable. */
  lemma DefaultTableUnwrap(x: Tr.Node, fuel: nat)
    requires x.Variable?
    ensures Simplify(InputNode, Tr.Add([Tr.Add([x])]), SR.RulesAsWritten(), fuel) == Ok(Tr.Add([x]))
    ensures Simplify(SimplifiedNode, Tr.Add([Tr.Add([x])]), SR.Rules(), fuel) == Ok(x)
  {
    SR.Layout();
    forall k | 0 <= k < 11
      ensures M.ApplyRule(x, SR.Rules()[k], MaxDepth) == Ok(None)
      ensures M.ApplyRule(Tr.Add([x]), SR.Rules()[k], MaxDepth) == Ok(None)
      ensures M.ApplyRule(x, SR.RulesAsWritten()[k], MaxDepth) == Ok(None)
      ensures M.ApplyRule(Tr.Add([x]), SR.RulesAsWritten()[k], MaxDepth) == Ok(None)
    {
      SR.IdleOnVariable(x, k);
    }
    UnwrapsUnsimplifiedChild(x, SR.RulesAsWritten(), fuel);
    UnwrapsUnsimplifiedChild(x, SR.Rules(), fuel);
  }
}
