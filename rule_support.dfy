/** Shared pieces of the rule tables in src/Simplification: reading a capture,
    and the expansion of the flat one- and two-slot patterns the tables use. */
module RuleSupport {
  import opened Wrappers
  import opened Match
  import Tr = Tree
  import E = Expansion
  import M = Matcher
  import Pt = Patterns
  import T = NodeTypes
  import C = Complexes
  import U = NodeUtils

  /** `nodes[k]`. A rule reads only names it requires, so the fallback is never taken
      when the rule fires. */
  function Lookup(caps: Captures, k: string, fallback: Tr.Node): (r: Tr.Node)
    ensures k in caps ==> r == caps[k]
  {
    if k in caps then caps[k] else fallback
  }

  lemma PermutationsOfOne<X>(x: X)
    ensures E.Permutations([x]) == [[x]]
  {
    var e: seq<X> := [];
    assert E.Remove([x], 0) == e;
    assert E.Permutations(e) == [[]];
    PrependSingle(x, e);
    assert [x] + e == [x];
    assert E.PermutationsFrom([x], 1) == [];
    assert E.PermutationsFrom([x], 0) == E.Prepend(x, [e]) + [];
  }

  lemma PermutationsOfTwo<X>(x: X, y: X)
    ensures E.Permutations([x, y]) == [[x, y], [y, x]]
  {
    assert E.Remove([x, y], 0) == [y];
    assert E.Remove([x, y], 1) == [x];
    PermutationsOfOne(x);
    PermutationsOfOne(y);
    PrependSingle(x, [y]);
    PrependSingle(y, [x]);
    assert [x] + [y] == [x, y] && [y] + [x] == [y, x];
    assert E.PermutationsFrom([x, y], 1) == [[y, x]];
    assert E.PermutationsFrom([x, y], 0) == [[x, y]] + [[y, x]];
    assert E.PermutationsFrom([x, y], 2) == [];
    assert E.PermutationsFrom([x, y], 1) == E.Prepend(y, [[x]]) + [];
    assert E.PermutationsFrom([x, y], 0) == E.Prepend(x, [[y]]) + E.PermutationsFrom([x, y], 1);
  }

  lemma PrependSingle<X>(x: X, c: seq<X>)
    ensures E.Prepend(x, [c]) == [[x] + c]
  {
    var r := E.Prepend(x, [c]);
    assert |r| == 1 && r[0] == [x] + c;
  }

  /** A node with one slot holding a single argless alternative has one instance. */
  lemma ExpandUnary(d: DetectionNode, a: DetectionNode)
    requires d.args == Slots([Pattern([a])]) && a.args.NoSlots?
    ensures E.Height(Pattern([d])) == 1
    ensures E.Expand(Pattern([d])) == [WithArgs(d, [Leaf(a)])]
  {
    E.ExpandSingle(d);
    E.ExpandSingle(a);
    var slots := E.ExpandSlots(d, 0);
    assert slots == [[Leaf(a)]];
    assert E.CartesianProduct(slots[1..]) == [[]];
    assert E.CartesianProduct(slots) == E.PrependEach([Leaf(a)], [[]]);
    assert E.PrependEach([Leaf(a)], [[]]) == E.Prepend(Leaf(a), [[]]) + E.PrependEach([], [[]]);
    assert E.CartesianProduct(slots) == [[Leaf(a)]];
    PermutationsOfOne(Leaf(a));
    assert E.Instances(d, [[Leaf(a)]]) == [WithArgs(d, [Leaf(a)])] by {
      assert E.Instances(d, [[Leaf(a)]][1..]) == [];
    }
    HeightOfLeaf(a);
    assert E.SlotsHeight(d, 1) == 0;
    assert E.SlotsHeight(d, 0) == 1;
    assert E.NodeHeight(d) == 1;
    HeightOfSingle(d);
  }

  /** A node with two slots, each a single argless alternative: one instance, or both
      orders when the node is commutative. */
  lemma ExpandBinary(d: DetectionNode, a: DetectionNode, b: DetectionNode)
    requires d.args == Slots([Pattern([a]), Pattern([b])]) && a.args.NoSlots? && b.args.NoSlots?
    ensures E.Height(Pattern([d])) == 1
    ensures E.Expand(Pattern([d])) ==
      if d.commutative == Some(true) then [WithArgs(d, [Leaf(a), Leaf(b)]), WithArgs(d, [Leaf(b), Leaf(a)])]
      else [WithArgs(d, [Leaf(a), Leaf(b)])]
  {
    E.ExpandSingle(d);
    E.ExpandSingle(a);
    E.ExpandSingle(b);
    var slots := E.ExpandSlots(d, 0);
    assert slots == [[Leaf(a)], [Leaf(b)]];
    var tail := slots[1..];
    assert tail == [[Leaf(b)]];
    assert E.CartesianProduct(tail[1..]) == [[]];
    assert E.CartesianProduct(tail) == E.PrependEach([Leaf(b)], [[]]);
    assert E.PrependEach([Leaf(b)], [[]]) == E.Prepend(Leaf(b), [[]]) + E.PrependEach([], [[]]);
    assert E.CartesianProduct(tail) == [[Leaf(b)]];
    assert E.CartesianProduct(slots) == E.PrependEach([Leaf(a)], [[Leaf(b)]]);
    assert E.PrependEach([Leaf(a)], [[Leaf(b)]]) == E.Prepend(Leaf(a), [[Leaf(b)]]) + E.PrependEach([], [[Leaf(b)]]);
    PrependSingle(Leaf(a), [Leaf(b)]);
    assert [Leaf(a)] + [Leaf(b)] == [Leaf(a), Leaf(b)];
    assert E.CartesianProduct(slots) == [[Leaf(a), Leaf(b)]];
    PermutationsOfTwo(Leaf(a), Leaf(b));
    assert E.Instances(d, [[Leaf(a), Leaf(b)]][1..]) == [];
    HeightOfLeaf(a);
    HeightOfLeaf(b);
    assert E.SlotsHeight(d, 2) == 0;
    assert E.SlotsHeight(d, 1) == 1;
    assert E.SlotsHeight(d, 0) == 1;
    assert E.NodeHeight(d) == 1;
    HeightOfSingle(d);
  }

  lemma HeightOfLeaf(a: DetectionNode)
    requires a.args.NoSlots?
    ensures E.Height(Pattern([a])) == 0
  {
    HeightOfSingle(a);
  }

  lemma HeightOfSingle(d: DetectionNode)
    ensures E.Height(Pattern([d])) == E.NodeHeight(d)
  {
    var hs := seq(1, j requires 0 <= j < 1 => E.NodeHeight([d][j]));
    assert hs == [E.NodeHeight(d)] && hs[1..] == [];
    assert E.Height(Pattern([d])) == E.MaxOf(hs);
  }

  // ---- what a firing rule does ----

  /** ApplyRuleWithPartialMatch's result comes from one winning instance. */
  lemma Winner(node: Tr.Node, rule: Rule, instances: seq<MatchNode>)
    requires M.ApplyInstances(node, rule, instances).Some?
    ensures exists m :: (m in instances && M.Fires(node, rule, m)
      && M.ApplyInstances(node, rule, instances).value == M.Rewrite(node, rule, m))
  {
    M.ApplyInstancesFirst(node, rule, instances);
    var j :| 0 <= j < |instances| && M.Fires(node, rule, instances[j])
      && M.ApplyInstances(node, rule, instances).value == M.Rewrite(node, rule, instances[j]);
    assert instances[j] in instances;
  }

  /** A `children` rule that fires removes the ascending matched positions and appends
      its replacement, computed from the captures of the winning attempt. */
  lemma ChildrenRewrite(node: Tr.Node, rule: Rule, m: MatchNode)
    requires M.Fires(node, rule, m) && rule.node.None?
    ensures var a := M.Attempt(node, m);
      && node.HasArgs() && a.indices.Some? && M.Ascending(a.indices.value) && M.InRange(a.indices.value, |node.args|)
      && M.HasAll(rule.requiredNodes, a.captures.value)
      && M.Rewrite(node, rule, m)
         == node.WithArgs(M.Keep(node.args, M.SetOf(a.indices.value), 0) + [rule.children.value(node, a.captures.value)])
  {
    M.AttemptIndices(node, m);
  }

  /** The captures an argless instance adds when it matches `x`. */
  function LeafBind(a: DetectionNode, x: Tr.Node, c: Captures): Captures {
    if M.Named(a.capture) then c[a.capture.value := x] else c
  }

  /** Matching an argless instance whose capture name is not yet bound: the fields must
      hold, and a capture binds the node. */
  lemma LeafMatch(x: Tr.Node, a: DetectionNode, c: Captures)
    requires a.args.NoSlots? && (M.Named(a.capture) ==> a.capture.value !in c)
    ensures M.MatchSingle(x, Leaf(a), c) == if M.FieldsMatch(x, Leaf(a)) then Some(LeafBind(a, x, c)) else None
  {
  }

  /** The two matched positions of an attempt on a two-slot instance, and what each slot
      matched. */
  lemma BinaryAttempt(node: Tr.Node, d: DetectionNode, x: MatchNode, y: MatchNode) returns (i: nat, j: nat, c1: Captures)
    requires d.capture.None?
    requires M.Attempt(node, WithArgs(d, [x, y])).captures.Some?
    requires M.Attempt(node, WithArgs(d, [x, y])).indices.Some?
    ensures d.kind.Some? ==> node.Kind() == d.kind.value
    ensures node.HasArgs() && i < j < |node.args|
    ensures M.Attempt(node, WithArgs(d, [x, y])).indices.value == [i, j] && M.SetOf([i, j]) == {i, j}
    ensures M.MatchSingle(node.args[i], x, map[]) == Some(c1)
    ensures M.MatchSingle(node.args[j], y, c1) == M.Attempt(node, WithArgs(d, [x, y])).captures
  {
    var m := WithArgs(d, [x, y]);
    var at := M.Attempt(node, m);
    var full := M.MatchSingle(node, m, map[]);
    M.AttemptIndices(node, m);
    if full.Some? {
      assert M.Bind(node, m.capture, map[]) == Some(map[]);
      assert node.HasArgs() && M.MatchArgs(node.args, m, map[]) == full;
      PairFrom(node.args, m, map[]);
      assert at.indices.value == M.Indices(2) == [0, 1];
      i, j := 0, 1;
    } else {
      M.FindPartialSound(node, m);
      var idx := at.indices.value;
      var picked := M.Pick(node.args, idx);
      assert M.MatchArgs(picked, m, map[]) == at.captures;
      PairFrom(picked, m, map[]);
      assert idx == [idx[0], idx[1]];
      i, j := idx[0], idx[1];
    }
    c1 := M.MatchSingle(node.args[i], x, map[]).value;
    assert M.SetOf([i, j]) == {i, j};
  }

  /** Two positions i < j of an Add or Multiply of the instance's type whose arguments match
      the two slots in turn make the attempt succeed. */
  lemma PairMatchesOf(node: Tr.Node, d: DetectionNode, x: MatchNode, y: MatchNode, i: nat, j: nat)
    requires d.capture.None? && (node.Add? || node.Multiply?) && d.kind == Some(node.Kind())
    requires i < j < |node.args| && M.MatchSingle(node.args[i], x, map[]).Some?
    requires M.MatchSingle(node.args[j], y, M.MatchSingle(node.args[i], x, map[]).value).Some?
    ensures M.Attempt(node, WithArgs(d, [x, y])).captures.Some?
  {
    var m := WithArgs(d, [x, y]);
    if M.MatchSingle(node, m, map[]).None? {
      var picked := M.Pick(node.args, [i, j]);
      PairFrom(picked, m, map[]);
      assert M.PickMatches(node.args, m, [i, j]);
      M.FindPartialComplete(node, m, [i, j]);
    }
  }

  /** MatchFrom on two positions. */
  lemma PairFrom(nodes: seq<Tr.Node>, m: MatchNode, c: Captures)
    requires m.args.ArgList? && |m.args.items| == 2 && |nodes| == 2
    ensures M.MatchFrom(nodes, m, 0, c) ==
      match M.MatchSingle(nodes[0], m.args.items[0], c)
      case None => None
      case Some(c1) => M.MatchSingle(nodes[1], m.args.items[1], c1)
  {
    if M.MatchSingle(nodes[0], m.args.items[0], c).Some? {
      var c1 := M.MatchSingle(nodes[0], m.args.items[0], c).value;
      assert M.MatchFrom(nodes, m, 1, c1) == match M.MatchSingle(nodes[1], m.args.items[1], c1)
        case None => None case Some(c2) => M.MatchFrom(nodes, m, 2, c2);
    }
  }

  // ---- the argless slots of the tables ----

  /** SpecialNodes.P..S: anything, captured under `name`. */
  function AnySlot(name: string): DetectionNode { Blank().(capture := Some(name)) }

  /** P(Literal), Q(Literal): any literal, captured under `name`. */
  function LiteralSlot(name: string): DetectionNode { Blank().(kind := Some(T.Literal), capture := Some(name)) }

  /** Zero, One, NegativeOne: the literal v, uncaptured. */
  function ValueSlot(v: int): DetectionNode { Pt.Only(Pt.LiteralOf(v)) }

  lemma SlotPatterns(name: string)
    ensures Pt.Capture(Pt.Wildcard(), name) == Pattern([AnySlot(name)])
    ensures Pt.Capture(Pt.Literal(), name) == Pattern([LiteralSlot(name)])
    ensures Pt.P() == Pattern([AnySlot("P")]) && Pt.Q() == Pattern([AnySlot("Q")]) && Pt.R() == Pattern([AnySlot("R")])
    ensures forall v :: Pt.LiteralOf(v) == Pattern([ValueSlot(v)])
  {
    Pt.SpecialNodesShape();
    assert Pt.Capture(Pt.Literal(), name).alternatives[0] == LiteralSlot(name);
  }

  /** What each slot accepts and binds. */
  lemma SlotFields(x: Tr.Node, name: string, v: int)
    requires name != ""
    ensures M.FieldsMatch(x, Leaf(AnySlot(name))) && Names(AnySlot(name)) == {name}
    ensures M.FieldsMatch(x, Leaf(LiteralSlot(name))) <==> x.Literal?
    ensures Names(LiteralSlot(name)) == {name}
    ensures M.FieldsMatch(x, Leaf(ValueSlot(v))) <==> x.Literal? && C.Equal(x.number, C.FromNumber(v))
    ensures Names(ValueSlot(v)) == {}
  {
  }

  /** The captures of two slots, when x and y match them. */
  lemma SlotCaptures(x: Tr.Node, y: Tr.Node, p: string, q: string, v: int)
    requires p != "" && q != ""
    ensures PairCaptures(AnySlot(p), ValueSlot(v), x, y) == map[p := x]
    ensures PairCaptures(ValueSlot(v), AnySlot(p), x, y) == map[p := y]
    ensures PairCaptures(LiteralSlot(p), ValueSlot(v), x, y) == map[p := x]
    ensures PairCaptures(ValueSlot(v), LiteralSlot(p), x, y) == map[p := y]
    ensures PairCaptures(LiteralSlot(p), LiteralSlot(q), x, y) == map[p := x][q := y]
  {
  }

  // ---- flat two-slot rules ----

  /** An uncaptured node over two argless slots with distinct capture names. */
  predicate PairLeaves(d: DetectionNode, a: DetectionNode, b: DetectionNode) {
    && d.capture.None? && a.args.NoSlots? && b.args.NoSlots?
    && (M.Named(a.capture) && M.Named(b.capture) ==> a.capture.value != b.capture.value)
  }

  /** A rule whose pattern is such a node. */
  predicate PairRule(rule: Rule, d: DetectionNode, a: DetectionNode, b: DetectionNode) {
    && rule.pattern == Pattern([d]) && d.args == Slots([Pattern([a]), Pattern([b])])
    && PairLeaves(d, a, b) && (rule.node.Some? || rule.children.Some?)
  }

  /** The names an argless instance binds. */
  function Names(a: DetectionNode): set<string> {
    if M.Named(a.capture) then {a.capture.value} else {}
  }

  /** Every required name is captured by one of the two slots. */
  predicate RequiredWithin(rule: Rule, a: DetectionNode, b: DetectionNode) {
    forall k :: 0 <= k < |rule.requiredNodes| ==> rule.requiredNodes[k] in Names(a) + Names(b)
  }

  /** The captures of slots a and b matched by x and y. */
  function PairCaptures(a: DetectionNode, b: DetectionNode, x: Tr.Node, y: Tr.Node): Captures {
    LeafBind(b, y, LeafBind(a, x, map[]))
  }

  /** What a two-slot rule produces when positions i < j were matched: a `node` rule
      replaces the node, a `children` rule the two arguments. */
  function PairResult(node: Tr.Node, rule: Rule, i: nat, j: nat, caps: Captures): Tr.Node
    requires node.HasArgs() && (rule.node.Some? || rule.children.Some?)
  {
    if rule.node.Some? then rule.node.value(node, caps)
    else node.WithArgs(M.Keep(node.args, {i, j}, 0) + [rule.children.value(node, caps)])
  }

  /** `r` is the rule's result for some positions i < j matching slots a and b. */
  predicate PairRewrite(node: Tr.Node, rule: Rule, a: DetectionNode, b: DetectionNode, r: Tr.Node)
    requires node.HasArgs() && (rule.node.Some? || rule.children.Some?)
  {
    exists i: nat, j: nat :: i < j < |node.args|
      && M.FieldsMatch(node.args[i], Leaf(a)) && M.FieldsMatch(node.args[j], Leaf(b))
      && r == PairResult(node, rule, i, j, PairCaptures(a, b, node.args[i], node.args[j]))
  }

  /** A successful attempt of the instance [a, b] matched two positions i < j. */
  lemma PairAttempt(node: Tr.Node, d: DetectionNode, a: DetectionNode, b: DetectionNode)
    requires PairLeaves(d, a, b) && M.Attempt(node, WithArgs(d, [Leaf(a), Leaf(b)])).captures.Some?
    ensures node.HasArgs() && (d.kind.Some? ==> node.Kind() == d.kind.value)
    ensures var at := M.Attempt(node, WithArgs(d, [Leaf(a), Leaf(b)]));
      at.indices.Some? && exists i: nat, j: nat :: (i < j < |node.args| && at.indices.value == [i, j]
        && M.FieldsMatch(node.args[i], Leaf(a)) && M.FieldsMatch(node.args[j], Leaf(b))
        && at.captures.value == PairCaptures(a, b, node.args[i], node.args[j]))
  {
    var m := WithArgs(d, [Leaf(a), Leaf(b)]);
    var at := M.Attempt(node, m);
    IndicesOfSuccess(node, m);
    var i, j, c1 := BinaryAttempt(node, d, Leaf(a), Leaf(b));
    LeafMatch(node.args[i], a, map[]);
    LeafMatch(node.args[j], b, c1);
    assert at.captures.value == PairCaptures(a, b, node.args[i], node.args[j]);
  }

  /** An attempt of an instance with arguments that succeeds also has its positions. */
  lemma IndicesOfSuccess(node: Tr.Node, m: MatchNode)
    requires m.args.ArgList? && M.Attempt(node, m).captures.Some?
    ensures node.HasArgs() && M.Attempt(node, m).indices.Some?
  {
    M.AttemptIndices(node, m);
    if M.MatchSingle(node, m, map[]).None? {
      M.FindPartialSound(node, m);
    }
  }

  /** The rewrite of a firing instance [a, b]. */
  lemma PairFires(node: Tr.Node, rule: Rule, d: DetectionNode, a: DetectionNode, b: DetectionNode)
    requires PairLeaves(d, a, b) && M.Fires(node, rule, WithArgs(d, [Leaf(a), Leaf(b)]))
    ensures node.HasArgs() && (d.kind.Some? ==> node.Kind() == d.kind.value)
    ensures PairRewrite(node, rule, a, b, M.Rewrite(node, rule, WithArgs(d, [Leaf(a), Leaf(b)])))
  {
    var m := WithArgs(d, [Leaf(a), Leaf(b)]);
    var at := M.Attempt(node, m);
    PairAttempt(node, d, a, b);
    var i: nat, j: nat :| i < j < |node.args| && at.indices.value == [i, j]
      && M.FieldsMatch(node.args[i], Leaf(a)) && M.FieldsMatch(node.args[j], Leaf(b))
      && at.captures.value == PairCaptures(a, b, node.args[i], node.args[j]);
    assert M.SetOf([i, j]) == {i, j};
    assert M.Rewrite(node, rule, m) == PairResult(node, rule, i, j, at.captures.value);
  }

  /** When the rule rewrote (`r` is Some), the node has the pattern's type and the result
      is the rewrite at two matching positions, in the slots' order or, for a commutative
      pattern, possibly swapped. */
  predicate PairOutcome(node: Tr.Node, rule: Rule, d: DetectionNode, a: DetectionNode, b: DetectionNode, r: Option<Tr.Node>)
    requires rule.node.Some? || rule.children.Some?
  {
    r.Some? ==> (node.HasArgs() && (d.kind.Some? ==> node.Kind() == d.kind.value)
      && (PairRewrite(node, rule, a, b, r.value) || (d.commutative == Some(true) && PairRewrite(node, rule, b, a, r.value))))
  }

  /** A two-slot rule never exceeds a depth of 1, and what it returns is a PairOutcome. */
  lemma PairSound(node: Tr.Node, rule: Rule, d: DetectionNode, a: DetectionNode, b: DetectionNode, maxDepth: int)
    requires PairRule(rule, d, a, b) && maxDepth >= 1
    ensures M.ApplyRule(node, rule, maxDepth).Ok?
    ensures PairOutcome(node, rule, d, a, b, M.ApplyRule(node, rule, maxDepth).value)
  {
    ExpandBinary(d, a, b);
    var insts := E.Expand(rule.pattern);
    if M.ApplyInstances(node, rule, insts).Some? {
      PairWon(node, rule, d, a, b, insts);
    }
  }

  lemma PairWon(node: Tr.Node, rule: Rule, d: DetectionNode, a: DetectionNode, b: DetectionNode, insts: seq<MatchNode>)
    requires PairLeaves(d, a, b) && (rule.node.Some? || rule.children.Some?)
    requires insts == if d.commutative == Some(true) then [WithArgs(d, [Leaf(a), Leaf(b)]), WithArgs(d, [Leaf(b), Leaf(a)])]
      else [WithArgs(d, [Leaf(a), Leaf(b)])]
    requires M.ApplyInstances(node, rule, insts).Some?
    ensures PairOutcome(node, rule, d, a, b, M.ApplyInstances(node, rule, insts))
  {
    Winner(node, rule, insts);
    var m :| m in insts && M.Fires(node, rule, m) && M.ApplyInstances(node, rule, insts).value == M.Rewrite(node, rule, m);
    if m == WithArgs(d, [Leaf(a), Leaf(b)]) {
      PairFires(node, rule, d, a, b);
    } else {
      PairFires(node, rule, d, b, a);
    }
  }

  /** Conversely, two matching positions of an Add or Multiply of the pattern's type make
      the rule fire, in the slots' order or, for a commutative pattern, swapped, when the
      slots capture every required name. */
  lemma PairComplete(node: Tr.Node, rule: Rule, d: DetectionNode, a: DetectionNode, b: DetectionNode, maxDepth: int, i: nat, j: nat)
    requires PairRule(rule, d, a, b) && RequiredWithin(rule, a, b) && maxDepth >= 1
    requires (node.Add? || node.Multiply?) && d.kind == Some(node.Kind()) && i < j < |node.args|
    requires (M.FieldsMatch(node.args[i], Leaf(a)) && M.FieldsMatch(node.args[j], Leaf(b)))
      || (d.commutative == Some(true) && M.FieldsMatch(node.args[i], Leaf(b)) && M.FieldsMatch(node.args[j], Leaf(a)))
    ensures M.ApplyRule(node, rule, maxDepth).Ok? && M.ApplyRule(node, rule, maxDepth).value.Some?
  {
    ExpandBinary(d, a, b);
    var insts := E.Expand(rule.pattern);
    if M.FieldsMatch(node.args[i], Leaf(a)) && M.FieldsMatch(node.args[j], Leaf(b)) {
      assert insts[0] == WithArgs(d, [Leaf(a), Leaf(b)]);
      OrderFires(node, rule, d, a, b, i, j);
    } else {
      assert insts[1] == WithArgs(d, [Leaf(b), Leaf(a)]);
      RequiredSwap(rule, a, b);
      OrderFires(node, rule, d, b, a, i, j);
    }
    M.ApplyInstancesFirst(node, rule, insts);
  }

  lemma RequiredSwap(rule: Rule, a: DetectionNode, b: DetectionNode)
    requires RequiredWithin(rule, a, b)
    ensures RequiredWithin(rule, b, a)
  {
    assert Names(a) + Names(b) == Names(b) + Names(a);
  }

  /** The instance [a, b] fires on two positions matching it. */
  lemma OrderFires(node: Tr.Node, rule: Rule, d: DetectionNode, a: DetectionNode, b: DetectionNode, i: nat, j: nat)
    requires PairLeaves(d, a, b) && RequiredWithin(rule, a, b) && (rule.node.Some? || rule.children.Some?)
    requires (node.Add? || node.Multiply?) && d.kind == Some(node.Kind())
    requires i < j < |node.args| && M.FieldsMatch(node.args[i], Leaf(a)) && M.FieldsMatch(node.args[j], Leaf(b))
    ensures M.Fires(node, rule, WithArgs(d, [Leaf(a), Leaf(b)]))
  {
    var m := WithArgs(d, [Leaf(a), Leaf(b)]);
    PairMatches(node, d, a, b, i, j);
    PairAttempt(node, d, a, b);
    var at := M.Attempt(node, m);
    var i': nat, j': nat :| i' < j' < |node.args| && at.indices.value == [i', j']
      && M.FieldsMatch(node.args[i'], Leaf(a)) && M.FieldsMatch(node.args[j'], Leaf(b))
      && at.captures.value == PairCaptures(a, b, node.args[i'], node.args[j']);
    assert M.HasAll(rule.requiredNodes, at.captures.value);
  }

  /** The chosen positions i < j match, so the attempt succeeds. */
  lemma PairMatches(node: Tr.Node, d: DetectionNode, a: DetectionNode, b: DetectionNode, i: nat, j: nat)
    requires PairLeaves(d, a, b) && (node.Add? || node.Multiply?) && d.kind == Some(node.Kind())
    requires i < j < |node.args| && M.FieldsMatch(node.args[i], Leaf(a)) && M.FieldsMatch(node.args[j], Leaf(b))
    ensures M.Attempt(node, WithArgs(d, [Leaf(a), Leaf(b)])).captures.Some?
  {
    LeafMatch(node.args[i], a, map[]);
    LeafMatch(node.args[j], b, LeafBind(a, node.args[i], map[]));
    PairMatchesOf(node, d, Leaf(a), Leaf(b), i, j);
  }

  // ---- the identity and literal-folding shapes ----

  /** A `children` rule whose replacement is the capture P. */
  ghost predicate ReturnsP(rule: Rule) {
    rule.node.None? && rule.children.Some?
    && forall n: Tr.Node, caps: Captures :: "P" in caps ==> rule.children.value(n, caps) == caps["P"]
  }

  /** `r` drops an argument j equal to the literal v together with another argument i,
      and appends i after the untouched arguments. */
  predicate ValueDropped(node: Tr.Node, r: Tr.Node, v: int) {
    node.HasArgs() && exists i: nat, j: nat :: (i < |node.args| && j < |node.args| && i != j
      && M.FieldsMatch(node.args[j], Leaf(ValueSlot(v)))
      && r == node.WithArgs(M.Keep(node.args, {i, j}, 0) + [node.args[i]]))
  }

  /** `P op v => P` never exceeds a depth of 1, and when it fires an argument v was
      dropped. */
  lemma IdentitySound(node: Tr.Node, rule: Rule, d: DetectionNode, v: int, maxDepth: int)
    requires PairRule(rule, d, AnySlot("P"), ValueSlot(v)) && ReturnsP(rule) && maxDepth >= 1
    ensures M.ApplyRule(node, rule, maxDepth).Ok?
    ensures var r := M.ApplyRule(node, rule, maxDepth).value;
      r.Some? ==> ((d.kind.Some? ==> node.Kind() == d.kind.value) && ValueDropped(node, r.value, v))
  {
    var a, b := AnySlot("P"), ValueSlot(v);
    PairSound(node, rule, d, a, b, maxDepth);
    var r := M.ApplyRule(node, rule, maxDepth).value;
    if r.Some? {
      if PairRewrite(node, rule, a, b, r.value) {
        IdentityInOrder(node, rule, v, r.value);
      } else {
        IdentitySwapped(node, rule, v, r.value);
      }
    }
  }

  lemma IdentityInOrder(node: Tr.Node, rule: Rule, v: int, r: Tr.Node)
    requires node.HasArgs() && ReturnsP(rule) && PairRewrite(node, rule, AnySlot("P"), ValueSlot(v), r)
    ensures ValueDropped(node, r, v)
  {
    var a, b := AnySlot("P"), ValueSlot(v);
    var i: nat, j: nat :| i < j < |node.args| && M.FieldsMatch(node.args[i], Leaf(a)) && M.FieldsMatch(node.args[j], Leaf(b))
      && r == PairResult(node, rule, i, j, PairCaptures(a, b, node.args[i], node.args[j]));
    SlotCaptures(node.args[i], node.args[j], "P", "P", v);
    assert r == node.WithArgs(M.Keep(node.args, {i, j}, 0) + [node.args[i]]);
  }

  lemma IdentitySwapped(node: Tr.Node, rule: Rule, v: int, r: Tr.Node)
    requires node.HasArgs() && ReturnsP(rule) && PairRewrite(node, rule, ValueSlot(v), AnySlot("P"), r)
    ensures ValueDropped(node, r, v)
  {
    var a, b := AnySlot("P"), ValueSlot(v);
    var i: nat, j: nat :| i < j < |node.args| && M.FieldsMatch(node.args[i], Leaf(b)) && M.FieldsMatch(node.args[j], Leaf(a))
      && r == PairResult(node, rule, i, j, PairCaptures(b, a, node.args[i], node.args[j]));
    SlotCaptures(node.args[i], node.args[j], "P", "P", v);
    assert {i, j} == {j, i};
    assert r == node.WithArgs(M.Keep(node.args, {j, i}, 0) + [node.args[j]]);
  }

  /** Conversely, a commutative `P op v` fires on an Add or Multiply of its type with an
      argument v beside any other argument. */
  lemma IdentityComplete(node: Tr.Node, rule: Rule, d: DetectionNode, v: int, maxDepth: int, i: nat, j: nat)
    requires PairRule(rule, d, AnySlot("P"), ValueSlot(v)) && rule.requiredNodes == ["P"] && maxDepth >= 1
    requires d.commutative == Some(true) && (node.Add? || node.Multiply?) && d.kind == Some(node.Kind())
    requires i < |node.args| && j < |node.args| && i != j && M.FieldsMatch(node.args[j], Leaf(ValueSlot(v)))
    ensures M.ApplyRule(node, rule, maxDepth).Ok? && M.ApplyRule(node, rule, maxDepth).value.Some?
  {
    SlotFields(node.args[i], "P", v);
    assert RequiredWithin(rule, AnySlot("P"), ValueSlot(v)) by { assert rule.requiredNodes[0] == "P"; }
    if i < j {
      PairComplete(node, rule, d, AnySlot("P"), ValueSlot(v), maxDepth, i, j);
    } else {
      PairComplete(node, rule, d, AnySlot("P"), ValueSlot(v), maxDepth, j, i);
    }
  }

  /** A `children` rule whose replacement is the literal f(P, Q) for literal captures. */
  ghost predicate CombinesLiterals(rule: Rule, f: (C.Complex, C.Complex) -> C.Complex) {
    rule.node.None? && rule.children.Some?
    && forall n: Tr.Node, caps: Captures :: ("P" in caps && "Q" in caps && caps["P"].Literal? && caps["Q"].Literal?
         ==> rule.children.value(n, caps) == Tr.Literal(f(caps["P"].number, caps["Q"].number)))
  }

  /** `r` replaces two literal arguments i < j by the literal f of their numbers. */
  predicate LiteralsCombined(node: Tr.Node, r: Tr.Node, f: (C.Complex, C.Complex) -> C.Complex) {
    node.HasArgs() && exists i: nat, j: nat :: (i < j < |node.args|
      && node.args[i].Literal? && node.args[j].Literal?
      && r == node.WithArgs(M.Keep(node.args, {i, j}, 0) + [Tr.Literal(f(node.args[i].number, node.args[j].number))]))
  }

  /** `P(Literal) op Q(Literal)` with a commutative f never exceeds a depth of 1, and when
      it fires two literal arguments were folded. */
  lemma FoldSound(node: Tr.Node, rule: Rule, d: DetectionNode, f: (C.Complex, C.Complex) -> C.Complex, maxDepth: int)
    requires PairRule(rule, d, LiteralSlot("P"), LiteralSlot("Q")) && CombinesLiterals(rule, f) && maxDepth >= 1
    requires forall x, y :: f(x, y) == f(y, x)
    ensures M.ApplyRule(node, rule, maxDepth).Ok?
    ensures var r := M.ApplyRule(node, rule, maxDepth).value;
      r.Some? ==> ((d.kind.Some? ==> node.Kind() == d.kind.value) && LiteralsCombined(node, r.value, f))
  {
    PairSound(node, rule, d, LiteralSlot("P"), LiteralSlot("Q"), maxDepth);
    var r := M.ApplyRule(node, rule, maxDepth).value;
    if r.Some? {
      if PairRewrite(node, rule, LiteralSlot("P"), LiteralSlot("Q"), r.value) {
        FoldOrder(node, rule, f, r.value, false);
      } else {
        FoldOrder(node, rule, f, r.value, true);
      }
    }
  }

  /** Either order of the slots folds the same two numbers. */
  lemma FoldOrder(node: Tr.Node, rule: Rule, f: (C.Complex, C.Complex) -> C.Complex, r: Tr.Node, swapped: bool)
    requires node.HasArgs() && CombinesLiterals(rule, f)
    requires forall x, y :: f(x, y) == f(y, x)
    requires var (p, q) := if swapped then ("Q", "P") else ("P", "Q");
      PairRewrite(node, rule, LiteralSlot(p), LiteralSlot(q), r)
    ensures LiteralsCombined(node, r, f)
  {
    var (p, q) := if swapped then ("Q", "P") else ("P", "Q");
    var a, b := LiteralSlot(p), LiteralSlot(q);
    var i: nat, j: nat :| i < j < |node.args| && M.FieldsMatch(node.args[i], Leaf(a)) && M.FieldsMatch(node.args[j], Leaf(b))
      && r == PairResult(node, rule, i, j, PairCaptures(a, b, node.args[i], node.args[j]));
    var x, y := node.args[i], node.args[j];
    SlotFields(x, p, 0);
    SlotFields(y, q, 0);
    FoldCaptures(node, rule, f, x, y, swapped);
  }

  /** The replacement for literals x and y matched in either slot order. */
  lemma FoldCaptures(node: Tr.Node, rule: Rule, f: (C.Complex, C.Complex) -> C.Complex, x: Tr.Node, y: Tr.Node, swapped: bool)
    requires CombinesLiterals(rule, f) && x.Literal? && y.Literal?
    requires forall x, y :: f(x, y) == f(y, x)
    ensures var (p, q) := if swapped then ("Q", "P") else ("P", "Q");
      rule.children.value(node, PairCaptures(LiteralSlot(p), LiteralSlot(q), x, y)) == Tr.Literal(f(x.number, y.number))
  {
    if swapped {
      var caps := PairCaptures(LiteralSlot("Q"), LiteralSlot("P"), x, y);
      assert caps == map["Q" := x]["P" := y];
      assert caps["P"] == y && caps["Q"] == x;
      assert f(y.number, x.number) == f(x.number, y.number);
    } else {
      var caps := PairCaptures(LiteralSlot("P"), LiteralSlot("Q"), x, y);
      assert caps == map["P" := x]["Q" := y];
      assert caps["P"] == x && caps["Q"] == y;
    }
  }

  /** Conversely, two literal arguments of an Add or Multiply of the pattern's type make
      the rule fire. */
  lemma FoldComplete(node: Tr.Node, rule: Rule, d: DetectionNode, maxDepth: int, i: nat, j: nat)
    requires PairRule(rule, d, LiteralSlot("P"), LiteralSlot("Q")) && rule.requiredNodes == ["P", "Q"] && maxDepth >= 1
    requires (node.Add? || node.Multiply?) && d.kind == Some(node.Kind())
    requires i < j < |node.args| && node.args[i].Literal? && node.args[j].Literal?
    ensures M.ApplyRule(node, rule, maxDepth).Ok? && M.ApplyRule(node, rule, maxDepth).value.Some?
  {
    SlotFields(node.args[i], "P", 0);
    SlotFields(node.args[j], "Q", 0);
    assert RequiredWithin(rule, LiteralSlot("P"), LiteralSlot("Q")) by {
      assert rule.requiredNodes[0] == "P" && rule.requiredNodes[1] == "Q";
    }
    PairComplete(node, rule, d, LiteralSlot("P"), LiteralSlot("Q"), maxDepth, i, j);
  }

  // ---- a literal beside a fixed value ----

  /** A rule whose replacement, the whole node or the new argument, is g of a literal P. */
  ghost predicate MapsLiteral(rule: Rule, g: Tr.Node -> Tr.Node) {
    (rule.node.Some? || rule.children.Some?)
    && forall n: Tr.Node, caps: Captures :: ("P" in caps && caps["P"].Literal? ==>
         (if rule.node.Some? then rule.node.value(n, caps) else rule.children.value(n, caps)) == g(caps["P"]))
  }

  /** `r` is the rule's result after matching a literal argument i and an argument j equal
      to v: g(i) for a `node` rule, else the untouched arguments followed by g(i). */
  predicate LiteralBesideValue(node: Tr.Node, rule: Rule, r: Tr.Node, v: int, g: Tr.Node -> Tr.Node) {
    node.HasArgs() && exists i: nat, j: nat :: (i < |node.args| && j < |node.args| && i != j
      && node.args[i].Literal? && M.FieldsMatch(node.args[j], Leaf(ValueSlot(v)))
      && r == (if rule.node.Some? then g(node.args[i]) else node.WithArgs(M.Keep(node.args, {i, j}, 0) + [g(node.args[i])])))
  }

  /** `P(Literal) op v` never exceeds a depth of 1, and when it fires its result is g of a
      literal argument found beside an argument v. */
  lemma LiteralValueSound(node: Tr.Node, rule: Rule, d: DetectionNode, v: int, g: Tr.Node -> Tr.Node, maxDepth: int)
    requires PairRule(rule, d, LiteralSlot("P"), ValueSlot(v)) && MapsLiteral(rule, g) && maxDepth >= 1
    ensures M.ApplyRule(node, rule, maxDepth).Ok?
    ensures var r := M.ApplyRule(node, rule, maxDepth).value;
      r.Some? ==> ((d.kind.Some? ==> node.Kind() == d.kind.value) && LiteralBesideValue(node, rule, r.value, v, g))
  {
    var a, b := LiteralSlot("P"), ValueSlot(v);
    PairSound(node, rule, d, a, b, maxDepth);
    var r := M.ApplyRule(node, rule, maxDepth).value;
    if r.Some? {
      if PairRewrite(node, rule, a, b, r.value) {
        LiteralValueInOrder(node, rule, v, g, r.value);
      } else {
        LiteralValueSwapped(node, rule, v, g, r.value);
      }
    }
  }

  lemma LiteralValueInOrder(node: Tr.Node, rule: Rule, v: int, g: Tr.Node -> Tr.Node, r: Tr.Node)
    requires node.HasArgs() && MapsLiteral(rule, g) && PairRewrite(node, rule, LiteralSlot("P"), ValueSlot(v), r)
    ensures LiteralBesideValue(node, rule, r, v, g)
  {
    var a, b := LiteralSlot("P"), ValueSlot(v);
    var i: nat, j: nat :| i < j < |node.args| && M.FieldsMatch(node.args[i], Leaf(a)) && M.FieldsMatch(node.args[j], Leaf(b))
      && r == PairResult(node, rule, i, j, PairCaptures(a, b, node.args[i], node.args[j]));
    SlotFields(node.args[i], "P", v);
    SlotCaptures(node.args[i], node.args[j], "P", "P", v);
    var caps := map["P" := node.args[i]];
    assert caps["P"] == node.args[i];
    BesideAt(node, rule, r, v, g, i, j);
  }

  /** The witnesses of LiteralBesideValue: a literal at i, an argument v at j. */
  lemma BesideAt(node: Tr.Node, rule: Rule, r: Tr.Node, v: int, g: Tr.Node -> Tr.Node, i: nat, j: nat)
    requires node.HasArgs() && i < |node.args| && j < |node.args| && i != j
    requires node.args[i].Literal? && M.FieldsMatch(node.args[j], Leaf(ValueSlot(v)))
    requires r == if rule.node.Some? then g(node.args[i]) else node.WithArgs(M.Keep(node.args, {i, j}, 0) + [g(node.args[i])])
    ensures LiteralBesideValue(node, rule, r, v, g)
  {
  }

  lemma LiteralValueSwapped(node: Tr.Node, rule: Rule, v: int, g: Tr.Node -> Tr.Node, r: Tr.Node)
    requires node.HasArgs() && MapsLiteral(rule, g) && PairRewrite(node, rule, ValueSlot(v), LiteralSlot("P"), r)
    ensures LiteralBesideValue(node, rule, r, v, g)
  {
    var a, b := LiteralSlot("P"), ValueSlot(v);
    var i: nat, j: nat :| i < j < |node.args| && M.FieldsMatch(node.args[i], Leaf(b)) && M.FieldsMatch(node.args[j], Leaf(a))
      && r == PairResult(node, rule, i, j, PairCaptures(b, a, node.args[i], node.args[j]));
    SlotFields(node.args[j], "P", v);
    SlotCaptures(node.args[i], node.args[j], "P", "P", v);
    var caps := map["P" := node.args[j]];
    assert caps["P"] == node.args[j];
    assert {i, j} == {j, i};
  }

  /** Conversely, a commutative `P(Literal) op v` fires on an Add or Multiply of its type
      with a literal beside an argument v. */
  lemma LiteralValueComplete(node: Tr.Node, rule: Rule, d: DetectionNode, v: int, maxDepth: int, i: nat, j: nat)
    requires PairRule(rule, d, LiteralSlot("P"), ValueSlot(v)) && rule.requiredNodes == ["P"] && maxDepth >= 1
    requires d.commutative == Some(true) && (node.Add? || node.Multiply?) && d.kind == Some(node.Kind())
    requires i < |node.args| && j < |node.args| && i != j
    requires node.args[i].Literal? && M.FieldsMatch(node.args[j], Leaf(ValueSlot(v)))
    ensures M.ApplyRule(node, rule, maxDepth).Ok? && M.ApplyRule(node, rule, maxDepth).value.Some?
  {
    SlotFields(node.args[i], "P", v);
    assert RequiredWithin(rule, LiteralSlot("P"), ValueSlot(v)) by { assert rule.requiredNodes[0] == "P"; }
    if i < j {
      PairComplete(node, rule, d, LiteralSlot("P"), ValueSlot(v), maxDepth, i, j);
    } else {
      PairComplete(node, rule, d, LiteralSlot("P"), ValueSlot(v), maxDepth, j, i);
    }
  }

  // ---- two slots capturing the same name ----

  /** `P op P`: an uncaptured node over two wildcard slots that both capture P. */
  predicate TwinRule(rule: Rule, d: DetectionNode) {
    && rule.pattern == Pattern([d]) && d.args == Slots([Pattern([AnySlot("P")]), Pattern([AnySlot("P")])])
    && d.capture.None? && (rule.node.Some? || rule.children.Some?)
  }

  /** `r` is the rule's result for positions i < j whose arguments are Equal, with P bound
      to the first of them. */
  predicate TwinRewrite(node: Tr.Node, rule: Rule, r: Tr.Node)
    requires node.HasArgs() && (rule.node.Some? || rule.children.Some?)
  {
    exists i: nat, j: nat :: i < j < |node.args| && U.Equal(node.args[j], node.args[i])
      && r == PairResult(node, rule, i, j, map["P" := node.args[i]])
  }

  /** A successful attempt of [P, P] matched two Equal arguments, the first bound. */
  lemma TwinAttempt(node: Tr.Node, d: DetectionNode)
    requires d.capture.None? && M.Attempt(node, WithArgs(d, [Leaf(AnySlot("P")), Leaf(AnySlot("P"))])).captures.Some?
    ensures node.HasArgs() && (d.kind.Some? ==> node.Kind() == d.kind.value)
    ensures var at := M.Attempt(node, WithArgs(d, [Leaf(AnySlot("P")), Leaf(AnySlot("P"))]));
      at.indices.Some? && exists i: nat, j: nat :: (i < j < |node.args| && at.indices.value == [i, j]
        && U.Equal(node.args[j], node.args[i]) && at.captures.value == map["P" := node.args[i]])
  {
    var a := AnySlot("P");
    var m := WithArgs(d, [Leaf(a), Leaf(a)]);
    var at := M.Attempt(node, m);
    IndicesOfSuccess(node, m);
    var i, j, c1 := BinaryAttempt(node, d, Leaf(a), Leaf(a));
    LeafMatch(node.args[i], a, map[]);
    assert c1 == map["P" := node.args[i]];
  }

  /** `P op P` never exceeds a depth of 1, and when it fires it rewrote two Equal
      arguments. */
  lemma TwinSound(node: Tr.Node, rule: Rule, d: DetectionNode, maxDepth: int)
    requires TwinRule(rule, d) && maxDepth >= 1
    ensures M.ApplyRule(node, rule, maxDepth).Ok?
    ensures var r := M.ApplyRule(node, rule, maxDepth).value;
      r.Some? ==> (node.HasArgs() && (d.kind.Some? ==> node.Kind() == d.kind.value) && TwinRewrite(node, rule, r.value))
  {
    var a := AnySlot("P");
    var m := WithArgs(d, [Leaf(a), Leaf(a)]);
    ExpandBinary(d, a, a);
    var insts := E.Expand(rule.pattern);
    if M.ApplyInstances(node, rule, insts).Some? {
      Winner(node, rule, insts);
      assert forall m' :: m' in insts ==> m' == m;
      TwinFires(node, rule, d);
    }
  }

  /** The rewrite of a firing instance [P, P]. */
  lemma TwinFires(node: Tr.Node, rule: Rule, d: DetectionNode)
    requires TwinRule(rule, d) && M.Fires(node, rule, WithArgs(d, [Leaf(AnySlot("P")), Leaf(AnySlot("P"))]))
    ensures node.HasArgs() && (d.kind.Some? ==> node.Kind() == d.kind.value)
    ensures TwinRewrite(node, rule, M.Rewrite(node, rule, WithArgs(d, [Leaf(AnySlot("P")), Leaf(AnySlot("P"))])))
  {
    var m := WithArgs(d, [Leaf(AnySlot("P")), Leaf(AnySlot("P"))]);
    TwinAttempt(node, d);
    var at := M.Attempt(node, m);
    var i: nat, j: nat :| i < j < |node.args| && at.indices.value == [i, j]
      && U.Equal(node.args[j], node.args[i]) && at.captures.value == map["P" := node.args[i]];
    assert M.SetOf([i, j]) == {i, j};
    assert M.Rewrite(node, rule, m) == PairResult(node, rule, i, j, at.captures.value);
  }

  /** Conversely, two Equal arguments of an Add or Multiply of the pattern's type make
      `P op P` fire. */
  lemma TwinComplete(node: Tr.Node, rule: Rule, d: DetectionNode, maxDepth: int, i: nat, j: nat)
    requires TwinRule(rule, d) && rule.requiredNodes == ["P"] && maxDepth >= 1
    requires (node.Add? || node.Multiply?) && d.kind == Some(node.Kind())
    requires i < j < |node.args| && U.Equal(node.args[j], node.args[i])
    ensures M.ApplyRule(node, rule, maxDepth).Ok? && M.ApplyRule(node, rule, maxDepth).value.Some?
  {
    var a := AnySlot("P");
    var m := WithArgs(d, [Leaf(a), Leaf(a)]);
    ExpandBinary(d, a, a);
    var insts := E.Expand(rule.pattern);
    TwinMatches(node, d, i, j);
    TwinFiresOn(node, rule, d);
    assert insts[0] == m;
    M.ApplyInstancesFirst(node, rule, insts);
  }

  /** Two Equal arguments make the attempt of [P, P] succeed. */
  lemma TwinMatches(node: Tr.Node, d: DetectionNode, i: nat, j: nat)
    requires d.args == Slots([Pattern([AnySlot("P")]), Pattern([AnySlot("P")])]) && d.capture.None?
    requires (node.Add? || node.Multiply?) && d.kind == Some(node.Kind())
    requires i < j < |node.args| && U.Equal(node.args[j], node.args[i])
    ensures M.Attempt(node, WithArgs(d, [Leaf(AnySlot("P")), Leaf(AnySlot("P"))])).captures.Some?
  {
    var a := AnySlot("P");
    var m := WithArgs(d, [Leaf(a), Leaf(a)]);
    if M.MatchSingle(node, m, map[]).None? {
      var picked := M.Pick(node.args, [i, j]);
      PairFrom(picked, m, map[]);
      LeafMatch(node.args[i], a, map[]);
      assert M.MatchSingle(node.args[j], Leaf(a), map["P" := node.args[i]]) == Some(map["P" := node.args[i]]);
      assert M.PickMatches(node.args, m, [i, j]);
      M.FindPartialComplete(node, m, [i, j]);
    }
  }

  /** A successful attempt of [P, P] fires a rule that requires only P. */
  lemma TwinFiresOn(node: Tr.Node, rule: Rule, d: DetectionNode)
    requires TwinRule(rule, d) && rule.requiredNodes == ["P"]
    requires M.Attempt(node, WithArgs(d, [Leaf(AnySlot("P")), Leaf(AnySlot("P"))])).captures.Some?
    ensures M.Fires(node, rule, WithArgs(d, [Leaf(AnySlot("P")), Leaf(AnySlot("P"))]))
  {
    TwinAttempt(node, d);
    var at := M.Attempt(node, WithArgs(d, [Leaf(AnySlot("P")), Leaf(AnySlot("P"))]));
    var i': nat, j': nat :| i' < j' < |node.args| && at.indices.value == [i', j']
      && U.Equal(node.args[j'], node.args[i']) && at.captures.value == map["P" := node.args[i']];
    assert M.HasAll(rule.requiredNodes, at.captures.value);
  }

  // ---- positional two-slot rules ----

  /** A `node` rule over one non-commutative alternative whose only own constraint is a
      type other than Add and Multiply, so that only a full, positional match applies. */
  predicate ExactRule(rule: Rule, d: DetectionNode, a: DetectionNode, b: DetectionNode) {
    && PairRule(rule, d, a, b) && RequiredWithin(rule, a, b) && rule.node.Some? && d.commutative != Some(true)
    && d.kind.Some? && d.kind.value != T.Add && d.kind.value != T.Multiply
    && d.name.None? && d.number.None? && d.conditions.None?
  }

  /** The node has the pattern's type and exactly two arguments, matching a and b in order. */
  predicate InOrder(node: Tr.Node, d: DetectionNode, a: DetectionNode, b: DetectionNode)
    requires d.kind.Some?
  {
    node.Kind() == d.kind.value && node.HasArgs() && |node.args| == 2
    && M.FieldsMatch(node.args[0], Leaf(a)) && M.FieldsMatch(node.args[1], Leaf(b))
  }

  /** The attempt of the single instance is the full match, which succeeds exactly on
      InOrder nodes. */
  lemma ExactAttempt(node: Tr.Node, d: DetectionNode, a: DetectionNode, b: DetectionNode)
    requires PairLeaves(d, a, b) && d.kind.Some? && d.kind.value != T.Add && d.kind.value != T.Multiply
    requires d.name.None? && d.number.None? && d.conditions.None?
    ensures var at := M.Attempt(node, WithArgs(d, [Leaf(a), Leaf(b)]));
      (at.captures.Some? <==> InOrder(node, d, a, b))
      && (at.captures.Some? ==> at.captures.value == PairCaptures(a, b, node.args[0], node.args[1]))
  {
    var m := WithArgs(d, [Leaf(a), Leaf(b)]);
    var full := M.MatchSingle(node, m, map[]);
    assert M.FieldsMatch(node, m) <==> node.Kind() == d.kind.value;
    if M.FieldsMatch(node, m) {
      Tr.KindOfAdd(node);
      assert !node.Add? && !node.Multiply?;
      assert M.Attempt(node, m).captures == full;
      assert M.Bind(node, m.capture, map[]) == Some(map[]);
      if node.HasArgs() {
        assert full == M.MatchArgs(node.args, m, map[]);
      }
      if node.HasArgs() && |node.args| == 2 {
        assert full == M.MatchFrom(node.args, m, 0, map[]);
        PairFrom(node.args, m, map[]);
        LeafMatch(node.args[0], a, map[]);
        if M.FieldsMatch(node.args[0], Leaf(a)) {
          LeafMatch(node.args[1], b, LeafBind(a, node.args[0], map[]));
        }
      }
    } else {
      assert full.None?;
      assert !M.PartialApplies(node, m);
    }
  }

  /** A positional two-slot rule never exceeds a depth of 1, and fires exactly on the
      InOrder nodes, with the slots' captures. */
  lemma ExactSound(node: Tr.Node, rule: Rule, d: DetectionNode, a: DetectionNode, b: DetectionNode, maxDepth: int)
    requires ExactRule(rule, d, a, b) && maxDepth >= 1
    ensures M.ApplyRule(node, rule, maxDepth).Ok?
    ensures var r := M.ApplyRule(node, rule, maxDepth).value;
      && (r.Some? <==> InOrder(node, d, a, b))
      && (r.Some? ==> r.value == rule.node.value(node, PairCaptures(a, b, node.args[0], node.args[1])))
  {
    ExpandBinary(d, a, b);
    var m := WithArgs(d, [Leaf(a), Leaf(b)]);
    var insts := E.Expand(rule.pattern);
    assert insts == [m];
    ExactAttempt(node, d, a, b);
    M.ApplyInstancesHead(node, rule, insts);
    assert insts[1..] == [];
    if InOrder(node, d, a, b) {
      var caps := PairCaptures(a, b, node.args[0], node.args[1]);
      assert M.HasAll(rule.requiredNodes, caps) by {
        forall k | 0 <= k < |rule.requiredNodes| ensures rule.requiredNodes[k] in caps {
          assert rule.requiredNodes[k] in Names(a) + Names(b);
        }
      }
    }
  }

  // ---- any one-alternative rule ----

  /** A node with two slots lies one level above the deeper of them. */
  lemma HeightOfPair(d: DetectionNode, pa: Pattern, pb: Pattern)
    requires d.args == Slots([pa, pb])
    ensures E.Height(Pattern([d])) == 1 + E.Max(E.Height(pa), E.Height(pb))
  {
    HeightOfSingle(d);
    assert E.SlotsHeight(d, 2) == 0;
    assert E.SlotsHeight(d, 1) == 1 + E.Height(pb);
    assert E.SlotsHeight(d, 0) == E.Max(1 + E.Height(pa), 1 + E.Height(pb));
  }

  /** A firing instance with k slots: the node has the instance's type, and a `children`
      rewrite keeps that type, replaces k arguments by one, and that one is the rule's
      replacement for captures holding every required name. */
  lemma FiresShape(node: Tr.Node, rule: Rule, m: MatchNode, k: nat)
    requires M.Fires(node, rule, m) && m.args.ArgList? && |m.args.items| == k
    ensures m.kind.Some? ==> node.Kind() == m.kind.value
    ensures rule.node.None? ==> (var r := M.Rewrite(node, rule, m);
      rule.children.Some? && node.HasArgs() && r.HasArgs() && r.Kind() == node.Kind()
      && |r.args| == |node.args| - k + 1 && NewChild(node, rule, r, k))
  {
    var at := M.Attempt(node, m);
    M.AttemptIndices(node, m);
    if M.MatchSingle(node, m, map[]).None? {
      M.FindPartialSound(node, m);
    } else {
      assert M.FieldsMatch(node, m);
    }
    if rule.node.None? {
      ChildrenRewrite(node, rule, m);
      M.KeepLength(node.args, at.indices.value);
      assert |at.indices.value| == k;
    }
  }

  /** `r` keeps the arguments of the node outside an ascending choice of k positions, in
      order, and appends the rule's replacement for captures holding every required name. */
  ghost predicate NewChild(node: Tr.Node, rule: Rule, r: Tr.Node, k: nat)
    requires rule.children.Some? && node.HasArgs()
  {
    exists idx: seq<nat>, caps: Captures :: |idx| == k && M.Ascending(idx) && M.InRange(idx, |node.args|)
      && M.HasAll(rule.requiredNodes, caps)
      && r == node.WithArgs(M.Keep(node.args, M.SetOf(idx), 0) + [rule.children.value(node, caps)])
  }

  /** A rule of one alternative with slots never exceeds a depth bound at least its
      height; when it rewrites, the node has the pattern's type, and a `children` rule
      keeps that type, removes one argument per slot at ascending positions, keeps the
      others in order, and appends its replacement. */
  lemma RuleSound(node: Tr.Node, rule: Rule, d: DetectionNode, maxDepth: int)
    requires rule.pattern == Pattern([d]) && d.args.Slots? && E.Height(rule.pattern) <= maxDepth
    ensures M.ApplyRule(node, rule, maxDepth).Ok?
    ensures var r := M.ApplyRule(node, rule, maxDepth).value;
      r.Some? ==> ((d.kind.Some? ==> node.Kind() == d.kind.value)
        && (rule.node.None? ==> (rule.children.Some? && node.HasArgs() && r.value.HasArgs()
              && r.value.Kind() == node.Kind() && |r.value.args| == |node.args| - |d.args.patterns| + 1
              && NewChild(node, rule, r.value, |d.args.patterns|))))
  {
    var insts := E.Expand(rule.pattern);
    if M.ApplyInstances(node, rule, insts).Some? {
      E.ExpandSingle(d);
      E.ExpandNodeShaped(d);
      Winner(node, rule, insts);
      var m :| m in insts && M.Fires(node, rule, m) && M.ApplyInstances(node, rule, insts).value == M.Rewrite(node, rule, m);
      FiresShape(node, rule, m, |d.args.patterns|);
    }
  }

  // ---- two-level rules ----

  /** The two orders of a two-element sequence are its only rearrangements. */
  lemma TwoMultiset<X>(a: seq<X>, x: X, y: X)
    requires |a| == 2 && multiset(a) == multiset([x, y])
    ensures a == [x, y] || a == [y, x]
  {
    assert a == [a[0], a[1]];
    assert a[0] in multiset([x, y]) && a[1] in multiset([x, y]);
    if a[0] == x {
      assert multiset([a[1]]) == multiset(a) - multiset{x} == multiset([y]);
      assert a[1] in multiset([y]);
    } else {
      assert a[0] == y;
      assert multiset([a[1]]) == multiset(a) - multiset{y} == multiset([x]);
      assert a[1] in multiset([x]);
    }
  }

  /** The instances of a commutative node over two slots: either order of an instance of
      each slot. */
  lemma CommutativePairSound(d: DetectionNode, pa: Pattern, pb: Pattern, m: MatchNode)
    requires d.args == Slots([pa, pb]) && d.commutative == Some(true) && m in E.ExpandNode(d)
    ensures m.args.ArgList? && |m.args.items| == 2 && m == WithArgs(d, m.args.items)
    ensures var x, y := m.args.items[0], m.args.items[1];
      (x in E.Expand(pa) && y in E.Expand(pb)) || (x in E.Expand(pb) && y in E.Expand(pa))
  {
    E.ExpandNodeShaped(d);
    var args := m.args.items;
    E.CommutativeInstances(d, args);
    var slots := E.ExpandSlots(d, 0);
    var c :| c in E.CartesianProduct(slots) && multiset(args) == multiset(c);
    E.CartesianProductMembers(slots, c);
    assert c == [c[0], c[1]];
    TwoMultiset(args, c[0], c[1]);
  }

  lemma CommutativePairComplete(d: DetectionNode, pa: Pattern, pb: Pattern, x: MatchNode, y: MatchNode)
    requires d.args == Slots([pa, pb]) && d.commutative == Some(true)
    requires (x in E.Expand(pa) && y in E.Expand(pb)) || (x in E.Expand(pb) && y in E.Expand(pa))
    ensures WithArgs(d, [x, y]) in E.ExpandNode(d)
  {
    if x in E.Expand(pa) && y in E.Expand(pb) {
      PairCombination(d, pa, pb, x, y);
      CommutativeFrom(d, [x, y], [x, y]);
    } else {
      PairCombination(d, pa, pb, y, x);
      assert multiset([x, y]) == multiset([y, x]);
      CommutativeFrom(d, [x, y], [y, x]);
    }
  }

  lemma PairCombination(d: DetectionNode, pa: Pattern, pb: Pattern, a: MatchNode, b: MatchNode)
    requires d.args == Slots([pa, pb]) && a in E.Expand(pa) && b in E.Expand(pb)
    ensures [a, b] in E.CartesianProduct(E.ExpandSlots(d, 0))
  {
    var slots := E.ExpandSlots(d, 0);
    assert slots[0] == E.Expand(pa) && slots[1] == E.Expand(pb);
    E.CartesianProductMembers(slots, [a, b]);
  }

  lemma CommutativeFrom(d: DetectionNode, args: seq<MatchNode>, c: seq<MatchNode>)
    requires d.args.Slots? && d.commutative == Some(true)
    requires c in E.CartesianProduct(E.ExpandSlots(d, 0)) && multiset(args) == multiset(c)
    ensures WithArgs(d, args) in E.ExpandNode(d)
  {
    E.CommutativeInstances(d, args);
  }

  /** SpecialNodes.P and its kin bind the node under their name, or require it Equal to
      the node already bound there. */
  lemma AnyLeaf(z: Tr.Node, name: string, c: Captures)
    requires name != ""
    ensures M.MatchSingle(z, Leaf(AnySlot(name)), c) == M.Bind(z, Some(name), c)
  {
  }

  /** A node of the tables with only a type and slots. */
  predicate Plain(dm: DetectionNode) {
    dm.kind.Some? && dm.capture.None? && dm.name.None? && dm.number.None? && dm.conditions.None?
  }

  /** The slots of a two-argument node holding P and one other capture x: P first when f
      is 0, second otherwise. */
  function InnerSlots(f: nat, x: string): seq<Pattern> {
    if f == 0 then [Pt.P(), Pattern([AnySlot(x)])] else [Pattern([AnySlot(x)]), Pt.P()]
  }

  /** The instance of such a node with P at position f. */
  function InnerInstance(dm: DetectionNode, f: nat, x: string): MatchNode {
    WithArgs(dm, if f == 0 then [Leaf(AnySlot("P")), Leaf(AnySlot(x))] else [Leaf(AnySlot(x)), Leaf(AnySlot("P"))])
  }

  /** The positions P takes in the instances: the written one, and the other one too when
      the node is commutative. */
  predicate InnerOrder(dm: DetectionNode, f0: nat, f: nat) {
    f < 2 && (f == f0 || dm.commutative == Some(true))
  }

  /** The instances of a plain node over P and x are the InnerInstance of each order. */
  lemma InnerInstances(dm: DetectionNode, f0: nat, x: string)
    requires Plain(dm) && f0 < 2 && x != "" && dm.args == Slots(InnerSlots(f0, x))
    ensures forall b :: b in E.Expand(Pattern([dm])) <==> exists f :: InnerOrder(dm, f0, f) && b == InnerInstance(dm, f, x)
  {
    SlotPatterns("P");
    var p, q := AnySlot("P"), AnySlot(x);
    if f0 == 0 {
      ExpandBinary(dm, p, q);
    } else {
      ExpandBinary(dm, q, p);
    }
    var e := E.Expand(Pattern([dm]));
    assert e == if dm.commutative == Some(true) then [InnerInstance(dm, f0, x), InnerInstance(dm, 1 - f0, x)]
      else [InnerInstance(dm, f0, x)];
    forall b | b in e ensures exists f :: InnerOrder(dm, f0, f) && b == InnerInstance(dm, f, x) {
      if b == InnerInstance(dm, f0, x) {
        assert InnerOrder(dm, f0, f0);
      } else {
        assert InnerOrder(dm, 1 - f0, 1 - f0);
      }
    }
  }

  /** The captures after such an instance matched z: P bound to z's argument f unless it
      was bound already, x to z's other argument. */
  function InnerCaps(z: Tr.Node, f: nat, x: string, c: Captures): Captures
    requires z.HasArgs() && |z.args| == 2 && f < 2
  {
    (if "P" in c then c else c["P" := z.args[f]])[x := z.args[1 - f]]
  }

  /** Matching such an instance: a node of its type with two arguments, whose argument f
      is Equal to the P already bound, if any. */
  lemma InnerMatch(z: Tr.Node, dm: DetectionNode, f: nat, x: string, c: Captures)
    requires Plain(dm) && f < 2 && x != "P" && x != "" && x !in c
    ensures M.MatchSingle(z, InnerInstance(dm, f, x), c) ==
      if z.Kind() == dm.kind.value && z.HasArgs() && |z.args| == 2 && ("P" in c ==> U.Equal(z.args[f], c["P"]))
      then Some(InnerCaps(z, f, x, c)) else None
  {
    var m := InnerInstance(dm, f, x);
    if z.Kind() == dm.kind.value && z.HasArgs() && |z.args| == 2 {
      assert M.FieldsMatch(z, m);
      assert M.MatchSingle(z, m, c) == M.MatchArgs(z.args, m, c);
      PairFrom(z.args, m, c);
      if f == 0 {
        PFirst(z.args[0], z.args[1], x, c);
      } else {
        PSecond(z.args[0], z.args[1], x, c);
      }
    }
  }

  /** The slots P then x on the arguments a and b. */
  lemma PFirst(a: Tr.Node, b: Tr.Node, x: string, c: Captures)
    requires x != "P" && x != "" && x !in c
    ensures (match M.MatchSingle(a, Leaf(AnySlot("P")), c)
             case None => None
             case Some(c1) => M.MatchSingle(b, Leaf(AnySlot(x)), c1))
      == if "P" in c ==> U.Equal(a, c["P"]) then Some((if "P" in c then c else c["P" := a])[x := b]) else None
  {
    AnyLeaf(a, "P", c);
    if M.Bind(a, Some("P"), c).Some? {
      AnyLeaf(b, x, M.Bind(a, Some("P"), c).value);
    }
  }

  /** The slots x then P on the arguments a and b. */
  lemma PSecond(a: Tr.Node, b: Tr.Node, x: string, c: Captures)
    requires x != "P" && x != "" && x !in c
    ensures (match M.MatchSingle(a, Leaf(AnySlot(x)), c)
             case None => None
             case Some(c1) => M.MatchSingle(b, Leaf(AnySlot("P")), c1))
      == if "P" in c ==> U.Equal(b, c["P"]) then Some((if "P" in c then c else c["P" := b])[x := a]) else None
  {
    AnyLeaf(a, x, c);
    AnyLeaf(b, "P", c[x := a]);
    if "P" !in c {
      assert c[x := a]["P" := b] == c["P" := b][x := a];
    }
  }

  /** Removing two distinct positions and appending one node leaves one argument fewer. */
  lemma TwoRemoved(node: Tr.Node, s: nat, t: nat, last: Tr.Node)
    requires node.HasArgs() && s < |node.args| && t < |node.args| && s != t
    ensures |M.Keep(node.args, {s, t}, 0) + [last]| == |node.args| - 1
  {
    var idx := if s < t then [s, t] else [t, s];
    assert M.SetOf(idx) == {s, t};
    M.KeepLength(node.args, idx);
  }

  // ---- a leaf P beside a node over P and x: qp + p, P * P^Q ----

  /** The instance of SpecialNodes.P. */
  function LeafP(): MatchNode { Leaf(AnySlot("P")) }

  /** A commutative pattern over the slot P and a plain node over P and x, P written at
      position f0 of the inner node. */
  predicate LeafInnerPattern(d: DetectionNode, dm: DetectionNode, f0: nat, x: string) {
    d.capture.None? && d.commutative == Some(true) && d.kind.Some? && Plain(dm) && f0 < 2
    && x != "P" && x != "" && dm.args == Slots(InnerSlots(f0, x)) && d.args == Slots([Pt.P(), Pattern([dm])])
  }

  /** An instance of such a pattern: the leaf and an inner instance with P at f, in either
      order. */
  predicate LeafInnerInstance(d: DetectionNode, dm: DetectionNode, f0: nat, x: string, m: MatchNode, f: nat, leafFirst: bool) {
    InnerOrder(dm, f0, f)
    && m == WithArgs(d, if leafFirst then [LeafP(), InnerInstance(dm, f, x)] else [InnerInstance(dm, f, x), LeafP()])
  }

  lemma LeafInnerInstances(d: DetectionNode, dm: DetectionNode, f0: nat, x: string)
    requires LeafInnerPattern(d, dm, f0, x)
    ensures forall m :: m in E.Expand(Pattern([d])) <==> exists f: nat, leafFirst: bool :: LeafInnerInstance(d, dm, f0, x, m, f, leafFirst)
  {
    E.ExpandSingle(d);
    SlotPatterns("P");
    E.ExpandSingle(AnySlot("P"));
    E.ExpandNodeCount(AnySlot("P"));
    assert E.Expand(Pt.P()) == [LeafP()];
    InnerInstances(dm, f0, x);
    forall m | m in E.ExpandNode(d) ensures exists f: nat, leafFirst: bool :: LeafInnerInstance(d, dm, f0, x, m, f, leafFirst) {
      CommutativePairSound(d, Pt.P(), Pattern([dm]), m);
      var a, b := m.args.items[0], m.args.items[1];
      assert m.args.items == [a, b];
      if a in E.Expand(Pt.P()) {
        var f :| InnerOrder(dm, f0, f) && b == InnerInstance(dm, f, x);
        assert LeafInnerInstance(d, dm, f0, x, m, f, true);
      } else {
        var f :| InnerOrder(dm, f0, f) && a == InnerInstance(dm, f, x);
        assert LeafInnerInstance(d, dm, f0, x, m, f, false);
      }
    }
    forall m, f: nat, leafFirst: bool | LeafInnerInstance(d, dm, f0, x, m, f, leafFirst) ensures m in E.ExpandNode(d) {
      CommutativePairComplete(d, Pt.P(), Pattern([dm]), m.args.items[0], m.args.items[1]);
    }
  }

  /** Positions s and t of the node: the argument at t has the inner type and two
      arguments, and its argument f is Equal to the argument at s. */
  predicate LeafInnerAt(node: Tr.Node, inner: T.NodeType, s: nat, t: nat, f: nat) {
    node.HasArgs() && s < |node.args| && t < |node.args| && s != t && f < 2
    && node.args[t].Kind() == inner && node.args[t].HasArgs() && |node.args[t].args| == 2
    && U.Equal(node.args[s], node.args[t].args[f])
  }

  /** What P captures: the first of the two Equal nodes in argument order. */
  function LeafInnerP(node: Tr.Node, s: nat, t: nat, f: nat): Tr.Node
    requires node.HasArgs() && s < |node.args| && t < |node.args| && f < 2
    requires node.args[t].HasArgs() && |node.args[t].args| == 2
  {
    if s < t then node.args[s] else node.args[t].args[f]
  }

  /** The rewrite at s and t: both arguments removed, the others kept in order, and
      build(P, x) appended. */
  predicate LeafInnerRewrite(node: Tr.Node, inner: T.NodeType, s: nat, t: nat, f: nat, r: Tr.Node, build: (Tr.Node, Tr.Node) -> Tr.Node) {
    LeafInnerAt(node, inner, s, t, f)
    && r == node.WithArgs(M.Keep(node.args, {s, t}, 0) + [build(LeafInnerP(node, s, t, f), node.args[t].args[1 - f])])
  }

  /** A `children` rule with such a pattern whose replacement is build(P, x) and whose
      required names are among P and x. */
  ghost predicate LeafInnerRule(rule: Rule, d: DetectionNode, dm: DetectionNode, f0: nat, x: string, build: (Tr.Node, Tr.Node) -> Tr.Node) {
    LeafInnerPattern(d, dm, f0, x) && rule.pattern == Pattern([d]) && rule.node.None? && rule.children.Some?
    && (forall i :: 0 <= i < |rule.requiredNodes| ==> rule.requiredNodes[i] == "P" || rule.requiredNodes[i] == x)
    && forall n: Tr.Node, caps: Captures :: "P" in caps && x in caps ==> rule.children.value(n, caps) == build(caps["P"], caps[x])
  }

  /** A successful attempt of an instance matched positions s and t, and captured P and x. */
  lemma LeafInnerAttempt(node: Tr.Node, d: DetectionNode, dm: DetectionNode, f0: nat, x: string, m: MatchNode, f: nat, leafFirst: bool)
    requires LeafInnerPattern(d, dm, f0, x) && LeafInnerInstance(d, dm, f0, x, m, f, leafFirst)
    requires M.Attempt(node, m).captures.Some? && M.Attempt(node, m).indices.Some?
    ensures node.Kind() == d.kind.value
    ensures var at := M.Attempt(node, m); var caps := at.captures.value;
      exists s: nat, t: nat :: LeafInnerAt(node, dm.kind.value, s, t, f) && M.SetOf(at.indices.value) == {s, t}
        && "P" in caps && x in caps && caps["P"] == LeafInnerP(node, s, t, f) && caps[x] == node.args[t].args[1 - f]
  {
    var s: nat, t: nat;
    if leafFirst {
      s, t := LeafFirstAttempt(node, d, dm, x, f);
    } else {
      s, t := InnerFirstAttempt(node, d, dm, x, f);
    }
  }

  lemma LeafFirstAttempt(node: Tr.Node, d: DetectionNode, dm: DetectionNode, x: string, f: nat) returns (s: nat, t: nat)
    requires d.capture.None? && Plain(dm) && x != "P" && x != "" && f < 2
    requires var at := M.Attempt(node, WithArgs(d, [LeafP(), InnerInstance(dm, f, x)])); at.captures.Some? && at.indices.Some?
    ensures d.kind.Some? ==> node.Kind() == d.kind.value
    ensures var at := M.Attempt(node, WithArgs(d, [LeafP(), InnerInstance(dm, f, x)])); var caps := at.captures.value;
      LeafInnerAt(node, dm.kind.value, s, t, f) && M.SetOf(at.indices.value) == {s, t}
      && "P" in caps && x in caps && caps["P"] == LeafInnerP(node, s, t, f) && caps[x] == node.args[t].args[1 - f]
  {
    var c1;
    s, t, c1 := BinaryAttempt(node, d, LeafP(), InnerInstance(dm, f, x));
    LeafThenInner(node, dm, x, f, s, t, c1, M.Attempt(node, WithArgs(d, [LeafP(), InnerInstance(dm, f, x)])).captures.value);
  }

  lemma InnerFirstAttempt(node: Tr.Node, d: DetectionNode, dm: DetectionNode, x: string, f: nat) returns (s: nat, t: nat)
    requires d.capture.None? && Plain(dm) && x != "P" && x != "" && f < 2
    requires var at := M.Attempt(node, WithArgs(d, [InnerInstance(dm, f, x), LeafP()])); at.captures.Some? && at.indices.Some?
    ensures d.kind.Some? ==> node.Kind() == d.kind.value
    ensures var at := M.Attempt(node, WithArgs(d, [InnerInstance(dm, f, x), LeafP()])); var caps := at.captures.value;
      LeafInnerAt(node, dm.kind.value, s, t, f) && M.SetOf(at.indices.value) == {s, t}
      && "P" in caps && x in caps && caps["P"] == LeafInnerP(node, s, t, f) && caps[x] == node.args[t].args[1 - f]
  {
    var i, j, c1 := BinaryAttempt(node, d, InnerInstance(dm, f, x), LeafP());
    InnerThenLeaf(node, dm, x, f, i, j, c1, M.Attempt(node, WithArgs(d, [InnerInstance(dm, f, x), LeafP()])).captures.value);
    s, t := j, i;
    assert {i, j} == {j, i};
  }

  lemma LeafThenInner(node: Tr.Node, dm: DetectionNode, x: string, f: nat, i: nat, j: nat, c1: Captures, caps: Captures)
    requires Plain(dm) && x != "P" && x != "" && f < 2 && node.HasArgs() && i < j < |node.args|
    requires M.MatchSingle(node.args[i], LeafP(), map[]) == Some(c1)
    requires M.MatchSingle(node.args[j], InnerInstance(dm, f, x), c1) == Some(caps)
    ensures LeafInnerAt(node, dm.kind.value, i, j, f)
    ensures "P" in caps && x in caps && caps["P"] == LeafInnerP(node, i, j, f) && caps[x] == node.args[j].args[1 - f]
  {
    AnyLeaf(node.args[i], "P", map[]);
    InnerMatch(node.args[j], dm, f, x, c1);
    U.EqualSymmetric(node.args[j].args[f], node.args[i]);
  }

  lemma InnerThenLeaf(node: Tr.Node, dm: DetectionNode, x: string, f: nat, i: nat, j: nat, c1: Captures, caps: Captures)
    requires Plain(dm) && x != "P" && x != "" && f < 2 && node.HasArgs() && i < j < |node.args|
    requires M.MatchSingle(node.args[i], InnerInstance(dm, f, x), map[]) == Some(c1)
    requires M.MatchSingle(node.args[j], LeafP(), c1) == Some(caps)
    ensures LeafInnerAt(node, dm.kind.value, j, i, f)
    ensures "P" in caps && x in caps && caps["P"] == LeafInnerP(node, j, i, f) && caps[x] == node.args[i].args[1 - f]
  {
    InnerMatch(node.args[i], dm, f, x, map[]);
    AnyLeaf(node.args[j], "P", c1);
  }

  /** The rewrite of a firing instance. */
  lemma LeafInnerFires(node: Tr.Node, rule: Rule, d: DetectionNode, dm: DetectionNode, f0: nat, x: string,
                       build: (Tr.Node, Tr.Node) -> Tr.Node, m: MatchNode, f: nat, leafFirst: bool)
    requires LeafInnerRule(rule, d, dm, f0, x, build) && LeafInnerInstance(d, dm, f0, x, m, f, leafFirst)
    requires M.Fires(node, rule, m)
    ensures node.Kind() == d.kind.value
    ensures exists s: nat, t: nat :: LeafInnerRewrite(node, dm.kind.value, s, t, f, M.Rewrite(node, rule, m), build)
  {
    ChildrenRewrite(node, rule, m);
    LeafInnerAttempt(node, d, dm, f0, x, m, f, leafFirst);
    var at := M.Attempt(node, m);
    var caps := at.captures.value;
    var s: nat, t: nat :| LeafInnerAt(node, dm.kind.value, s, t, f) && M.SetOf(at.indices.value) == {s, t}
      && "P" in caps && x in caps && caps["P"] == LeafInnerP(node, s, t, f) && caps[x] == node.args[t].args[1 - f];
    assert rule.children.value(node, caps) == build(caps["P"], caps[x]);
    assert LeafInnerRewrite(node, dm.kind.value, s, t, f, M.Rewrite(node, rule, m), build);
  }

  /** Such a rule never exceeds a depth bound at least its height, and when it rewrites,
      the node has the pattern's type and the result is the rewrite at some positions s
      and t with P at an order the inner pattern allows. */
  lemma LeafInnerSound(node: Tr.Node, rule: Rule, d: DetectionNode, dm: DetectionNode, f0: nat, x: string,
                       build: (Tr.Node, Tr.Node) -> Tr.Node, maxDepth: int)
    requires LeafInnerRule(rule, d, dm, f0, x, build) && E.Height(rule.pattern) <= maxDepth
    ensures M.ApplyRule(node, rule, maxDepth).Ok?
    ensures var r := M.ApplyRule(node, rule, maxDepth).value;
      r.Some? ==> (node.Kind() == d.kind.value
        && exists s: nat, t: nat, f: nat :: InnerOrder(dm, f0, f) && LeafInnerRewrite(node, dm.kind.value, s, t, f, r.value, build))
  {
    var insts := E.Expand(rule.pattern);
    if M.ApplyInstances(node, rule, insts).Some? {
      Winner(node, rule, insts);
      var m :| m in insts && M.Fires(node, rule, m) && M.ApplyInstances(node, rule, insts).value == M.Rewrite(node, rule, m);
      LeafInnerWinner(node, rule, d, dm, f0, x, build, m);
    }
  }

  lemma LeafInnerWinner(node: Tr.Node, rule: Rule, d: DetectionNode, dm: DetectionNode, f0: nat, x: string,
                        build: (Tr.Node, Tr.Node) -> Tr.Node, m: MatchNode)
    requires LeafInnerRule(rule, d, dm, f0, x, build) && m in E.Expand(rule.pattern) && M.Fires(node, rule, m)
    ensures node.Kind() == d.kind.value
    ensures exists s: nat, t: nat, f: nat :: InnerOrder(dm, f0, f) && LeafInnerRewrite(node, dm.kind.value, s, t, f, M.Rewrite(node, rule, m), build)
  {
    LeafInnerInstances(d, dm, f0, x);
    var f: nat, leafFirst: bool :| LeafInnerInstance(d, dm, f0, x, m, f, leafFirst);
    LeafInnerFires(node, rule, d, dm, f0, x, build, m, f, leafFirst);
  }

  /** Conversely, positions s and t of an Add or Multiply of the pattern's type holding the
      two shapes, with P at an order the inner pattern allows, make the rule fire. */
  lemma LeafInnerComplete(node: Tr.Node, rule: Rule, d: DetectionNode, dm: DetectionNode, f0: nat, x: string,
                          build: (Tr.Node, Tr.Node) -> Tr.Node, maxDepth: int, s: nat, t: nat, f: nat)
    requires LeafInnerRule(rule, d, dm, f0, x, build) && E.Height(rule.pattern) <= maxDepth
    requires (node.Add? || node.Multiply?) && d.kind == Some(node.Kind())
    requires InnerOrder(dm, f0, f) && LeafInnerAt(node, dm.kind.value, s, t, f)
    ensures M.ApplyRule(node, rule, maxDepth).Ok? && M.ApplyRule(node, rule, maxDepth).value.Some?
  {
    var m, leafFirst := LeafInnerMatches(node, d, dm, f0, x, s, t, f);
    var at := M.Attempt(node, m);
    assert at.indices.Some?;
    LeafInnerAttempt(node, d, dm, f0, x, m, f, leafFirst);
    assert M.HasAll(rule.requiredNodes, at.captures.value);
    assert M.Fires(node, rule, m);
    var insts := E.Expand(rule.pattern);
    LeafInnerInstances(d, dm, f0, x);
    assert m in insts;
    var k :| 0 <= k < |insts| && insts[k] == m;
    M.ApplyInstancesFirst(node, rule, insts);
  }

  /** The instance whose order agrees with s and t matches. */
  lemma LeafInnerMatches(node: Tr.Node, d: DetectionNode, dm: DetectionNode, f0: nat, x: string, s: nat, t: nat, f: nat)
    returns (m: MatchNode, leafFirst: bool)
    requires LeafInnerPattern(d, dm, f0, x) && (node.Add? || node.Multiply?) && d.kind == Some(node.Kind())
    requires InnerOrder(dm, f0, f) && LeafInnerAt(node, dm.kind.value, s, t, f)
    ensures LeafInnerInstance(d, dm, f0, x, m, f, leafFirst) && M.Attempt(node, m).captures.Some?
  {
    leafFirst := s < t;
    m := WithArgs(d, if leafFirst then [LeafP(), InnerInstance(dm, f, x)] else [InnerInstance(dm, f, x), LeafP()]);
    if leafFirst {
      AnyLeaf(node.args[s], "P", map[]);
      U.EqualSymmetric(node.args[s], node.args[t].args[f]);
      InnerMatch(node.args[t], dm, f, x, map["P" := node.args[s]]);
      PairMatchesOf(node, d, LeafP(), InnerInstance(dm, f, x), s, t);
    } else {
      InnerMatch(node.args[t], dm, f, x, map[]);
      AnyLeaf(node.args[s], "P", InnerCaps(node.args[t], f, x, map[]));
      PairMatchesOf(node, d, InnerInstance(dm, f, x), LeafP(), t, s);
    }
  }

  // ---- two nodes over P: qp + rp, P^Q * P^R ----

  /** A commutative pattern over two plain nodes, the first over P and x1 with P at f1,
      the second over P and x2 with P at f2. */
  predicate InnerInnerPattern(d: DetectionNode, dm1: DetectionNode, f1: nat, x1: string, dm2: DetectionNode, f2: nat, x2: string) {
    d.capture.None? && d.commutative == Some(true) && d.kind.Some? && Plain(dm1) && Plain(dm2) && f1 < 2 && f2 < 2
    && x1 != "P" && x1 != "" && x2 != "P" && x2 != "" && x1 != x2
    && dm1.args == Slots(InnerSlots(f1, x1)) && dm2.args == Slots(InnerSlots(f2, x2))
    && d.args == Slots([Pattern([dm1]), Pattern([dm2])])
  }

  /** An instance of such a pattern: an instance of each inner node, P at g1 and g2, in
      either order. */
  predicate InnerInnerInstance(d: DetectionNode, dm1: DetectionNode, f1: nat, x1: string, dm2: DetectionNode, f2: nat, x2: string,
                               m: MatchNode, g1: nat, g2: nat, inOrder: bool) {
    InnerOrder(dm1, f1, g1) && InnerOrder(dm2, f2, g2)
    && m == WithArgs(d, if inOrder then [InnerInstance(dm1, g1, x1), InnerInstance(dm2, g2, x2)]
                        else [InnerInstance(dm2, g2, x2), InnerInstance(dm1, g1, x1)])
  }

  lemma InnerInnerInstances(d: DetectionNode, dm1: DetectionNode, f1: nat, x1: string, dm2: DetectionNode, f2: nat, x2: string)
    requires InnerInnerPattern(d, dm1, f1, x1, dm2, f2, x2)
    ensures forall m :: m in E.Expand(Pattern([d])) <==>
      exists g1: nat, g2: nat, inOrder: bool :: InnerInnerInstance(d, dm1, f1, x1, dm2, f2, x2, m, g1, g2, inOrder)
  {
    E.ExpandSingle(d);
    InnerInstances(dm1, f1, x1);
    InnerInstances(dm2, f2, x2);
    forall m | m in E.ExpandNode(d)
      ensures exists g1: nat, g2: nat, inOrder: bool :: InnerInnerInstance(d, dm1, f1, x1, dm2, f2, x2, m, g1, g2, inOrder)
    {
      CommutativePairSound(d, Pattern([dm1]), Pattern([dm2]), m);
      var a, b := m.args.items[0], m.args.items[1];
      assert m.args.items == [a, b];
      if a in E.Expand(Pattern([dm1])) && b in E.Expand(Pattern([dm2])) {
        var g1 :| InnerOrder(dm1, f1, g1) && a == InnerInstance(dm1, g1, x1);
        var g2 :| InnerOrder(dm2, f2, g2) && b == InnerInstance(dm2, g2, x2);
        assert InnerInnerInstance(d, dm1, f1, x1, dm2, f2, x2, m, g1, g2, true);
      } else {
        var g1 :| InnerOrder(dm1, f1, g1) && b == InnerInstance(dm1, g1, x1);
        var g2 :| InnerOrder(dm2, f2, g2) && a == InnerInstance(dm2, g2, x2);
        assert InnerInnerInstance(d, dm1, f1, x1, dm2, f2, x2, m, g1, g2, false);
      }
    }
    forall m, g1: nat, g2: nat, inOrder: bool | InnerInnerInstance(d, dm1, f1, x1, dm2, f2, x2, m, g1, g2, inOrder)
      ensures m in E.ExpandNode(d)
    {
      CommutativePairComplete(d, Pattern([dm1]), Pattern([dm2]), m.args.items[0], m.args.items[1]);
    }
  }

  /** Positions u and v of the node: the argument at u has the first inner type, the one
      at v the second, each with two arguments, and argument fu of the first is Equal to
      argument fv of the second. */
  predicate InnerInnerAt(node: Tr.Node, k1: T.NodeType, k2: T.NodeType, u: nat, v: nat, fu: nat, fv: nat) {
    node.HasArgs() && u < |node.args| && v < |node.args| && u != v && fu < 2 && fv < 2
    && node.args[u].Kind() == k1 && node.args[u].HasArgs() && |node.args[u].args| == 2
    && node.args[v].Kind() == k2 && node.args[v].HasArgs() && |node.args[v].args| == 2
    && U.Equal(node.args[u].args[fu], node.args[v].args[fv])
  }

  /** What P captures: the shared argument of whichever of the two comes first. */
  function InnerInnerP(node: Tr.Node, u: nat, v: nat, fu: nat, fv: nat): Tr.Node
    requires node.HasArgs() && u < |node.args| && v < |node.args| && fu < 2 && fv < 2
    requires node.args[u].HasArgs() && |node.args[u].args| == 2 && node.args[v].HasArgs() && |node.args[v].args| == 2
  {
    if u < v then node.args[u].args[fu] else node.args[v].args[fv]
  }

  /** The rewrite at u and v: both arguments removed, the others kept in order, and
      build(P, x1, x2) appended. */
  predicate InnerInnerRewrite(node: Tr.Node, k1: T.NodeType, k2: T.NodeType, u: nat, v: nat, fu: nat, fv: nat, r: Tr.Node,
                              build: (Tr.Node, Tr.Node, Tr.Node) -> Tr.Node) {
    InnerInnerAt(node, k1, k2, u, v, fu, fv)
    && r == node.WithArgs(M.Keep(node.args, {u, v}, 0)
         + [build(InnerInnerP(node, u, v, fu, fv), node.args[u].args[1 - fu], node.args[v].args[1 - fv])])
  }

  /** A `children` rule with such a pattern whose replacement is build(P, x1, x2) and whose
      required names are among P, x1 and x2. */
  ghost predicate InnerInnerRule(rule: Rule, d: DetectionNode, dm1: DetectionNode, f1: nat, x1: string, dm2: DetectionNode, f2: nat, x2: string,
                                 build: (Tr.Node, Tr.Node, Tr.Node) -> Tr.Node) {
    InnerInnerPattern(d, dm1, f1, x1, dm2, f2, x2) && rule.pattern == Pattern([d]) && rule.node.None? && rule.children.Some?
    && (forall i :: 0 <= i < |rule.requiredNodes| ==>
          rule.requiredNodes[i] == "P" || rule.requiredNodes[i] == x1 || rule.requiredNodes[i] == x2)
    && forall n: Tr.Node, caps: Captures :: "P" in caps && x1 in caps && x2 in caps ==>
         rule.children.value(n, caps) == build(caps["P"], caps[x1], caps[x2])
  }

  /** The first inner instance at i, then the second at j. */
  lemma FirstThenSecond(node: Tr.Node, dm1: DetectionNode, g1: nat, x1: string, dm2: DetectionNode, g2: nat, x2: string,
                        i: nat, j: nat, c1: Captures, caps: Captures)
    requires Plain(dm1) && Plain(dm2) && g1 < 2 && g2 < 2 && x1 != "P" && x1 != "" && x2 != "P" && x2 != "" && x1 != x2
    requires node.HasArgs() && i < j < |node.args|
    requires M.MatchSingle(node.args[i], InnerInstance(dm1, g1, x1), map[]) == Some(c1)
    requires M.MatchSingle(node.args[j], InnerInstance(dm2, g2, x2), c1) == Some(caps)
    ensures InnerInnerAt(node, dm1.kind.value, dm2.kind.value, i, j, g1, g2)
    ensures "P" in caps && x1 in caps && x2 in caps && caps["P"] == InnerInnerP(node, i, j, g1, g2)
      && caps[x1] == node.args[i].args[1 - g1] && caps[x2] == node.args[j].args[1 - g2]
  {
    InnerMatch(node.args[i], dm1, g1, x1, map[]);
    InnerMatch(node.args[j], dm2, g2, x2, c1);
    U.EqualSymmetric(node.args[j].args[g2], node.args[i].args[g1]);
  }

  /** The second inner instance at i, then the first at j. */
  lemma SecondThenFirst(node: Tr.Node, dm1: DetectionNode, g1: nat, x1: string, dm2: DetectionNode, g2: nat, x2: string,
                        i: nat, j: nat, c1: Captures, caps: Captures)
    requires Plain(dm1) && Plain(dm2) && g1 < 2 && g2 < 2 && x1 != "P" && x1 != "" && x2 != "P" && x2 != "" && x1 != x2
    requires node.HasArgs() && i < j < |node.args|
    requires M.MatchSingle(node.args[i], InnerInstance(dm2, g2, x2), map[]) == Some(c1)
    requires M.MatchSingle(node.args[j], InnerInstance(dm1, g1, x1), c1) == Some(caps)
    ensures InnerInnerAt(node, dm1.kind.value, dm2.kind.value, j, i, g1, g2)
    ensures "P" in caps && x1 in caps && x2 in caps && caps["P"] == InnerInnerP(node, j, i, g1, g2)
      && caps[x1] == node.args[j].args[1 - g1] && caps[x2] == node.args[i].args[1 - g2]
  {
    InnerMatch(node.args[i], dm2, g2, x2, map[]);
    InnerMatch(node.args[j], dm1, g1, x1, c1);
  }

  /** A successful attempt of an instance matched positions u and v, and captured P, x1
      and x2. */
  lemma InnerInnerAttempt(node: Tr.Node, d: DetectionNode, dm1: DetectionNode, f1: nat, x1: string, dm2: DetectionNode, f2: nat, x2: string,
                          m: MatchNode, g1: nat, g2: nat, inOrder: bool)
    requires InnerInnerPattern(d, dm1, f1, x1, dm2, f2, x2) && InnerInnerInstance(d, dm1, f1, x1, dm2, f2, x2, m, g1, g2, inOrder)
    requires M.Attempt(node, m).captures.Some? && M.Attempt(node, m).indices.Some?
    ensures node.Kind() == d.kind.value
    ensures var at := M.Attempt(node, m); var caps := at.captures.value;
      exists u: nat, v: nat :: InnerInnerAt(node, dm1.kind.value, dm2.kind.value, u, v, g1, g2) && M.SetOf(at.indices.value) == {u, v}
        && "P" in caps && x1 in caps && x2 in caps && caps["P"] == InnerInnerP(node, u, v, g1, g2)
        && caps[x1] == node.args[u].args[1 - g1] && caps[x2] == node.args[v].args[1 - g2]
  {
    var a, b := InnerInstance(dm1, g1, x1), InnerInstance(dm2, g2, x2);
    if inOrder {
      var i, j, c1 := BinaryAttempt(node, d, a, b);
      FirstThenSecond(node, dm1, g1, x1, dm2, g2, x2, i, j, c1, M.Attempt(node, m).captures.value);
      assert M.SetOf(M.Attempt(node, m).indices.value) == {i, j};
    } else {
      var i, j, c1 := BinaryAttempt(node, d, b, a);
      SecondThenFirst(node, dm1, g1, x1, dm2, g2, x2, i, j, c1, M.Attempt(node, m).captures.value);
      assert M.SetOf(M.Attempt(node, m).indices.value) == {j, i};
    }
  }

  /** The rewrite of a firing instance. */
  lemma InnerInnerFires(node: Tr.Node, rule: Rule, d: DetectionNode, dm1: DetectionNode, f1: nat, x1: string, dm2: DetectionNode, f2: nat, x2: string,
                        build: (Tr.Node, Tr.Node, Tr.Node) -> Tr.Node, m: MatchNode, g1: nat, g2: nat, inOrder: bool)
    requires InnerInnerRule(rule, d, dm1, f1, x1, dm2, f2, x2, build) && InnerInnerInstance(d, dm1, f1, x1, dm2, f2, x2, m, g1, g2, inOrder)
    requires M.Fires(node, rule, m)
    ensures node.Kind() == d.kind.value
    ensures exists u: nat, v: nat :: InnerInnerRewrite(node, dm1.kind.value, dm2.kind.value, u, v, g1, g2, M.Rewrite(node, rule, m), build)
  {
    ChildrenRewrite(node, rule, m);
    InnerInnerAttempt(node, d, dm1, f1, x1, dm2, f2, x2, m, g1, g2, inOrder);
    var at := M.Attempt(node, m);
    var caps := at.captures.value;
    var u: nat, v: nat :| InnerInnerAt(node, dm1.kind.value, dm2.kind.value, u, v, g1, g2) && M.SetOf(at.indices.value) == {u, v}
      && "P" in caps && x1 in caps && x2 in caps && caps["P"] == InnerInnerP(node, u, v, g1, g2)
      && caps[x1] == node.args[u].args[1 - g1] && caps[x2] == node.args[v].args[1 - g2];
    assert rule.children.value(node, caps) == build(caps["P"], caps[x1], caps[x2]);
    assert InnerInnerRewrite(node, dm1.kind.value, dm2.kind.value, u, v, g1, g2, M.Rewrite(node, rule, m), build);
  }

  /** Such a rule never exceeds a depth bound at least its height, and when it rewrites,
      the node has the pattern's type and the result is the rewrite at some positions u
      and v with P at orders the inner patterns allow. */
  lemma InnerInnerSound(node: Tr.Node, rule: Rule, d: DetectionNode, dm1: DetectionNode, f1: nat, x1: string, dm2: DetectionNode, f2: nat, x2: string,
                        build: (Tr.Node, Tr.Node, Tr.Node) -> Tr.Node, maxDepth: int)
    requires InnerInnerRule(rule, d, dm1, f1, x1, dm2, f2, x2, build) && E.Height(rule.pattern) <= maxDepth
    ensures M.ApplyRule(node, rule, maxDepth).Ok?
    ensures var r := M.ApplyRule(node, rule, maxDepth).value;
      r.Some? ==> (node.Kind() == d.kind.value
        && exists u: nat, v: nat, g1: nat, g2: nat :: InnerOrder(dm1, f1, g1) && InnerOrder(dm2, f2, g2)
             && InnerInnerRewrite(node, dm1.kind.value, dm2.kind.value, u, v, g1, g2, r.value, build))
  {
    var insts := E.Expand(rule.pattern);
    if M.ApplyInstances(node, rule, insts).Some? {
      Winner(node, rule, insts);
      var m :| m in insts && M.Fires(node, rule, m) && M.ApplyInstances(node, rule, insts).value == M.Rewrite(node, rule, m);
      InnerInnerWinner(node, rule, d, dm1, f1, x1, dm2, f2, x2, build, m);
    }
  }

  lemma InnerInnerWinner(node: Tr.Node, rule: Rule, d: DetectionNode, dm1: DetectionNode, f1: nat, x1: string, dm2: DetectionNode, f2: nat, x2: string,
                         build: (Tr.Node, Tr.Node, Tr.Node) -> Tr.Node, m: MatchNode)
    requires InnerInnerRule(rule, d, dm1, f1, x1, dm2, f2, x2, build) && m in E.Expand(rule.pattern) && M.Fires(node, rule, m)
    ensures node.Kind() == d.kind.value
    ensures exists u: nat, v: nat, g1: nat, g2: nat ::
      InnerOrder(dm1, f1, g1) && InnerOrder(dm2, f2, g2)
      && InnerInnerRewrite(node, dm1.kind.value, dm2.kind.value, u, v, g1, g2, M.Rewrite(node, rule, m), build)
  {
    InnerInnerInstances(d, dm1, f1, x1, dm2, f2, x2);
    var g1: nat, g2: nat, inOrder: bool :| InnerInnerInstance(d, dm1, f1, x1, dm2, f2, x2, m, g1, g2, inOrder);
    InnerInnerFires(node, rule, d, dm1, f1, x1, dm2, f2, x2, build, m, g1, g2, inOrder);
  }

  /** Conversely, positions u and v of an Add or Multiply of the pattern's type holding the
      two shapes, with P at orders the inner patterns allow, make the rule fire. */
  lemma InnerInnerComplete(node: Tr.Node, rule: Rule, d: DetectionNode, dm1: DetectionNode, f1: nat, x1: string, dm2: DetectionNode, f2: nat, x2: string,
                           build: (Tr.Node, Tr.Node, Tr.Node) -> Tr.Node, maxDepth: int, u: nat, v: nat, g1: nat, g2: nat)
    requires InnerInnerRule(rule, d, dm1, f1, x1, dm2, f2, x2, build) && E.Height(rule.pattern) <= maxDepth
    requires (node.Add? || node.Multiply?) && d.kind == Some(node.Kind())
    requires InnerOrder(dm1, f1, g1) && InnerOrder(dm2, f2, g2) && InnerInnerAt(node, dm1.kind.value, dm2.kind.value, u, v, g1, g2)
    ensures M.ApplyRule(node, rule, maxDepth).Ok? && M.ApplyRule(node, rule, maxDepth).value.Some?
  {
    var m, inOrder := InnerInnerMatches(node, d, dm1, f1, x1, dm2, f2, x2, u, v, g1, g2);
    var at := M.Attempt(node, m);
    assert at.indices.Some?;
    InnerInnerAttempt(node, d, dm1, f1, x1, dm2, f2, x2, m, g1, g2, inOrder);
    assert M.HasAll(rule.requiredNodes, at.captures.value);
    assert M.Fires(node, rule, m);
    var insts := E.Expand(rule.pattern);
    InnerInnerInstances(d, dm1, f1, x1, dm2, f2, x2);
    assert m in insts;
    var k :| 0 <= k < |insts| && insts[k] == m;
    M.ApplyInstancesFirst(node, rule, insts);
  }

  // ---- flat one-slot rules ----

  /** A rule whose pattern is one uncaptured node over a single argless slot. */
  predicate SingleRule(rule: Rule, d: DetectionNode, a: DetectionNode) {
    && rule.pattern == Pattern([d]) && d.args == Slots([Pattern([a])])
    && d.capture.None? && a.args.NoSlots? && (rule.node.Some? || rule.children.Some?)
  }

  /** What a one-slot rule produces when position i was matched. */
  function SingleResult(node: Tr.Node, rule: Rule, i: nat, caps: Captures): Tr.Node
    requires node.HasArgs() && (rule.node.Some? || rule.children.Some?)
  {
    if rule.node.Some? then rule.node.value(node, caps)
    else node.WithArgs(M.Keep(node.args, {i}, 0) + [rule.children.value(node, caps)])
  }

  /** MatchFrom on one position. */
  lemma SingleFrom(nodes: seq<Tr.Node>, m: MatchNode, c: Captures)
    requires m.args.ArgList? && |m.args.items| == 1 && |nodes| == 1
    ensures M.MatchFrom(nodes, m, 0, c) == M.MatchSingle(nodes[0], m.args.items[0], c)
  {
    if M.MatchSingle(nodes[0], m.args.items[0], c).Some? {
      var c1 := M.MatchSingle(nodes[0], m.args.items[0], c).value;
      assert M.MatchFrom(nodes, m, 1, c1) == Some(c1);
    }
  }

  /** A successful attempt of the instance [a] matched one position i. */
  lemma SingleAttempt(node: Tr.Node, d: DetectionNode, a: DetectionNode)
    requires d.capture.None? && a.args.NoSlots? && M.Attempt(node, WithArgs(d, [Leaf(a)])).captures.Some?
    ensures node.HasArgs() && (d.kind.Some? ==> node.Kind() == d.kind.value)
    ensures var at := M.Attempt(node, WithArgs(d, [Leaf(a)]));
      at.indices.Some? && exists i: nat :: (i < |node.args| && at.indices.value == [i]
        && M.FieldsMatch(node.args[i], Leaf(a)) && at.captures.value == LeafBind(a, node.args[i], map[]))
  {
    var m := WithArgs(d, [Leaf(a)]);
    var at := M.Attempt(node, m);
    IndicesOfSuccess(node, m);
    M.AttemptIndices(node, m);
    var i: nat;
    if M.MatchSingle(node, m, map[]).Some? {
      assert M.Bind(node, m.capture, map[]) == Some(map[]) && M.FieldsMatch(node, m);
      assert M.MatchArgs(node.args, m, map[]) == at.captures;
      SingleFrom(node.args, m, map[]);
      assert at.indices.value == M.Indices(1) == [0];
      i := 0;
    } else {
      M.FindPartialSound(node, m);
      var idx := at.indices.value;
      var picked := M.Pick(node.args, idx);
      assert M.MatchArgs(picked, m, map[]) == at.captures;
      SingleFrom(picked, m, map[]);
      assert idx == [idx[0]];
      i := idx[0];
    }
    LeafMatch(node.args[i], a, map[]);
  }

  /** A one-slot rule never exceeds a depth of 1; when it rewrites, the node has the
      pattern's type and the result is the rewrite at one matching position. */
  lemma SingleSound(node: Tr.Node, rule: Rule, d: DetectionNode, a: DetectionNode, maxDepth: int)
    requires SingleRule(rule, d, a) && maxDepth >= 1
    ensures M.ApplyRule(node, rule, maxDepth).Ok?
    ensures var r := M.ApplyRule(node, rule, maxDepth).value;
      r.Some? ==> (node.HasArgs() && (d.kind.Some? ==> node.Kind() == d.kind.value)
        && exists i: nat :: (i < |node.args| && M.FieldsMatch(node.args[i], Leaf(a))
             && r.value == SingleResult(node, rule, i, LeafBind(a, node.args[i], map[]))))
  {
    ExpandUnary(d, a);
    var m := WithArgs(d, [Leaf(a)]);
    var insts := E.Expand(rule.pattern);
    if M.ApplyInstances(node, rule, insts).Some? {
      Winner(node, rule, insts);
      assert M.Fires(node, rule, m);
      SingleAttempt(node, d, a);
      var at := M.Attempt(node, m);
      var i: nat :| i < |node.args| && at.indices.value == [i]
        && M.FieldsMatch(node.args[i], Leaf(a)) && at.captures.value == LeafBind(a, node.args[i], map[]);
      assert M.SetOf([i]) == {i};
      assert M.Rewrite(node, rule, m) == SingleResult(node, rule, i, at.captures.value);
    }
  }

  /** Conversely, one matching position of an Add or Multiply of the pattern's type makes
      the rule fire, when the slot captures every required name. */
  lemma SingleComplete(node: Tr.Node, rule: Rule, d: DetectionNode, a: DetectionNode, maxDepth: int, i: nat)
    requires SingleRule(rule, d, a) && RequiredWithin(rule, a, a) && maxDepth >= 1
    requires (node.Add? || node.Multiply?) && d.kind == Some(node.Kind())
    requires i < |node.args| && M.FieldsMatch(node.args[i], Leaf(a))
    ensures M.ApplyRule(node, rule, maxDepth).Ok? && M.ApplyRule(node, rule, maxDepth).value.Some?
  {
    ExpandUnary(d, a);
    var m := WithArgs(d, [Leaf(a)]);
    var insts := E.Expand(rule.pattern);
    if M.MatchSingle(node, m, map[]).None? {
      var picked := M.Pick(node.args, [i]);
      SingleFrom(picked, m, map[]);
      LeafMatch(node.args[i], a, map[]);
      assert M.PickMatches(node.args, m, [i]);
      M.FindPartialComplete(node, m, [i]);
    }
    SingleAttempt(node, d, a);
    var at := M.Attempt(node, m);
    var i': nat :| i' < |node.args| && at.indices.value == [i']
      && M.FieldsMatch(node.args[i'], Leaf(a)) && at.captures.value == LeafBind(a, node.args[i'], map[]);
    assert M.HasAll(rule.requiredNodes, at.captures.value);
    assert M.Fires(node, rule, insts[0]);
    M.ApplyInstancesFirst(node, rule, insts);
  }

  /** The instance whose order agrees with u and v matches. */
  lemma InnerInnerMatches(node: Tr.Node, d: DetectionNode, dm1: DetectionNode, f1: nat, x1: string, dm2: DetectionNode, f2: nat, x2: string,
                          u: nat, v: nat, g1: nat, g2: nat) returns (m: MatchNode, inOrder: bool)
    requires InnerInnerPattern(d, dm1, f1, x1, dm2, f2, x2) && (node.Add? || node.Multiply?) && d.kind == Some(node.Kind())
    requires InnerOrder(dm1, f1, g1) && InnerOrder(dm2, f2, g2) && InnerInnerAt(node, dm1.kind.value, dm2.kind.value, u, v, g1, g2)
    ensures InnerInnerInstance(d, dm1, f1, x1, dm2, f2, x2, m, g1, g2, inOrder) && M.Attempt(node, m).captures.Some?
  {
    inOrder := u < v;
    var a, b := InnerInstance(dm1, g1, x1), InnerInstance(dm2, g2, x2);
    m := WithArgs(d, if inOrder then [a, b] else [b, a]);
    if inOrder {
      InnerMatch(node.args[u], dm1, g1, x1, map[]);
      U.EqualSymmetric(node.args[u].args[g1], node.args[v].args[g2]);
      InnerMatch(node.args[v], dm2, g2, x2, InnerCaps(node.args[u], g1, x1, map[]));
      PairMatchesOf(node, d, a, b, u, v);
    } else {
      InnerMatch(node.args[v], dm2, g2, x2, map[]);
      InnerMatch(node.args[u], dm1, g1, x1, InnerCaps(node.args[v], g2, x2, map[]));
      PairMatchesOf(node, d, b, a, v, u);
    }
  }
}
