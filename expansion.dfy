/** The meaning of pattern expansion (src/Matching/PatternExpander.ts): the instances a
    pattern stands for, the nesting height that the depth bound limits, and the
    combinatorics of argument slots. */
module Expansion {
  import opened Wrappers
  import opened Match
  import Arith

  // ---- combinatorics ----

  /** [x] + c for every c, in order. */
  function Prepend<X>(x: X, cs: seq<seq<X>>): (r: seq<seq<X>>)
    ensures |r| == |cs| && forall i :: 0 <= i < |cs| ==> r[i] == [x] + cs[i]
  {
    seq(|cs|, i requires 0 <= i < |cs| => [x] + cs[i])
  }

  /** Every item of `first` prepended to every combination of `rest`: first item slowest. */
  function PrependEach<X>(first: seq<X>, rest: seq<seq<X>>): seq<seq<X>> {
    if first == [] then [] else Prepend(first[0], rest) + PrependEach(first[1..], rest)
  }

  /** cartesianProduct: one entry from each array, the first array varying slowest. */
  function CartesianProduct<X>(arrays: seq<seq<X>>): seq<seq<X>> {
    if arrays == [] then [[]] else PrependEach(arrays[0], CartesianProduct(arrays[1..]))
  }

  function Product(sizes: seq<nat>): nat {
    if sizes == [] then 1 else sizes[0] * Product(sizes[1..])
  }

  function Sizes<X>(arrays: seq<seq<X>>): (r: seq<nat>)
    ensures |r| == |arrays| && forall i :: 0 <= i < |arrays| ==> r[i] == |arrays[i]|
  {
    seq(|arrays|, i requires 0 <= i < |arrays| => |arrays[i]|)
  }

  function Factorial(n: nat): nat {
    if n == 0 then 1 else n * Factorial(n - 1)
  }

  function Remove<X>(s: seq<X>, i: nat): (r: seq<X>)
    requires i < |s|
    ensures |r| == |s| - 1
  {
    s[..i] + s[i + 1..]
  }

  /** generatePermutations over positions: each position in turn first, then every
      ordering of the others. */
  function Permutations<X>(s: seq<X>): seq<seq<X>>
    decreases |s|, 1, 0
  {
    if |s| == 0 then [[]] else PermutationsFrom(s, 0)
  }

  function PermutationsFrom<X>(s: seq<X>, i: nat): seq<seq<X>>
    requires i <= |s|
    decreases |s|, 0, |s| - i
  {
    if i == |s| then [] else Prepend(s[i], Permutations(Remove(s, i))) + PermutationsFrom(s, i + 1)
  }

  /** One step of generatePermutations' outer loop. */
  lemma PermutationsFromStep<X>(s: seq<X>, i: nat, perms: seq<seq<X>>, acc: seq<seq<X>>, next: seq<seq<X>>)
    requires i < |s| && perms == Permutations(s[..i] + s[i + 1..]) && next == acc + Prepend(s[i], perms)
    ensures next + PermutationsFrom(s, i + 1) == acc + PermutationsFrom(s, i)
  {
    assert s[..i] + s[i + 1..] == Remove(s, i);
    assert PermutationsFrom(s, i) == Prepend(s[i], perms) + PermutationsFrom(s, i + 1);
  }

  lemma {:induction false} PrependEachSize<X>(first: seq<X>, rest: seq<seq<X>>)
    ensures |PrependEach(first, rest)| == |first| * |rest|
  {
    if first != [] {
      PrependEachSize(first[1..], rest);
      Arith.MulSucc(|first[1..]|, |rest|);
    }
  }

  lemma {:induction false} PrependEachMembers<X>(first: seq<X>, rest: seq<seq<X>>, c: seq<X>)
    ensures c in PrependEach(first, rest) <==> |c| > 0 && c[0] in first && c[1..] in rest
  {
    if first != [] {
      PrependEachMembers(first[1..], rest, c);
      if |c| > 0 && c[0] == first[0] && c[1..] in rest {
        var k :| 0 <= k < |rest| && rest[k] == c[1..];
        assert Prepend(first[0], rest)[k] == c;
      }
    }
  }

  /** There are as many combinations as the product of the array sizes. */
  lemma {:induction false} CartesianProductSize<X>(arrays: seq<seq<X>>)
    ensures |CartesianProduct(arrays)| == Product(Sizes(arrays))
  {
    if arrays != [] {
      CartesianProductSize(arrays[1..]);
      PrependEachSize(arrays[0], CartesianProduct(arrays[1..]));
      assert Sizes(arrays)[1..] == Sizes(arrays[1..]);
    }
  }

  /** A combination is exactly a sequence with one entry drawn from each array. */
  lemma {:induction false} CartesianProductMembers<X>(arrays: seq<seq<X>>, c: seq<X>)
    ensures c in CartesianProduct(arrays)
      <==> |c| == |arrays| && forall i :: 0 <= i < |c| ==> c[i] in arrays[i]
  {
    if arrays == [] {
    } else {
      PrependEachMembers(arrays[0], CartesianProduct(arrays[1..]), c);
      if |c| > 0 {
        CartesianProductMembers(arrays[1..], c[1..]);
        if |c| == |arrays| && forall i :: 0 <= i < |c| ==> c[i] in arrays[i] {
          assert forall i :: 0 <= i < |c| - 1 ==> c[1..][i] in arrays[1..][i] by {
            forall i | 0 <= i < |c| - 1 ensures c[1..][i] in arrays[1..][i] {
              assert c[i + 1] in arrays[i + 1];
            }
          }
        }
        if c in CartesianProduct(arrays) {
          forall i | 0 <= i < |c| ensures c[i] in arrays[i] {
            if i > 0 { assert c[1..][i - 1] in arrays[1..][i - 1]; }
          }
        }
      }
    }
  }

  lemma {:induction false} PermutationsFromSize<X>(s: seq<X>, i: nat)
    requires 0 < |s| && i <= |s|
    ensures |PermutationsFrom(s, i)| == (|s| - i) * Factorial(|s| - 1)
    decreases |s|, 0, |s| - i
  {
    if i < |s| {
      PermutationsSize(Remove(s, i));
      PermutationsFromSize(s, i + 1);
      assert (|s| - i) * Factorial(|s| - 1) == Factorial(|s| - 1) + (|s| - i - 1) * Factorial(|s| - 1);
    }
  }

  /** k entries have k! orderings. */
  lemma {:induction false} PermutationsSize<X>(s: seq<X>)
    ensures |Permutations(s)| == Factorial(|s|)
    decreases |s|, 1, 0
  {
    if |s| > 0 {
      PermutationsFromSize(s, 0);
    }
  }

  lemma RemoveMultiset<X>(s: seq<X>, i: nat)
    requires i < |s|
    ensures multiset(s) == multiset{s[i]} + multiset(Remove(s, i))
  {
    assert s == s[..i] + [s[i]] + s[i + 1..];
  }

  lemma {:induction false} PermutationsFromSound<X>(s: seq<X>, i: nat, t: seq<X>)
    requires 0 < |s| && i <= |s| && t in PermutationsFrom(s, i)
    ensures multiset(t) == multiset(s)
    decreases |s|, 0, |s| - i
  {
    if i < |s| {
      if t in Prepend(s[i], Permutations(Remove(s, i))) {
        var k :| 0 <= k < |Permutations(Remove(s, i))| && t == [s[i]] + Permutations(Remove(s, i))[k];
        PermutationsSound(Remove(s, i), Permutations(Remove(s, i))[k]);
        RemoveMultiset(s, i);
      } else {
        PermutationsFromSound(s, i + 1, t);
      }
    }
  }

  /** Every ordering is a rearrangement of the entries. */
  lemma {:induction false} PermutationsSound<X>(s: seq<X>, t: seq<X>)
    requires t in Permutations(s)
    ensures multiset(t) == multiset(s)
    decreases |s|, 1, 0
  {
    if |s| > 0 {
      PermutationsFromSound(s, 0, t);
    }
  }

  lemma {:induction false} PermutationsFromHas<X>(s: seq<X>, i: nat, j: nat, t: seq<X>)
    requires i <= j < |s| && t in Prepend(s[j], Permutations(Remove(s, j)))
    ensures t in PermutationsFrom(s, i)
    decreases |s| - i
  {
    if i < j {
      PermutationsFromHas(s, i + 1, j, t);
    }
  }

  lemma CancelOne<X>(x: X, a: multiset<X>, b: multiset<X>)
    requires multiset{x} + a == multiset{x} + b
    ensures a == b
  {
    forall y ensures a[y] == b[y] {
      assert (multiset{x} + a)[y] == (multiset{x} + b)[y];
    }
  }

  /** Every rearrangement of the entries is among the orderings. */
  lemma {:induction false} PermutationsComplete<X>(s: seq<X>, t: seq<X>)
    requires multiset(t) == multiset(s)
    ensures t in Permutations(s)
    decreases |s|
  {
    if |s| > 0 {
      assert |t| == |s| by { assert |multiset(t)| == |multiset(s)|; }
      assert t[0] in multiset(s) by { assert t == [t[0]] + t[1..]; }
      var j :| 0 <= j < |s| && s[j] == t[0];
      RemoveMultiset(s, j);
      assert multiset(t) == multiset{t[0]} + multiset(t[1..]) by { assert t == [t[0]] + t[1..]; }
      CancelOne(t[0], multiset(t[1..]), multiset(Remove(s, j)));
      PermutationsComplete(Remove(s, j), t[1..]);
      var perms := Permutations(Remove(s, j));
      var k :| 0 <= k < |perms| && perms[k] == t[1..];
      assert [s[j]] + perms[k] == t by { assert [t[0]] + t[1..] == t; }
      assert Prepend(s[j], perms)[k] == t;
      PermutationsFromHas(s, 0, j, t);
    }
  }

  // ---- the instances of a pattern ----

  /** The instances built from each combination of slot instances: every ordering of the
      combination when the node is commutative, the combination itself otherwise. */
  function Instances(d: DetectionNode, combos: seq<seq<MatchNode>>): seq<MatchNode> {
    if combos == [] then []
    else
      (if d.commutative == Some(true)
       then WithEach(d, Permutations(combos[0]))
       else [WithArgs(d, combos[0])])
      + Instances(d, combos[1..])
  }

  function WithEach(d: DetectionNode, argss: seq<seq<MatchNode>>): (r: seq<MatchNode>)
    ensures |r| == |argss| && forall i :: 0 <= i < |argss| ==> r[i] == WithArgs(d, argss[i])
  {
    seq(|argss|, i requires 0 <= i < |argss| => WithArgs(d, argss[i]))
  }

  function Flatten<X>(ss: seq<seq<X>>): seq<X> {
    if ss == [] then [] else ss[0] + Flatten(ss[1..])
  }

  function MaxOf(s: seq<nat>): nat {
    if s == [] then 0 else Max(s[0], MaxOf(s[1..]))
  }

  /** The instances of a pattern: each alternative's instances, in order. */
  function Expand(p: Pattern): seq<MatchNode>
    decreases p
  {
    var alts := p.alternatives;
    Flatten(seq(|alts|, j requires 0 <= j < |alts| => ExpandNode(alts[j])))
  }

  /** An argless node stands for itself with args cleared; otherwise the combinations
      of its slots' instances. */
  function ExpandNode(d: DetectionNode): seq<MatchNode>
    decreases d
  {
    if d.args.NoSlots? then [Leaf(d)] else Instances(d, CartesianProduct(ExpandSlots(d, 0)))
  }

  /** The instances of the slots of d from slot i on. */
  function ExpandSlots(d: DetectionNode, i: nat): (r: seq<seq<MatchNode>>)
    requires d.args.Slots? && i <= |d.args.patterns|
    ensures |r| == |d.args.patterns| - i
    ensures forall k :: 0 <= k < |r| ==> r[k] == Expand(d.args.patterns[i + k])
    decreases d, |d.args.patterns| - i
  {
    if i == |d.args.patterns| then [] else [Expand(d.args.patterns[i])] + ExpandSlots(d, i + 1)
  }

  /** The number of pattern levels below this one: the depth bound must allow it. */
  function Height(p: Pattern): nat
    decreases p
  {
    var alts := p.alternatives;
    MaxOf(seq(|alts|, j requires 0 <= j < |alts| => NodeHeight(alts[j])))
  }

  function NodeHeight(d: DetectionNode): nat
    decreases d
  {
    if d.args.NoSlots? then 0 else SlotsHeight(d, 0)
  }

  function SlotsHeight(d: DetectionNode, i: nat): nat
    requires d.args.Slots? && i <= |d.args.patterns|
    decreases d, |d.args.patterns| - i
  {
    if i == |d.args.patterns| then 0 else Max(1 + Height(d.args.patterns[i]), SlotsHeight(d, i + 1))
  }

  function Max(a: nat, b: nat): nat { if a >= b then a else b }

  function DepthError<X>(): Result<X> {
    Err(Error(MaxDepthExceeded, "maximum expansion depth exceeded"))
  }

  /** expandPattern(p, depth): fails exactly when some nested pattern lies deeper than the
      bound, and otherwise yields the instances of p. */
  function ExpandAt(p: Pattern, depth: nat, maxDepth: int): Result<seq<MatchNode>> {
    if depth + Height(p) > maxDepth then DepthError() else Ok(Expand(p))
  }

  // ---- counting ----

  lemma {:induction false} InstancesCount(d: DetectionNode, combos: seq<seq<MatchNode>>, k: nat)
    requires forall i :: 0 <= i < |combos| ==> |combos[i]| == k
    ensures |Instances(d, combos)| == |combos| * (if d.commutative == Some(true) then Factorial(k) else 1)
  {
    if combos != [] {
      var f := if d.commutative == Some(true) then Factorial(k) else 1;
      InstancesCount(d, combos[1..], k);
      if d.commutative == Some(true) { PermutationsSize(combos[0]); }
      InstancesHead(d, combos);
      Arith.MulSucc(|combos[1..]|, f);
    }
  }

  /** The first combination's instances come first. */
  lemma InstancesHead(d: DetectionNode, combos: seq<seq<MatchNode>>)
    requires combos != []
    ensures |Instances(d, combos)| == |Instances(d, combos[1..])|
      + (if d.commutative == Some(true) then |Permutations(combos[0])| else 1)
  {
  }

  lemma {:induction false} FlattenConcat<X>(a: seq<seq<X>>, b: seq<seq<X>>)
    ensures Flatten(a + b) == Flatten(a) + Flatten(b)
  {
    if a == [] {
      assert a + b == b;
    } else {
      assert (a + b)[1..] == a[1..] + b;
      FlattenConcat(a[1..], b);
    }
  }

  function NodeInstances(alts: seq<DetectionNode>): (r: seq<seq<MatchNode>>)
    ensures |r| == |alts| && forall j :: 0 <= j < |alts| ==> r[j] == ExpandNode(alts[j])
  {
    seq(|alts|, j requires 0 <= j < |alts| => ExpandNode(alts[j]))
  }

  /** The alternatives of a pattern contribute their instances in order. */
  lemma ExpandConcat(a: seq<DetectionNode>, b: seq<DetectionNode>)
    ensures Expand(Pattern(a + b)) == Expand(Pattern(a)) + Expand(Pattern(b))
    ensures Expand(Pattern([])) == []
  {
    assert NodeInstances(a + b) == NodeInstances(a) + NodeInstances(b);
    FlattenConcat(NodeInstances(a), NodeInstances(b));
    assert Expand(Pattern(a + b)) == Flatten(NodeInstances(a + b));
    assert Expand(Pattern(a)) == Flatten(NodeInstances(a));
    assert Expand(Pattern(b)) == Flatten(NodeInstances(b));
  }

  lemma ExpandSingle(d: DetectionNode)
    ensures Expand(Pattern([d])) == ExpandNode(d)
  {
    assert NodeInstances([d]) == [ExpandNode(d)];
    assert Expand(Pattern([d])) == Flatten(NodeInstances([d]));
  }

  /** The instance counts of a detection node: one for an argless node; otherwise the
      product of the slot counts, times k! orderings for a commutative node of k slots. */
  lemma ExpandNodeCount(d: DetectionNode)
    ensures d.args.NoSlots? ==> ExpandNode(d) == [Leaf(d)]
    ensures d.args.Slots? ==>
      (|ExpandNode(d)| == Product(Sizes(ExpandSlots(d, 0)))
         * (if d.commutative == Some(true) then Factorial(|d.args.patterns|) else 1))
  {
    if d.args.Slots? {
      var slots := ExpandSlots(d, 0);
      var combos := CartesianProduct(slots);
      CartesianProductSize(slots);
      forall i | 0 <= i < |combos| ensures |combos[i]| == |d.args.patterns| {
        CartesianProductMembers(slots, combos[i]);
      }
      InstancesCount(d, combos, |d.args.patterns|);
    }
  }

  /** Every instance of a non-commutative node takes slot i from slot i's instances; and
      every such choice is an instance. */
  lemma NonCommutativeInstances(d: DetectionNode, args: seq<MatchNode>)
    requires d.args.Slots? && d.commutative != Some(true)
    ensures WithArgs(d, args) in ExpandNode(d)
      <==> (|args| == |d.args.patterns| && forall i :: 0 <= i < |args| ==> args[i] in Expand(d.args.patterns[i]))
  {
    var slots := ExpandSlots(d, 0);
    InstancesMembers(d, CartesianProduct(slots), args);
    CartesianProductMembers(slots, args);
  }

  lemma {:induction false} InstancesMembers(d: DetectionNode, combos: seq<seq<MatchNode>>, args: seq<MatchNode>)
    requires d.commutative != Some(true)
    ensures WithArgs(d, args) in Instances(d, combos) <==> args in combos
  {
    if combos != [] {
      InstancesMembers(d, combos[1..], args);
    }
  }

  /** A commutative node has as instances exactly the rearrangements of each combination. */
  lemma CommutativeInstances(d: DetectionNode, args: seq<MatchNode>)
    requires d.args.Slots? && d.commutative == Some(true)
    ensures WithArgs(d, args) in ExpandNode(d)
      <==> exists c :: c in CartesianProduct(ExpandSlots(d, 0)) && multiset(args) == multiset(c)
  {
    assert ExpandNode(d) == Instances(d, CartesianProduct(ExpandSlots(d, 0)));
    CommutativeMembers(d, CartesianProduct(ExpandSlots(d, 0)), args);
  }

  lemma {:induction false} CommutativeMembers(d: DetectionNode, combos: seq<seq<MatchNode>>, args: seq<MatchNode>)
    requires d.commutative == Some(true)
    ensures WithArgs(d, args) in Instances(d, combos)
      <==> exists c :: c in combos && multiset(args) == multiset(c)
  {
    if combos != [] {
      CommutativeMembers(d, combos[1..], args);
      var here := WithEach(d, Permutations(combos[0]));
      assert Instances(d, combos) == here + Instances(d, combos[1..]);
      if WithArgs(d, args) in here {
        var k :| 0 <= k < |here| && here[k] == WithArgs(d, args);
        assert Permutations(combos[0])[k] == args;
        PermutationsSound(combos[0], Permutations(combos[0])[k]);
        assert combos[0] in combos;
      }
      if multiset(args) == multiset(combos[0]) {
        PermutationsComplete(combos[0], args);
        var k :| 0 <= k < |Permutations(combos[0])| && Permutations(combos[0])[k] == args;
        assert here[k] == WithArgs(d, args);
      }
      if exists c :: c in combos[1..] && multiset(args) == multiset(c) {
        var c :| c in combos[1..] && multiset(args) == multiset(c);
        assert c in combos;
      }
      if exists c :: c in combos && multiset(args) == multiset(c) {
        var c :| c in combos && multiset(args) == multiset(c);
        if c != combos[0] { assert c in combos[1..]; }
      }
    }
  }
  /** An instance of d with k argument instances: d's own fields over those arguments. */
  predicate Shaped(d: DetectionNode, k: nat, m: MatchNode) {
    m.args.ArgList? && |m.args.items| == k && m == WithArgs(d, m.args.items)
  }

  lemma {:induction false} InstancesShaped(d: DetectionNode, combos: seq<seq<MatchNode>>, k: nat)
    requires forall i :: 0 <= i < |combos| ==> |combos[i]| == k
    ensures forall m :: m in Instances(d, combos) ==> Shaped(d, k, m)
  {
    if combos != [] {
      InstancesShaped(d, combos[1..], k);
      if d.commutative == Some(true) {
        var perms := Permutations(combos[0]);
        forall i | 0 <= i < |perms| ensures |perms[i]| == k {
          PermutationsSound(combos[0], perms[i]);
          assert |multiset(perms[i])| == |multiset(combos[0])|;
        }
      }
    }
  }

  /** Every instance of a node with slots has one argument per slot, and the node's type
      and capture. */
  lemma ExpandNodeShaped(d: DetectionNode)
    requires d.args.Slots?
    ensures forall m :: m in ExpandNode(d) ==> Shaped(d, |d.args.patterns|, m)
  {
    var slots := ExpandSlots(d, 0);
    var combos := CartesianProduct(slots);
    forall i | 0 <= i < |combos| ensures |combos[i]| == |d.args.patterns| {
      CartesianProductMembers(slots, combos[i]);
    }
    InstancesShaped(d, combos, |d.args.patterns|);
  }

  // ---- facts used by the imperative expander ----

  lemma InstancesSingle(d: DetectionNode, combination: seq<MatchNode>)
    ensures Instances(d, [combination]) ==
      if d.commutative == Some(true) then WithEach(d, Permutations(combination)) else [WithArgs(d, combination)]
  {
    assert [combination][1..] == [];
  }

  lemma InstancesStep(d: DetectionNode, combos: seq<seq<MatchNode>>, i: nat, acc: seq<MatchNode>, next: seq<MatchNode>)
    requires i < |combos| && acc == Instances(d, combos[..i]) && next == acc + Instances(d, [combos[i]])
    ensures next == Instances(d, combos[..i + 1])
  {
    assert combos[..i + 1] == combos[..i] + [combos[i]];
    InstancesConcat(d, combos[..i], [combos[i]]);
  }

  lemma InstancesDone(d: DetectionNode, combos: seq<seq<MatchNode>>, acc: seq<MatchNode>)
    requires acc == Instances(d, combos[..|combos|])
    ensures acc == Instances(d, combos)
  {
    assert combos[..|combos|] == combos;
  }

  lemma {:induction false} InstancesConcat(d: DetectionNode, a: seq<seq<MatchNode>>, b: seq<seq<MatchNode>>)
    ensures Instances(d, a + b) == Instances(d, a) + Instances(d, b)
  {
    if a == [] {
      assert a + b == b;
    } else {
      assert (a + b)[1..] == a[1..] + b;
      InstancesConcat(d, a[1..], b);
    }
  }

  lemma FlattenSnoc<X>(a: seq<seq<X>>, x: seq<X>)
    ensures Flatten(a + [x]) == Flatten(a) + x
  {
    FlattenConcat(a, [x]);
    assert Flatten([x]) == x + Flatten([]);
  }

  /** One alternative's instances joined to those before it. */
  lemma ExpandStep(alts: seq<DetectionNode>, j: nat, acc: seq<MatchNode>, x: seq<MatchNode>, h: int)
    requires j < |alts| && acc == Flatten(NodeInstances(alts[..j])) && x == ExpandNode(alts[j])
    requires AlternativesWithin(alts, j, h) && NodeHeight(alts[j]) <= h
    ensures acc + x == Flatten(NodeInstances(alts[..j + 1]))
    ensures AlternativesWithin(alts, j + 1, h)
  {
    assert NodeInstances(alts[..j + 1]) == NodeInstances(alts[..j]) + [x];
    FlattenSnoc(NodeInstances(alts[..j]), x);
  }

  /** The first j alternatives have height at most h. */
  predicate AlternativesWithin(alts: seq<DetectionNode>, j: nat, h: int)
    requires j <= |alts|
  {
    forall i :: 0 <= i < j ==> NodeHeight(alts[i]) <= h
  }

  /** An alternative too deep for the bound makes the whole pattern too deep. */
  lemma DeepAlternative(p: Pattern, j: nat, depth: nat, maxDepth: int)
    requires j < |p.alternatives| && depth + NodeHeight(p.alternatives[j]) > maxDepth
    ensures ExpandAt(p, depth, maxDepth) == DepthError()
  {
    HeightBound(p, maxDepth - depth);
  }

  /** Every alternative within the bound: the joined instances are the expansion. */
  lemma ShallowPattern(p: Pattern, depth: nat, maxDepth: int, acc: seq<MatchNode>)
    requires AlternativesWithin(p.alternatives, |p.alternatives|, maxDepth - depth)
    requires depth <= maxDepth
    requires acc == Flatten(NodeInstances(p.alternatives[..|p.alternatives|]))
    ensures ExpandAt(p, depth, maxDepth) == Ok(acc)
  {
    HeightBound(p, maxDepth - depth);
    assert p.alternatives[..|p.alternatives|] == p.alternatives;
    assert Expand(p) == Flatten(NodeInstances(p.alternatives));
  }

  /** A maximum is at most h exactly when every entry is. */
  lemma {:induction false} MaxOfBound(s: seq<nat>, h: int)
    ensures MaxOf(s) <= h <==> h >= 0 && forall i :: 0 <= i < |s| ==> s[i] <= h
  {
    if s != [] {
      MaxOfBound(s[1..], h);
      assert forall i :: 1 <= i < |s| ==> s[i] == s[1..][i - 1];
    }
  }

  /** The height of a pattern is bounded exactly when each alternative's height is. */
  lemma HeightBound(p: Pattern, h: int)
    ensures Height(p) <= h <==> h >= 0 && forall j :: 0 <= j < |p.alternatives| ==> NodeHeight(p.alternatives[j]) <= h
  {
    var alts := p.alternatives;
    var hs := seq(|alts|, j requires 0 <= j < |alts| => NodeHeight(alts[j]));
    assert Height(p) == MaxOf(hs);
    MaxOfBound(hs, h);
    assert forall j :: 0 <= j < |alts| ==> hs[j] == NodeHeight(alts[j]);
    if h >= 0 && forall j :: 0 <= j < |alts| ==> NodeHeight(alts[j]) <= h {
      assert forall j :: 0 <= j < |hs| ==> hs[j] <= h;
    }
  }

  lemma {:induction false} SlotsHeightBound(d: DetectionNode, i: nat, h: int)
    requires d.args.Slots? && i <= |d.args.patterns|
    ensures SlotsHeight(d, i) <= h <==>
      h >= 0 && forall k :: i <= k < |d.args.patterns| ==> 1 + Height(d.args.patterns[k]) <= h
    decreases |d.args.patterns| - i
  {
    if i < |d.args.patterns| {
      SlotsHeightBound(d, i + 1, h);
    }
  }
}
