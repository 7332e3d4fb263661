/** Node predicates of src/Node/NodeUtils.ts (class NodeTests). */
module NodeTests {
  import C = Complexes
  import Tr = Tree

  /** A literal whose value is field-wise 0/1 + 0/1 i. */
  predicate Zero(n: Tr.Node) {
    n.Literal? && C.Equal(n.number, C.Zero())
  }

  /** A literal whose value is field-wise 1/1 + 0/1 i. */
  predicate One(n: Tr.Node) {
    n.Literal? && C.Equal(n.number, C.One())
  }

  predicate Operator(n: Tr.Node) {
    n.Add? || n.Multiply? || n.Exponentiation? || n.Absolute? || n.Factorial?
  }
}

/** Structural equality, one-level flattening and literal combination (class NodeUtils). */
module NodeUtils {
  import C = Complexes
  import Tr = Tree
  import T = NodeTypes
  import B = BasicNodes
  import L = LiteralUtils

  function AddOne(n: Tr.Node): Tr.Node {
    B.Add([n, B.Literal(1)])
  }

  /** NodeUtils.Equal: same type, same string, field-wise equal numbers and positionally
      Equal arguments. A Tensor's shape is not compared. */
  predicate Equal(a: Tr.Node, b: Tr.Node)
    decreases a
  {
    && a.Kind() == b.Kind()
    && a.HasString() == b.HasString() && (a.HasString() ==> a.name == b.name)
    && a.HasNumber() == b.HasNumber() && (a.HasNumber() ==> C.Equal(a.number, b.number))
    && a.HasArgs() == b.HasArgs()
    && (a.HasArgs() ==> |a.args| == |b.args| && forall i :: 0 <= i < |a.args| ==> Equal(a.args[i], b.args[i]))
  }

  /** The loop of NodeUtils.Equal, with its early exits. */
  method EqualNodes(a: Tr.Node, b: Tr.Node) returns (eq: bool)
    ensures eq == Equal(a, b)
    decreases a
  {
    if a.Kind() != b.Kind() { return false; }
    if a.HasString() && b.HasString() {
      if a.name != b.name { return false; }
    } else if a.HasString() != b.HasString() {
      return false;
    }
    if a.HasNumber() && b.HasNumber() {
      if !C.Equal(a.number, b.number) { return false; }
    } else if a.HasNumber() != b.HasNumber() {
      return false;
    }
    if a.HasArgs() && b.HasArgs() {
      if |a.args| != |b.args| { return false; }
      var i := 0;
      while i < |a.args|
        invariant 0 <= i <= |a.args|
        invariant forall j :: 0 <= j < i ==> Equal(a.args[j], b.args[j])
      {
        var e := EqualNodes(a.args[i], b.args[i]);
        if !e { return false; }
        i := i + 1;
      }
    } else if a.HasArgs() != b.HasArgs() {
      return false;
    }
    return true;
  }

  lemma {:induction false} EqualReflexive(a: Tr.Node)
    ensures Equal(a, a)
    decreases a
  {
    if a.HasArgs() {
      forall i | 0 <= i < |a.args| ensures Equal(a.args[i], a.args[i]) {
        EqualReflexive(a.args[i]);
      }
    }
  }

  lemma {:induction false} EqualSymmetric(a: Tr.Node, b: Tr.Node)
    requires Equal(a, b)
    ensures Equal(b, a)
    decreases a
  {
    if a.HasArgs() {
      forall i | 0 <= i < |b.args| ensures Equal(b.args[i], a.args[i]) {
        EqualSymmetric(a.args[i], b.args[i]);
      }
    }
  }

  lemma {:induction false} EqualTransitive(a: Tr.Node, b: Tr.Node, c: Tr.Node)
    requires Equal(a, b) && Equal(b, c)
    ensures Equal(a, c)
    decreases a
  {
    if a.HasArgs() {
      forall i | 0 <= i < |a.args| ensures Equal(a.args[i], c.args[i]) {
        EqualTransitive(a.args[i], b.args[i], c.args[i]);
      }
    }
  }

  /** Without tensors, Equal is exactly structural identity. */
  lemma {:induction false} EqualIsIdentityWithoutTensors(a: Tr.Node, b: Tr.Node)
    requires Tr.TensorFree(a)
    ensures Equal(a, b) <==> a == b
    decreases a
  {
    if a == b {
      EqualReflexive(a);
    }
    if a.Literal? && b.Literal? {
      C.EqualIsIdentity(a.number, b.number);
    }
    if Equal(a, b) && a.HasArgs() {
      forall i | 0 <= i < |a.args| ensures a.args[i] == b.args[i] {
        EqualIsIdentityWithoutTensors(a.args[i], b.args[i]);
      }
      assert a.args == b.args;
    }
  }

  /** Two tensors that differ only in shape are Equal. */
  lemma EqualIgnoresShape()
    ensures var x := Tr.Variable("x");
      Equal(Tr.Tensor([1], [x]), Tr.Tensor([2], [x])) && Tr.Tensor([1], [x]) != Tr.Tensor([2], [x])
  {
    var x := Tr.Variable("x");
    EqualReflexive(x);
    assert Tr.Tensor([1], [x]).args[0] == x;
  }

  // ---- QuickFlat ----

  /** The arguments after splicing one level of children of the given kind. */
  function Splice(kind: T.NodeType, args: seq<Tr.Node>): seq<Tr.Node> {
    if args == [] then []
    else (if args[0].Kind() == kind && args[0].HasArgs() then args[0].args else [args[0]]) + Splice(kind, args[1..])
  }

  /** NodeUtils.QuickFlat: `{type, args}` with same-kind children spliced in. */
  function QuickFlat(n: Tr.Node): Tr.Node
    requires n.Add? || n.Multiply?
  {
    Tr.OfKind(n.Kind(), Splice(n.Kind(), n.args))
  }

  method QuickFlatLoop(n: Tr.Node) returns (r: Tr.Node)
    requires n.Add? || n.Multiply?
    ensures r == QuickFlat(n)
  {
    var kind, args := n.Kind(), n.args;
    var newArgs: seq<Tr.Node> := [];
    var i := 0;
    while i < |args|
      invariant 0 <= i <= |args|
      invariant newArgs + Splice(kind, args[i..]) == Splice(kind, args)
      decreases |args| - i
    {
      var arg := args[i];
      SpliceStep(kind, args, i, newArgs);
      if arg.Kind() == kind {
        newArgs := newArgs + arg.args;
      } else {
        newArgs := newArgs + [arg];
      }
      i := i + 1;
    }
    SpliceDone(kind, args, newArgs);
    r := Tr.OfKind(kind, newArgs);
  }

  lemma SpliceDone(kind: T.NodeType, args: seq<Tr.Node>, acc: seq<Tr.Node>)
    requires acc + Splice(kind, args[|args|..]) == Splice(kind, args)
    ensures acc == Splice(kind, args)
  {
    assert args[|args|..] == [];
  }

  /** One argument's share of Splice; an argument of an arg-bearing kind has arguments. */
  lemma SpliceStep(kind: T.NodeType, args: seq<Tr.Node>, i: nat, acc: seq<Tr.Node>)
    requires i < |args| && (kind == T.Add || kind == T.Multiply)
    requires acc + Splice(kind, args[i..]) == Splice(kind, args)
    ensures args[i].Kind() == kind ==> args[i].HasArgs()
    ensures (acc + (if args[i].Kind() == kind then args[i].args else [args[i]])) + Splice(kind, args[i + 1..])
      == Splice(kind, args)
  {
    assert args[i..][1..] == args[i + 1..];
    ghost var piece := if args[i].Kind() == kind then args[i].args else [args[i]];
    assert Splice(kind, args[i..]) == piece + Splice(kind, args[i + 1..]);
    assert acc + (piece + Splice(kind, args[i + 1..])) == (acc + piece) + Splice(kind, args[i + 1..]);
  }

  lemma {:induction false} SpliceConcat(kind: T.NodeType, a: seq<Tr.Node>, b: seq<Tr.Node>)
    ensures Splice(kind, a + b) == Splice(kind, a) + Splice(kind, b)
  {
    if a == [] {
      assert a + b == b;
    } else {
      assert (a + b)[1..] == a[1..] + b;
      SpliceConcat(kind, a[1..], b);
    }
  }

  lemma {:induction false} NoneOfKind(kind: T.NodeType, args: seq<Tr.Node>)
    requires forall i :: 0 <= i < |args| ==> args[i].Kind() != kind
    ensures Splice(kind, args) == args
  {
    if args != [] {
      NoneOfKind(kind, args[1..]);
    }
  }

  /** Every spliced argument is an original argument of another kind or a child of a
      same-kind argument. */
  lemma {:induction false} SpliceMembers(kind: T.NodeType, args: seq<Tr.Node>, x: Tr.Node)
    requires x in Splice(kind, args)
    ensures (x in args && !(x.Kind() == kind && x.HasArgs()))
      || exists c :: c in args && c.Kind() == kind && c.HasArgs() && x in c.args
  {
    if args != [] {
      if x in Splice(kind, args[1..]) {
        SpliceMembers(kind, args[1..], x);
        if !(x in args[1..] && !(x.Kind() == kind && x.HasArgs())) {
          var c :| c in args[1..] && c.Kind() == kind && c.HasArgs() && x in c.args;
          assert c in args;
        }
      } else if args[0].Kind() == kind && args[0].HasArgs() {
        assert x in args[0].args;
      }
    }
  }

  /** One level only: when no same-kind child has a same-kind child, the result has no
      child of its own kind. */
  lemma QuickFlatOneLevel(n: Tr.Node)
    requires n.Add? || n.Multiply?
    requires forall c :: c in n.args && c.Kind() == n.Kind() ==> forall g :: g in c.args ==> g.Kind() != n.Kind()
    ensures QuickFlat(n).Kind() == n.Kind()
    ensures forall x :: x in QuickFlat(n).args ==> x.Kind() != n.Kind()
  {
    forall x | x in QuickFlat(n).args ensures x.Kind() != n.Kind() {
      SpliceMembers(n.Kind(), n.args, x);
    }
  }

  // ---- CombineLiterals ----

  function NonLiterals(nodes: seq<Tr.Node>): (r: seq<Tr.Node>)
    ensures forall x :: x in r ==> !x.Literal?
  {
    if nodes == [] then []
    else (if nodes[0].Literal? then [] else [nodes[0]]) + NonLiterals(nodes[1..])
  }

  function Literals(nodes: seq<Tr.Node>): (r: seq<Tr.Node>)
    ensures L.AllLiterals(r)
  {
    if nodes == [] then []
    else (if nodes[0].Literal? then [nodes[0]] else []) + Literals(nodes[1..])
  }

  /** The fold of the literal operands: Add folds by AddValues, Multiply by MultiplyValues. */
  function Fold(kind: T.NodeType, lits: seq<Tr.Node>): Tr.Node
    requires |lits| > 0 && L.AllLiterals(lits)
  {
    if kind == T.Add then L.AddValues(lits) else L.MultiplyValues(lits)
  }

  /** NodeUtils.CombineLiterals: the non-literals in order, then one folded literal if
      any literal was present. */
  function CombineLiterals(kind: T.NodeType, nodes: seq<Tr.Node>): seq<Tr.Node>
    requires kind == T.Add || kind == T.Multiply
  {
    var lits := Literals(nodes);
    NonLiterals(nodes) + (if |lits| > 0 then [Fold(kind, lits)] else [])
  }

  method CombineLiteralsLoop(kind: T.NodeType, nodes: seq<Tr.Node>) returns (args: seq<Tr.Node>)
    requires kind == T.Add || kind == T.Multiply
    ensures args == CombineLiterals(kind, nodes)
  {
    args := [];
    var literals: seq<Tr.Node> := [];
    var i := 0;
    while i < |nodes|
      invariant 0 <= i <= |nodes|
      invariant args + NonLiterals(nodes[i..]) == NonLiterals(nodes)
      invariant literals + Literals(nodes[i..]) == Literals(nodes)
      decreases |nodes| - i
    {
      PartitionStep(nodes, i, args, literals);
      if nodes[i].Literal? {
        literals := literals + [nodes[i]];
      } else {
        args := args + [nodes[i]];
      }
      i := i + 1;
    }
    PartitionDone(nodes, args, literals);
    if |literals| > 0 {
      args := args + [Fold(kind, literals)];
    }
  }

  /** One operand moves to the literals or to the other operands. */
  lemma PartitionStep(nodes: seq<Tr.Node>, i: nat, args: seq<Tr.Node>, literals: seq<Tr.Node>)
    requires i < |nodes|
    requires args + NonLiterals(nodes[i..]) == NonLiterals(nodes)
    requires literals + Literals(nodes[i..]) == Literals(nodes)
    ensures (args + (if nodes[i].Literal? then [] else [nodes[i]])) + NonLiterals(nodes[i + 1..]) == NonLiterals(nodes)
    ensures (literals + (if nodes[i].Literal? then [nodes[i]] else [])) + Literals(nodes[i + 1..]) == Literals(nodes)
  {
    Unfold(nodes, i);
    ghost var other := if nodes[i].Literal? then [] else [nodes[i]];
    ghost var lit := if nodes[i].Literal? then [nodes[i]] else [];
    Regroup(args, other, NonLiterals(nodes[i + 1..]));
    Regroup(literals, lit, Literals(nodes[i + 1..]));
  }

  lemma Unfold(nodes: seq<Tr.Node>, i: nat)
    requires i < |nodes|
    ensures NonLiterals(nodes[i..]) == (if nodes[i].Literal? then [] else [nodes[i]]) + NonLiterals(nodes[i + 1..])
    ensures Literals(nodes[i..]) == (if nodes[i].Literal? then [nodes[i]] else []) + Literals(nodes[i + 1..])
  {
    assert nodes[i..][1..] == nodes[i + 1..];
  }

  lemma Regroup<X>(a: seq<X>, b: seq<X>, c: seq<X>)
    ensures a + (b + c) == (a + b) + c
  {
  }

  lemma PartitionDone(nodes: seq<Tr.Node>, args: seq<Tr.Node>, literals: seq<Tr.Node>)
    requires args + NonLiterals(nodes[|nodes|..]) == NonLiterals(nodes)
    requires literals + Literals(nodes[|nodes|..]) == Literals(nodes)
    ensures args == NonLiterals(nodes) && literals == Literals(nodes)
  {
    assert nodes[|nodes|..] == [];
  }

  lemma {:induction false} NoLiterals(nodes: seq<Tr.Node>)
    requires forall i :: 0 <= i < |nodes| ==> !nodes[i].Literal?
    ensures Literals(nodes) == [] && NonLiterals(nodes) == nodes
  {
    if nodes != [] {
      NoLiterals(nodes[1..]);
    }
  }

  lemma {:induction false} PartitionCounts(nodes: seq<Tr.Node>)
    ensures |NonLiterals(nodes)| + |Literals(nodes)| == |nodes|
    ensures |Literals(nodes)| == 0 <==> forall x :: x in nodes ==> !x.Literal?
  {
    if nodes != [] {
      PartitionCounts(nodes[1..]);
      assert forall x :: x in nodes ==> x == nodes[0] || x in nodes[1..];
    }
  }

  /** CombineLiterals keeps every non-literal in order, and leaves at most one literal,
      last, exactly when a literal was present. */
  lemma CombineLiteralsShape(kind: T.NodeType, nodes: seq<Tr.Node>)
    requires kind == T.Add || kind == T.Multiply
    ensures var r := CombineLiterals(kind, nodes);
      && r[..|NonLiterals(nodes)|] == NonLiterals(nodes)
      && (|r| == |NonLiterals(nodes)| <==> forall x :: x in nodes ==> !x.Literal?)
      && |r| <= |NonLiterals(nodes)| + 1
      && (forall i :: 0 <= i < |r| - 1 ==> !r[i].Literal?)
      && |r| <= |nodes|
  {
    PartitionCounts(nodes);
  }
}

/** The smart constructors of class Nodes in src/Node/NodeUtils.ts. */
module Nodes {
  import C = Complexes
  import Tr = Tree
  import T = NodeTypes
  import B = BasicNodes
  import NT = NodeTests
  import U = NodeUtils
  import L = LiteralUtils

  function Zero(): Tr.Node { B.Literal(0) }
  function One(): Tr.Node { B.Literal(1) }
  function NegativeOne(): Tr.Node { B.Literal(-1) }
  function OneI(): Tr.Node { B.LiteralOf(C.OneI()) }

  /** The result before the all-zero test of Nodes.Multiply, and all of Nodes.Add. */
  function Assemble(kind: T.NodeType, nodes: seq<Tr.Node>): Tr.Node
    requires kind == T.Add || kind == T.Multiply
  {
    var combined := U.CombineLiterals(kind, nodes);
    if |combined| == 0 then Zero()
    else if |combined| == 1 then combined[0]
    else U.QuickFlat(Tr.OfKind(kind, combined))
  }

  predicate AllZero(nodes: seq<Tr.Node>) {
    forall i :: 0 <= i < |nodes| ==> NT.Zero(nodes[i])
  }

  function Multiply(nodes: seq<Tr.Node>): Tr.Node {
    var r := Assemble(T.Multiply, nodes);
    if r.Multiply? && AllZero(r.args) then Zero() else r
  }

  function Add(nodes: seq<Tr.Node>): Tr.Node {
    Assemble(T.Add, nodes)
  }

  function Divide(n1: Tr.Node, n2: Tr.Node): Tr.Node
    requires n2.Exponentiation? ==> |n2.args| >= 2
  {
    Multiply([n1, Inverse(n2)])
  }

  function Subtract(n1: Tr.Node, n2: Tr.Node): Tr.Node {
    Add([n1, Multiply([n2, NegativeOne()])])
  }

  /** A nested exponent is multiplied in; exponent 0 gives 1 and exponent 1 the base.
      A base that is an Exponentiation must carry its exponent (see README). */
  function Exponentiation(n1: Tr.Node, n2: Tr.Node): Tr.Node
    requires n1.Exponentiation? ==> |n1.args| >= 2
  {
    if n1.Exponentiation? then
      var e := Multiply([n1.args[1], n2]);
      if NT.Zero(e) then One()
      else if NT.One(e) then n1.args[0]
      else B.Exponentiation(n1.args[0], e)
    else
      if NT.Zero(n2) then One()
      else if NT.One(n2) then n1
      else B.Exponentiation(n1, n2)
  }

  function Inverse(n: Tr.Node): Tr.Node
    requires n.Exponentiation? ==> |n.args| >= 2
  {
    Exponentiation(n, NegativeOne())
  }

  /** An unfolded product [n, -1]. */
  function Negative(n: Tr.Node): Tr.Node {
    Tr.Multiply([n, NegativeOne()])
  }

  function SquareRoot(n: Tr.Node): Tr.Node {
    B.Exponentiation(n, B.LiteralOf(C.FromNumbers(1, 2)))
  }

  function Square(n: Tr.Node): Tr.Node {
    B.Exponentiation(n, B.Literal(2))
  }

  /** Nodes.Add and Nodes.Multiply on zero or one operands. */
  lemma FewOperands(n: Tr.Node)
    ensures Add([]) == Zero() && Multiply([]) == Zero()
    ensures Add([n]) == n
    ensures !(n.Multiply? && AllZero(n.args)) ==> Multiply([n]) == n
  {
    assert [n][1..] == [];
    if n.Literal? {
      assert U.Literals([n]) == [n];
      assert U.NonLiterals([n]) == [];
    } else {
      assert U.Literals([n]) == [];
      assert U.NonLiterals([n]) == [n];
    }
  }

  /** From two combined operands on, Nodes.Add is the one-level flattening of the combined
      operands and Nodes.Multiply is too, unless every factor of that is zero. */
  lemma ManyOperands(kind: T.NodeType, nodes: seq<Tr.Node>)
    requires kind == T.Add || kind == T.Multiply
    requires |U.CombineLiterals(kind, nodes)| >= 2
    ensures var flat := U.QuickFlat(Tr.OfKind(kind, U.CombineLiterals(kind, nodes)));
      && flat.Kind() == kind
      && (kind == T.Add ==> Add(nodes) == flat)
      && (kind == T.Multiply ==> Multiply(nodes) == if AllZero(flat.args) then Zero() else flat)
  {
  }

  /** Multiplying anything by a literal zero is not folded to zero unless every factor
      is zero: x * 0 stays a product. */
  lemma ZeroFactorKept()
    ensures Multiply([Tr.Variable("x"), Zero()]) == Tr.Multiply([Tr.Variable("x"), Zero()])
  {
    var x := Tr.Variable("x");
    assert [x, Zero()][1..] == [Zero()];
    assert [Zero()][1..] == [];
    assert U.Literals([x, Zero()]) == [Zero()];
    assert U.NonLiterals([x, Zero()]) == [x];
    assert U.CombineLiterals(T.Multiply, [x, Zero()]) == [x, Zero()];
    assert U.Splice(T.Multiply, [x, Zero()]) == [x, Zero()] by {
      assert [x, Zero()][1..][1..] == [];
    }
    assert Assemble(T.Multiply, [x, Zero()]) == Tr.Multiply([x, Zero()]);
    assert !NT.Zero(x);
    assert !AllZero([x, Zero()]);
  }

  /** Exponent 0 or 1 on a base that is not itself a power. */
  lemma ExponentiationUnits(n: Tr.Node)
    requires !n.Exponentiation?
    ensures Exponentiation(n, Zero()) == One()
    ensures Exponentiation(n, One()) == n
  {
  }

  /** (b^e1)^e2 is b^(e1 * e2) with the product formed by Nodes.Multiply. */
  lemma NestedExponent(b: Tr.Node, e1: Tr.Node, e2: Tr.Node)
    ensures var e := Multiply([e1, e2]);
      Exponentiation(Tr.Exponentiation([b, e1]), e2)
      == if NT.Zero(e) then One() else if NT.One(e) then b else B.Exponentiation(b, e)
  {
  }

  /** Smart and raw Negative are the same construction. */
  lemma NegativeIsRaw(n: Tr.Node)
    ensures Negative(n) == B.Negative(n)
  {
  }

  /** For operands that neither fold nor flatten, the smart Divide builds the same tree
      as the raw one... */
  lemma DivideOfPlainOperands(n1: Tr.Node, n2: Tr.Node)
    requires !n1.Literal? && !n1.Multiply?
    requires !n2.Literal? && !n2.Exponentiation?
    ensures Divide(n1, n2) == B.Divide(n1, n2)
  {
    var inv := B.Exponentiation(n2, NegativeOne());
    assert Inverse(n2) == inv;
    PlainPair(T.Multiply, n1, inv);
  }

  /** ... and so does the smart Subtract. */
  lemma SubtractOfPlainOperands(n1: Tr.Node, n2: Tr.Node)
    requires !n1.Literal? && !n1.Add?
    requires !n2.Literal? && !n2.Multiply?
    ensures Subtract(n1, n2) == B.Subtract(n1, n2)
  {
    NegativeOfPlain(n2);
    PlainPair(T.Add, n1, Negative(n2));
  }

  /** A non-literal that is not a product, times -1, stays the raw pair. */
  lemma NegativeOfPlain(n: Tr.Node)
    requires !n.Literal? && !n.Multiply?
    ensures Multiply([n, NegativeOne()]) == Negative(n)
  {
    var xs := [n, NegativeOne()];
    CombineWithLiteral(n, NegativeOne());
    U.NoneOfKind(T.Multiply, xs);
    assert Assemble(T.Multiply, xs) == Tr.Multiply(xs);
    assert !NT.Zero(n);
  }

  /** A non-literal followed by one literal: CombineLiterals keeps both, in order. */
  lemma CombineWithLiteral(a: Tr.Node, lit: Tr.Node)
    requires !a.Literal? && lit.Literal?
    ensures U.CombineLiterals(T.Multiply, [a, lit]) == [a, lit]
  {
    assert [a, lit][1..] == [lit];
    assert [lit][1..] == [];
    assert U.Literals([lit]) == [lit] && U.NonLiterals([lit]) == [];
    assert U.Literals([a, lit]) == [lit];
    assert U.NonLiterals([a, lit]) == [a];
    L.SingleOperand(lit);
  }

  /** Two non-literal operands, the first not of the kind: the raw pair. */
  lemma PlainPair(kind: T.NodeType, a: Tr.Node, b: Tr.Node)
    requires kind == T.Add || kind == T.Multiply
    requires !a.Literal? && !b.Literal? && a.Kind() != kind && b.Kind() != kind
    ensures kind == T.Add ==> Add([a, b]) == Tr.Add([a, b])
    ensures kind == T.Multiply ==> Multiply([a, b]) == Tr.Multiply([a, b])
  {
    PlainNodes(kind, [a, b]);
  }

  /** Two or more non-literal operands, none of the kind: the raw node of them. */
  lemma PlainNodes(kind: T.NodeType, s: seq<Tr.Node>)
    requires kind == T.Add || kind == T.Multiply
    requires |s| >= 2 && forall i :: 0 <= i < |s| ==> !s[i].Literal? && s[i].Kind() != kind
    ensures kind == T.Add ==> Add(s) == Tr.Add(s)
    ensures kind == T.Multiply ==> Multiply(s) == Tr.Multiply(s)
  {
    AssembleRaw(kind, s);
    assert !NT.Zero(s[0]);
  }

  lemma AssembleRaw(kind: T.NodeType, s: seq<Tr.Node>)
    requires kind == T.Add || kind == T.Multiply
    requires |s| >= 2 && forall i :: 0 <= i < |s| ==> !s[i].Literal? && s[i].Kind() != kind
    ensures Assemble(kind, s) == Tr.OfKind(kind, s)
  {
    U.NoLiterals(s);
    U.NoneOfKind(kind, s);
    assert U.CombineLiterals(kind, s) == s;
  }
}
