/** The node-to-node visitors: the identity traversal NodeVisitor (src/Visitors/Base.ts),
    FlatteningVisitor (src/Visitors/Node.ts), and FunctionVisitor and ComplexVisitor
    (src/Parse/Visitors/Converting.ts). A visitor object is a `Visitor` value and one
    `Visit` dispatches on it, so an override applies at every depth, as `this.Visit`
    does in the source. */
module Visitors {
  import opened Wrappers
  import T = NodeTypes
  import Tr = Tree
  import U = NodeUtils
  import N = Nodes
  import NT = NodeTests
  import PP = PostProcessor

  datatype Visitor =
    | Identity
    | Flattening
    | FlatteningAsWritten
    | ComplexUnit
    | Functions(converters: seq<PP.Converter>)
  {
    predicate Flattens() { Flattening? || FlatteningAsWritten? }

    /** The kind whose children VisitMultiply splices: Multiply, or Add as written. */
    function MultiplySplices(): T.NodeType {
      if FlatteningAsWritten? then T.Add else T.Multiply
    }
  }

  function Visit(v: Visitor, n: Tr.Node): Tr.Node
    decreases n, 1
  {
    match n
    case Literal(_) => n
    case Constant(_) => n
    case Variable(name) => if v.ComplexUnit? && name == "i" then N.OneI() else n
    case Add(args) =>
      if v.Flattens() then N.Add(Spliced(v, args, T.Add)) else Tr.Add(VisitAll(v, args))
    case Multiply(args) =>
      if v.Flattens() then N.Multiply(Spliced(v, args, v.MultiplySplices())) else Tr.Multiply(VisitAll(v, args))
    case Function(name, args) =>
      if v.Functions? then
        match PP.FindConverter(v.converters, name)
        case Some(c) => c.convert(VisitAll(v, args))
        case None => Tr.Function(name, VisitAll(v, args))
      else Tr.Function(name, VisitAll(v, args))
    case _ => n.WithArgs(VisitAll(v, n.args))
  }

  /** `node.args.map(arg => this.Visit(arg))` */
  function VisitAll(v: Visitor, args: seq<Tr.Node>): (r: seq<Tr.Node>)
    ensures |r| == |args|
    decreases args, 0
  {
    seq(|args|, i requires 0 <= i < |args| => Visit(v, args[i]))
  }

  /** The `forEach` of VisitAdd and VisitMultiply: each child is visited, then its
      arguments are pushed if it has the spliced kind, and it is pushed itself otherwise. */
  function Spliced(v: Visitor, args: seq<Tr.Node>, kind: T.NodeType): seq<Tr.Node>
    decreases args, 0
  {
    if args == [] then []
    else Spliced(v, args[..|args| - 1], kind) + PP.Piece(Visit(v, args[|args| - 1]), kind)
  }

  /** One more argument: its visit, or the visit's arguments when it has the kind. */
  lemma SplicedSnoc(v: Visitor, args: seq<Tr.Node>, i: nat, kind: T.NodeType)
    requires i < |args|
    ensures var a := Visit(v, args[i]);
      Spliced(v, args[..i + 1], kind)
        == Spliced(v, args[..i], kind) + (if a.Kind() == kind && a.HasArgs() then a.args else [a])
  {
    assert args[..i + 1][..i] == args[..i];
  }

  // ---- the identity traversal and the converters ----

  /** NodeVisitor rebuilds every tree unchanged. */
  lemma {:induction false} IdentityKeeps(n: Tr.Node)
    ensures Visit(Identity, n) == n
    decreases n
  {
    if n.HasArgs() {
      forall i | 0 <= i < |n.args| ensures Visit(Identity, n.args[i]) == n.args[i] {
        IdentityKeeps(n.args[i]);
      }
      assert VisitAll(Identity, n.args) == n.args;
    }
  }

  /** ComplexVisitor does what complexLiterals of the post-processor does. */
  lemma {:induction false} ComplexUnitIsComplexLiterals(n: Tr.Node)
    ensures Visit(ComplexUnit, n) == PP.ComplexLiterals(n)
    decreases n
  {
    if n.HasArgs() {
      forall i | 0 <= i < |n.args| ensures Visit(ComplexUnit, n.args[i]) == PP.ComplexLiterals(n.args[i]) {
        ComplexUnitIsComplexLiterals(n.args[i]);
      }
    }
  }

  /** No Function node in the tree has a name that a converter answers to. */
  predicate NothingToConvert(cs: seq<PP.Converter>, n: Tr.Node)
    decreases n
  {
    && (n.Function? ==> PP.FindConverter(cs, n.name).None?)
    && (n.HasArgs() ==> forall i :: 0 <= i < |n.args| ==> NothingToConvert(cs, n.args[i]))
  }

  /** FunctionVisitor changes only functions whose names a converter answers to; with
      none of those it rebuilds the tree unchanged. */
  lemma {:induction false} FunctionsKeep(cs: seq<PP.Converter>, n: Tr.Node)
    requires NothingToConvert(cs, n)
    ensures Visit(Functions(cs), n) == n
    decreases n
  {
    if n.HasArgs() {
      forall i | 0 <= i < |n.args| ensures Visit(Functions(cs), n.args[i]) == n.args[i] {
        FunctionsKeep(cs, n.args[i]);
      }
      assert VisitAll(Functions(cs), n.args) == n.args;
    }
  }

  /** A convertible function is replaced by its converter's node, built from the
      converted arguments. */
  lemma FunctionsConvert(cs: seq<PP.Converter>, name: string, args: seq<Tr.Node>)
    requires PP.FindConverter(cs, name).Some?
    ensures var c := PP.FindConverter(cs, name).value;
      && c in cs && name in c.names
      && Visit(Functions(cs), Tr.Function(name, args)) == c.convert(VisitAll(Functions(cs), args))
  {
  }

  // ---- flattening: shape ----

  lemma {:induction false} NonLiteralsIn(s: seq<Tr.Node>, x: Tr.Node)
    requires x in U.NonLiterals(s)
    ensures x in s
  {
    if s != [] && x !in U.NonLiterals(s[1..]) {
      assert x == s[0];
    } else if s != [] {
      NonLiteralsIn(s[1..], x);
    }
  }

  /** `x` is what the splice takes from the visited child `c`: `c` itself when it is not
      of the kind, or one of its arguments when it is. */
  predicate FromChild(c: Tr.Node, kind: T.NodeType, x: Tr.Node) {
    if c.Kind() == kind && c.HasArgs() then x in c.args else x == c
  }

  /** Every spliced argument comes from one of the visited children. */
  lemma {:induction false} SplicedMembers(v: Visitor, args: seq<Tr.Node>, kind: T.NodeType, x: Tr.Node)
    requires x in Spliced(v, args, kind)
    ensures exists i :: 0 <= i < |args| && FromChild(Visit(v, args[i]), kind, x)
    decreases |args|
  {
    var n := |args|;
    if x in Spliced(v, args[..n - 1], kind) {
      SplicedMembers(v, args[..n - 1], kind, x);
      var i :| 0 <= i < n - 1 && FromChild(Visit(v, args[..n - 1][i]), kind, x);
      assert args[..n - 1][i] == args[i];
    } else {
      assert x in PP.Piece(Visit(v, args[n - 1]), kind);
    }
  }

  /** If every visited child is flattened, every spliced argument is flattened and not of
      the spliced kind. */
  lemma SplicedFlattened(v: Visitor, args: seq<Tr.Node>, kind: T.NodeType)
    requires kind == T.Add || kind == T.Multiply
    requires forall i :: 0 <= i < |args| ==> PP.Flattened(Visit(v, args[i]))
    ensures forall x :: x in Spliced(v, args, kind) ==> PP.Flattened(x) && x.Kind() != kind
  {
    forall x | x in Spliced(v, args, kind) ensures PP.Flattened(x) && x.Kind() != kind {
      SplicedMembers(v, args, kind, x);
      var i :| 0 <= i < |args| && FromChild(Visit(v, args[i]), kind, x);
      var c := Visit(v, args[i]);
      Tr.KindOfAdd(c);
      Tr.KindOfAdd(x);
      if c.Kind() == kind && c.HasArgs() && x in c.args {
        var j :| 0 <= j < |c.args| && c.args[j] == x;
      }
    }
  }

  /** Every operand Nodes.Add or Nodes.Multiply keeps after literal folding is an
      operand it was given, or the folded literal. */
  lemma CombinedMembers(kind: T.NodeType, s: seq<Tr.Node>, x: Tr.Node)
    requires kind == T.Add || kind == T.Multiply
    requires x in U.CombineLiterals(kind, s)
    ensures x in s || x.Literal?
  {
    if x in U.NonLiterals(s) {
      NonLiteralsIn(s, x);
    }
  }

  /** Nodes.Add and Nodes.Multiply of flattened operands are flattened: the one-level
      splice of QuickFlat is enough once no operand has a same-kind child. */
  lemma AssembleFlattened(kind: T.NodeType, s: seq<Tr.Node>)
    requires kind == T.Add || kind == T.Multiply
    requires forall x :: x in s ==> PP.Flattened(x)
    ensures kind == T.Add ==> PP.Flattened(N.Add(s))
    ensures kind == T.Multiply ==> PP.Flattened(N.Multiply(s))
  {
    var combined := U.CombineLiterals(kind, s);
    forall x | x in combined ensures PP.Flattened(x) {
      CombinedMembers(kind, s, x);
    }
    if |combined| >= 2 {
      var r := U.QuickFlat(Tr.OfKind(kind, combined));
      Tr.KindOfAdd(r);
      forall i | 0 <= i < |r.args| ensures PP.Flattened(r.args[i]) && r.args[i].Kind() != kind {
        var x := r.args[i];
        U.SpliceMembers(kind, combined, x);
        if !(x in combined && !(x.Kind() == kind && x.HasArgs())) {
          var c :| c in combined && c.Kind() == kind && c.HasArgs() && x in c.args;
          Tr.KindOfAdd(c);
          Tr.KindOfAdd(x);
          var j :| 0 <= j < |c.args| && c.args[j] == x;
        }
      }
      forall i | 0 <= i < |r.args| ensures !(r.Add? && r.args[i].Add?) && !(r.Multiply? && r.args[i].Multiply?) {
        Tr.KindOfAdd(r.args[i]);
      }
    } else if |combined| == 1 {
      assert combined[0] in combined;
    }
  }

  /** Both flattening visitors, the one as written included, return flattened trees: no
      sum directly inside a sum and no product directly inside a product. */
  lemma {:induction false} VisitFlattened(v: Visitor, n: Tr.Node)
    requires v.Flattens()
    ensures PP.Flattened(Visit(v, n))
    decreases n
  {
    if n.HasArgs() {
      forall i | 0 <= i < |n.args| ensures PP.Flattened(Visit(v, n.args[i])) {
        VisitFlattened(v, n.args[i]);
      }
      if n.Add? || n.Multiply? {
        var kind := if n.Add? then T.Add else v.MultiplySplices();
        SplicedFlattened(v, n.args, kind);
        AssembleFlattened(T.Add, Spliced(v, n.args, kind));
        AssembleFlattened(T.Multiply, Spliced(v, n.args, kind));
      } else {
        var r := Visit(v, n);
        forall i | 0 <= i < |r.args| ensures PP.Flattened(r.args[i]) {
        }
      }
    }
  }

  /** VisitAdd of either flattening visitor: literal 0 when nothing is left after
      literal folding, the only operand when one is, and otherwise a sum with no sum
      argument and at most one literal argument, the last. */
  lemma FlatteningAddShape(v: Visitor, args: seq<Tr.Node>)
    requires v.Flattens()
    ensures var combined := U.CombineLiterals(T.Add, Spliced(v, args, T.Add));
      var r := Visit(v, Tr.Add(args));
      && (|combined| == 0 ==> r == N.Zero())
      && (|combined| == 1 ==> r == combined[0])
      && (|combined| >= 2 ==>
            && r == Tr.Add(combined)
            && (forall i :: 0 <= i < |combined| ==> !combined[i].Add?)
            && (forall i :: 0 <= i < |combined| - 1 ==> !combined[i].Literal?))
  {
    var s := Spliced(v, args, T.Add);
    var combined := U.CombineLiterals(T.Add, s);
    forall i | 0 <= i < |args| ensures PP.Flattened(Visit(v, args[i])) {
      VisitFlattened(v, args[i]);
    }
    SplicedFlattened(v, args, T.Add);
    U.CombineLiteralsShape(T.Add, s);
    forall i | 0 <= i < |combined| ensures combined[i].Kind() != T.Add {
      var x := combined[i];
      if x in U.NonLiterals(s) {
        NonLiteralsIn(s, x);
      } else {
        assert x.Literal?;
      }
    }
    U.NoneOfKind(T.Add, combined);
    forall i | 0 <= i < |combined| ensures !combined[i].Add? {
      Tr.KindOfAdd(combined[i]);
    }
  }

  // ---- flattening: value ----

  /** Sums and products of variables, each with at least two arguments, as
      OperatorValidator demands. */
  predicate Polynomial(n: Tr.Node)
    decreases n
  {
    || n.Variable?
    || ((n.Add? || n.Multiply?) && |n.args| >= 2 && forall i :: 0 <= i < |n.args| ==> Polynomial(n.args[i]))
  }

  /** The integer value of a sum-and-product tree under an assignment of the variables. */
  function Eval(n: Tr.Node, env: string -> int): int
    decreases n, 1
  {
    match n
    case Variable(name) => env(name)
    case Add(args) => SumEval(args, env)
    case Multiply(args) => ProductEval(args, env)
    case _ => 0
  }

  function SumEval(s: seq<Tr.Node>, env: string -> int): int
    decreases s, 0
  {
    if s == [] then 0 else SumEval(s[..|s| - 1], env) + Eval(s[|s| - 1], env)
  }

  function ProductEval(s: seq<Tr.Node>, env: string -> int): int
    decreases s, 0
  {
    if s == [] then 1 else ProductEval(s[..|s| - 1], env) * Eval(s[|s| - 1], env)
  }

  lemma {:induction false} SumConcat(a: seq<Tr.Node>, b: seq<Tr.Node>, env: string -> int)
    ensures SumEval(a + b, env) == SumEval(a, env) + SumEval(b, env)
    decreases |b|
  {
    if b == [] {
      assert a + b == a;
    } else {
      assert (a + b)[..|a + b| - 1] == a + b[..|b| - 1];
      SumConcat(a, b[..|b| - 1], env);
    }
  }

  lemma {:induction false} ProductConcat(a: seq<Tr.Node>, b: seq<Tr.Node>, env: string -> int)
    ensures ProductEval(a + b, env) == ProductEval(a, env) * ProductEval(b, env)
    decreases |b|
  {
    if b == [] {
      assert a + b == a;
    } else {
      assert (a + b)[..|a + b| - 1] == a + b[..|b| - 1];
      ProductConcat(a, b[..|b| - 1], env);
    }
  }

  /** The value the source's operation gives to a list of operands: their sum for Add,
      their product for Multiply. */
  function Combined(kind: T.NodeType, s: seq<Tr.Node>, env: string -> int): int {
    if kind == T.Add then SumEval(s, env) else ProductEval(s, env)
  }

  /** A visited child contributes its own value to the operation, whether it is
      spliced in or pushed whole. */
  lemma PieceValue(c: Tr.Node, kind: T.NodeType, env: string -> int)
    requires kind == T.Add || kind == T.Multiply
    ensures Combined(kind, PP.Piece(c, kind), env) == Eval(c, env)
  {
    Tr.KindOfAdd(c);
    if !(c.Kind() == kind && c.HasArgs()) {
      assert [c][..0] == [];
      assert SumEval([c], env) == SumEval([], env) + Eval(c, env);
      assert ProductEval([c], env) == ProductEval([], env) * Eval(c, env);
    }
  }

  /** Splicing keeps every operand a sum-and-product tree, and a spliced list is at least
      as long as the list of children. */
  lemma SplicedShape(v: Visitor, args: seq<Tr.Node>, kind: T.NodeType)
    requires forall i :: 0 <= i < |args| ==> Polynomial(Visit(v, args[i]))
    ensures |Spliced(v, args, kind)| >= |args|
    ensures forall x :: x in Spliced(v, args, kind) ==> Polynomial(x)
  {
    SplicedLength(v, args, kind);
    SplicedPolynomial(v, args, kind);
    var s := Spliced(v, args, kind);
    forall x | x in s ensures Polynomial(x) {
      var j :| 0 <= j < |s| && s[j] == x;
    }
  }

  lemma {:induction false} SplicedLength(v: Visitor, args: seq<Tr.Node>, kind: T.NodeType)
    requires forall i :: 0 <= i < |args| ==> Polynomial(Visit(v, args[i]))
    ensures |Spliced(v, args, kind)| >= |args|
    decreases |args|
  {
    if args != [] {
      var n := |args|;
      var front := args[..n - 1];
      forall i | 0 <= i < |front| ensures Polynomial(Visit(v, front[i])) {
        assert front[i] == args[i];
      }
      SplicedLength(v, front, kind);
      var c := Visit(v, args[n - 1]);
      PieceNonEmpty(c, kind);
      assert Spliced(v, args, kind) == Spliced(v, front, kind) + PP.Piece(c, kind);
    }
  }

  lemma PieceNonEmpty(c: Tr.Node, kind: T.NodeType)
    requires Polynomial(c)
    ensures |PP.Piece(c, kind)| >= 1
  {
  }

  lemma {:induction false} SplicedPolynomial(v: Visitor, args: seq<Tr.Node>, kind: T.NodeType)
    requires forall i :: 0 <= i < |args| ==> Polynomial(Visit(v, args[i]))
    ensures forall k :: 0 <= k < |Spliced(v, args, kind)| ==> Polynomial(Spliced(v, args, kind)[k])
    decreases |args|
  {
    if args != [] {
      var n := |args|;
      var front := args[..n - 1];
      forall i | 0 <= i < |front| ensures Polynomial(Visit(v, front[i])) {
        assert front[i] == args[i];
      }
      SplicedPolynomial(v, front, kind);
      var c := Visit(v, args[n - 1]);
      assert Polynomial(c);
      var head := Spliced(v, front, kind);
      var piece := PP.Piece(c, kind);
      assert Spliced(v, args, kind) == head + piece;
      forall k | 0 <= k < |piece| ensures Polynomial(piece[k]) {
        if c.Kind() == kind && c.HasArgs() {
          assert piece[k] == c.args[k];
        }
      }
      forall k | 0 <= k < |head + piece| ensures Polynomial((head + piece)[k]) {
        if k >= |head| {
          assert (head + piece)[k] == piece[k - |head|];
        }
      }
    }
  }

  /** Splicing the children of the operation's own kind keeps the combined value. */
  lemma {:induction false} SplicedValue(v: Visitor, args: seq<Tr.Node>, kind: T.NodeType, env: string -> int)
    requires kind == T.Add || kind == T.Multiply
    ensures Combined(kind, Spliced(v, args, kind), env) == Combined(kind, VisitAll(v, args), env)
    decreases |args|
  {
    if args != [] {
      var n := |args|;
      var front := args[..n - 1];
      SplicedValue(v, front, kind, env);
      var c := Visit(v, args[n - 1]);
      var visited := VisitAll(v, args);
      assert visited[..n - 1] == VisitAll(v, front);
      assert visited[n - 1] == c;
      PieceValue(c, kind, env);
      if kind == T.Add {
        SumConcat(Spliced(v, front, kind), PP.Piece(c, kind), env);
        assert SumEval(visited, env) == SumEval(visited[..n - 1], env) + Eval(c, env);
      } else {
        ProductConcat(Spliced(v, front, kind), PP.Piece(c, kind), env);
        assert ProductEval(visited, env) == ProductEval(visited[..n - 1], env) * Eval(c, env);
      }
    }
  }

  /** Nodes.Add and Nodes.Multiply of two or more variable-only operands none of the
      constructor's own kind: the plain node of those operands. */
  lemma AssemblePlain(kind: T.NodeType, s: seq<Tr.Node>)
    requires kind == T.Add || kind == T.Multiply
    requires |s| >= 2 && forall x :: x in s ==> Polynomial(x) && x.Kind() != kind
    ensures kind == T.Add ==> N.Add(s) == Tr.Add(s)
    ensures kind == T.Multiply ==> N.Multiply(s) == Tr.Multiply(s)
  {
    forall i | 0 <= i < |s| ensures !s[i].Literal? && s[i].Kind() != kind {
      assert s[i] in s;
    }
    N.PlainNodes(kind, s);
  }

  /** The corrected flattening visitor keeps a sum-and-product tree one, flattened, and
      keeps its value under every assignment. */
  lemma {:induction false} FlatteningKeepsValue(n: Tr.Node, env: string -> int)
    requires Polynomial(n)
    ensures Polynomial(Visit(Flattening, n)) && PP.Flattened(Visit(Flattening, n))
    ensures Eval(Visit(Flattening, n), env) == Eval(n, env)
    decreases n
  {
    if n.Add? || n.Multiply? {
      var kind := n.Kind();
      Tr.KindOfAdd(n);
      forall i | 0 <= i < |n.args|
        ensures Polynomial(Visit(Flattening, n.args[i])) && PP.Flattened(Visit(Flattening, n.args[i]))
        ensures Eval(Visit(Flattening, n.args[i]), env) == Eval(n.args[i], env)
      {
        FlatteningKeepsValue(n.args[i], env);
      }
      SplicedShape(Flattening, n.args, kind);
      SplicedValue(Flattening, n.args, kind, env);
      SplicedFlattened(Flattening, n.args, kind);
      var s := Spliced(Flattening, n.args, kind);
      AssemblePlain(kind, s);
      VisitAllValue(n.args, kind, env);
      VisitFlattened(Flattening, n);
      forall i | 0 <= i < |s| ensures Polynomial(s[i]) {
        assert s[i] in s;
      }
    }
  }

  /** Visiting every operand keeps the combined value when every visit keeps its own. */
  lemma {:induction false} VisitAllValue(args: seq<Tr.Node>, kind: T.NodeType, env: string -> int)
    requires forall i :: 0 <= i < |args| ==> Eval(Visit(Flattening, args[i]), env) == Eval(args[i], env)
    ensures Combined(kind, VisitAll(Flattening, args), env) == Combined(kind, args, env)
    decreases |args|
  {
    if args != [] {
      var n := |args|;
      VisitAllValue(args[..n - 1], kind, env);
      assert VisitAll(Flattening, args)[..n - 1] == VisitAll(Flattening, args[..n - 1]);
    }
  }

  /** A sum of two variables is left as it is by the visitor as written. */
  lemma SumOfVariablesKept(y: Tr.Node, z: Tr.Node)
    requires y.Variable? && z.Variable?
    ensures Visit(FlatteningAsWritten, Tr.Add([y, z])) == Tr.Add([y, z])
  {
    var v := FlatteningAsWritten;
    assert [y, z][..1] == [y] && [y][..0] == [];
    assert Spliced(v, [y], T.Add) == [] + PP.Piece(Visit(v, y), T.Add);
    assert Spliced(v, [y, z], T.Add) == [y, z];
    AssemblePlain(T.Add, [y, z]);
  }

  /** The visitor as written turns x · (y + z) into x · y · z. */
  lemma ProductOfSumSpliced(x: Tr.Node, y: Tr.Node, z: Tr.Node)
    requires x.Variable? && y.Variable? && z.Variable?
    ensures Visit(FlatteningAsWritten, Tr.Multiply([x, Tr.Add([y, z])])) == Tr.Multiply([x, y, z])
  {
    var v := FlatteningAsWritten;
    var sum := Tr.Add([y, z]);
    SumOfVariablesKept(y, z);
    assert [x, sum][..1] == [x] && [x][..0] == [];
    assert Spliced(v, [x], T.Add) == [] + PP.Piece(Visit(v, x), T.Add);
    assert PP.Piece(Visit(v, sum), T.Add) == [y, z];
    assert Spliced(v, [x, sum], T.Add) == [x, y, z];
    AssemblePlain(T.Multiply, [x, y, z]);
  }

  lemma ValuesAtOne(x: Tr.Node, y: Tr.Node, z: Tr.Node, env: string -> int)
    requires x.Variable? && y.Variable? && z.Variable?
    requires env(x.name) == 1 && env(y.name) == 1 && env(z.name) == 1
    ensures Eval(Tr.Multiply([x, Tr.Add([y, z])]), env) == 2
    ensures Eval(Tr.Multiply([x, y, z]), env) == 1
  {
    var sum := Tr.Add([y, z]);
    assert [y, z][..1] == [y] && [y][..0] == [];
    assert SumEval([y], env) == SumEval([], env) + Eval(y, env) == 1;
    assert SumEval([y, z], env) == SumEval([y], env) + Eval(z, env) == 2;
    assert [x, sum][..1] == [x] && [x][..0] == [];
    assert ProductEval([x], env) == ProductEval([], env) * Eval(x, env) == 1;
    assert ProductEval([x, sum], env) == ProductEval([x], env) * Eval(sum, env) == 2;
    assert [x, y, z][..2] == [x, y] && [x, y][..1] == [x];
    assert ProductEval([x, y], env) == ProductEval([x], env) * Eval(y, env) == 1;
    assert ProductEval([x, y, z], env) == ProductEval([x, y], env) * Eval(z, env) == 1;
  }

  /** As written, VisitMultiply splices a sum's terms into the product: x · (y + z)
      becomes x · y · z, whose value differs when every variable is 1. */
  lemma MultiplySplicesSums(env: string -> int)
    requires env("x") == 1 && env("y") == 1 && env("z") == 1
    ensures var x, y, z := Tr.Variable("x"), Tr.Variable("y"), Tr.Variable("z");
      var n := Tr.Multiply([x, Tr.Add([y, z])]);
      && Polynomial(n)
      && Eval(n, env) == 2
      && Visit(FlatteningAsWritten, n) == Tr.Multiply([x, y, z])
      && Eval(Visit(FlatteningAsWritten, n), env) == 1
  {
    var x, y, z := Tr.Variable("x"), Tr.Variable("y"), Tr.Variable("z");
    ProductOfSumSpliced(x, y, z);
    ValuesAtOne(x, y, z, env);
  }

  // ---- the traversal as loops ----

  /** Visit, with the `map` and `forEach` loops of the source. */
  method VisitNode(v: Visitor, n: Tr.Node) returns (r: Tr.Node)
    ensures r == Visit(v, n)
    decreases n, 1
  {
    if n.Literal? || n.Constant? {
      return n;
    } else if n.Variable? {
      if v.ComplexUnit? && n.name == "i" {
        return N.OneI();
      }
      return n;
    } else if v.Flattens() && (n.Add? || n.Multiply?) {
      var kind := if n.Add? then T.Add else v.MultiplySplices();
      var nodes := SpliceLoop(v, n.args, kind);
      if n.Add? {
        return N.Add(nodes);
      }
      return N.Multiply(nodes);
    }
    var args := VisitArgs(v, n.args);
    if n.Function? && v.Functions? {
      var c := PP.FindConverter(v.converters, n.name);
      if c.Some? {
        return c.value.convert(args);
      }
    }
    return n.WithArgs(args);
  }

  method VisitArgs(v: Visitor, args: seq<Tr.Node>) returns (r: seq<Tr.Node>)
    ensures r == VisitAll(v, args)
    decreases args, 0
  {
    r := [];
    var i := 0;
    while i < |args|
      invariant 0 <= i <= |args|
      invariant r == VisitAll(v, args)[..i]
    {
      var a := VisitNode(v, args[i]);
      r := r + [a];
      i := i + 1;
    }
  }

  method SpliceLoop(v: Visitor, args: seq<Tr.Node>, kind: T.NodeType) returns (nodes: seq<Tr.Node>)
    ensures nodes == Spliced(v, args, kind)
    decreases args, 0
  {
    nodes := [];
    var i := 0;
    while i < |args|
      invariant 0 <= i <= |args|
      invariant nodes == Spliced(v, args[..i], kind)
    {
      var arg := VisitNode(v, args[i]);
      SplicedSnoc(v, args, i, kind);
      if arg.Kind() == kind && arg.HasArgs() {
        nodes := nodes + arg.args;
      } else {
        nodes := nodes + [arg];
      }
      i := i + 1;
    }
    assert args[..i] == args;
  }
}
