/** The post-processor of src/Parse/PostProcessor.ts: the parser's intermediate tree is
    turned into expression nodes, same-kind sums and products are flattened, and the
    variable `i` becomes the imaginary unit. */
module PostProcessor {
  import opened Wrappers
  import T = NodeTypes
  import Tr = Tree
  import B = BasicNodes
  import C = Complexes

  // ---- flat ----

  /** A flattened child's share of its parent's arguments: its own arguments when it has
      the parent's kind, itself otherwise. */
  function Piece(a: Tr.Node, kind: T.NodeType): seq<Tr.Node> {
    if a.Kind() == kind && a.HasArgs() then a.args else [a]
  }

  /** `flat`: sums and products absorb the arguments of same-kind children at every
      depth; every other node with arguments is rebuilt from its flattened arguments. */
  function Flat(n: Tr.Node): Tr.Node
    decreases n, 1
  {
    if n.Add? then Tr.Add(ConcatType(n.args, T.Add))
    else if n.Multiply? then Tr.Multiply(ConcatType(n.args, T.Multiply))
    else if n.HasArgs() then n.WithArgs(FlatAll(n.args))
    else n
  }

  function FlatAll(args: seq<Tr.Node>): (r: seq<Tr.Node>)
    ensures |r| == |args|
    decreases args, 0
  {
    seq(|args|, i requires 0 <= i < |args| => Flat(args[i]))
  }

  /** `concatType`: each argument is flattened, then spliced in if it has the kind. */
  function ConcatType(args: seq<Tr.Node>, kind: T.NodeType): seq<Tr.Node>
    decreases args, 0
  {
    if args == [] then []
    else ConcatType(args[..|args| - 1], kind) + Piece(Flat(args[|args| - 1]), kind)
  }

  /** No sum has a sum argument and no product a product argument, at any depth. */
  predicate Flattened(n: Tr.Node)
    decreases n
  {
    && (n.HasArgs() ==> forall i :: 0 <= i < |n.args| ==> Flattened(n.args[i]))
    && (n.Add? ==> forall i :: 0 <= i < |n.args| ==> !n.args[i].Add?)
    && (n.Multiply? ==> forall i :: 0 <= i < |n.args| ==> !n.args[i].Multiply?)
  }

  /** Every argument ConcatType produces is flattened and not of the spliced kind. */
  lemma {:induction false} ConcatTypeFlattened(args: seq<Tr.Node>, kind: T.NodeType)
    requires kind == T.Add || kind == T.Multiply
    ensures forall x :: x in ConcatType(args, kind) ==> Flattened(x) && x.Kind() != kind
    decreases args, 0
  {
    if args != [] {
      var last := args[|args| - 1];
      ConcatTypeFlattened(args[..|args| - 1], kind);
      FlatFlattened(last);
      var f := Flat(last);
      if f.Kind() == kind && f.HasArgs() {
        Tr.KindOfAdd(f);
        forall x | x in f.args ensures Flattened(x) && x.Kind() != kind {
          Tr.KindOfAdd(x);
        }
      }
    }
  }

  /** flat reaches a flattened tree. */
  lemma {:induction false} FlatFlattened(n: Tr.Node)
    ensures Flattened(Flat(n))
    decreases n, 1
  {
    if n.Add? || n.Multiply? {
      var kind := n.Kind();
      ConcatTypeFlattened(n.args, kind);
      var r := Flat(n);
      forall i | 0 <= i < |r.args| ensures Flattened(r.args[i]) && r.args[i].Kind() != kind {
        assert r.args[i] in r.args;
      }
      forall i | 0 <= i < |r.args| ensures !(r.args[i].Kind() == kind) {
      }
      Tr.KindOfAdd(r);
      forall i | 0 <= i < |r.args| ensures n.Add? ==> !r.args[i].Add? {
        Tr.KindOfAdd(r.args[i]);
      }
      forall i | 0 <= i < |r.args| ensures n.Multiply? ==> !r.args[i].Multiply? {
        Tr.KindOfAdd(r.args[i]);
      }
    } else if n.HasArgs() {
      forall i | 0 <= i < |n.args| ensures Flattened(Flat(n).args[i]) {
        FlatFlattened(n.args[i]);
      }
    }
  }

  /** On arguments that are flattened and not of the kind, ConcatType changes nothing. */
  lemma {:induction false} ConcatTypeKeeps(args: seq<Tr.Node>, kind: T.NodeType)
    requires forall i :: 0 <= i < |args| ==> Flattened(args[i]) && args[i].Kind() != kind
    ensures ConcatType(args, kind) == args
    decreases args, 0
  {
    if args != [] {
      var n := |args|;
      ConcatTypeKeeps(args[..n - 1], kind);
      FlatKeeps(args[n - 1]);
      assert args == args[..n - 1] + [args[n - 1]];
    }
  }

  /** A flattened tree is left as it is, so flat is idempotent. */
  lemma {:induction false} FlatKeeps(n: Tr.Node)
    requires Flattened(n)
    ensures Flat(n) == n
    decreases n, 1
  {
    if n.Add? || n.Multiply? {
      forall i | 0 <= i < |n.args| ensures n.args[i].Kind() != n.Kind() {
        Tr.KindOfAdd(n.args[i]);
      }
      ConcatTypeKeeps(n.args, n.Kind());
    } else if n.HasArgs() {
      forall i | 0 <= i < |n.args| ensures Flat(n.args[i]) == n.args[i] {
        FlatKeeps(n.args[i]);
      }
      assert FlatAll(n.args) == n.args;
    }
  }

  lemma FlatIdempotent(n: Tr.Node)
    ensures Flat(Flat(n)) == Flat(n)
  {
    FlatFlattened(n);
    FlatKeeps(Flat(n));
  }

  /** `flat`, with the `forEach` of concatType and the `map` over arguments as loops. */
  method FlatNode(n: Tr.Node) returns (r: Tr.Node)
    ensures r == Flat(n)
    decreases n, 1
  {
    if n.Add? {
      var args := ConcatTypeLoop(n.args, T.Add);
      return Tr.Add(args);
    } else if n.Multiply? {
      var args := ConcatTypeLoop(n.args, T.Multiply);
      return Tr.Multiply(args);
    } else if n.HasArgs() {
      var args: seq<Tr.Node> := [];
      var i := 0;
      while i < |n.args|
        invariant 0 <= i <= |n.args|
        invariant args == FlatAll(n.args)[..i]
      {
        var a := FlatNode(n.args[i]);
        args := args + [a];
        i := i + 1;
      }
      return n.WithArgs(args);
    }
    return n;
  }

  method ConcatTypeLoop(args: seq<Tr.Node>, kind: T.NodeType) returns (newArgs: seq<Tr.Node>)
    ensures newArgs == ConcatType(args, kind)
    decreases args, 0
  {
    newArgs := [];
    var i := 0;
    while i < |args|
      invariant 0 <= i <= |args|
      invariant newArgs == ConcatType(args[..i], kind)
    {
      var arg := FlatNode(args[i]);
      assert args[..i + 1][..i] == args[..i];
      if arg.Kind() == kind && arg.HasArgs() {
        newArgs := newArgs + arg.args;
      } else {
        newArgs := newArgs + [arg];
      }
      i := i + 1;
    }
    assert args[..i] == args;
  }

  // ---- complexLiterals ----

  /** `complexLiterals`: every variable named `i` becomes the literal 0 + 1i. */
  function ComplexLiterals(n: Tr.Node): Tr.Node
    decreases n
  {
    if n.Variable? && n.name == "i" then B.LiteralOf(C.FromNumbers(0, 1, 1, 1))
    else if n.HasArgs() then n.WithArgs(seq(|n.args|, k requires 0 <= k < |n.args| => ComplexLiterals(n.args[k])))
    else n
  }

  /** The imaginary unit is gone from the variables, and every other variable stays. */
  lemma {:induction false} ComplexLiteralsVars(n: Tr.Node)
    ensures Tr.Vars(ComplexLiterals(n)) == Tr.Vars(n) - {"i"}
    decreases n
  {
    if n.HasArgs() {
      var r := ComplexLiterals(n);
      forall x ensures x in Tr.VarsAll(r.args) <==> x in Tr.VarsAll(n.args) && x != "i" {
        Tr.VarsAllMember(r.args, x);
        Tr.VarsAllMember(n.args, x);
        forall k | 0 <= k < |n.args| ensures Tr.Vars(r.args[k]) == Tr.Vars(n.args[k]) - {"i"} {
          ComplexLiteralsVars(n.args[k]);
        }
      }
    }
  }

  /** A tree without the variable `i` is left as it is. */
  lemma {:induction false} ComplexLiteralsKeeps(n: Tr.Node)
    requires "i" !in Tr.Vars(n)
    ensures ComplexLiterals(n) == n
    decreases n
  {
    if n.HasArgs() {
      forall k | 0 <= k < |n.args| ensures ComplexLiterals(n.args[k]) == n.args[k] {
        Tr.VarsAllMember(n.args, "i");
        ComplexLiteralsKeeps(n.args[k]);
      }
      assert seq(|n.args|, k requires 0 <= k < |n.args| => ComplexLiterals(n.args[k])) == n.args;
    }
  }

  // ---- postProcess ----

  datatype BinaryOp = BinaryAdd | BinarySubtract | BinaryDivide | BinaryMultiply | BinaryExponentiation

  /** The parser's intermediate tree (PostProcNode of src/Typescript/Parsing.ts). */
  datatype PostProcNode =
    | PostLiteral(number: int)
    | PostUnary(arg: PostProcNode)
    | PostBinary(op: BinaryOp, left: PostProcNode, right: PostProcNode)
    | PostFunction(name: string, args: seq<PostProcNode>)
    | PostVariable(name: string)
    | PostConstant(name: string)
    | PostList(args: seq<PostProcNode>)
    | PostFactorial(arg: PostProcNode)
    | PostAbsolute(arg: PostProcNode)
    | PostTensor(args: seq<PostProcNode>, shape: seq<int>)

  /** One entry of the post-processor function table: the names it answers to and the
      node it builds from the converted arguments. */
  datatype Converter = Converter(names: seq<string>, convert: seq<Tr.Node> -> Tr.Node)

  /** The first table entry whose names include the function name. */
  function FindConverter(converters: seq<Converter>, name: string): (r: Option<Converter>)
    ensures r.Some? ==> r.value in converters && name in r.value.names
    ensures r.None? <==> forall c :: c in converters ==> name !in c.names
  {
    if converters == [] then None
    else if name in converters[0].names then Some(converters[0])
    else FindConverter(converters[1..], name)
  }

  /** `postProcess`: each intermediate node becomes the matching BasicNodes node; a
      function whose name is in the table is built by that entry's converter. */
  function PostProcess(n: PostProcNode, converters: seq<Converter>): Tr.Node
    decreases n
  {
    match n
    case PostFunction(name, args) =>
      var mapped := seq(|args|, k requires 0 <= k < |args| => PostProcess(args[k], converters));
      (match FindConverter(converters, name)
       case Some(c) => c.convert(mapped)
       case None => B.Function(name, mapped))
    case PostUnary(a) => B.Negative(PostProcess(a, converters))
    case PostBinary(op, l, r) =>
      var x, y := PostProcess(l, converters), PostProcess(r, converters);
      (match op
       case BinaryAdd => B.Add([x, y])
       case BinarySubtract => B.Subtract(x, y)
       case BinaryDivide => B.Divide(x, y)
       case BinaryMultiply => B.Multiply([x, y])
       case BinaryExponentiation => B.Exponentiation(x, y))
    case PostFactorial(a) => B.Factorial(PostProcess(a, converters))
    case PostList(args) => B.List(seq(|args|, k requires 0 <= k < |args| => PostProcess(args[k], converters)))
    case PostLiteral(v) => B.Literal(v)
    case PostVariable(name) => B.Variable(name)
    case PostConstant(name) => B.Constant(name)
    case PostAbsolute(a) => B.Absolute(PostProcess(a, converters))
    case PostTensor(args, shape) => B.Tensor(seq(|args|, k requires 0 <= k < |args| => PostProcess(args[k], converters)), shape)
  }

  /** The variable names of an intermediate tree. */
  function PostVars(n: PostProcNode): set<string>
    decreases n
  {
    match n
    case PostVariable(name) => {name}
    case PostUnary(a) => PostVars(a)
    case PostFactorial(a) => PostVars(a)
    case PostAbsolute(a) => PostVars(a)
    case PostBinary(_, l, r) => PostVars(l) + PostVars(r)
    case PostFunction(_, args) => PostVarsAll(args)
    case PostList(args) => PostVarsAll(args)
    case PostTensor(args, _) => PostVarsAll(args)
    case _ => {}
  }

  function PostVarsAll(s: seq<PostProcNode>): set<string>
    decreases s
  {
    if s == [] then {} else PostVars(s[0]) + PostVarsAll(s[1..])
  }

  lemma {:induction false} PostVarsAllMember(s: seq<PostProcNode>, x: string)
    ensures x in PostVarsAll(s) <==> exists i :: 0 <= i < |s| && x in PostVars(s[i])
    decreases |s|
  {
    if s != [] {
      PostVarsAllMember(s[1..], x);
      if exists i :: 0 <= i < |s| && x in PostVars(s[i]) {
        var i :| 0 <= i < |s| && x in PostVars(s[i]);
        if i > 0 {
          assert s[1..][i - 1] == s[i];
        }
      }
      if exists i :: 0 <= i < |s[1..]| && x in PostVars(s[1..][i]) {
        var i :| 0 <= i < |s[1..]| && x in PostVars(s[1..][i]);
        assert s[1..][i] == s[i + 1];
      }
    }
  }

  /** Mapping the conversion over a list keeps its variables. */
  lemma MappedVars(args: seq<PostProcNode>, mapped: seq<Tr.Node>)
    requires |mapped| == |args|
    requires forall k :: 0 <= k < |args| ==> Tr.Vars(mapped[k]) == PostVars(args[k])
    ensures Tr.VarsAll(mapped) == PostVarsAll(args)
  {
    forall x ensures x in Tr.VarsAll(mapped) <==> x in PostVarsAll(args) {
      Tr.VarsAllMember(mapped, x);
      PostVarsAllMember(args, x);
    }
  }

  /** Without converters, postProcess neither drops nor invents a variable. */
  lemma {:induction false} PostProcessVars(n: PostProcNode)
    ensures Tr.Vars(PostProcess(n, [])) == PostVars(n)
    decreases n
  {
    match n
    case PostFunction(_, args) =>
      forall k | 0 <= k < |args| ensures Tr.Vars(PostProcess(args[k], [])) == PostVars(args[k]) {
        PostProcessVars(args[k]);
      }
      MappedVars(args, PostProcess(n, []).args);
    case PostList(args) =>
      forall k | 0 <= k < |args| ensures Tr.Vars(PostProcess(args[k], [])) == PostVars(args[k]) {
        PostProcessVars(args[k]);
      }
      MappedVars(args, PostProcess(n, []).args);
    case PostTensor(args, _) =>
      forall k | 0 <= k < |args| ensures Tr.Vars(PostProcess(args[k], [])) == PostVars(args[k]) {
        PostProcessVars(args[k]);
      }
      MappedVars(args, PostProcess(n, []).args);
    case PostUnary(a) =>
      PostProcessVars(a);
      VarsOfPair(PostProcess(a, []), B.NegativeOne());
    case PostFactorial(a) =>
      PostProcessVars(a);
      VarsOfPair(PostProcess(a, []), PostProcess(a, []));
    case PostAbsolute(a) =>
      PostProcessVars(a);
      VarsOfPair(PostProcess(a, []), PostProcess(a, []));
    case PostBinary(op, l, r) =>
      PostProcessVars(l);
      PostProcessVars(r);
      var x, y := PostProcess(l, []), PostProcess(r, []);
      VarsOfPair(x, y);
      VarsOfPair(y, B.NegativeOne());
      VarsOfPair(y, B.Literal(-1));
      VarsOfPair(x, B.Multiply([y, B.NegativeOne()]));
      VarsOfPair(x, B.Exponentiation(y, B.Literal(-1)));
      assert Tr.Vars(PostProcess(n, [])) == PostVars(n) by {
        match op
        case BinaryAdd =>
        case BinarySubtract =>
        case BinaryDivide =>
        case BinaryMultiply =>
        case BinaryExponentiation =>
      }
    case _ =>
  }

  lemma VarsOfPair(x: Tr.Node, y: Tr.Node)
    ensures Tr.VarsAll([x, y]) == Tr.Vars(x) + Tr.Vars(y)
    ensures Tr.VarsAll([x]) == Tr.Vars(x)
  {
    assert [x, y][1..] == [y];
    assert [y][1..] == [];
    assert [x][1..] == [];
    assert Tr.VarsAll([y]) == Tr.Vars(y) + Tr.VarsAll([]);
    assert Tr.VarsAll([x]) == Tr.Vars(x) + Tr.VarsAll([]);
    assert Tr.VarsAll([x, y]) == Tr.Vars(x) + Tr.VarsAll([y]);
  }
}
