/** The NodeType enumeration (src/Typescript/Node.ts). NOT and AND are declared there
    but no node of those kinds is ever built. */
module NodeTypes {
  datatype NodeType =
    | Literal | Constant | Variable
    | Add | Multiply | Exponentiation | Equals | Absolute | Factorial
    | Function | List | Tensor
    | NOT | AND
}

/** The expression tree: the closed union `Node` of src/Typescript/Node.ts.
    The source's `string` field is `name` here and its `type` field is `Kind()`. */
module Tree {
  import C = Complexes
  import T = NodeTypes

  datatype Node =
    | Literal(number: C.Complex)
    | Variable(name: string)
    | Constant(name: string)
    | Add(args: seq<Node>)
    | Multiply(args: seq<Node>)
    | Exponentiation(args: seq<Node>)
    | Absolute(args: seq<Node>)
    | Equals(args: seq<Node>)
    | Function(name: string, args: seq<Node>)
    | List(args: seq<Node>)
    | Factorial(args: seq<Node>)
    | Tensor(shape: seq<int>, args: seq<Node>)
  {
    function Kind(): T.NodeType {
      match this
      case Literal(_) => T.Literal
      case Variable(_) => T.Variable
      case Constant(_) => T.Constant
      case Add(_) => T.Add
      case Multiply(_) => T.Multiply
      case Exponentiation(_) => T.Exponentiation
      case Absolute(_) => T.Absolute
      case Equals(_) => T.Equals
      case Function(_, _) => T.Function
      case List(_) => T.List
      case Factorial(_) => T.Factorial
      case Tensor(_, _) => T.Tensor
    }

    /** `"args" in node` */
    predicate HasArgs() {
      !(Literal? || Variable? || Constant?)
    }

    /** `"string" in node` */
    predicate HasString() {
      Variable? || Constant? || Function?
    }

    /** `"number" in node` */
    predicate HasNumber() {
      Literal?
    }

    /** `{...node, args}`: the same kind and other fields, with new arguments. */
    function WithArgs(newArgs: seq<Node>): (r: Node)
      requires HasArgs()
      ensures r.HasArgs() && r.Kind() == Kind() && r.args == newArgs
    {
      match this
      case Add(_) => Add(newArgs)
      case Multiply(_) => Multiply(newArgs)
      case Exponentiation(_) => Exponentiation(newArgs)
      case Absolute(_) => Absolute(newArgs)
      case Equals(_) => Equals(newArgs)
      case Function(name, _) => Function(name, newArgs)
      case List(_) => List(newArgs)
      case Factorial(_) => Factorial(newArgs)
      case Tensor(shape, _) => Tensor(shape, newArgs)
    }
  }

  /** Raw `{type, args}` for one of the arg-bearing kinds without other fields. */
  function OfKind(kind: T.NodeType, args: seq<Node>): Node
    requires kind in {T.Add, T.Multiply, T.Exponentiation, T.Absolute, T.Equals, T.List, T.Factorial}
  {
    match kind
    case Add => Add(args)
    case Multiply => Multiply(args)
    case Exponentiation => Exponentiation(args)
    case Absolute => Absolute(args)
    case Equals => Equals(args)
    case List => List(args)
    case Factorial => Factorial(args)
  }

  /** Number of nodes in a tree; a termination measure. */
  function Size(n: Node): nat {
    1 + (if n.HasArgs() then SizeAll(n.args) else 0)
  }

  function SizeAll(s: seq<Node>): nat {
    if s == [] then 0 else Size(s[0]) + SizeAll(s[1..])
  }

  /** The type tag names the constructor. */
  lemma KindOfAdd(n: Node)
    ensures n.Kind() == T.Add <==> n.Add?
    ensures n.Kind() == T.Multiply <==> n.Multiply?
    ensures n.Kind() == T.Exponentiation <==> n.Exponentiation?
  {
  }

  lemma SizeAllElement(s: seq<Node>, i: nat)
    requires i < |s|
    ensures Size(s[i]) <= SizeAll(s)
  {
    if i > 0 {
      SizeAllElement(s[1..], i - 1);
    }
  }

  lemma SizeArg(n: Node, i: nat)
    requires n.HasArgs() && i < |n.args|
    ensures Size(n.args[i]) < Size(n)
  {
    SizeAllElement(n.args, i);
  }

  lemma SizeAllConcat(a: seq<Node>, b: seq<Node>)
    ensures SizeAll(a + b) == SizeAll(a) + SizeAll(b)
  {
    if a == [] {
      assert a + b == b;
    } else {
      assert (a + b)[1..] == a[1..] + b;
      SizeAllConcat(a[1..], b);
    }
  }

  /** No Tensor anywhere in the tree. */
  predicate TensorFree(n: Node)
    decreases n
  {
    !n.Tensor? && (n.HasArgs() ==> forall i :: 0 <= i < |n.args| ==> TensorFree(n.args[i]))
  }

  /** The names of the Variable nodes anywhere in the tree. */
  function Vars(n: Node): set<string>
    decreases n
  {
    if n.Variable? then {n.name}
    else if n.HasArgs() then VarsAll(n.args)
    else {}
  }

  function VarsAll(s: seq<Node>): set<string>
    decreases s
  {
    if s == [] then {} else Vars(s[0]) + VarsAll(s[1..])
  }

  /** A name occurs in a list of trees exactly when it occurs in one of them. */
  lemma {:induction false} VarsAllMember(s: seq<Node>, x: string)
    ensures x in VarsAll(s) <==> exists i :: 0 <= i < |s| && x in Vars(s[i])
    decreases |s|
  {
    if s != [] {
      VarsAllMember(s[1..], x);
      if exists i :: 0 <= i < |s| && x in Vars(s[i]) {
        var i :| 0 <= i < |s| && x in Vars(s[i]);
        if i > 0 {
          assert s[1..][i - 1] == s[i];
        }
      }
      if exists i :: 0 <= i < |s[1..]| && x in Vars(s[1..][i]) {
        var i :| 0 <= i < |s[1..]| && x in Vars(s[1..][i]);
        assert s[1..][i] == s[i + 1];
      }
    }
  }
}

