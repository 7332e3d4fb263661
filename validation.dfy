/** The validating visitors of src/Visitors/Validation.ts. Each is the identity
    traversal with a check in front of some Visit methods: a node is checked before its
    arguments are visited, and the first failing check, in depth-first left-to-right
    order, is the Parser error thrown. On success the tree comes back unchanged. */
module Validation {
  import opened Wrappers
  import Tr = Tree
  import NT = NodeTests
  import TU = TensorUtils
  import R = Registries
  import V = Visitors
  import C = Complexes

  datatype Validator =
    /** FunctionValidator over the registry's functions. */
    | FunctionCheck(functions: seq<R.FunctionEntry>)
    | TensorCheck
    /** LeafValidator over the registry's constants. */
    | LeafCheck(constants: map<string, Tr.Node>)
    | OperatorCheck

  /** Entry k is the first registered function answering to the name. */
  predicate FirstNaming(functions: seq<R.FunctionEntry>, name: string, k: int) {
    0 <= k < |functions| && name in functions[k].names && forall j :: 0 <= j < k ==> name !in functions[j].names
  }

  /** `functions.find(...)`: the first registered function answering to the name. */
  function FindFunction(functions: seq<R.FunctionEntry>, name: string): (r: Option<R.FunctionEntry>)
    ensures r.None? <==> forall k :: 0 <= k < |functions| ==> name !in functions[k].names
    ensures r.Some? ==> exists k :: FirstNaming(functions, name, k) && functions[k] == r.value
  {
    if functions == [] then None
    else if name in functions[0].names then
      assert FirstNaming(functions, name, 0);
      Some(functions[0])
    else
      var r := FindFunction(functions[1..], name);
      if r.Some? then
        var k :| FirstNaming(functions[1..], name, k) && functions[1..][k] == r.value;
        assert FirstNaming(functions, name, k + 1);
        r
      else r
  }

  /** The check one validator makes of one node, without looking at its arguments'
      subtrees: the reason it throws, or None. */
  function Objection(v: Validator, n: Tr.Node): Option<string> {
    match v
    case FunctionCheck(functions) =>
      if !n.Function? then None
      else
        (match FindFunction(functions, n.name)
         case None => Some("Function not found")
         case Some(fn) => if fn.arguments != |n.args| then Some("Function arity") else None)
    case TensorCheck =>
      if n.Tensor? && !TU.ValidateTensorShape(n.args, n.shape, 0) then Some("Tensor shape is invalid") else None
    case LeafCheck(constants) =>
      if n.Variable? && |n.name| == 0 then Some("Variable name cannot be empty")
      else if n.Constant? && |n.name| == 0 then Some("Constant name cannot be empty")
      else if n.Constant? && n.name !in constants then Some("Constant not found")
      else if n.Literal? && (n.number.re.denominator == 0 || n.number.im.denominator == 0) then
        Some("Literal cannot have a zero denominator")
      else None
    case OperatorCheck =>
      if (n.Add? || n.Multiply?) && |n.args| < 2 then Some("At least two arguments")
      else if (n.Absolute? || n.Factorial?) && |n.args| != 1 then Some("Exactly one argument")
      else if n.Exponentiation? && |n.args| != 2 then Some("Exactly two arguments")
      else if n.Exponentiation? && NT.Zero(n.args[1]) then Some("Exponentiation must have a non-zero exponent")
      else if n.Exponentiation? && NT.Zero(n.args[0]) && n.args[1].Literal?
        && n.args[1].number.re.numerator < 0 && n.args[1].number.im.numerator == 0 then
        Some("Dividing by zero is not possible")
      else None
  }

  /** Visit of a validator: check the node, then visit its arguments in order. */
  function Validate(v: Validator, n: Tr.Node): Result<Tr.Node>
    decreases n, 1
  {
    match Objection(v, n)
    case Some(reason) => Fail(ParserError, reason)
    case None =>
      if !n.HasArgs() then Ok(n)
      else
        match ValidateAll(v, n.args)
        case Ok(args) => Ok(n.WithArgs(args))
        case Err(e) => Err(e)
  }

  /** `args.map(arg => this.Visit(arg))`, stopping at the first throw. */
  function ValidateAll(v: Validator, args: seq<Tr.Node>): Result<seq<Tr.Node>>
    decreases args, 0
  {
    if args == [] then Ok([])
    else
      match Validate(v, args[0])
      case Err(e) => Err(e)
      case Ok(a) =>
        match ValidateAll(v, args[1..])
        case Err(e) => Err(e)
        case Ok(rest) => Ok([a] + rest)
  }

  /** No node of the tree, at any depth, draws an objection. */
  predicate Accepted(v: Validator, n: Tr.Node)
    decreases n
  {
    && Objection(v, n).None?
    && (n.HasArgs() ==> forall i :: 0 <= i < |n.args| ==> Accepted(v, n.args[i]))
  }

  /** A validator succeeds exactly when every node at every depth passes its check; it
      then returns the tree unchanged, and otherwise throws a Parser error. */
  lemma {:induction false} ValidateSpec(v: Validator, n: Tr.Node)
    ensures Validate(v, n).Ok? <==> Accepted(v, n)
    ensures Validate(v, n).Ok? ==> Validate(v, n).value == n
    ensures Validate(v, n).Err? ==> Validate(v, n).error.kind == ParserError
    decreases n, 1
  {
    if Objection(v, n).None? && n.HasArgs() {
      ValidateAllSpec(v, n.args);
    }
  }

  lemma {:induction false} ValidateAllSpec(v: Validator, args: seq<Tr.Node>)
    ensures ValidateAll(v, args).Ok? <==> forall i :: 0 <= i < |args| ==> Accepted(v, args[i])
    ensures ValidateAll(v, args).Ok? ==> ValidateAll(v, args).value == args
    ensures ValidateAll(v, args).Err? ==> ValidateAll(v, args).error.kind == ParserError
    decreases args, 0
  {
    if args != [] {
      ValidateSpec(v, args[0]);
      ValidateAllSpec(v, args[1..]);
      if forall i :: 0 <= i < |args[1..]| ==> Accepted(v, args[1..][i]) {
        forall i | 1 <= i < |args| ensures Accepted(v, args[i]) {
          assert args[i] == args[1..][i - 1];
        }
      }
      if Validate(v, args[0]).Ok? && ValidateAll(v, args[1..]).Ok? {
        assert [args[0]] + args[1..] == args;
      }
    }
  }

  /** The checks of FunctionValidator: a function is rejected when no registered function
      has its name, and when the first one that has it declares another arity, even if a
      later entry with the same name would fit. */
  lemma FunctionRules(functions: seq<R.FunctionEntry>, name: string, args: seq<Tr.Node>)
    ensures (forall k :: 0 <= k < |functions| ==> name !in functions[k].names) ==>
      Validate(FunctionCheck(functions), Tr.Function(name, args)).Err?
    ensures forall k :: FirstNaming(functions, name, k) && functions[k].arguments != |args| ==>
      Validate(FunctionCheck(functions), Tr.Function(name, args)).Err?
    ensures forall k :: FirstNaming(functions, name, k) && functions[k].arguments == |args| ==>
      Objection(FunctionCheck(functions), Tr.Function(name, args)).None?
  {
    forall k | FirstNaming(functions, name, k)
      ensures FindFunction(functions, name) == Some(functions[k])
    {
      var r := FindFunction(functions, name);
      var k' :| FirstNaming(functions, name, k') && functions[k'] == r.value;
      assert k' == k;
    }
  }

  /** Only the first registered entry of a name decides: with [f/1, f/2] registered, a
      two-argument f is rejected. */
  lemma FirstEntryDecides(a: Tr.Node, b: Tr.Node)
    ensures var fs := [R.FunctionEntry(["f"], 1), R.FunctionEntry(["f"], 2)];
      Validate(FunctionCheck(fs), Tr.Function("f", [a, b])).Err?
  {
  }

  /** The checks of LeafValidator on leaves: names must be nonempty, a constant must be
      registered, and neither part of a literal may have a zero denominator. */
  lemma LeafRules(constants: map<string, Tr.Node>, name: string, number: C.Complex)
    ensures Validate(LeafCheck(constants), Tr.Variable(name)).Ok? <==> |name| > 0
    ensures Validate(LeafCheck(constants), Tr.Constant(name)).Ok? <==> |name| > 0 && name in constants
    ensures Validate(LeafCheck(constants), Tr.Literal(number)).Ok? <==>
      number.re.denominator != 0 && number.im.denominator != 0
  {
  }

  /** TensorValidator accepts a tensor only when its nesting matches its shape, and the
      rows are checked as well. */
  lemma TensorRules(shape: seq<int>, args: seq<Tr.Node>)
    ensures Validate(TensorCheck, Tr.Tensor(shape, args)).Ok? <==>
      TU.ValidateTensorShape(args, shape, 0) && forall i :: 0 <= i < |args| ==> Accepted(TensorCheck, args[i])
  {
    ValidateSpec(TensorCheck, Tr.Tensor(shape, args));
  }

  /** The checks of OperatorValidator at the root of a tree. */
  lemma OperatorRules(n: Tr.Node)
    requires Validate(OperatorCheck, n).Ok?
    ensures n.Add? || n.Multiply? ==> |n.args| >= 2
    ensures n.Absolute? || n.Factorial? ==> |n.args| == 1
    ensures n.Exponentiation? ==> |n.args| == 2 && !NT.Zero(n.args[1])
    ensures n.Exponentiation? && NT.Zero(n.args[0]) && n.args[1].Literal? ==>
      n.args[1].number.re.numerator >= 0 || n.args[1].number.im.numerator != 0
  {
  }

  /** 0 ^ -1 is rejected as a division by zero; 0 ^ i is accepted. */
  lemma ZeroBaseNegativeExponent(zero: Tr.Node, e: Tr.Node)
    requires NT.Zero(zero) && e.Literal? && !NT.Zero(e)
    ensures e.number.re.numerator < 0 && e.number.im.numerator == 0 ==>
      Validate(OperatorCheck, Tr.Exponentiation([zero, e])).Err?
    ensures e.number.im.numerator != 0 ==> Validate(OperatorCheck, Tr.Exponentiation([zero, e])).Ok?
  {
    var n := Tr.Exponentiation([zero, e]);
    ValidateSpec(OperatorCheck, n);
    assert Accepted(OperatorCheck, zero) && Accepted(OperatorCheck, e);
  }

  /** Sums and products of variables: the trees for which OperatorValidator's arity rule
      is the whole story. */
  predicate SumsAndProducts(n: Tr.Node)
    decreases n
  {
    || n.Variable?
    || ((n.Add? || n.Multiply?) && forall i :: 0 <= i < |n.args| ==> SumsAndProducts(n.args[i]))
  }

  /** On sums and products of variables, OperatorValidator accepts exactly the trees on
      which the flattening visitor is proved to keep the value. */
  lemma {:induction false} OperatorAcceptsPolynomials(n: Tr.Node)
    requires SumsAndProducts(n)
    ensures Accepted(OperatorCheck, n) <==> V.Polynomial(n)
    decreases n
  {
    if n.Add? || n.Multiply? {
      forall i | 0 <= i < |n.args| ensures Accepted(OperatorCheck, n.args[i]) <==> V.Polynomial(n.args[i]) {
        OperatorAcceptsPolynomials(n.args[i]);
      }
    }
  }

  /** LeafValidator's check of a constant: the `pairs` loop over the registry's constants
      that sets `has` when a key equals the name. */
  method HasConstant(constants: map<string, Tr.Node>, name: string) returns (has: bool)
    ensures has <==> name in constants
  {
    has := false;
    var keys := constants.Keys;
    while keys != {}
      invariant keys <= constants.Keys
      invariant has <==> name in constants.Keys - keys
      decreases keys
    {
      var key :| key in keys;
      if key == name {
        has := true;
      }
      keys := keys - {key};
    }
  }

  /** LeafValidator's Visit of a leaf, with the key lookup done by the loop. */
  method ValidateLeaf(constants: map<string, Tr.Node>, n: Tr.Node) returns (r: Result<Tr.Node>)
    requires !n.HasArgs()
    ensures r == Validate(LeafCheck(constants), n)
  {
    if n.Variable? && |n.name| == 0 {
      return Fail(ParserError, "Variable name cannot be empty");
    }
    if n.Constant? {
      if |n.name| == 0 {
        return Fail(ParserError, "Constant name cannot be empty");
      }
      var has := HasConstant(constants, n.name);
      if !has {
        return Fail(ParserError, "Constant not found");
      }
    }
    if n.Literal? && (n.number.re.denominator == 0 || n.number.im.denominator == 0) {
      return Fail(ParserError, "Literal cannot have a zero denominator");
    }
    return Ok(n);
  }
}
