/** Symbolic differentiation (src/AST/Calculus.ts): the Derivative visitor, one rule per
    node kind, with respect to one variable. */
module Calculus {
  import opened Wrappers
  import Tr = Tree
  import N = Nodes
  import B = BasicNodes

  /** The function-derivative table: for a function name, the derivative builder of the
      first entry whose names include it, applied to the function's arguments. */
  type Table = string -> Option<seq<Tr.Node> -> Tr.Node>

  /** What the rule for a variable other than the one differentiated by does: as written
      it visits the same node again, with no progress; held constant, it gives 0. */
  datatype OtherVariables = Revisited | HeldConstant

  /** The derivative of `n` with respect to `x`, or the error the visitor throws: the
      dispatch of Visit on the node's kind. */
  function Derive(n: Tr.Node, x: string, table: Table, others: OtherVariables): (r: Result<Tr.Node>)
    ensures r.Ok? && n.Exponentiation? ==> |n.args| >= 2
    decreases n, 3
  {
    match n
    case Literal(_) => Ok(N.Zero())
    case Constant(_) => Ok(N.Zero())
    case Variable(name) =>
      if name == x then Ok(N.One())
      else if others.Revisited? then Fail(Diverges, "stack overflow")
      else Ok(N.Zero())
    case Add(_) => DeriveSum(n, x, table, others)
    case Multiply(_) => DeriveProduct(n, x, table, others)
    case Exponentiation(_) => DerivePower(n, x, table, others)
    case Absolute(_) => DeriveAbsolute(n, x, table, others)
    case Function(_, _) => DeriveFunction(n, x, table, others)
    case Factorial(_) => Fail(DerivativeError, "Factorial derivative not implemented")
    case Equals(_) => Fail(DerivativeError, "Equals derivative not implemented")
    case List(_) => DeriveElements(n, x, table, others)
    case Tensor(_, _) => DeriveElements(n, x, table, others)
  }

  /** VisitAdd */
  function DeriveSum(n: Tr.Node, x: string, table: Table, others: OtherVariables): Result<Tr.Node>
    requires n.Add?
    decreases n, 2
  {
    var ds :- DeriveAll(n, |n.args|, x, table, others);
    Ok(N.Add(ds))
  }

  /** VisitMultiply */
  function DeriveProduct(n: Tr.Node, x: string, table: Table, others: OtherVariables): Result<Tr.Node>
    requires n.Multiply?
    decreases n, 2
  {
    if |n.args| == 0 then Ok(N.Zero())
    else if |n.args| == 1 then Derive(n.args[0], x, table, others)
    else
      var ds :- DeriveAll(n, |n.args|, x, table, others);
      Ok(N.Add(Summands(n.args, ds)))
  }

  /** VisitExponentiation: both arguments are visited before the result is built. */
  function DerivePower(n: Tr.Node, x: string, table: Table, others: OtherVariables): (r: Result<Tr.Node>)
    requires n.Exponentiation?
    ensures r.Ok? ==>
      |n.args| >= 2 && Derive(n.args[0], x, table, others).Ok? && Derive(n.args[1], x, table, others).Ok?
    decreases n, 2
  {
    var db :- DeriveArg(n, 0, x, table, others);
    var de :- DeriveArg(n, 1, x, table, others);
    Ok(PowerRule(n.args[0], n.args[1], db, de))
  }

  /** VisitAbsolute */
  function DeriveAbsolute(n: Tr.Node, x: string, table: Table, others: OtherVariables): (r: Result<Tr.Node>)
    requires n.Absolute?
    ensures r.Ok? ==> |n.args| >= 1 && Derive(n.args[0], x, table, others).Ok?
    decreases n, 2
  {
    if |n.args| == 0 then Fail(HostError, "attempt to index nil")
    else
      var d :- Derive(n.args[0], x, table, others);
      Ok(N.Multiply([N.Divide(n.args[0], n), d]))
  }

  /** VisitFunction: the first argument is visited before the table is consulted. */
  function DeriveFunction(n: Tr.Node, x: string, table: Table, others: OtherVariables): Result<Tr.Node>
    requires n.Function?
    decreases n, 2
  {
    var d :- DeriveArg(n, 0, x, table, others);
    match table(n.name)
    case None => Fail(DerivativeError, "Function not found")
    case Some(rule) => Ok(N.Multiply([rule(n.args), d]))
  }

  /** VisitList and VisitTensor */
  function DeriveElements(n: Tr.Node, x: string, table: Table, others: OtherVariables): Result<Tr.Node>
    requires n.List? || n.Tensor?
    decreases n, 2
  {
    var ds :- DeriveAll(n, |n.args|, x, table, others);
    if n.List? then Ok(B.List(ds)) else Ok(B.Tensor(ds, n.shape))
  }

  /** b^e · (b'·(e/b) + e'·ln(b)), built with the folding constructors. */
  function PowerRule(base: Tr.Node, exp: Tr.Node, db: Tr.Node, de: Tr.Node): Tr.Node
    requires base.Exponentiation? ==> |base.args| >= 2
  {
    N.Multiply([
      N.Exponentiation(base, exp),
      N.Add([N.Multiply([db, N.Divide(exp, base)]), N.Multiply([de, B.Function("ln", [base])])])
    ])
  }

  /** `this.Visit(node.args[k])`: a missing argument is nil, and visiting it indexes nil. */
  function DeriveArg(n: Tr.Node, k: nat, x: string, table: Table, others: OtherVariables): (r: Result<Tr.Node>)
    requires n.HasArgs()
    decreases n, 1
  {
    if k < |n.args| then Derive(n.args[k], x, table, others) else Fail(HostError, "attempt to index nil")
  }

  /** `node.args.map(arg => this.Visit(arg))` over the first `count` arguments: the first
      error thrown, left to right, ends the map. */
  function DeriveAll(n: Tr.Node, count: nat, x: string, table: Table, others: OtherVariables): (r: Result<seq<Tr.Node>>)
    requires n.HasArgs() && count <= |n.args|
    ensures r.Ok? ==> |r.value| == count
    decreases n, 0, count
  {
    if count == 0 then Ok([])
    else
      var front :- DeriveAll(n, count - 1, x, table, others);
      var d :- Derive(n.args[count - 1], x, table, others);
      Ok(front + [d])
  }

  /** The summands of the product rule: summand i is the product of the factors with
      factor i replaced by its derivative. */
  function Summands(factors: seq<Tr.Node>, ds: seq<Tr.Node>): seq<Tr.Node>
    requires |ds| == |factors|
  {
    seq(|factors|, i requires 0 <= i < |factors| => N.Multiply(factors[i := ds[i]]))
  }

  // ---- what each rule gives ----

  /** Every stored argument is differentiated, in order, and the map succeeds exactly
      when each of them does. */
  lemma DeriveAllSpec(n: Tr.Node, count: nat, x: string, table: Table, others: OtherVariables)
    requires n.HasArgs() && count <= |n.args|
    ensures DeriveAll(n, count, x, table, others).Ok? <==>
      forall k :: 0 <= k < count ==> Derive(n.args[k], x, table, others).Ok?
    ensures DeriveAll(n, count, x, table, others).Ok? ==>
      var ds := DeriveAll(n, count, x, table, others).value;
      |ds| == count && forall k :: 0 <= k < count ==> Derive(n.args[k], x, table, others) == Ok(ds[k])
  {
    if DeriveAll(n, count, x, table, others).Ok? {
      DeriveAllValues(n, count, x, table, others);
    }
    DeriveAllOk(n, count, x, table, others);
  }

  lemma {:induction false} DeriveAllValues(n: Tr.Node, count: nat, x: string, table: Table, others: OtherVariables)
    requires n.HasArgs() && count <= |n.args| && DeriveAll(n, count, x, table, others).Ok?
    ensures var ds := DeriveAll(n, count, x, table, others).value;
      |ds| == count && forall k :: 0 <= k < count ==> Derive(n.args[k], x, table, others) == Ok(ds[k])
    decreases count
  {
    if count > 0 {
      var c := count - 1;
      DeriveAllStep(n, count, x, table, others);
      DeriveAllValues(n, c, x, table, others);
      var front := DeriveAll(n, c, x, table, others).value;
      var ds := DeriveAll(n, count, x, table, others).value;
      forall k | 0 <= k < count ensures Derive(n.args[k], x, table, others) == Ok(ds[k]) {
        if k < c { assert ds[k] == front[k]; }
      }
    }
  }

  lemma {:induction false} DeriveAllOk(n: Tr.Node, count: nat, x: string, table: Table, others: OtherVariables)
    requires n.HasArgs() && count <= |n.args|
    ensures (forall k :: 0 <= k < count ==> Derive(n.args[k], x, table, others).Ok?) ==>
      DeriveAll(n, count, x, table, others).Ok?
    decreases count
  {
    if count > 0 {
      DeriveAllOk(n, count - 1, x, table, others);
      DeriveAllStep(n, count, x, table, others);
    }
  }

  /** One more argument: the map over `count` arguments is the map over the first
      count - 1 followed by the last one's derivative, whichever fails first. */
  lemma DeriveAllStep(n: Tr.Node, count: nat, x: string, table: Table, others: OtherVariables)
    requires n.HasArgs() && 0 < count <= |n.args|
    ensures var front := DeriveAll(n, count - 1, x, table, others);
      var d := Derive(n.args[count - 1], x, table, others);
      DeriveAll(n, count, x, table, others)
        == if front.Err? then Err(front.error) else if d.Err? then Err(d.error) else Ok(front.value + [d.value])
  {
  }

  /** A failing map fails with the error of the first argument whose derivative fails. */
  lemma {:induction false} DeriveAllFails(n: Tr.Node, count: nat, x: string, table: Table, others: OtherVariables)
    requires n.HasArgs() && count <= |n.args| && DeriveAll(n, count, x, table, others).Err?
    ensures exists k :: FailsFirst(n, count, k, x, table, others)
    decreases count
  {
    if DeriveAll(n, count - 1, x, table, others).Err? {
      DeriveAllFails(n, count - 1, x, table, others);
      var k :| FailsFirst(n, count - 1, k, x, table, others);
      assert FailsFirst(n, count, k, x, table, others);
    } else {
      DeriveAllSpec(n, count - 1, x, table, others);
      assert FailsFirst(n, count, count - 1, x, table, others);
    }
  }

  /** Argument k, among the first `count`, is the first whose derivative fails, and the
      map fails with its error. */
  predicate FailsFirst(n: Tr.Node, count: nat, k: int, x: string, table: Table, others: OtherVariables)
    requires n.HasArgs() && count <= |n.args|
  {
    k < count && FirstFailure(n, k, x, table, others)
    && DeriveAll(n, count, x, table, others).Err?
    && DeriveAll(n, count, x, table, others).error == Derive(n.args[k], x, table, others).error
  }

  /** Argument k is the first whose derivative fails. */
  predicate FirstFailure(n: Tr.Node, k: int, x: string, table: Table, others: OtherVariables)
    requires n.HasArgs()
  {
    0 <= k < |n.args| && Derive(n.args[k], x, table, others).Err?
    && forall j :: 0 <= j < k ==> Derive(n.args[j], x, table, others).Ok?
  }

  /** Once the first `count` arguments fail, so do all of them, with the same error. */
  lemma {:induction false} DeriveAllPrefixErr(n: Tr.Node, count: nat, more: nat, x: string, table: Table, others: OtherVariables)
    requires n.HasArgs() && count <= more <= |n.args| && DeriveAll(n, count, x, table, others).Err?
    ensures DeriveAll(n, more, x, table, others) == DeriveAll(n, count, x, table, others)
    decreases more - count
  {
    if count < more {
      assert DeriveAll(n, count + 1, x, table, others) == DeriveAll(n, count, x, table, others);
      DeriveAllPrefixErr(n, count + 1, more, x, table, others);
    }
  }

  /** Summand k of the product rule: factor k replaced by its derivative. */
  predicate IsSummand(n: Tr.Node, k: nat, x: string, table: Table, others: OtherVariables, t: Tr.Node)
    requires n.Multiply? && k < |n.args|
  {
    Derive(n.args[k], x, table, others).Ok?
    && t == N.Multiply(n.args[k := Derive(n.args[k], x, table, others).value])
  }

  /** The rules for leaves: constants and literals give 0, the variable itself 1. */
  lemma LeafRules(name: string, x: string, table: Table, others: OtherVariables)
    ensures Derive(Tr.Variable(x), x, table, others) == Ok(N.One())
    ensures Derive(Tr.Constant(name), x, table, others) == Ok(N.Zero())
    ensures name != x ==>
      Derive(Tr.Variable(name), x, table, others)
      == if others.Revisited? then Fail(Diverges, "stack overflow") else Ok(N.Zero())
  {
  }

  /** A sum differentiates term by term. */
  lemma SumRule(n: Tr.Node, x: string, table: Table, others: OtherVariables)
    requires n.Add?
    ensures Derive(n, x, table, others).Ok? <==>
      forall k :: 0 <= k < |n.args| ==> Derive(n.args[k], x, table, others).Ok?
    ensures Derive(n, x, table, others).Ok? ==> exists ds: seq<Tr.Node> ::
      |ds| == |n.args| && Derive(n, x, table, others) == Ok(N.Add(ds))
      && forall k :: 0 <= k < |n.args| ==> Derive(n.args[k], x, table, others) == Ok(ds[k])
  {
    assert Derive(n, x, table, others) == DeriveSum(n, x, table, others);
    DeriveAllSpec(n, |n.args|, x, table, others);
    if Derive(n, x, table, others).Ok? {
      var ds := DeriveAll(n, |n.args|, x, table, others).value;
      assert Derive(n, x, table, others) == Ok(N.Add(ds));
    }
  }

  /** A product of two or more factors gives the sum of its product-rule summands. */
  lemma ProductRule(n: Tr.Node, x: string, table: Table, others: OtherVariables)
    requires n.Multiply? && |n.args| >= 2
    ensures Derive(n, x, table, others).Ok? <==>
      forall k :: 0 <= k < |n.args| ==> Derive(n.args[k], x, table, others).Ok?
    ensures Derive(n, x, table, others).Ok? ==> exists ts: seq<Tr.Node> ::
      |ts| == |n.args| && Derive(n, x, table, others) == Ok(N.Add(ts))
      && forall k :: 0 <= k < |n.args| ==> IsSummand(n, k, x, table, others, ts[k])
  {
    assert Derive(n, x, table, others) == DeriveProduct(n, x, table, others);
    DeriveAllSpec(n, |n.args|, x, table, others);
    if Derive(n, x, table, others).Ok? {
      var ds := DeriveAll(n, |n.args|, x, table, others).value;
      var ts := Summands(n.args, ds);
      assert Derive(n, x, table, others) == Ok(N.Add(ts));
      assert forall k :: 0 <= k < |n.args| ==> IsSummand(n, k, x, table, others, ts[k]);
    }
  }

  /** Lists and tensors differentiate element by element, and a tensor keeps its shape. */
  lemma ElementwiseRule(n: Tr.Node, x: string, table: Table, others: OtherVariables)
    requires n.List? || n.Tensor?
    requires Derive(n, x, table, others).Ok?
    ensures var r := Derive(n, x, table, others).value;
      r.Kind() == n.Kind() && |r.args| == |n.args|
      && (n.Tensor? ==> r.shape == n.shape)
      && forall k :: 0 <= k < |n.args| ==> Derive(n.args[k], x, table, others) == Ok(r.args[k])
  {
    assert Derive(n, x, table, others) == DeriveElements(n, x, table, others);
    DeriveAllSpec(n, |n.args|, x, table, others);
  }

  /** b^e differentiates to b^e · (b'·(e/b) + e'·ln(b)) once both arguments do; a
      missing argument is a nil error. */
  lemma PowerDerivative(n: Tr.Node, x: string, table: Table, others: OtherVariables)
    requires n.Exponentiation?
    ensures |n.args| == 0 ==> Derive(n, x, table, others) == Fail(HostError, "attempt to index nil")
    ensures |n.args| == 1 && Derive(n.args[0], x, table, others).Ok? ==>
      Derive(n, x, table, others) == Fail(HostError, "attempt to index nil")
    ensures |n.args| >= 2 && Derive(n.args[0], x, table, others).Ok? && Derive(n.args[1], x, table, others).Ok? ==>
      Derive(n, x, table, others) == Ok(PowerRule(n.args[0], n.args[1],
        Derive(n.args[0], x, table, others).value, Derive(n.args[1], x, table, others).value))
  {
    assert Derive(n, x, table, others) == DerivePower(n, x, table, others);
    ArgsOfPower(n, x, table, others);
  }

  /** The two arguments VisitExponentiation visits, nil when missing. */
  lemma ArgsOfPower(n: Tr.Node, x: string, table: Table, others: OtherVariables)
    requires n.Exponentiation?
    ensures |n.args| >= 1 ==> DeriveArg(n, 0, x, table, others) == Derive(n.args[0], x, table, others)
    ensures |n.args| >= 2 ==> DeriveArg(n, 1, x, table, others) == Derive(n.args[1], x, table, others)
    ensures |n.args| == 0 ==> DeriveArg(n, 0, x, table, others) == Fail(HostError, "attempt to index nil")
    ensures |n.args| <= 1 ==> DeriveArg(n, 1, x, table, others) == Fail(HostError, "attempt to index nil")
  {
  }

  /** |u| differentiates to (u/|u|)·u'. */
  lemma AbsoluteDerivative(n: Tr.Node, x: string, table: Table, others: OtherVariables)
    requires n.Absolute? && |n.args| >= 1 && Derive(n.args[0], x, table, others).Ok?
    ensures Derive(n, x, table, others)
      == Ok(N.Multiply([N.Divide(n.args[0], n), Derive(n.args[0], x, table, others).value]))
  {
    assert Derive(n, x, table, others) == DeriveAbsolute(n, x, table, others);
  }

  /** f(u, ...) differentiates to the table's derivative of f times u', and throws when
      the table has no entry for f. */
  lemma FunctionDerivative(n: Tr.Node, x: string, table: Table, others: OtherVariables)
    requires n.Function? && |n.args| >= 1 && Derive(n.args[0], x, table, others).Ok?
    ensures table(n.name).None? ==> Derive(n, x, table, others) == Fail(DerivativeError, "Function not found")
    ensures table(n.name).Some? ==>
      Derive(n, x, table, others)
      == Ok(N.Multiply([table(n.name).value(n.args), Derive(n.args[0], x, table, others).value]))
  {
    assert Derive(n, x, table, others) == DeriveFunction(n, x, table, others);
    assert DeriveArg(n, 0, x, table, others) == Derive(n.args[0], x, table, others);
  }

  /** Factorials and equations have no derivative. */
  lemma ThrowingRules(n: Tr.Node, x: string, table: Table, others: OtherVariables)
    requires n.Factorial? || n.Equals?
    ensures Derive(n, x, table, others).Err? && Derive(n, x, table, others).error.kind == DerivativeError
  {
  }

  /** The visitor throws only Derivative errors, nil errors, or (as written) the overflow
      of the endless re-visit. */
  lemma {:induction false} ErrorKinds(n: Tr.Node, x: string, table: Table, others: OtherVariables)
    requires Derive(n, x, table, others).Err?
    ensures Derive(n, x, table, others).error.kind in {DerivativeError, HostError, Diverges}
    ensures others.HeldConstant? ==> Derive(n, x, table, others).error.kind != Diverges
    decreases n
  {
    match n
    case Add(args) => FirstError(n, x, table, others);
    case List(args) => FirstError(n, x, table, others);
    case Tensor(_, args) => FirstError(n, x, table, others);
    case Multiply(args) =>
      assert Derive(n, x, table, others) == DeriveProduct(n, x, table, others);
      if |args| == 1 {
        ErrorKinds(args[0], x, table, others);
      } else if |args| >= 2 {
        FirstError(n, x, table, others);
      }
    case Exponentiation(args) =>
      assert Derive(n, x, table, others) == DerivePower(n, x, table, others);
      ArgsOfPower(n, x, table, others);
      if |args| >= 1 && Derive(args[0], x, table, others).Err? {
        ErrorKinds(args[0], x, table, others);
      } else if |args| >= 2 && Derive(args[1], x, table, others).Err? {
        ErrorKinds(args[1], x, table, others);
      }
    case Absolute(args) =>
      assert Derive(n, x, table, others) == DeriveAbsolute(n, x, table, others);
      if |args| >= 1 && Derive(args[0], x, table, others).Err? {
        ErrorKinds(args[0], x, table, others);
      }
    case Function(_, args) =>
      assert Derive(n, x, table, others) == DeriveFunction(n, x, table, others);
      assert DeriveArg(n, 0, x, table, others)
        == if |args| >= 1 then Derive(args[0], x, table, others) else Fail(HostError, "attempt to index nil");
      if |args| >= 1 && Derive(args[0], x, table, others).Err? {
        ErrorKinds(args[0], x, table, others);
      }
    case _ =>
  }

  /** The error of an element-wise map is that of an argument. */
  lemma FirstError(n: Tr.Node, x: string, table: Table, others: OtherVariables)
    requires n.Add? || n.List? || n.Tensor? || (n.Multiply? && |n.args| >= 2)
    requires Derive(n, x, table, others).Err?
    ensures Derive(n, x, table, others).error.kind in {DerivativeError, HostError, Diverges}
    ensures others.HeldConstant? ==> Derive(n, x, table, others).error.kind != Diverges
    decreases n, 0
  {
    assert n.Add? ==> Derive(n, x, table, others) == DeriveSum(n, x, table, others);
    assert n.Multiply? ==> Derive(n, x, table, others) == DeriveProduct(n, x, table, others);
    assert (n.List? || n.Tensor?) ==> Derive(n, x, table, others) == DeriveElements(n, x, table, others);
    DeriveAllFails(n, |n.args|, x, table, others);
    var k :| FailsFirst(n, |n.args|, k, x, table, others);
    ErrorKinds(n.args[k], x, table, others);
  }

  /** As written, a derivative exists only for trees whose one variable is the one
      differentiated by: any other variable sends the visitor round forever. */
  lemma {:induction false} OnlyTheVariable(n: Tr.Node, x: string, table: Table)
    requires Regular(n) && Derive(n, x, table, Revisited).Ok?
    ensures Tr.Vars(n) <= {x}
    decreases n
  {
    if n.HasArgs() && !n.Factorial? && !n.Equals? {
      forall y | y in Tr.Vars(n)
        ensures y == x
      {
        Tr.VarsAllMember(n.args, y);
        var i :| 0 <= i < |n.args| && y in Tr.Vars(n.args[i]);
        ArgDerives(n, i, x, table, Revisited);
        assert Regular(n.args[i]);
        OnlyTheVariable(n.args[i], x, table);
      }
    }
  }

  /** No function calls, whose arguments after the first are not visited, and powers and
      absolute values with exactly the arguments their rules read. */
  predicate Regular(n: Tr.Node)
    decreases n
  {
    !n.Function?
    && (n.Exponentiation? ==> |n.args| == 2)
    && (n.Absolute? ==> |n.args| == 1)
    && (n.HasArgs() ==> forall k :: 0 <= k < |n.args| ==> Regular(n.args[k]))
  }

  /** When a node whose rule reads all of its arguments differentiates, so does each
      argument it has. */
  lemma ArgDerives(n: Tr.Node, i: nat, x: string, table: Table, others: OtherVariables)
    requires !n.Function? && (n.Exponentiation? ==> |n.args| == 2) && (n.Absolute? ==> |n.args| == 1)
    requires n.HasArgs() && i < |n.args| && Derive(n, x, table, others).Ok?
    ensures Derive(n.args[i], x, table, others).Ok?
  {
    if n.Add? || n.List? || n.Tensor? || (n.Multiply? && |n.args| >= 2) {
      MappedArgDerives(n, i, x, table, others);
    } else if n.Multiply? {
      SingleFactorDerives(n, x, table, others);
    } else if n.Exponentiation? {
      PowerArgsDerive(n, x, table, others);
      assert i == 0 || i == 1;
      assert n.args[i] in n.args[..2];
    } else if n.Absolute? {
      AbsoluteArgDerives(n, x, table, others);
    } else {
      ThrowingRules(n, x, table, others);
    }
  }

  lemma SingleFactorDerives(n: Tr.Node, x: string, table: Table, others: OtherVariables)
    requires n.Multiply? && |n.args| == 1 && Derive(n, x, table, others).Ok?
    ensures Derive(n.args[0], x, table, others).Ok?
  {
    assert Derive(n, x, table, others) == DeriveProduct(n, x, table, others);
  }

  lemma PowerArgsDerive(n: Tr.Node, x: string, table: Table, others: OtherVariables)
    requires n.Exponentiation? && Derive(n, x, table, others).Ok?
    ensures |n.args| >= 2 && Derive(n.args[0], x, table, others).Ok? && Derive(n.args[1], x, table, others).Ok?
  {
    assert Derive(n, x, table, others) == DerivePower(n, x, table, others);
  }

  lemma AbsoluteArgDerives(n: Tr.Node, x: string, table: Table, others: OtherVariables)
    requires n.Absolute? && Derive(n, x, table, others).Ok?
    ensures |n.args| >= 1 && Derive(n.args[0], x, table, others).Ok?
  {
    assert Derive(n, x, table, others) == DeriveAbsolute(n, x, table, others);
  }

  /** The kinds whose every argument is differentiated by the map. */
  lemma MappedArgDerives(n: Tr.Node, i: nat, x: string, table: Table, others: OtherVariables)
    requires n.Add? || n.List? || n.Tensor? || (n.Multiply? && |n.args| >= 2)
    requires i < |n.args| && Derive(n, x, table, others).Ok?
    ensures Derive(n.args[i], x, table, others).Ok?
  {
    assert n.Add? ==> Derive(n, x, table, others) == DeriveSum(n, x, table, others);
    assert n.Multiply? ==> Derive(n, x, table, others) == DeriveProduct(n, x, table, others);
    assert (n.List? || n.Tensor?) ==> Derive(n, x, table, others) == DeriveElements(n, x, table, others);
    DeriveAllSpec(n, |n.args|, x, table, others);
  }

  /** The variable that is not differentiated by: as written the visit never returns;
      held constant its derivative is 0. */
  lemma OtherVariable(x: string, table: Table)
    ensures Derive(Tr.Variable(x + "'"), x, table, Revisited).Err?
    ensures Derive(Tr.Variable(x + "'"), x, table, Revisited).error.kind == Diverges
    ensures Derive(Tr.Variable(x + "'"), x, table, HeldConstant) == Ok(N.Zero())
  {
    assert |x + "'"| != |x|;
  }

  /** The Derivative class: the variable to differentiate by, "x" by default, and a
      visit that uses the corrected rule for other variables. */
  class DerivativeVisitor {
    var variable: string
    const table: Table

    constructor(variable: Option<string>, table: Table)
      ensures this.variable == if variable.Some? && variable.value != "" then variable.value else "x"
      ensures this.table == table
    {
      this.variable := if variable.Some? && variable.value != "" then variable.value else "x";
      this.table := table;
    }

    method SetVariable(variable: string)
      modifies this
      ensures this.variable == variable
    {
      this.variable := variable;
    }

    /** VisitMultiply's outer loop: summand i for each factor i, the first failing
        derivative ending the visit. */
    method VisitMultiply(n: Tr.Node) returns (r: Result<Tr.Node>)
      requires n.Multiply? && |n.args| >= 2
      ensures r == Derive(n, variable, table, HeldConstant)
    {
      var args := n.args;
      var terms: seq<Tr.Node> := [];
      ghost var ds: seq<Tr.Node> := [];
      var i := 0;
      while i < |args|
        invariant 0 <= i <= |args|
        invariant DeriveAll(n, i, variable, table, HeldConstant) == Ok(ds)
        invariant |ds| == |terms| == i
        invariant forall k :: 0 <= k < i ==> terms[k] == N.Multiply(args[k := ds[k]])
      {
        var term := VisitFactor(n, i);
        DeriveAllStep(n, i + 1, variable, table, HeldConstant);
        if term.Err? {
          DeriveAllPrefixErr(n, i + 1, |args|, variable, table, HeldConstant);
          assert Derive(n, variable, table, HeldConstant) == DeriveProduct(n, variable, table, HeldConstant);
          return term;
        }
        ghost var d := Derive(args[i], variable, table, HeldConstant).value;
        ghost var before := terms;
        terms := terms + [term.value];
        ds := ds + [d];
        forall k | 0 <= k < i + 1 ensures terms[k] == N.Multiply(args[k := ds[k]]) {
          if k < i { assert terms[k] == before[k]; }
        }
        i := i + 1;
      }
      assert terms == Summands(args, ds);
      assert Derive(n, variable, table, HeldConstant) == DeriveProduct(n, variable, table, HeldConstant);
      r := Ok(N.Add(terms));
    }

    /** VisitMultiply's inner loop: the factors with factor i replaced by its derivative,
        multiplied; or the error that derivative throws. */
    method VisitFactor(n: Tr.Node, i: nat) returns (r: Result<Tr.Node>)
      requires n.Multiply? && i < |n.args|
      ensures var di := Derive(n.args[i], variable, table, HeldConstant);
        r == if di.Err? then Err(di.error) else Ok(N.Multiply(n.args[i := di.value]))
    {
      var args := n.args;
      var mulArgs: seq<Tr.Node> := [];
      var d: Tr.Node := args[i];
      var j := 0;
      while j < |args|
        invariant 0 <= j <= |args| && |mulArgs| == j
        invariant i < j ==> Derive(args[i], variable, table, HeldConstant) == Ok(d)
        invariant forall k :: 0 <= k < j ==> mulArgs[k] == if k == i then d else args[k]
      {
        if i == j {
          var di := Derive(args[i], variable, table, HeldConstant);
          if di.Err? {
            return Err(di.error);
          }
          d := di.value;
        }
        mulArgs := mulArgs + [if i == j then d else args[j]];
        j := j + 1;
      }
      assert mulArgs == args[i := d];
      r := Ok(N.Multiply(mulArgs));
    }
  }
}
