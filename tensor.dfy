/** The tensor operations of TensorUtils (src/Math/Symbolic/Tensor.ts). A tensor's `args`
    hold its elements in row-major order; `Tensor` nodes are the `TensorNode` subset of
    the tree. A missing array element (Luau `nil`) is modelled by `At`, which gives the
    element as a one-element list, or nothing. */
module TensorUtils {
  import opened Wrappers
  import opened TensorIndex
  import A = Arith
  import Tr = Tree
  import B = BasicNodes
  import N = Nodes

  type TensorNode = n: Tr.Node | n.Tensor? witness Tr.Tensor([], [])

  /** The number of rounds of `for (let i = 0; i < x; i++)`. */
  function Count(x: int): nat {
    if x < 0 then 0 else x
  }

  predicate NonnegDims(shape: seq<int>) {
    forall i :: 0 <= i < |shape| ==> shape[i] >= 0
  }

  /** Dimensions are counts and the elements fill the shape exactly. */
  predicate WellFormed(t: TensorNode) {
    NonnegDims(t.shape) && |t.args| == Product(t.shape)
  }

  /** `args[i]` read from a host array: the element, or nothing past the end. */
  function At(args: seq<Tr.Node>, i: int): (r: seq<Tr.Node>)
    ensures |r| <= 1
    ensures 0 <= i < |args| ==> r == [args[i]]
  {
    if 0 <= i < |args| then [args[i]] else []
  }

  predicate IsVector(t: TensorNode) { |t.shape| == 1 }
  predicate IsMatrix(t: TensorNode) { |t.shape| == 2 }
  predicate IsHigherTensor(t: TensorNode) { |t.shape| >= 3 }

  // ---- element access ----

  /** GetElement: a bad index tuple, or a position past the stored elements, gives None. */
  function GetElement(t: TensorNode, indices: seq<int>): Option<Tr.Node> {
    match FlatIndex(indices, t.shape)
    case Ok(f) => if 0 <= f < |t.args| then Some(t.args[f]) else None
    case Err(_) => None
  }

  lemma {:induction false} ProductNonneg(shape: seq<int>)
    requires NonnegDims(shape)
    ensures Product(shape) >= 0
    ensures Product(shape) > 0 ==> PositiveDims(shape)
    decreases |shape|
  {
    if shape != [] {
      var n := |shape|;
      ProductNonneg(shape[..n - 1]);
      A.MulNonneg(Product(shape[..n - 1]), shape[n - 1]);
      if Product(shape) > 0 {
        assert Product(shape[..n - 1]) != 0 && shape[n - 1] != 0;
        assert PositiveDims(shape[..n - 1]);
        forall i | 0 <= i < n ensures shape[i] > 0 {
          if i < n - 1 {
            assert shape[i] == shape[..n - 1][i];
          }
        }
      }
    }
  }

  /** On a well-formed tensor an index tuple reads an element exactly when it is in
      bounds, and then it reads the row-major position. */
  lemma GetElementInBounds(t: TensorNode, indices: seq<int>)
    requires WellFormed(t)
    ensures GetElement(t, indices).Some? <==> InBounds(indices, t.shape)
    ensures InBounds(indices, t.shape) ==> GetElement(t, indices) == Some(t.args[Flat(indices, t.shape)])
  {
    if InBounds(indices, t.shape) {
      FlatBounds(indices, t.shape);
    }
  }

  /** Every stored element is reached by the index tuple of its flat position. */
  lemma GetElementAtFlat(t: TensorNode, f: int)
    requires WellFormed(t) && 0 <= f < |t.args|
    ensures PositiveDims(t.shape) && GetElement(t, Unflatten(f, t.shape)) == Some(t.args[f])
  {
    ProductNonneg(t.shape);
    UnflattenRoundTrip(f, t.shape);
    GetElementInBounds(t, Unflatten(f, t.shape));
  }

  /** SetElement: the tensor's element storage is updated in place at the row-major
      position of an in-bounds tuple; a bad tuple changes nothing and reports false. */
  method SetElement(args: array<Tr.Node>, shape: seq<int>, indices: seq<int>, value: Tr.Node) returns (ok: bool)
    requires InBounds(indices, shape) ==> Flat(indices, shape) < args.Length
    modifies args
    ensures ok == InBounds(indices, shape)
    ensures ok ==> 0 <= Flat(indices, shape) < args.Length && args[..] == old(args[..])[Flat(indices, shape) := value]
    ensures !ok ==> args[..] == old(args[..])
  {
    var f := IndicesToFlatIndex(indices, shape);
    if f.Err? {
      return false;
    }
    FlatBounds(indices, shape);
    args[f.value] := value;
    return true;
  }

  /** After a write, the written tuple reads the new value and every other tuple reads
      what it read before. */
  lemma SetThenGet(t: TensorNode, indices: seq<int>, other: seq<int>, value: Tr.Node)
    requires WellFormed(t) && InBounds(indices, t.shape)
    ensures 0 <= Flat(indices, t.shape) < |t.args|
    ensures GetElement(Tr.Tensor(t.shape, t.args[Flat(indices, t.shape) := value]), other)
         == if other == indices then Some(value) else GetElement(t, other)
  {
    FlatBounds(indices, t.shape);
    var t' := Tr.Tensor(t.shape, t.args[Flat(indices, t.shape) := value]);
    GetElementInBounds(t, other);
    GetElementInBounds(t', other);
    if InBounds(other, t.shape) && other != indices {
      if Flat(other, t.shape) == Flat(indices, t.shape) {
        FlatInjective(other, indices, t.shape);
      }
    }
  }

  // ---- reshape and shape comparison ----

  /** Reshape: the same elements under a shape with the same element total. */
  function Reshape(t: TensorNode, shape: seq<int>): Result<TensorNode> {
    if Product(t.shape) != Product(shape) then Fail(TensorError, "Old tensor shape is not same size as new tensor shape")
    else Ok(Tr.Tensor(shape, t.args))
  }

  /** A reshape succeeds exactly when the totals agree, keeps the elements, keeps a tensor
      well-formed, and is undone by reshaping back. */
  lemma ReshapeRoundTrip(t: TensorNode, shape: seq<int>)
    ensures Reshape(t, shape).Ok? <==> Product(t.shape) == Product(shape)
    ensures Reshape(t, shape).Ok? ==>
      (&& Reshape(t, shape).value.args == t.args
       && Reshape(Reshape(t, shape).value, t.shape) == Ok(t)
       && (WellFormed(t) && NonnegDims(shape) ==> WellFormed(Reshape(t, shape).value)))
  {
  }

  predicate TensorsCompatible(a: TensorNode, b: TensorNode) {
    |a.shape| == |b.shape| && forall i :: 0 <= i < |a.shape| ==> a.shape[i] == b.shape[i]
  }

  // ---- element-wise operations ----

  datatype ElementOp = ElementAdd | ElementSubtract | ElementMultiply | ElementDivide

  function OpName(op: ElementOp): string {
    match op
    case ElementAdd => "addition"
    case ElementSubtract => "subtraction"
    case ElementMultiply => "multiplication"
    case ElementDivide => "division"
  }

  /** A divisor that Nodes.Divide can invert: an Exponentiation carries its exponent. */
  predicate Invertible(n: Tr.Node) {
    n.Exponentiation? ==> |n.args| >= 2
  }

  /** The node built for one pair of elements: a raw Add for ElementAdd, the smart
      constructors for the other three. */
  function Combine(op: ElementOp, x: Tr.Node, y: Tr.Node): Tr.Node
    requires op == ElementDivide ==> Invertible(y)
  {
    match op
    case ElementAdd => B.Add([x, y])
    case ElementSubtract => N.Subtract(x, y)
    case ElementMultiply => N.Multiply([x, y])
    case ElementDivide => N.Divide(x, y)
  }

  /** ElementAdd, ElementSubtract, ElementMultiply and ElementDivide: incompatible shapes
      throw; otherwise element i of the result combines element i of each operand, under
      a's shape. */
  method ElementWise(op: ElementOp, a: TensorNode, b: TensorNode) returns (r: Result<TensorNode>)
    requires a.shape == b.shape ==> |a.args| <= |b.args|
    requires a.shape == b.shape && op == ElementDivide ==> forall i :: 0 <= i < |a.args| ==> Invertible(b.args[i])
    ensures r.Ok? <==> a.shape == b.shape
    ensures r.Err? ==> r.error.kind == TensorError
    ensures r.Ok? ==> r.value.shape == a.shape && |r.value.args| == |a.args|
    ensures r.Ok? ==> forall i :: 0 <= i < |a.args| ==> r.value.args[i] == Combine(op, a.args[i], b.args[i])
  {
    if !TensorsCompatible(a, b) {
      return Fail(TensorError, "Tensors must have compatible shapes for element-wise " + OpName(op));
    }
    assert a.shape == b.shape;
    var resultArgs := CombineEach(op, a.args, b.args[..|a.args|]);
    return Ok(Tr.Tensor(a.shape, resultArgs));
  }

  /** The loop of the element-wise operations: element i combines xs[i] and ys[i]. */
  method CombineEach(op: ElementOp, xs: seq<Tr.Node>, ys: seq<Tr.Node>) returns (r: seq<Tr.Node>)
    requires |xs| == |ys|
    requires op == ElementDivide ==> forall i :: 0 <= i < |ys| ==> Invertible(ys[i])
    ensures |r| == |xs| && forall i :: 0 <= i < |xs| ==> r[i] == Combine(op, xs[i], ys[i])
  {
    r := [];
    var i := 0;
    while i < |xs|
      invariant 0 <= i <= |xs|
      invariant |r| == i
      invariant forall k :: 0 <= k < i ==> r[k] == Combine(op, xs[k], ys[k])
    {
      r := r + [Combine(op, xs[i], ys[i])];
      i := i + 1;
    }
  }

  /** ScalarMultiply: every element multiplied by the scalar, the shape kept. */
  method ScalarMultiply(t: TensorNode, scalar: Tr.Node) returns (r: TensorNode)
    ensures r.shape == t.shape && |r.args| == |t.args|
    ensures forall i :: 0 <= i < |t.args| ==> r.args[i] == N.Multiply([t.args[i], scalar])
  {
    var resultArgs: seq<Tr.Node> := [];
    var i := 0;
    while i < |t.args|
      invariant 0 <= i <= |t.args|
      invariant |resultArgs| == i
      invariant forall k :: 0 <= k < i ==> resultArgs[k] == N.Multiply([t.args[k], scalar])
    {
      resultArgs := resultArgs + [N.Multiply([t.args[i], scalar])];
      i := i + 1;
    }
    return Tr.Tensor(t.shape, resultArgs);
  }

  // ---- row-major grids ----

  /** rows × cols cells in row-major order, cell (i, j) being f(i, j). */
  function Grid(rows: nat, cols: nat, f: (int, int) -> Tr.Node): (r: seq<Tr.Node>)
    ensures |r| == rows * cols
  {
    if rows == 0 then []
    else
      A.MulSucc(rows - 1, cols);
      Grid(rows - 1, cols, f) + seq(cols, j => f(rows - 1, j))
  }

  /** Cell (i, j) sits at position i·cols + j. */
  lemma {:induction false} GridAt(rows: nat, cols: nat, f: (int, int) -> Tr.Node, i: nat, j: nat)
    requires i < rows && j < cols
    ensures i * cols + j < rows * cols && Grid(rows, cols, f)[i * cols + j] == f(i, j)
  {
    var prev := Grid(rows - 1, cols, f);
    if i < rows - 1 {
      GridAt(rows - 1, cols, f, i, j);
    } else {
      assert i * cols == |prev|;
    }
  }

  lemma GridRow(rows: nat, cols: nat, f: (int, int) -> Tr.Node)
    ensures Grid(rows + 1, cols, f) == Grid(rows, cols, f) + seq(cols, j => f(rows, j))
  {
  }

  // ---- matrix and vector products ----

  function Sum(terms: seq<Tr.Node>): Tr.Node {
    if |terms| == 1 then terms[0] else B.Add(terms)
  }

  /** One product term, a[i·inner + k] · b[k·cols + j]; a missing operand is dropped from
      the argument list, as a trailing `nil` is. */
  function Term(aArgs: seq<Tr.Node>, bArgs: seq<Tr.Node>, inner: nat, cols: nat, i: int, j: int, k: int): Tr.Node {
    N.Multiply(At(aArgs, i * inner + k) + At(bArgs, k * cols + j))
  }

  /** Entry (i, j): the sum of the inner terms, a single term not wrapped in Add. */
  function Entry(aArgs: seq<Tr.Node>, bArgs: seq<Tr.Node>, inner: nat, cols: nat, i: int, j: int): Tr.Node {
    Sum(seq(inner, k => Term(aArgs, bArgs, inner, cols, i, j, k)))
  }

  function EntryAt(aArgs: seq<Tr.Node>, bArgs: seq<Tr.Node>, inner: nat, cols: nat): (int, int) -> Tr.Node {
    (i, j) => Entry(aArgs, bArgs, inner, cols, i, j)
  }

  /** The three nested loops of MatrixMultiplication once the dimensions are fixed. */
  method ProductEntries(aArgs: seq<Tr.Node>, bArgs: seq<Tr.Node>, rows: nat, inner: nat, cols: nat)
    returns (resultArgs: seq<Tr.Node>)
    ensures resultArgs == Grid(rows, cols, EntryAt(aArgs, bArgs, inner, cols))
  {
    var f := EntryAt(aArgs, bArgs, inner, cols);
    resultArgs := [];
    var i := 0;
    while i < rows
      invariant 0 <= i <= rows
      invariant resultArgs == Grid(i, cols, f)
    {
      var row := RowEntries(aArgs, bArgs, inner, cols, i);
      resultArgs := resultArgs + row;
      GridRow(i, cols, f);
      i := i + 1;
    }
  }

  /** The middle loop: the entries of row i. */
  method RowEntries(aArgs: seq<Tr.Node>, bArgs: seq<Tr.Node>, inner: nat, cols: nat, i: int)
    returns (row: seq<Tr.Node>)
    ensures row == seq(cols, j => EntryAt(aArgs, bArgs, inner, cols)(i, j))
  {
    var f := EntryAt(aArgs, bArgs, inner, cols);
    row := [];
    var j := 0;
    while j < cols
      invariant 0 <= j <= cols
      invariant row == seq(j, jj => f(i, jj))
    {
      var entry := EntryTerms(aArgs, bArgs, inner, cols, i, j);
      row := row + [entry];
      assert seq(j + 1, jj => f(i, jj)) == seq(j, jj => f(i, jj)) + [f(i, j)];
      j := j + 1;
    }
  }

  /** The inner loop: the terms of entry (i, j), then their sum. */
  method EntryTerms(aArgs: seq<Tr.Node>, bArgs: seq<Tr.Node>, inner: nat, cols: nat, i: int, j: int)
    returns (entry: Tr.Node)
    ensures entry == Entry(aArgs, bArgs, inner, cols, i, j)
  {
    var terms: seq<Tr.Node> := [];
    var k := 0;
    while k < inner
      invariant 0 <= k <= inner
      invariant |terms| == k
      invariant forall kk :: 0 <= kk < k ==> terms[kk] == Term(aArgs, bArgs, inner, cols, i, j, kk)
    {
      terms := terms + [Term(aArgs, bArgs, inner, cols, i, j, k)];
      k := k + 1;
    }
    assert terms == seq(inner, kk => Term(aArgs, bArgs, inner, cols, i, j, kk));
    entry := Sum(terms);
  }

  /** MatrixMultiplication as written: both `[rowsA, colsA]` and `[rowsB, colsB]` are read
      from a's shape, so the dimension check compares a's columns with a's rows and b's
      elements are addressed with a's column count. */
  function MatrixMultiplicationAsWritten(a: TensorNode, b: TensorNode): Result<TensorNode> {
    if |a.shape| != 2 || |b.shape| != 2 then Fail(TensorError, "Matrix multiplication requires 2D tensors")
    else
      var rowsA, colsA := a.shape[0], a.shape[1];
      var rowsB, colsB := a.shape[0], a.shape[1];
      if colsA != rowsB then Fail(TensorError, "Invalid dimensions for matrix multiplication, columns of matrix A must equal rows of matrix B")
      else Ok(Tr.Tensor([rowsA, colsB], Grid(Count(rowsA), Count(colsB), EntryAt(a.args, b.args, Count(colsA), Count(colsB)))))
  }

  /** MatrixMultiplication with b's dimensions read from b's shape. */
  function MatrixMultiplication(a: TensorNode, b: TensorNode): Result<TensorNode> {
    if |a.shape| != 2 || |b.shape| != 2 then Fail(TensorError, "Matrix multiplication requires 2D tensors")
    else
      var rowsA, colsA := a.shape[0], a.shape[1];
      var rowsB, colsB := b.shape[0], b.shape[1];
      if colsA != rowsB then Fail(TensorError, "Invalid dimensions for matrix multiplication, columns of matrix A must equal rows of matrix B")
      else Ok(Tr.Tensor([rowsA, colsB], Grid(Count(rowsA), Count(colsB), EntryAt(a.args, b.args, Count(colsA), Count(colsB)))))
  }

  method MultiplyMatrices(a: TensorNode, b: TensorNode) returns (r: Result<TensorNode>)
    ensures r == MatrixMultiplication(a, b)
  {
    if |a.shape| != 2 || |b.shape| != 2 {
      return Fail(TensorError, "Matrix multiplication requires 2D tensors");
    }
    var rowsA, colsA := a.shape[0], a.shape[1];
    var rowsB, colsB := b.shape[0], b.shape[1];
    if colsA != rowsB {
      return Fail(TensorError, "Invalid dimensions for matrix multiplication, columns of matrix A must equal rows of matrix B");
    }
    var resultArgs := ProductEntries(a.args, b.args, Count(rowsA), Count(colsA), Count(colsB));
    return Ok(Tr.Tensor([rowsA, colsB], resultArgs));
  }

  /** The element at [i, j] as a list of at most one node. */
  function Cell(t: TensorNode, i: int, j: int): seq<Tr.Node> {
    match GetElement(t, [i, j])
    case Some(x) => [x]
    case None => []
  }

  lemma ProductShape2(r: int, c: int)
    ensures Product([r, c]) == r * c
  {
    assert [r, c][..1] == [r];
    assert [r][..0] == [];
    assert Product([r]) == 1 * r;
  }

  lemma Flat2(i: int, j: int, r: int, c: int)
    ensures Flat([i, j], [r, c]) == i * c + j
  {
    assert [i, j][..1] == [i] && [r, c][..1] == [r];
    assert [i][..0] == [] && [r][..0] == [];
    assert Flat([i], [r]) == 0 * r + i;
  }

  /** On a well-formed matrix, [i, k] in range reads the element at i·cols + k. */
  lemma CellAt(t: TensorNode, i: int, k: int)
    requires WellFormed(t) && |t.shape| == 2
    requires 0 <= i < t.shape[0] && 0 <= k < t.shape[1]
    ensures 0 <= i * t.shape[1] + k < |t.args| && Cell(t, i, k) == [t.args[i * t.shape[1] + k]]
  {
    ProductShape2(t.shape[0], t.shape[1]);
    Flat2(i, k, t.shape[0], t.shape[1]);
    assert t.shape == [t.shape[0], t.shape[1]];
    GetElementInBounds(t, [i, k]);
  }

  /** On well-formed matrices the product is an m × p matrix whose entry [i, j] is the sum
      over k of a[i, k] · b[k, j], every one of those elements present. */
  lemma MatrixEntry(a: TensorNode, b: TensorNode, i: nat, j: nat)
    requires WellFormed(a) && WellFormed(b) && MatrixMultiplication(a, b).Ok?
    requires i < a.shape[0] && j < b.shape[1]
    ensures var c := MatrixMultiplication(a, b).value;
      && c.shape == [a.shape[0], b.shape[1]] && WellFormed(c)
      && (forall k :: 0 <= k < a.shape[1] ==> |Cell(a, i, k)| == 1 && |Cell(b, k, j)| == 1)
      && GetElement(c, [i, j]) == Some(Sum(seq(a.shape[1], k => N.Multiply(Cell(a, i, k) + Cell(b, k, j)))))
  {
    var m, n, p := a.shape[0], a.shape[1], b.shape[1];
    var f := EntryAt(a.args, b.args, n, p);
    var c := Tr.Tensor([m, p], Grid(m, p, f));
    assert MatrixMultiplication(a, b) == Ok(c);
    ProductShape2(m, p);
    GridAt(m, p, f, i, j);
    Flat2(i, j, m, p);
    GetElementInBounds(c, [i, j]);
    EntryCells(a, b, i, j);
  }

  lemma EntryCells(a: TensorNode, b: TensorNode, i: nat, j: nat)
    requires WellFormed(a) && WellFormed(b) && |a.shape| == 2 && |b.shape| == 2 && a.shape[1] == b.shape[0]
    requires i < a.shape[0] && j < b.shape[1]
    ensures forall k :: 0 <= k < a.shape[1] ==> |Cell(a, i, k)| == 1 && |Cell(b, k, j)| == 1
    ensures Entry(a.args, b.args, a.shape[1], b.shape[1], i, j)
         == Sum(seq(a.shape[1], k => N.Multiply(Cell(a, i, k) + Cell(b, k, j))))
  {
    var n, p := a.shape[1], b.shape[1];
    forall k | 0 <= k < n
      ensures |Cell(a, i, k)| == 1 && |Cell(b, k, j)| == 1
      ensures Term(a.args, b.args, n, p, i, j, k) == N.Multiply(Cell(a, i, k) + Cell(b, k, j))
    {
      TermCells(a, b, i, j, k);
    }
    assert seq(n, k => Term(a.args, b.args, n, p, i, j, k)) == seq(n, k => N.Multiply(Cell(a, i, k) + Cell(b, k, j)));
  }

  lemma TermCells(a: TensorNode, b: TensorNode, i: nat, j: nat, k: int)
    requires WellFormed(a) && WellFormed(b) && |a.shape| == 2 && |b.shape| == 2 && a.shape[1] == b.shape[0]
    requires i < a.shape[0] && j < b.shape[1] && 0 <= k < a.shape[1]
    ensures |Cell(a, i, k)| == 1 && |Cell(b, k, j)| == 1
    ensures Term(a.args, b.args, a.shape[1], b.shape[1], i, j, k) == N.Multiply(Cell(a, i, k) + Cell(b, k, j))
  {
    CellAt(a, i, k);
    CellAt(b, k, j);
  }

  /** The source reads b's dimensions from a: a 1×2 by 2×1 product, which is defined, is
      rejected as a dimension mismatch. */
  lemma MatrixMultiplicationReadsWrongShape(x: Tr.Node, y: Tr.Node, u: Tr.Node, v: Tr.Node)
    ensures MatrixMultiplicationAsWritten(Tr.Tensor([1, 2], [x, y]), Tr.Tensor([2, 1], [u, v])).Err?
    ensures MatrixMultiplication(Tr.Tensor([1, 2], [x, y]), Tr.Tensor([2, 1], [u, v])).Ok?
  {
  }

  /** VectorDot: two rank-1 tensors of the same length give the sum of the pairwise
      products, a single product not wrapped in Add. */
  method VectorDot(a: TensorNode, b: TensorNode) returns (r: Result<Tr.Node>)
    requires |a.shape| == 1 && |b.shape| == 1 && a.shape[0] == b.shape[0] ==> |a.args| <= |b.args|
    ensures r.Ok? <==> |a.shape| == 1 && |b.shape| == 1 && a.shape[0] == b.shape[0]
    ensures r.Err? ==> r.error.kind == TensorError
    ensures r.Ok? && WellFormed(a) && WellFormed(b) ==> |a.args| == |b.args|
    ensures r.Ok? ==> r.value == Sum(seq(|a.args|, i requires 0 <= i < |a.args| => N.Multiply([a.args[i], b.args[i]])))
  {
    if |a.shape| != 1 || |b.shape| != 1 {
      return Fail(TensorError, "Vector dot product requires 1D tensors");
    }
    if a.shape[0] != b.shape[0] {
      return Fail(TensorError, "Vectors must have same length for dot product");
    }
    assert a.shape[..0] == [] && b.shape[..0] == [];
    var resultArgs: seq<Tr.Node> := [];
    var i := 0;
    while i < |a.args|
      invariant 0 <= i <= |a.args|
      invariant resultArgs == seq(i, k requires 0 <= k < i => N.Multiply([a.args[k], b.args[k]]))
    {
      resultArgs := resultArgs + [N.Multiply([a.args[i], b.args[i]])];
      i := i + 1;
    }
    return Ok(Sum(resultArgs));
  }

  // ---- transpose ----

  /** `[...axes].sort()` equals [0, 1, …, n-1]: n distinct axes, each below n. The
      bounds loop that follows that check in the source can then never throw. */
  predicate IsPermutation(axes: seq<int>, n: nat) {
    && |axes| == n
    && (forall i :: 0 <= i < n ==> 0 <= axes[i] < n)
    && (forall i, j :: 0 <= i < j < n ==> axes[i] != axes[j])
  }

  predicate AxesBelow(axes: seq<int>, n: nat) {
    forall i :: 0 <= i < |axes| ==> 0 <= axes[i] < n
  }

  /** newShape[i] = shape[axes[i]]. */
  function Permuted(shape: seq<int>, axes: seq<int>): (r: seq<int>)
    requires AxesBelow(axes, |shape|)
    ensures |r| == |axes| && forall i :: 0 <= i < |axes| ==> r[i] == shape[axes[i]]
  {
    seq(|axes|, i requires 0 <= i < |axes| => shape[axes[i]])
  }

  /** The loop `originalIndices[axes[i]] = newIndices[i]` for i = 0, 1, … over `base`. */
  function Scatter(base: seq<int>, axes: seq<int>, values: seq<int>): (r: seq<int>)
    requires |values| == |axes| && AxesBelow(axes, |base|)
    ensures |r| == |base|
  {
    if axes == [] then base
    else
      var n := |axes|;
      Scatter(base, axes[..n - 1], values[..n - 1])[axes[n - 1] := values[n - 1]]
  }

  function Zeros(n: nat): (r: seq<int>)
    ensures |r| == n && forall i :: 0 <= i < n ==> r[i] == 0
  {
    seq(n, _ => 0)
  }

  /** With distinct axes, position axes[p] of the scattered tuple holds values[p]. */
  lemma {:induction false} ScatterAt(base: seq<int>, axes: seq<int>, values: seq<int>, p: nat)
    requires |values| == |axes| && AxesBelow(axes, |base|) && p < |axes|
    requires forall i, j :: 0 <= i < j < |axes| ==> axes[i] != axes[j]
    ensures Scatter(base, axes, values)[axes[p]] == values[p]
    decreases |axes|
  {
    var n := |axes|;
    if p < n - 1 {
      ScatterAt(base, axes[..n - 1], values[..n - 1], p);
    }
  }

  /** The element the transposed tensor takes at flat position f. */
  function TransposedElement(t: TensorNode, axes: seq<int>, newShape: seq<int>, f: int): Option<Tr.Node>
    requires PositiveDims(newShape) && |newShape| == |axes| && AxesBelow(axes, |t.shape|)
  {
    GetElement(t, Scatter(Zeros(|t.shape|), axes, Unflatten(f, newShape)))
  }

  /** The first `count` elements of the transposed tensor; a failed lookup throws. */
  function TransposedArgs(t: TensorNode, axes: seq<int>, newShape: seq<int>, count: nat): Result<seq<Tr.Node>>
    requires count > 0 ==> PositiveDims(newShape)
    requires |newShape| == |axes| && AxesBelow(axes, |t.shape|)
  {
    if count == 0 then Ok([])
    else
      match TransposedArgs(t, axes, newShape, count - 1)
      case Err(e) => Err(e)
      case Ok(prev) =>
        match TransposedElement(t, axes, newShape, count - 1)
        case None => Fail(TensorError, "Failed to get element")
        case Some(x) => Ok(prev + [x])
  }

  /** Transpose with explicit axes; a rank-0 tensor is copied before the axes are read. */
  function Transpose(t: TensorNode, axes: seq<int>): Result<TensorNode>
    requires NonnegDims(t.shape)
  {
    if |t.shape| == 0 then Ok(Tr.Tensor([], t.args))
    else if |axes| != |t.shape| then Fail(TensorError, "Axes array must have same length as tensor rank")
    else if !IsPermutation(axes, |t.shape|) then Fail(TensorError, "Axes must be a permutation of tensor dimensions")
    else
      var newShape := Permuted(t.shape, axes);
      ProductNonneg(t.shape);
      match TransposedArgs(t, axes, newShape, Product(t.shape))
      case Err(e) => Err(e)
      case Ok(args) => Ok(Tr.Tensor(newShape, args))
  }

  lemma {:induction false} TransposedArgsErr(t: TensorNode, axes: seq<int>, newShape: seq<int>, c: nat, d: nat)
    requires c <= d && (d > 0 ==> PositiveDims(newShape))
    requires |newShape| == |axes| && AxesBelow(axes, |t.shape|)
    requires TransposedArgs(t, axes, newShape, c).Err?
    ensures TransposedArgs(t, axes, newShape, d) == TransposedArgs(t, axes, newShape, c)
    decreases d
  {
    if c < d {
      TransposedArgsErr(t, axes, newShape, c, d - 1);
    }
  }

  lemma PermutedPositive(shape: seq<int>, axes: seq<int>)
    requires NonnegDims(shape) && Product(shape) > 0 && AxesBelow(axes, |shape|)
    ensures PositiveDims(Permuted(shape, axes))
  {
    ProductNonneg(shape);
  }

  /** The default-axes loop as written: it starts at rank - 1 and counts up while the
      counter is at least 0, so on a tensor of rank 1 or more it never stops. `fuel`
      bounds the rounds looked at; None means the loop was still running. */
  function DefaultAxesAsWritten(i: int, axes: seq<int>, fuel: nat): Option<seq<int>>
    decreases fuel
  {
    if i < 0 then Some(axes)
    else if fuel == 0 then None
    else DefaultAxesAsWritten(i + 1, axes + [i], fuel - 1)
  }

  /** However many rounds are allowed, the as-written loop has not finished. */
  lemma {:induction false} DefaultAxesNeverEnd(i: int, axes: seq<int>, fuel: nat)
    requires i >= 0
    ensures DefaultAxesAsWritten(i, axes, fuel) == None
    decreases fuel
  {
    if fuel > 0 {
      DefaultAxesNeverEnd(i + 1, axes + [i], fuel - 1);
    }
  }

  /** The intended default: the axes reversed, [rank - 1, …, 1, 0]. */
  function ReversedAxes(n: nat): (r: seq<int>)
    ensures |r| == n
  {
    seq(n, i => n - 1 - i)
  }

  /** The reversed axes are a permutation, so a default transpose passes both checks. */
  lemma ReversedAxesPermutation(n: nat)
    ensures IsPermutation(ReversedAxes(n), n)
  {
  }

  /** The inner loop of Transpose: a zero-filled index array written at each axis. */
  method OriginalIndices(n: nat, axes: seq<int>, newIndices: seq<int>) returns (r: seq<int>)
    requires |newIndices| == |axes| && AxesBelow(axes, n)
    ensures r == Scatter(Zeros(n), axes, newIndices)
  {
    var original := new int[n](_ => 0);
    assert original[..] == Zeros(n);
    var i := 0;
    while i < |axes|
      invariant 0 <= i <= |axes|
      invariant original[..] == Scatter(Zeros(n), axes[..i], newIndices[..i])
    {
      assert axes[..i + 1][..i] == axes[..i] && newIndices[..i + 1][..i] == newIndices[..i];
      original[axes[i]] := newIndices[i];
      i := i + 1;
    }
    assert axes[..|axes|] == axes && newIndices[..|axes|] == newIndices;
    return original[..];
  }

  /** Transpose: with no axes given, the reversed axes (the corrected default loop). */
  method TransposeTensor(t: TensorNode, given: Option<seq<int>>) returns (r: Result<TensorNode>)
    requires NonnegDims(t.shape)
    ensures r == Transpose(t, if given.Some? then given.value else ReversedAxes(|t.shape|))
  {
    if |t.shape| == 0 {
      return Ok(Tr.Tensor([], t.args));
    }
    var axes: seq<int>;
    if given.Some? {
      axes := given.value;
    } else {
      axes := DefaultAxes(|t.shape|);
    }
    r := TransposeAlong(t, axes);
  }

  /** The corrected default-axes loop, counting down from rank - 1. */
  method DefaultAxes(n: nat) returns (axes: seq<int>)
    ensures axes == ReversedAxes(n)
  {
    axes := [];
    var i := n - 1;
    while i >= 0
      invariant -1 <= i < n
      invariant axes == ReversedAxes(n)[..n - 1 - i]
    {
      axes := axes + [i];
      i := i - 1;
    }
  }

  /** The checks and the element loop of Transpose once the axes are fixed. */
  method TransposeAlong(t: TensorNode, axes: seq<int>) returns (r: Result<TensorNode>)
    requires NonnegDims(t.shape) && |t.shape| > 0
    ensures r == Transpose(t, axes)
  {
    if |axes| != |t.shape| {
      return Fail(TensorError, "Axes array must have same length as tensor rank");
    }
    if !IsPermutation(axes, |t.shape|) {
      return Fail(TensorError, "Axes must be a permutation of tensor dimensions");
    }
    var n := |t.shape|;
    var newShape := Permuted(t.shape, axes);
    ProductNonneg(t.shape);
    var total := Product(t.shape);
    if total > 0 {
      PermutedPositive(t.shape, axes);
    }
    var newArgs: seq<Tr.Node> := [];
    var flatIndex := 0;
    while flatIndex < total
      invariant 0 <= flatIndex <= total
      invariant TransposedArgs(t, axes, newShape, flatIndex) == Ok(newArgs)
    {
      var newIndices := FlatIndexToIndices(flatIndex, newShape);
      var original := OriginalIndices(n, axes, newIndices);
      var element := GetElement(t, original);
      if element.None? {
        TransposedArgsErr(t, axes, newShape, flatIndex + 1, total);
        return Fail(TensorError, "Failed to get element");
      }
      newArgs := newArgs + [element.value];
      flatIndex := flatIndex + 1;
    }
    return Ok(Tr.Tensor(newShape, newArgs));
  }

  lemma {:induction false} TransposedArgsAt(t: TensorNode, axes: seq<int>, newShape: seq<int>, count: nat, f: nat)
    requires count > 0 ==> PositiveDims(newShape)
    requires |newShape| == |axes| && AxesBelow(axes, |t.shape|)
    requires TransposedArgs(t, axes, newShape, count).Ok? && f < count
    ensures |TransposedArgs(t, axes, newShape, count).value| == count
    ensures TransposedElement(t, axes, newShape, f) == Some(TransposedArgs(t, axes, newShape, count).value[f])
    decreases count
  {
    if f < count - 1 {
      TransposedArgsAt(t, axes, newShape, count - 1, f);
    } else if count > 1 {
      TransposedArgsAt(t, axes, newShape, count - 1, 0);
    }
  }

  /** A successful transpose has shape[axes[i]] as its i-th dimension, the same number
      of elements, and at flat position f the original element whose index tuple q has
      q[axes[i]] equal to the i-th new index. */
  lemma TransposeElement(t: TensorNode, axes: seq<int>, f: nat)
    requires NonnegDims(t.shape) && |t.shape| > 0 && Transpose(t, axes).Ok?
    requires f < Product(t.shape)
    ensures var r := Transpose(t, axes).value;
      var newIndices := Unflatten(f, r.shape);
      var q := Scatter(Zeros(|t.shape|), axes, newIndices);
      && IsPermutation(axes, |t.shape|)
      && PositiveDims(r.shape)
      && (forall i :: 0 <= i < |axes| ==> r.shape[i] == t.shape[axes[i]] && q[axes[i]] == newIndices[i])
      && |r.args| == Product(t.shape)
      && GetElement(t, q) == Some(r.args[f])
  {
    var newShape := Permuted(t.shape, axes);
    ProductNonneg(t.shape);
    PermutedPositive(t.shape, axes);
    TransposedArgsAt(t, axes, newShape, Product(t.shape), f);
    var newIndices := Unflatten(f, newShape);
    forall i | 0 <= i < |axes|
      ensures Scatter(Zeros(|t.shape|), axes, newIndices)[axes[i]] == newIndices[i]
    {
      ScatterAt(Zeros(|t.shape|), axes, newIndices, i);
    }
  }

  // ---- constant tensors ----

  function IdentityCell(): (int, int) -> Tr.Node {
    (i, j) => if i == j then N.One() else N.Zero()
  }

  /** IdentityMatrix: size × size, literal 1 on the diagonal and literal 0 elsewhere. */
  method IdentityMatrix(size: int) returns (r: TensorNode)
    ensures r == Tr.Tensor([size, size], Grid(Count(size), Count(size), IdentityCell()))
  {
    var f := IdentityCell();
    var n := Count(size);
    var resultArgs: seq<Tr.Node> := [];
    var i := 0;
    while i < n
      invariant 0 <= i <= n
      invariant resultArgs == Grid(i, n, f)
    {
      var j := 0;
      while j < n
        invariant 0 <= j <= n
        invariant resultArgs == Grid(i, n, f) + seq(j, jj => f(i, jj))
      {
        if i == j {
          resultArgs := resultArgs + [N.One()];
        } else {
          resultArgs := resultArgs + [N.Zero()];
        }
        assert seq(j + 1, jj => f(i, jj)) == seq(j, jj => f(i, jj)) + [f(i, j)];
        j := j + 1;
      }
      GridRow(i, n, f);
      i := i + 1;
    }
    return Tr.Tensor([size, size], resultArgs);
  }

  /** The identity is a well-formed n × n tensor whose [i, j] element is 1 exactly on the
      diagonal and 0 off it. */
  lemma IdentityAt(n: nat, i: nat, j: nat)
    requires i < n && j < n
    ensures var t := Tr.Tensor([n, n], Grid(n, n, IdentityCell()));
      WellFormed(t) && GetElement(t, [i, j]) == Some(if i == j then N.One() else N.Zero())
  {
    var t := Tr.Tensor([n, n], Grid(n, n, IdentityCell()));
    ProductShape2(n, n);
    GridAt(n, n, IdentityCell(), i, j);
    Flat2(i, j, n, n);
    GetElementInBounds(t, [i, j]);
  }

  /** Zeros and Ones: Π shape copies of the literal (none when the total is not positive). */
  method Filled(shape: seq<int>, value: Tr.Node) returns (r: TensorNode)
    ensures r.shape == shape && |r.args| == Count(Product(shape))
    ensures forall i :: 0 <= i < |r.args| ==> r.args[i] == value
  {
    var totalElements := Product(shape);
    var resultArgs: seq<Tr.Node> := [];
    var i := 0;
    while i < totalElements
      invariant 0 <= i <= Count(totalElements)
      invariant |resultArgs| == i && forall k :: 0 <= k < i ==> resultArgs[k] == value
    {
      resultArgs := resultArgs + [value];
      i := i + 1;
    }
    return Tr.Tensor(shape, resultArgs);
  }

  method ZerosTensor(shape: seq<int>) returns (r: TensorNode)
    ensures r.shape == shape && |r.args| == Count(Product(shape))
    ensures forall i :: 0 <= i < |r.args| ==> r.args[i] == N.Zero()
  {
    r := Filled(shape, N.Zero());
  }

  method OnesTensor(shape: seq<int>) returns (r: TensorNode)
    ensures r.shape == shape && |r.args| == Count(Product(shape))
    ensures forall i :: 0 <= i < |r.args| ==> r.args[i] == N.One()
  {
    r := Filled(shape, N.One());
  }

  // ---- nested-shape validation ----

  /** ValidateTensorShape (and TensorParser.validateTensorShape): the argument count
      matches shape[depth]; at the last depth no element is a Tensor, above it every
      element is a Tensor whose own arguments are valid one level down. A depth past the
      shape compares the count with `nil`, which fails. */
  predicate ValidateTensorShape(args: seq<Tr.Node>, shape: seq<int>, depth: nat)
    decreases args
  {
    && depth < |shape|
    && |args| == shape[depth]
    && if depth == |shape| - 1 then
         forall i :: 0 <= i < |args| ==> !args[i].Tensor?
       else
         forall i :: 0 <= i < |args| ==> args[i].Tensor? && ValidateTensorShape(args[i].args, shape, depth + 1)
  }
}
