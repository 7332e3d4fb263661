/** TensorParser (src/Parse/TensorParser.ts): the shape of a bracketed literal such as
    [[1, 2], [3, 4]] is read off its first elements, then the whole nesting is checked
    against it. Parsed tensors keep their rows as nested Tensor nodes. */
module TensorParser {
  import opened TensorIndex
  import A = Arith
  import Tr = Tree
  import T = TensorUtils

  datatype Structure = Structure(shape: seq<int>, isValidTensor: bool)

  /** calculateShape: the element count, followed by the shape of the first element when
      that element is itself a Tensor. */
  function CalculateShape(args: seq<Tr.Node>): (r: seq<int>)
    ensures |r| >= 1 && r[0] == |args|
    decreases args
  {
    [|args|] + if |args| > 0 && args[0].Tensor? then CalculateShape(args[0].args) else []
  }

  /** analyzeTensorStructure: an empty literal has shape [0] and is invalid; otherwise
      the computed shape and whether the whole nesting matches it. */
  function AnalyzeTensorStructure(args: seq<Tr.Node>): (r: Structure)
    ensures |args| == 0 ==> r == Structure([0], false)
    ensures |args| > 0 ==> r.shape == CalculateShape(args)
    ensures |args| > 0 ==> r.isValidTensor == T.ValidateTensorShape(args, r.shape, 0)
  {
    if |args| == 0 then Structure([0], false)
    else
      var shape := CalculateShape(args);
      Structure(shape, T.ValidateTensorShape(args, shape, 0))
  }

  /** The elements of a nested literal, row by row, with the nesting removed. */
  function Leaves(args: seq<Tr.Node>): seq<Tr.Node>
    decreases args
  {
    if args == [] then []
    else (if args[0].Tensor? then Leaves(args[0].args) else [args[0]]) + Leaves(args[1..])
  }

  /** A nesting that matches `shape` from `depth` down is also the nesting whose shape
      calculateShape reads off, as long as no inner dimension is 0 (an empty row hides
      the levels below it). */
  lemma {:induction false} ShapeOfValid(args: seq<Tr.Node>, shape: seq<int>, depth: nat)
    requires T.ValidateTensorShape(args, shape, depth)
    requires forall k :: depth <= k < |shape| - 1 ==> shape[k] > 0
    ensures CalculateShape(args) == shape[depth..]
    decreases |shape| - depth
  {
    if depth < |shape| - 1 {
      assert args[0].Tensor? && T.ValidateTensorShape(args[0].args, shape, depth + 1);
      ShapeOfValid(args[0].args, shape, depth + 1);
      assert shape[depth..] == [shape[depth]] + shape[depth + 1..];
    } else {
      assert |args| > 0 ==> !args[0].Tensor?;
    }
  }

  /** A literal that analyzeTensorStructure accepts with no empty row has exactly the
      shape it reports. */
  lemma AnalyzeExact(args: seq<Tr.Node>)
    requires AnalyzeTensorStructure(args).isValidTensor
    requires forall k :: 0 <= k < |AnalyzeTensorStructure(args).shape| - 1 ==> AnalyzeTensorStructure(args).shape[k] > 0
    ensures var s := AnalyzeTensorStructure(args).shape;
      |args| > 0 && T.ValidateTensorShape(args, s, 0) && CalculateShape(args) == s
  {
    var s := AnalyzeTensorStructure(args).shape;
    ShapeOfValid(args, s, 0);
    assert s[0..] == s;
  }

  lemma {:induction false} LeavesConcat(a: seq<Tr.Node>, b: seq<Tr.Node>)
    ensures Leaves(a + b) == Leaves(a) + Leaves(b)
    decreases |a|
  {
    if a != [] {
      var head := if a[0].Tensor? then Leaves(a[0].args) else [a[0]];
      assert (a + b)[0] == a[0] && (a + b)[1..] == a[1..] + b;
      assert Leaves(a + b) == head + Leaves(a[1..] + b);
      LeavesConcat(a[1..], b);
      assert Leaves(a) == head + Leaves(a[1..]);
    } else {
      assert a + b == b;
    }
  }

  /** A nesting valid from `depth` holds Π shape[depth..] elements: the row-major element
      list of the flat representation TensorUtils works on. */
  lemma {:induction false} ValidLeafCount(args: seq<Tr.Node>, shape: seq<int>, depth: nat)
    requires T.ValidateTensorShape(args, shape, depth)
    ensures |Leaves(args)| == Product(shape[depth..])
    decreases |shape| - depth, 1
  {
    assert shape[depth..] == [shape[depth]] + shape[depth + 1..];
    ProductCons(shape[depth], shape[depth + 1..]);
    RowsLeafCount(args, shape, depth, |args|);
    assert args[..|args|] == args;
  }

  /** The first n rows together hold n · Π shape[depth + 1..] elements. */
  lemma {:induction false} RowsLeafCount(args: seq<Tr.Node>, shape: seq<int>, depth: nat, n: nat)
    requires T.ValidateTensorShape(args, shape, depth) && n <= |args|
    ensures |Leaves(args[..n])| == n * Product(shape[depth + 1..])
    decreases |shape| - depth, 0, n
  {
    if n == 0 {
      assert args[..0] == [];
    } else {
      assert args[..n] == args[..n - 1] + [args[n - 1]];
      LeavesConcat(args[..n - 1], [args[n - 1]]);
      RowsLeafCount(args, shape, depth, n - 1);
      A.MulSucc(n - 1, Product(shape[depth + 1..]));
      assert [args[n - 1]][1..] == [];
      if depth == |shape| - 1 {
        assert shape[depth + 1..] == [];
        assert !args[n - 1].Tensor?;
      } else {
        ValidLeafCount(args[n - 1].args, shape, depth + 1);
      }
    }
  }

  /** The two representations do not mix: the flat 2×2 identity that TensorUtils builds
      fails the nested shape check that TensorValidator applies. */
  lemma FlatMatrixFailsNestedCheck(a: Tr.Node, b: Tr.Node, c: Tr.Node, d: Tr.Node)
    requires !a.Tensor? && !b.Tensor? && !c.Tensor? && !d.Tensor?
    ensures !T.ValidateTensorShape([a, b, c, d], [2, 2], 0)
    ensures T.ValidateTensorShape([Tr.Tensor([2], [a, b]), Tr.Tensor([2], [c, d])], [2, 2], 0)
  {
  }
}
