/** Row-major index arithmetic of TensorUtils (src/Math/Symbolic/Tensor.ts): element
    totals and the conversions between index tuples and flat positions. */
module TensorIndex {
  import opened Wrappers
  import A = Arith
  import Text

  /** `shape.reduce((total, dim) => total * dim, 1)`: a left fold. */
  function Product(shape: seq<int>): int {
    if shape == [] then 1 else Product(shape[..|shape| - 1]) * shape[|shape| - 1]
  }

  /** Every index lies in [0, its dimension). */
  predicate InBounds(indices: seq<int>, shape: seq<int>) {
    |indices| == |shape| && forall i :: 0 <= i < |shape| ==> 0 <= indices[i] < shape[i]
  }

  predicate PositiveDims(shape: seq<int>) {
    forall i :: 0 <= i < |shape| ==> shape[i] > 0
  }

  /** The reference row-major position, in Horner form:
      idx[0]·Π shape[1..] + … + idx[n-1]. */
  function Flat(indices: seq<int>, shape: seq<int>): int
    requires |indices| == |shape|
  {
    if shape == [] then 0
    else Flat(indices[..|indices| - 1], shape[..|shape| - 1]) * shape[|shape| - 1] + indices[|indices| - 1]
  }

  /** The last of the first n dimensions whose index is out of its range, if any. */
  function OutOfBounds(indices: seq<int>, shape: seq<int>, n: nat): (r: Option<nat>)
    requires |indices| == |shape| && n <= |shape|
    ensures r.None? <==> forall k :: 0 <= k < n ==> 0 <= indices[k] < shape[k]
    ensures r.Some? ==> r.value < n && !(0 <= indices[r.value] < shape[r.value])
    ensures r.Some? ==> forall k :: r.value < k < n ==> 0 <= indices[k] < shape[k]
  {
    if n == 0 then None
    else if indices[n - 1] >= shape[n - 1] || indices[n - 1] < 0 then Some(n - 1)
    else OutOfBounds(indices, shape, n - 1)
  }

  /** The throw for an index out of range names its dimension. */
  function OutOfBoundsMessage(i: nat): string {
    "Index for dimension " + Text.IntStr(i) + " out of bounds"
  }

  /** IndicesToFlatIndex as a value: a rank mismatch throws, and so does an index out of
      range, naming the last such dimension, which the loop meets first. */
  function FlatIndex(indices: seq<int>, shape: seq<int>): (r: Result<int>)
    ensures r.Ok? <==> InBounds(indices, shape)
  {
    if |indices| != |shape| then Fail(TensorError, "Index dimension mismatch")
    else match OutOfBounds(indices, shape, |shape|)
      case Some(i) => Fail(TensorError, OutOfBoundsMessage(i))
      case None => Ok(Flat(indices, shape))
  }

  /** The reference reading of a flat position as an index tuple: the last index is the
      remainder by the last dimension, the rest come from the quotient. */
  function Unflatten(flat: int, shape: seq<int>): (r: seq<int>)
    requires PositiveDims(shape)
    ensures |r| == |shape|
    decreases |shape|
  {
    if shape == [] then []
    else
      var n := |shape|;
      Unflatten(flat / shape[n - 1], shape[..n - 1]) + [flat % shape[n - 1]]
  }

  // ---- the two loops ----

  /** The source's loop: from the last dimension down, add index·multiplier and grow the
      multiplier by the dimension. */
  method IndicesToFlatIndex(indices: seq<int>, shape: seq<int>) returns (r: Result<int>)
    ensures r == FlatIndex(indices, shape)
  {
    if |indices| != |shape| {
      return Fail(TensorError, "Index dimension mismatch");
    }
    var flatIndex := 0;
    var multiplier := 1;
    var i := |shape|;
    while i > 0
      invariant 0 <= i <= |shape|
      invariant forall k :: i <= k < |shape| ==> 0 <= indices[k] < shape[k]
      invariant flatIndex == Flat(indices[i..], shape[i..])
      invariant multiplier == Product(shape[i..])
    {
      i := i - 1;
      if indices[i] >= shape[i] || indices[i] < 0 {
        assert OutOfBounds(indices, shape, |shape|) == Some(i);
        return Fail(TensorError, OutOfBoundsMessage(i));
      }
      FlatCons(indices[i], shape[i], indices[i + 1..], shape[i + 1..]);
      ProductCons(shape[i], shape[i + 1..]);
      assert [indices[i]] + indices[i + 1..] == indices[i..];
      assert [shape[i]] + shape[i + 1..] == shape[i..];
      flatIndex := flatIndex + indices[i] * multiplier;
      multiplier := multiplier * shape[i];
    }
    assert indices[0..] == indices && shape[0..] == shape;
    return Ok(flatIndex);
  }

  /** The source's loop: from the last dimension down, the remainder is the index and the
      floored quotient carries on. Luau's `%` and `math.floor(x / d)` agree with Dafny's for
      a positive divisor. */
  method FlatIndexToIndices(flatIndex: int, shape: seq<int>) returns (indices: seq<int>)
    requires PositiveDims(shape)
    ensures indices == Unflatten(flatIndex, shape)
  {
    var a := new int[|shape|];
    var remaining := flatIndex;
    var i := |shape|;
    assert shape[..i] == shape && a[i..] == [];
    while i > 0
      invariant 0 <= i <= |shape|
      invariant Unflatten(flatIndex, shape) == Unflatten(remaining, shape[..i]) + a[i..]
    {
      i := i - 1;
      var dim := shape[i];
      assert shape[..i + 1][..i] == shape[..i];
      ghost var rest := a[i + 1..];
      a[i] := remaining % dim;
      assert a[i..] == [remaining % dim] + rest;
      remaining := remaining / dim;
    }
    assert shape[..0] == [];
    indices := a[..];
    assert a[0..] == a[..];
  }

  // ---- properties ----

  lemma {:induction false} ProductCons(d: int, shape: seq<int>)
    ensures Product([d] + shape) == d * Product(shape)
    decreases |shape|
  {
    if shape != [] {
      var s := shape[..|shape| - 1];
      assert ([d] + shape)[..|shape|] == [d] + s;
      ProductCons(d, s);
    }
  }

  /** Horner form read from the front: the first index weighs the product of the rest. */
  lemma {:induction false} FlatCons(x: int, d: int, indices: seq<int>, shape: seq<int>)
    requires |indices| == |shape|
    ensures Flat([x] + indices, [d] + shape) == x * Product(shape) + Flat(indices, shape)
    decreases |shape|
  {
    if shape != [] {
      var n := |shape|;
      var i', s' := indices[..n - 1], shape[..n - 1];
      assert ([x] + indices)[..n] == [x] + i';
      assert ([d] + shape)[..n] == [d] + s';
      FlatCons(x, d, i', s');
      var p := Product(s');
      var last := shape[n - 1];
      calc {
        Flat([x] + indices, [d] + shape);
        Flat([x] + i', [d] + s') * last + indices[n - 1];
        (x * p + Flat(i', s')) * last + indices[n - 1];
        { assert (x * p + Flat(i', s')) * last == x * (p * last) + Flat(i', s') * last; }
        x * (p * last) + (Flat(i', s') * last + indices[n - 1]);
      }
    }
  }

  lemma {:induction false} ProductPositive(shape: seq<int>)
    requires PositiveDims(shape)
    ensures Product(shape) > 0
    decreases |shape|
  {
    if shape != [] {
      ProductPositive(shape[..|shape| - 1]);
      A.MulGe(shape[|shape| - 1], Product(shape[..|shape| - 1]));
    }
  }

  /** An in-bounds tuple lands in [0, Π shape). */
  lemma {:induction false} FlatBounds(indices: seq<int>, shape: seq<int>)
    requires InBounds(indices, shape)
    ensures 0 <= Flat(indices, shape) < Product(shape)
    decreases |shape|
  {
    if shape != [] {
      var n := |shape|;
      var i', s' := indices[..n - 1], shape[..n - 1];
      FlatBounds(i', s');
      var f, p, d := Flat(i', s'), Product(s'), shape[n - 1];
      // f * d + idx < (f + 1) * d <= p * d
      A.MulNonneg(f, d);
      A.MulLeMono(f + 1, p, d);
      A.MulSucc(f, d);
    }
  }

  /** Unflatten inverts Flat on in-bounds tuples. */
  lemma {:induction false} FlattenRoundTrip(indices: seq<int>, shape: seq<int>)
    requires InBounds(indices, shape)
    ensures PositiveDims(shape) && Unflatten(Flat(indices, shape), shape) == indices
    decreases |shape|
  {
    if shape != [] {
      var n := |shape|;
      var i', s' := indices[..n - 1], shape[..n - 1];
      FlattenRoundTrip(i', s');
      var d := shape[n - 1];
      A.DivModUnique(Flat(indices, shape), d, Flat(i', s'), indices[n - 1]);
      assert indices == i' + [indices[n - 1]];
    }
  }

  /** Flat inverts Unflatten on [0, Π shape). */
  lemma {:induction false} UnflattenRoundTrip(flat: int, shape: seq<int>)
    requires PositiveDims(shape) && 0 <= flat < Product(shape)
    ensures InBounds(Unflatten(flat, shape), shape) && Flat(Unflatten(flat, shape), shape) == flat
    decreases |shape|
  {
    if shape != [] {
      var n := |shape|;
      var s', d := shape[..n - 1], shape[n - 1];
      var q, r := flat / d, flat % d;
      var u := Unflatten(q, s');
      assert flat == q * d + r;
      QuotientBound(flat, d, Product(s'));
      UnflattenRoundTrip(q, s');
      var w := Unflatten(flat, shape);
      assert w == u + [r];
      assert w[..n - 1] == u;
    }
  }

  lemma QuotientBound(f: int, d: int, p: int)
    requires d > 0 && 0 <= f < p * d
    ensures 0 <= f / d < p
  {
    var q := f / d;
    assert f == q * d + f % d;
    if q >= p {
      A.MulLeMono(p, q, d);
    }
    if q < 0 {
      A.MulLeMono(q, -1, d);
    }
  }

  /** Distinct in-bounds tuples have distinct flat positions. */
  lemma FlatInjective(a: seq<int>, b: seq<int>, shape: seq<int>)
    requires InBounds(a, shape) && InBounds(b, shape) && Flat(a, shape) == Flat(b, shape)
    ensures a == b
  {
    FlattenRoundTrip(a, shape);
    FlattenRoundTrip(b, shape);
  }
}
