/** LaTeXVisualizer and LaTeXFraction (src/Visitors/String.ts): a tree rendered as a
    LaTeX string. Every rendering but a zero literal is wrapped in braces. A thrown error
    is an `Err`: a Visualizer error for a tensor of rank above 2 or a cell out of bounds,
    and a HostError where the code reads an argument or a dimension that is not there. */
module LaTeX {
  import opened Wrappers
  import opened Text
  import F = Fractions
  import C = Complexes
  import Tr = Tree
  import TU = TensorUtils
  import TI = TensorIndex

  /** LaTeXFraction: "0", the numerator of an integer, or \frac{n}{d}; an imaginary part
      carries an "i". */
  function LaTeXFraction(f: F.Fraction, imaginary: bool): (r: string)
    ensures F.IsZero(f) ==> r == "0"
  {
    var unit := if imaginary then "i" else "";
    if F.IsZero(f) then "0"
    else if F.IsInteger(f) then IntStr(f.numerator) + unit
    else "\\frac{" + IntStr(f.numerator) + "}{" + IntStr(f.denominator) + "}" + unit
  }

  /** A fraction's LaTeX starts with a backslash exactly when it is a \frac. */
  lemma FractionStringHead(f: F.Fraction, imaginary: bool)
    ensures var r := LaTeXFraction(f, imaginary);
      |r| > 0 && (r[0] == '\\' <==> !F.IsZero(f) && !F.IsInteger(f))
  {
    if !F.IsZero(f) && F.IsInteger(f) {
      IntStrAvoids(f.numerator, '\\');
    }
  }

  /** Rendering loses nothing: normalised fractions with the same LaTeX are equal. */
  lemma FractionStringInjective(f: F.Fraction, g: F.Fraction, imaginary: bool)
    requires F.Normal(f) && F.Normal(g) && LaTeXFraction(f, imaginary) == LaTeXFraction(g, imaginary)
    ensures f == g
  {
    var unit := if imaginary then "i" else "";
    var r := LaTeXFraction(f, imaginary);
    FractionStringHead(f, imaginary);
    FractionStringHead(g, imaginary);
    if F.IsZero(f) || F.IsZero(g) {
      if !F.IsZero(f) || !F.IsZero(g) {
        // "0" against the numerator of a nonzero integer
        var h := if F.IsZero(f) then g else f;
        assert IntStr(h.numerator) + unit == "0";
        assert IntStr(h.numerator) == "0" == IntStr(0);
        IntStrInjective(h.numerator, 0);
      }
      F.NormalUnique(f, g);
    } else if F.IsInteger(f) {
      assert IntStr(f.numerator) + unit == IntStr(g.numerator) + unit;
      assert IntStr(f.numerator) == (IntStr(f.numerator) + unit)[..|IntStr(f.numerator)|];
      IntStrInjective(f.numerator, g.numerator);
    } else {
      FracInjective(f.numerator, f.denominator, g.numerator, g.denominator, unit);
    }
  }

  lemma PrefixCancel(p: string, x: string, y: string)
    requires p + x == p + y
    ensures x == y
  {
    assert x == (p + x)[|p|..];
    assert y == (p + y)[|p|..];
  }

  /** After the leading "\\frac{", the numerator, then "}", then the rest. */
  lemma FracShape(a: string, b: string, unit: string)
    ensures "\\frac{" + a + "}{" + b + "}" + unit == "\\frac{" + (a + ['}'] + ("{" + b + "}" + unit))
    ensures "{" + b + "}" + unit == "{" + (b + ['}'] + unit)
  {
  }

  lemma FracInjective(a: int, b: int, c: int, d: int, unit: string)
    requires "\\frac{" + IntStr(a) + "}{" + IntStr(b) + "}" + unit == "\\frac{" + IntStr(c) + "}{" + IntStr(d) + "}" + unit
    ensures a == c && b == d
  {
    var u := "{" + IntStr(b) + "}" + unit;
    var v := "{" + IntStr(d) + "}" + unit;
    FracShape(IntStr(a), IntStr(b), unit);
    FracShape(IntStr(c), IntStr(d), unit);
    PrefixCancel("\\frac{", IntStr(a) + ['}'] + u, IntStr(c) + ['}'] + v);
    IntStrAvoids(a, '}');
    IntStrAvoids(c, '}');
    SplitAt(IntStr(a), IntStr(c), '}', u, v);
    IntStrInjective(a, c);
    PrefixCancel("{", IntStr(b) + ['}'] + unit, IntStr(d) + ['}'] + unit);
    IntStrAvoids(b, '}');
    IntStrAvoids(d, '}');
    SplitAt(IntStr(b), IntStr(d), '}', unit, unit);
    IntStrInjective(b, d);
  }

  /** VisitLiteral. */
  function LiteralString(z: C.Complex): string {
    if F.IsZero(z.re) && F.IsZero(z.im) then "0"
    else if F.IsZero(z.im) then "{" + LaTeXFraction(z.re, false) + "}"
    else if F.IsZero(z.re) then "{" + LaTeXFraction(z.im, true) + "}"
    else "{" + LaTeXFraction(z.re, false) + "+" + LaTeXFraction(z.im, true) + "}"
  }

  /** How a tensor that is not a matrix is rendered: as written, the loop bound is
      shape[1], which a rank-1 shape does not have; the evident intent is one row of the
      shape[0] elements. */
  datatype Vectors = VectorsAsWritten | VectorsAsRow

  function Render(n: Tr.Node, mode: Vectors): Result<string>
    decreases n, 3
  {
    match n
    case Literal(z) => Ok(LiteralString(z))
    case Variable(name) => Ok("{" + name + "}")
    case Constant(name) => Ok("{\\" + name + "}")
    case Add(args) =>
      var parts :- RenderAll(args, mode);
      Ok("{(" + Join(parts, "+") + ")}")
    case Multiply(args) =>
      var parts :- RenderAll(args, mode);
      Ok("{(" + Join(parts, "\\cdot") + ")}")
    case Exponentiation(args) =>
      var base :- RenderArg(args, 0, mode);
      var exponent :- RenderArg(args, 1, mode);
      Ok("{" + base + "^" + exponent + "}")
    case List(args) =>
      var parts :- RenderAll(args, mode);
      Ok("{\\{" + Join(parts, ", ") + "\\}}")
    case Function(name, args) =>
      var parts :- RenderAll(args, mode);
      Ok("{(\\text{" + name + "}(" + Join(parts, ", ") + "))}")
    case Factorial(args) =>
      var a :- RenderArg(args, 0, mode);
      Ok("{" + a + "!}")
    case Absolute(args) =>
      var a :- RenderArg(args, 0, mode);
      Ok("{|" + a + "|}")
    case Equals(args) =>
      var parts :- RenderAll(args, mode);
      Ok("{" + Join(parts, "=") + "}")
    case Tensor(shape, args) =>
      if |shape| > 2 then Fail(VisualizerError, "Visualizer does not support tensors with >2 dimensions")
      else if |shape| == 2 then
        var body :- Rows(n, TU.Count(shape[0]), mode);
        Ok(Bmatrix(body))
      else if mode.VectorsAsWritten? || |shape| == 0 then Fail(HostError, "attempt to compare number < nil")
      else
        var body :- VectorCells(n, TU.Count(shape[0]), mode);
        Ok(Bmatrix(body))
  }

  function Bmatrix(body: string): string {
    "{\\begin{bmatrix}" + body + "\\end{bmatrix}}"
  }

  /** `this.Visit(node.args[k])`: visiting a missing argument indexes nil. */
  function RenderArg(args: seq<Tr.Node>, k: nat, mode: Vectors): Result<string>
    decreases args, 1
  {
    if k < |args| then Render(args[k], mode) else Fail(HostError, "attempt to index nil")
  }

  /** `args.map(arg => this.Visit(arg))`, stopping at the first throw. */
  function RenderAll(args: seq<Tr.Node>, mode: Vectors): (r: Result<seq<string>>)
    ensures r.Ok? ==> |r.value| == |args|
    decreases args, 0
  {
    if args == [] then Ok([])
    else
      var front :- RenderAll(args[..|args| - 1], mode);
      var last :- Render(args[|args| - 1], mode);
      Ok(front + [last])
  }

  /** The element at [i, j] rendered, or the "Out of bounds" throw when GetElement finds
      nothing there. */
  function Cell(t: Tr.Node, indices: seq<int>, mode: Vectors): Result<string>
    requires t.Tensor?
    decreases t, 0
  {
    match TI.FlatIndex(indices, t.shape)
    case Ok(f) => if 0 <= f < |t.args| then Render(t.args[f], mode) else Fail(VisualizerError, "Out of bounds")
    case Err(_) => Fail(VisualizerError, "Out of bounds")
  }

  /** The first `cols` cells of matrix row i, with "&" after every cell but the row's last. */
  function RowCells(t: Tr.Node, i: int, cols: nat, mode: Vectors): Result<string>
    requires t.Tensor? && |t.shape| == 2
    decreases t, 1, cols
  {
    if cols == 0 then Ok("")
    else
      var front :- RowCells(t, i, cols - 1, mode);
      var item :- Cell(t, [i, cols - 1], mode);
      Ok(front + item + (if cols - 1 != t.shape[1] - 1 then "&" else ""))
  }

  /** The first `rows` rows, with "\\" after every row but the matrix's last. */
  function Rows(t: Tr.Node, rows: nat, mode: Vectors): Result<string>
    requires t.Tensor? && |t.shape| == 2
    decreases t, 2, rows
  {
    if rows == 0 then Ok("")
    else
      var front :- Rows(t, rows - 1, mode);
      var row :- RowCells(t, rows - 1, TU.Count(t.shape[1]), mode);
      Ok(front + row + (if rows - 1 != t.shape[0] - 1 then "\\\\" else ""))
  }

  /** The corrected vector branch: the first `count` elements separated by "&". */
  function VectorCells(t: Tr.Node, count: nat, mode: Vectors): Result<string>
    requires t.Tensor? && |t.shape| == 1
    decreases t, 2, count
  {
    if count == 0 then Ok("")
    else
      var front :- VectorCells(t, count - 1, mode);
      var item :- Cell(t, [count - 1], mode);
      Ok(front + item + (if count - 1 != t.shape[0] - 1 then "&" else ""))
  }

  // ---- when rendering succeeds ----

  /** What the renderer needs of a tree: the arguments it reads exist, tensors are
      matrices (or, once corrected, vectors) whose every cell position holds a stored
      element, and all of that at every depth. */
  predicate Renderable(n: Tr.Node, mode: Vectors)
    decreases n, 1
  {
    match n
    case Literal(_) => true
    case Variable(_) => true
    case Constant(_) => true
    case Exponentiation(args) => |args| >= 2 && Renderable(args[0], mode) && Renderable(args[1], mode)
    case Factorial(args) => |args| >= 1 && Renderable(args[0], mode)
    case Absolute(args) => |args| >= 1 && Renderable(args[0], mode)
    case Tensor(shape, args) =>
      && (|shape| == 2 || (|shape| == 1 && mode.VectorsAsRow?))
      && Cells(shape) <= |args|
      && forall k :: 0 <= k < Cells(shape) ==> Renderable(args[k], mode)
    case _ => AllRenderable(n.args, mode)
  }

  /** The number of cell positions the renderer visits. */
  function Cells(shape: seq<int>): nat
    requires |shape| >= 1
  {
    TU.Count(shape[0]) * (if |shape| >= 2 then TU.Count(shape[1]) else 1)
  }

  predicate AllRenderable(args: seq<Tr.Node>, mode: Vectors)
    decreases args, 0
  {
    forall i :: 0 <= i < |args| ==> Renderable(args[i], mode)
  }

  /** Rendering succeeds exactly on renderable trees. */
  lemma {:induction false} RenderOk(n: Tr.Node, mode: Vectors)
    ensures Render(n, mode).Ok? <==> Renderable(n, mode)
    decreases n, 3
  {
    match n
    case Literal(_) =>
    case Variable(_) =>
    case Constant(_) =>
    case Exponentiation(args) =>
      if |args| >= 1 { RenderOk(args[0], mode); }
      if |args| >= 2 { RenderOk(args[1], mode); }
    case Factorial(args) =>
      if |args| >= 1 { RenderOk(args[0], mode); }
    case Absolute(args) =>
      if |args| >= 1 { RenderOk(args[0], mode); }
    case Tensor(shape, args) =>
      if |shape| == 2 {
        MatrixOk(n, mode);
      } else if |shape| == 1 && mode.VectorsAsRow? {
        VectorOk(n, TU.Count(shape[0]), mode);
      }
    case Add(args) => RenderAllOk(args, mode);
    case Multiply(args) => RenderAllOk(args, mode);
    case List(args) => RenderAllOk(args, mode);
    case Function(_, args) => RenderAllOk(args, mode);
    case Equals(args) => RenderAllOk(args, mode);
  }

  lemma {:induction false} RenderAllOk(args: seq<Tr.Node>, mode: Vectors)
    ensures RenderAll(args, mode).Ok? <==> AllRenderable(args, mode)
    decreases args, 1
  {
    if args != [] {
      var front := args[..|args| - 1];
      RenderAllOk(front, mode);
      RenderOk(args[|args| - 1], mode);
      if AllRenderable(front, mode) && Renderable(args[|args| - 1], mode) {
        forall i | 0 <= i < |args| ensures Renderable(args[i], mode) {
          if i < |args| - 1 { assert args[i] == front[i]; }
        }
      }
      if AllRenderable(args, mode) {
        forall i | 0 <= i < |front| ensures Renderable(front[i], mode) {
          assert front[i] == args[i];
        }
      }
    }
  }

  /** A cell renders exactly when its position is a stored element that renders. */
  lemma CellOk(t: Tr.Node, indices: seq<int>, mode: Vectors)
    requires t.Tensor? && TI.InBounds(indices, t.shape)
    ensures Cell(t, indices, mode).Ok? <==>
      0 <= TI.Flat(indices, t.shape) < |t.args| && Renderable(t.args[TI.Flat(indices, t.shape)], mode)
    decreases t, 0
  {
    TI.FlatBounds(indices, t.shape);
    if TI.Flat(indices, t.shape) < |t.args| {
      RenderOk(t.args[TI.Flat(indices, t.shape)], mode);
    }
  }

  /** Cells of the first `rows` rows render exactly when the first rows · cols stored
      elements exist and render. */
  lemma {:induction false} RowsOk(t: Tr.Node, rows: nat, mode: Vectors)
    requires t.Tensor? && |t.shape| == 2 && rows <= TU.Count(t.shape[0])
    ensures var cols := TU.Count(t.shape[1]);
      Rows(t, rows, mode).Ok? <==>
        rows * cols <= |t.args| && forall k :: 0 <= k < rows * cols ==> Renderable(t.args[k], mode)
    decreases t, 2, rows
  {
    var cols := TU.Count(t.shape[1]);
    if rows > 0 {
      RowsOk(t, rows - 1, mode);
      RowCellsOk(t, rows - 1, (rows - 1) * cols, cols, mode);
      CountSplit(t, rows, cols, mode);
    }
  }

  lemma CountSplit(t: Tr.Node, rows: nat, cols: nat, mode: Vectors)
    requires t.Tensor? && rows > 0
    ensures (rows * cols <= |t.args| && forall k :: 0 <= k < rows * cols ==> Renderable(t.args[k], mode)) <==>
      && (rows - 1) * cols <= |t.args|
      && (forall k :: 0 <= k < (rows - 1) * cols ==> Renderable(t.args[k], mode))
      && (rows - 1) * cols + cols <= |t.args|
      && (forall k :: (rows - 1) * cols <= k < (rows - 1) * cols + cols ==> Renderable(t.args[k], mode))
  {
    assert rows * cols == (rows - 1) * cols + cols;
  }

  /** The first `cols` cells of row i render exactly when the stored elements at
      lo + 0 .. lo + cols - 1 exist and render, lo being i · width. */
  lemma {:induction false} RowCellsOk(t: Tr.Node, i: int, lo: nat, cols: nat, mode: Vectors)
    requires t.Tensor? && |t.shape| == 2 && 0 <= i < TU.Count(t.shape[0]) && cols <= TU.Count(t.shape[1])
    requires lo == i * TU.Count(t.shape[1])
    ensures RowCells(t, i, cols, mode).Ok? <==>
      (cols == 0 || lo + cols <= |t.args|) && forall k :: lo <= k < lo + cols ==> Renderable(t.args[k], mode)
    decreases t, 1, cols
  {
    if cols > 0 {
      var c := cols - 1;
      RowCellsOk(t, i, lo, c, mode);
      CellAt(t, i, lo, c, mode);
      if RowCells(t, i, c, mode).Ok? {
        RowCellsStep(t, i, c, mode);
      }
      SplitRange(t.args, lo, c, mode);
    }
  }

  /** Cell [i, c] of a matrix is the stored element at i · width + c. */
  lemma CellAt(t: Tr.Node, i: int, lo: nat, c: int, mode: Vectors)
    requires t.Tensor? && |t.shape| == 2 && 0 <= i < TU.Count(t.shape[0]) && 0 <= c < TU.Count(t.shape[1])
    requires lo == i * TU.Count(t.shape[1])
    ensures Cell(t, [i, c], mode).Ok? <==> lo + c < |t.args| && Renderable(t.args[lo + c], mode)
    decreases t, 1, 0
  {
    assert t.shape == [t.shape[0], t.shape[1]];
    assert TI.InBounds([i, c], t.shape);
    TU.Flat2(i, c, t.shape[0], t.shape[1]);
    CellOk(t, [i, c], mode);
  }

  lemma SplitRange(args: seq<Tr.Node>, lo: int, c: nat, mode: Vectors)
    requires 0 <= lo
    ensures (lo + c + 1 <= |args| && forall k :: lo <= k < lo + c + 1 ==> Renderable(args[k], mode)) <==>
      && (lo + c <= |args| && forall k :: lo <= k < lo + c ==> Renderable(args[k], mode))
      && (0 <= lo + c < |args| && Renderable(args[lo + c], mode))
  {
  }

  lemma {:induction false} MatrixOk(t: Tr.Node, mode: Vectors)
    requires t.Tensor? && |t.shape| == 2
    ensures Render(t, mode).Ok? <==> Renderable(t, mode)
    decreases t, 2, TU.Count(t.shape[0]) + 1
  {
    RowsOk(t, TU.Count(t.shape[0]), mode);
  }

  /** The corrected vector branch renders exactly when its first `count` stored elements
      exist and render. */
  lemma {:induction false} VectorOk(t: Tr.Node, count: nat, mode: Vectors)
    requires t.Tensor? && |t.shape| == 1 && count <= TU.Count(t.shape[0])
    ensures VectorCells(t, count, mode).Ok? <==>
      count <= |t.args| && forall k :: 0 <= k < count ==> Renderable(t.args[k], mode)
    decreases t, 2, count
  {
    if count > 0 {
      VectorOk(t, count - 1, mode);
      assert TI.InBounds([count - 1], t.shape);
      assert TI.Flat([count - 1], t.shape) == count - 1 by {
        assert [count - 1][..0] == [] && t.shape[..0] == [];
      }
      CellOk(t, [count - 1], mode);
    }
  }

  // ---- the vector branch ----

  /** As written, a vector never renders: its loop compares with shape[1], which is nil. */
  lemma VectorsNeverRender(t: Tr.Node)
    requires t.Tensor? && |t.shape| == 1
    ensures Render(t, VectorsAsWritten) == Fail(HostError, "attempt to compare number < nil")
  {
  }

  /** The corrected branch renders the vector [a, b] as one bmatrix row. */
  lemma VectorAsRow(a: Tr.Node, b: Tr.Node, ra: string, rb: string)
    requires Render(a, VectorsAsRow) == Ok(ra) && Render(b, VectorsAsRow) == Ok(rb)
    ensures Render(Tr.Tensor([2], [a, b]), VectorsAsRow) == Ok(Bmatrix(ra + "&" + rb))
  {
    var v := Tr.Tensor([2], [a, b]);
    VectorPair(v, VectorsAsRow);
    assert TU.Count(v.shape[0]) == 2;
    RenderVector(v, VectorsAsRow);
  }

  lemma RenderVector(t: Tr.Node, mode: Vectors)
    requires t.Tensor? && |t.shape| == 1 && mode.VectorsAsRow? && VectorCells(t, TU.Count(t.shape[0]), mode).Ok?
    ensures Render(t, mode) == Ok(Bmatrix(VectorCells(t, TU.Count(t.shape[0]), mode).value))
  {
  }

  lemma VectorPair(v: Tr.Node, mode: Vectors)
    requires v.Tensor? && v.shape == [2] && |v.args| == 2
    requires Render(v.args[0], mode).Ok? && Render(v.args[1], mode).Ok?
    ensures VectorCells(v, 2, mode) == Ok(Render(v.args[0], mode).value + "&" + Render(v.args[1], mode).value)
  {
    var ra, rb := Render(v.args[0], mode).value, Render(v.args[1], mode).value;
    VectorFirst(v, mode);
    VectorCellAt(v, 1, mode);
    assert Cell(v, [1], mode) == Ok(rb);
    assert 2 - 1 == v.shape[0] - 1;
    assert VectorCells(v, 2, mode) == Ok((ra + "&") + rb + "");
    assert (ra + "&") + rb + "" == ra + "&" + rb;
  }

  lemma VectorFirst(v: Tr.Node, mode: Vectors)
    requires v.Tensor? && v.shape == [2] && |v.args| == 2 && Render(v.args[0], mode).Ok?
    ensures VectorCells(v, 1, mode) == Ok(Render(v.args[0], mode).value + "&")
  {
    VectorCellAt(v, 0, mode);
    assert VectorCells(v, 0, mode) == Ok("");
    assert "" + Render(v.args[0], mode).value == Render(v.args[0], mode).value;
  }

  lemma VectorCellAt(v: Tr.Node, k: nat, mode: Vectors)
    requires v.Tensor? && |v.shape| == 1 && k < v.shape[0] && k < |v.args|
    ensures Cell(v, [k], mode) == Render(v.args[k], mode)
  {
    assert [k][..0] == [] && v.shape[..0] == [];
    assert TI.InBounds([k], v.shape);
    assert TI.Flat([k], v.shape) == k;
  }

  /** Every rendering but that of a zero literal is one brace group. */
  lemma Braced(n: Tr.Node, mode: Vectors)
    requires Render(n, mode).Ok?
    ensures var r := Render(n, mode).value;
      r == "0" || (|r| >= 2 && r[0] == '{' && r[|r| - 1] == '}')
  {
  }

  // ---- VisitTensor with its loops ----

  /** GetElement and the "Out of bounds" throw are what Cell does. */
  lemma CellIsGetElement(t: TU.TensorNode, indices: seq<int>, mode: Vectors)
    ensures TU.GetElement(t, indices).None? ==> Cell(t, indices, mode) == Fail(VisualizerError, "Out of bounds")
    ensures TU.GetElement(t, indices).Some? ==> Cell(t, indices, mode) == Render(TU.GetElement(t, indices).value, mode)
  {
  }

  /** Once a row fails, the matrix fails with the same error. */
  lemma {:induction false} RowsErrPersists(t: Tr.Node, k: nat, rows: nat, mode: Vectors)
    requires t.Tensor? && |t.shape| == 2 && k <= rows && Rows(t, k, mode).Err?
    ensures Rows(t, rows, mode) == Rows(t, k, mode)
    decreases rows
  {
    if rows > k {
      RowsErrPersists(t, k, rows - 1, mode);
    }
  }

  lemma {:induction false} RowCellsErrPersists(t: Tr.Node, i: int, k: nat, cols: nat, mode: Vectors)
    requires t.Tensor? && |t.shape| == 2 && k <= cols && RowCells(t, i, k, mode).Err?
    ensures RowCells(t, i, cols, mode) == RowCells(t, i, k, mode)
    decreases cols
  {
    if cols > k {
      RowCellsErrPersists(t, i, k, cols - 1, mode);
    }
  }

  lemma {:induction false} VectorErrPersists(t: Tr.Node, k: nat, count: nat, mode: Vectors)
    requires t.Tensor? && |t.shape| == 1 && k <= count && VectorCells(t, k, mode).Err?
    ensures VectorCells(t, count, mode) == VectorCells(t, k, mode)
    decreases count
  {
    if count > k {
      VectorErrPersists(t, k, count - 1, mode);
    }
  }

  /** VisitTensor: a rank above 2 throws; a matrix is rendered by nested loops, and any
      other tensor by the vector loop. */
  method VisitTensor(t: TU.TensorNode, mode: Vectors) returns (r: Result<string>)
    ensures r == Render(t, mode)
  {
    if |t.shape| > 2 {
      return Fail(VisualizerError, "Visualizer does not support tensors with >2 dimensions");
    } else if |t.shape| == 2 {
      r := VisitMatrix(t, mode);
    } else if mode.VectorsAsWritten? || |t.shape| == 0 {
      return Fail(HostError, "attempt to compare number < nil");
    } else {
      r := VisitVector(t, mode);
    }
  }

  /** The outer loop over rows, "\\\\" after every row but the last. */
  method VisitMatrix(t: TU.TensorNode, mode: Vectors) returns (r: Result<string>)
    requires |t.shape| == 2
    ensures r == Render(t, mode)
  {
    var matrix := "{\\begin{bmatrix}";
    var rows := TU.Count(t.shape[0]);
    var i := 0;
    while i < rows
      invariant 0 <= i <= rows
      invariant Rows(t, i, mode).Ok? && matrix == "{\\begin{bmatrix}" + Rows(t, i, mode).value
    {
      var next := AppendRow(t, i, matrix, mode);
      if next.Err? {
        RowsErrPersists(t, i + 1, rows, mode);
        RenderMatrix(t, mode);
        return next;
      }
      matrix := next.value;
      i := i + 1;
    }
    RenderMatrix(t, mode);
    return Ok(matrix + "\\end{bmatrix}}");
  }

  /** The outer loop's body: row i visited and appended to the rows before it, then
      "\\\\" unless it is the last row; a row that throws makes the rows throw. */
  method AppendRow(t: TU.TensorNode, i: nat, acc: string, mode: Vectors) returns (r: Result<string>)
    requires |t.shape| == 2 && Rows(t, i, mode).Ok? && acc == "{\\begin{bmatrix}" + Rows(t, i, mode).value
    ensures r.Err? ==> Rows(t, i + 1, mode) == r
    ensures r.Ok? ==> Rows(t, i + 1, mode).Ok? && r.value == "{\\begin{bmatrix}" + Rows(t, i + 1, mode).value
  {
    var row := VisitRow(t, i, mode);
    RowsStep(t, i, mode);
    if row.Err? {
      return Err(row.error);
    }
    var built := acc + row.value;
    if i != t.shape[0] - 1 {
      built := built + "\\\\";
    } else {
      assert built + "" == built;
    }
    return Ok(built);
  }

  /** One more row: the rows so far, the row, and "\\\\" unless it is the last; a row that
      throws makes the rows throw. */
  lemma RowsStep(t: Tr.Node, i: nat, mode: Vectors)
    requires t.Tensor? && |t.shape| == 2 && Rows(t, i, mode).Ok?
    ensures var row := RowCells(t, i, TU.Count(t.shape[1]), mode);
      Rows(t, i + 1, mode) == if row.Err? then Err(row.error)
        else Ok(Rows(t, i, mode).value + row.value + (if i != t.shape[0] - 1 then "\\\\" else ""))
  {
  }

  /** A matrix renders as its rows inside a bmatrix, or throws what they throw. */
  lemma RenderMatrix(t: Tr.Node, mode: Vectors)
    requires t.Tensor? && |t.shape| == 2
    ensures var body := Rows(t, TU.Count(t.shape[0]), mode);
      Render(t, mode) == if body.Err? then Err(body.error) else Ok(Bmatrix(body.value))
  {
  }

  /** `TensorUtils.GetElement` and then `this.Visit` on what it finds, or the "Out of
      bounds" throw. */
  method VisitCell(t: TU.TensorNode, indices: seq<int>, mode: Vectors) returns (r: Result<string>)
    ensures r == Cell(t, indices, mode)
  {
    var item := TU.GetElement(t, indices);
    CellIsGetElement(t, indices, mode);
    if item.None? {
      return Fail(VisualizerError, "Out of bounds");
    }
    r := Render(item.value, mode);
  }

  /** A loop body: the cell at the indices visited and appended to what is built so far,
      then the separator unless it is the last cell. */
  method AppendCell(t: TU.TensorNode, indices: seq<int>, acc: string, last: bool, sep: string, mode: Vectors)
    returns (r: Result<string>)
    ensures var cell := Cell(t, indices, mode);
      r == if cell.Err? then Err(cell.error) else Ok(acc + cell.value + (if last then "" else sep))
  {
    var rendered := VisitCell(t, indices, mode);
    if rendered.Err? {
      return Err(rendered.error);
    }
    var built := acc + rendered.value;
    if !last {
      built := built + sep;
    } else {
      assert built + "" == built;
    }
    return Ok(built);
  }

  /** The inner loop over the columns of row i, "&" after every cell but the last. */
  method VisitRow(t: TU.TensorNode, i: int, mode: Vectors) returns (r: Result<string>)
    requires |t.shape| == 2
    ensures r == RowCells(t, i, TU.Count(t.shape[1]), mode)
  {
    var cols := TU.Count(t.shape[1]);
    var row := "";
    var j := 0;
    while j < cols
      invariant 0 <= j <= cols
      invariant RowCells(t, i, j, mode).Ok? && row == RowCells(t, i, j, mode).value
    {
      var next := AppendCell(t, [i, j], row, j == t.shape[1] - 1, "&", mode);
      RowCellsStep(t, i, j, mode);
      if next.Err? {
        RowCellsErrPersists(t, i, j + 1, cols, mode);
        return next;
      }
      row := next.value;
      j := j + 1;
    }
    return Ok(row);
  }

  /** One more cell of a row: the cells so far, the cell, and "&" unless it is the last; a
      cell that throws makes the row throw. */
  lemma RowCellsStep(t: Tr.Node, i: int, j: nat, mode: Vectors)
    requires t.Tensor? && |t.shape| == 2 && RowCells(t, i, j, mode).Ok?
    ensures var cell := Cell(t, [i, j], mode);
      RowCells(t, i, j + 1, mode) == if cell.Err? then Err(cell.error)
        else Ok(RowCells(t, i, j, mode).value + cell.value + (if j != t.shape[1] - 1 then "&" else ""))
  {
  }

  /** The corrected vector loop over shape[0] elements, "&" after every one but the last. */
  method VisitVector(t: TU.TensorNode, mode: Vectors) returns (r: Result<string>)
    requires |t.shape| == 1 && mode.VectorsAsRow?
    ensures r == Render(t, mode)
  {
    var vector := "{\\begin{bmatrix}";
    var count := TU.Count(t.shape[0]);
    var i := 0;
    while i < count
      invariant 0 <= i <= count
      invariant VectorCells(t, i, mode).Ok? && vector == "{\\begin{bmatrix}" + VectorCells(t, i, mode).value
    {
      var next := AppendElement(t, i, vector, mode);
      if next.Err? {
        VectorErrPersists(t, i + 1, count, mode);
        VectorRender(t, mode);
        return next;
      }
      vector := next.value;
      i := i + 1;
    }
    VectorRender(t, mode);
    return Ok(vector + "\\end{bmatrix}}");
  }

  /** The vector loop's body: element i visited and appended to the elements before it,
      then "&" unless it is the last; an element that throws makes the vector throw. */
  method AppendElement(t: TU.TensorNode, i: nat, acc: string, mode: Vectors) returns (r: Result<string>)
    requires |t.shape| == 1 && VectorCells(t, i, mode).Ok? && acc == "{\\begin{bmatrix}" + VectorCells(t, i, mode).value
    ensures r.Err? ==> VectorCells(t, i + 1, mode) == r
    ensures r.Ok? ==> VectorCells(t, i + 1, mode).Ok? && r.value == "{\\begin{bmatrix}" + VectorCells(t, i + 1, mode).value
  {
    var next := AppendCell(t, [i], acc, i == t.shape[0] - 1, "&", mode);
    VectorCellsStep(t, i, mode);
    return next;
  }

  /** One more element of a vector: the elements so far, the element, and "&" unless it is
      the last; an element that throws makes the vector throw. */
  lemma VectorCellsStep(t: Tr.Node, i: nat, mode: Vectors)
    requires t.Tensor? && |t.shape| == 1 && VectorCells(t, i, mode).Ok?
    ensures var cell := Cell(t, [i], mode);
      VectorCells(t, i + 1, mode) == if cell.Err? then Err(cell.error)
        else Ok(VectorCells(t, i, mode).value + cell.value + (if i != t.shape[0] - 1 then "&" else ""))
  {
  }

  /** Corrected, a vector renders as its elements inside a bmatrix, or throws what they
      throw. */
  lemma VectorRender(t: Tr.Node, mode: Vectors)
    requires t.Tensor? && |t.shape| == 1 && mode.VectorsAsRow?
    ensures var body := VectorCells(t, TU.Count(t.shape[0]), mode);
      Render(t, mode) == if body.Err? then Err(body.error) else Ok(Bmatrix(body.value))
  {
  }
}
