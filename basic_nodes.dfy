/** Raw node constructors (src/Node/BasicNodes.ts): no folding, no flattening. */
module BasicNodes {
  import C = Complexes
  import F = Fractions
  import Tr = Tree

  /** `Literal(value: number)`: value/1 + 0/1 i. */
  function Literal(v: int): Tr.Node {
    Tr.Literal(C.Complex(F.Fraction(v, 1), F.Fraction(0, 1)))
  }

  /** `Literal(value: Complex)`: the value is stored as given. */
  function LiteralOf(c: C.Complex): Tr.Node {
    Tr.Literal(c)
  }

  function Variable(name: string): Tr.Node { Tr.Variable(name) }
  function Constant(name: string): Tr.Node { Tr.Constant(name) }
  function Multiply(nodes: seq<Tr.Node>): Tr.Node { Tr.Multiply(nodes) }
  function Add(nodes: seq<Tr.Node>): Tr.Node { Tr.Add(nodes) }
  function Exponentiation(n1: Tr.Node, n2: Tr.Node): Tr.Node { Tr.Exponentiation([n1, n2]) }
  function Function(name: string, args: seq<Tr.Node>): Tr.Node { Tr.Function(name, args) }
  function Negative(n: Tr.Node): Tr.Node { Tr.Multiply([n, NegativeOne()]) }
  function Equals(n1: Tr.Node, n2: Tr.Node): Tr.Node { Tr.Equals([n1, n2]) }
  function Absolute(n: Tr.Node): Tr.Node { Tr.Absolute([n]) }
  function Factorial(n: Tr.Node): Tr.Node { Tr.Factorial([n]) }
  function List(args: seq<Tr.Node>): Tr.Node { Tr.List(args) }

  function Divide(n1: Tr.Node, n2: Tr.Node): Tr.Node {
    Tr.Multiply([n1, Exponentiation(n2, Literal(-1))])
  }

  function Subtract(n1: Tr.Node, n2: Tr.Node): Tr.Node {
    Tr.Add([n1, Negative(n2)])
  }

  function Vector(args: seq<Tr.Node>): Tr.Node { Tr.Tensor([|args|], args) }

  /** No check that rows * cols is the number of elements. */
  function Matrix(args: seq<Tr.Node>, rows: int, cols: int): Tr.Node { Tr.Tensor([rows, cols], args) }

  function Tensor(args: seq<Tr.Node>, shape: seq<int>): Tr.Node { Tr.Tensor(shape, args) }

  function NegativeOne(): Tr.Node { Literal(-1) }
  function One(): Tr.Node { Literal(1) }
  function Zero(): Tr.Node { Literal(0) }

  /** A number literal is real: its value over 1, with imaginary part 0/1; a complex
      literal keeps its value unreduced. */
  lemma LiteralValue(v: int, c: C.Complex)
    ensures Literal(v).Literal? && Literal(v).number.re == F.Fraction(v, 1)
    ensures Literal(v).number.im == F.Fraction(0, 1)
    ensures LiteralOf(c).number == c
    ensures NegativeOne() == Literal(-1) && One() == Literal(1) && Zero() == Literal(0)
  {
  }

  /** The variadic constructors keep their operands as given: same count, same order,
      nothing folded or flattened. */
  lemma OperandsKept(nodes: seq<Tr.Node>, name: string)
    ensures Add(nodes).args == nodes && Multiply(nodes).args == nodes
    ensures List(nodes).args == nodes
    ensures Function(name, nodes).args == nodes && Function(name, nodes).name == name
  {
  }

  /** Division is a product with the divisor raised to -1; subtraction a sum with the
      subtrahend times -1. */
  lemma DerivedShapes(n1: Tr.Node, n2: Tr.Node)
    ensures Divide(n1, n2) == Multiply([n1, Exponentiation(n2, NegativeOne())])
    ensures Subtract(n1, n2) == Add([n1, Multiply([n2, NegativeOne()])])
  {
  }

  /** Exponentiation and Equals have two operands; Absolute and Factorial one. */
  lemma Arities(n1: Tr.Node, n2: Tr.Node)
    ensures Exponentiation(n1, n2).args == [n1, n2] && Equals(n1, n2).args == [n1, n2]
    ensures Absolute(n1).args == [n1] && Factorial(n1).args == [n1]
  {
  }

  /** A vector has the shape [length]; a matrix the shape [rows, cols], whatever the number
      of elements. */
  lemma TensorShapes(args: seq<Tr.Node>, rows: int, cols: int)
    ensures Vector(args).shape == [|args|] && Vector(args).args == args
    ensures Matrix(args, rows, cols).shape == [rows, cols] && Matrix(args, rows, cols).args == args
  {
  }
}
