/** Detection patterns, their expanded instances and rewrite rules
    (src/Typescript/Match.ts, src/Typescript/Simplification.ts). */
module Match {
  import opened Wrappers
  import C = Complexes
  import F = Fractions
  import Tr = Tree
  import T = NodeTypes

  /** The integer field of a literal that a condition reads. */
  datatype Field = RealNumerator | RealDenominator | ImaginaryNumerator | ImaginaryDenominator

  /** The comparisons the pattern conditions make. `Integral` is `v % 1 == 0`. */
  datatype Test = Eq(k: int) | Ne(k: int) | Ge(k: int) | Lt(k: int) | Integral

  /** The condition lambdas of the literal-class patterns, as data. */
  datatype Condition = Condition(field: Field, test: Test)

  function FieldOf(f: Field, c: C.Complex): int {
    match f
    case RealNumerator => c.re.numerator
    case RealDenominator => c.re.denominator
    case ImaginaryNumerator => c.im.numerator
    case ImaginaryDenominator => c.im.denominator
  }

  function Passes(t: Test, v: int): bool {
    match t
    case Eq(k) => v == k
    case Ne(k) => v != k
    case Ge(k) => v >= k
    case Lt(k) => v < k
    case Integral => v % 1 == 0
  }

  /** A condition on a node; every condition-carrying pattern also fixes the type Literal,
      so the host never evaluates one on a node without a number. */
  predicate Holds(c: Condition, n: Tr.Node) {
    n.Literal? && Passes(c.test, FieldOf(c.field, n.number))
  }

  /** Every listed condition accepts the node; absent conditions accept everything. */
  predicate ConditionsHold(conds: Option<seq<Condition>>, n: Tr.Node) {
    conds.None? || forall i :: 0 <= i < |conds.value| ==> Holds(conds.value[i], n)
  }

  /** One alternative of a pattern. `args` holds one pattern per argument slot;
      `capture` is the special-node name. */
  datatype DetectionNode = DetectionNode(
    kind: Option<T.NodeType>,
    name: Option<string>,
    number: Option<C.Complex>,
    args: Slots,
    conditions: Option<seq<Condition>>,
    capture: Option<string>,
    commutative: Option<bool>)

  /** The optional `args` of a detection node: absent, or one pattern per slot. */
  datatype Slots = NoSlots | Slots(patterns: seq<Pattern>)

  /** A list of alternatives. */
  datatype Pattern = Pattern(alternatives: seq<DetectionNode>)

  /** An expanded, positionally matchable instance. */
  datatype MatchNode = MatchNode(
    kind: Option<T.NodeType>,
    name: Option<string>,
    number: Option<C.Complex>,
    args: ArgList,
    conditions: Option<seq<Condition>>,
    capture: Option<string>)

  /** The optional `args` of an instance: absent, or one instance per argument. */
  datatype ArgList = NoArgs | ArgList(items: seq<MatchNode>)

  type Captures = map<string, Tr.Node>

  /** A rewrite rule. `node` replaces the whole node; `children` yields one node that
      replaces the matched arguments. */
  datatype Rule = Rule(
    pattern: Pattern,
    requiredNodes: seq<string>,
    node: Option<(Tr.Node, Captures) -> Tr.Node>,
    children: Option<(Tr.Node, Captures) -> Tr.Node>)

  /** The empty detection node, which matches anything. */
  function Blank(): DetectionNode {
    DetectionNode(None, None, None, NoSlots, None, None, None)
  }

  /** The instance of an argless detection node: its fields with `args` cleared. */
  function Leaf(d: DetectionNode): MatchNode {
    MatchNode(d.kind, d.name, d.number, NoArgs, d.conditions, d.capture)
  }

  /** The instance of a detection node with the given argument instances. */
  function WithArgs(d: DetectionNode, args: seq<MatchNode>): MatchNode {
    MatchNode(d.kind, d.name, d.number, ArgList(args), d.conditions, d.capture)
  }
}
