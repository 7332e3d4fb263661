/** The tree and pattern serialisers of src/Node/NodeSerializer.ts. */
module NodeSerializer {
  import opened Wrappers
  import opened Match
  import Tr = Tree
  import T = NodeTypes
  import C = Complexes
  import F = Fractions
  import X = Text
  import NU = NodeUtils

  /** The typeMap codes. NOT and AND have no entry; no node or pattern builder produces
      those types, and the model gives them an empty code. */
  function TypeCode(k: T.NodeType): string {
    match k
    case Literal => "0"
    case Variable => "1"
    case Constant => "2"
    case Add => "3"
    case Multiply => "4"
    case Exponentiation => "5"
    case Equals => "6"
    case Absolute => "7"
    case Factorial => "8"
    case Function => "9"
    case List => "A"
    case Tensor => "B"
    case NOT => ""
    case AND => ""
  }

  /** `rn|rd|in|id` of a complex number. */
  function NumberFields(c: C.Complex): string {
    X.Join([X.IntStr(c.re.numerator), X.IntStr(c.re.denominator),
            X.IntStr(c.im.numerator), X.IntStr(c.im.denominator)], "|")
  }

  function ShapeStrs(shape: seq<int>): (r: seq<string>)
    ensures |r| == |shape| && forall i :: 0 <= i < |r| ==> r[i] == X.IntStr(shape[i])
  {
    seq(|shape|, i requires 0 <= i < |shape| => X.IntStr(shape[i]))
  }

  /** ToString: "{", the type code, then ":"-prefixed number, string, shape and argument
      segments for the fields the node has, then "}". */
  function ToString(n: Tr.Node): string
    decreases n, 4
  {
    "{" + Body(n) + "}"
  }

  function Body(n: Tr.Node): string
    decreases n, 3
  {
    TypeCode(n.Kind()) + Rest(n)
  }

  /** The segments after the type code. */
  function Rest(n: Tr.Node): string
    decreases n, 2
  {
    NumberPart(n) + StringPart(n) + ShapePart(n) + ArgsPart(n)
  }

  function NumberPart(n: Tr.Node): string {
    if n.HasNumber() then ":" + NumberFields(n.number) else ""
  }

  function StringPart(n: Tr.Node): string {
    if n.HasString() then ":" + n.name else ""
  }

  function ShapePart(n: Tr.Node): string {
    if n.Tensor? then ":" + X.Join(ShapeStrs(n.shape), "|") else ""
  }

  /** The arguments' serialisations joined by "|", when the node has arguments. */
  function ArgsPart(n: Tr.Node): string
    decreases n, 1
  {
    if n.HasArgs() then ":" + X.Join(ArgStrs(n), "|") else ""
  }

  function ArgStrs(n: Tr.Node): (r: seq<string>)
    requires n.HasArgs()
    ensures |r| == |n.args| && forall i :: 0 <= i < |r| ==> r[i] == ToString(n.args[i])
    decreases n, 0
  {
    seq(|n.args|, i requires 0 <= i < |n.args| => ToString(n.args[i]))
  }

  // ---- brace depth ----

  /** The number of "{" minus the number of "}". */
  function Depth(w: string): int {
    if w == [] then 0
    else Depth(w[..|w| - 1]) + (if w[|w| - 1] == '{' then 1 else if w[|w| - 1] == '}' then -1 else 0)
  }

  /** Every prefix has at least as many "{" as "}", and the whole has as many. */
  predicate Balanced(w: string) {
    Depth(w) == 0 && forall k :: 0 <= k <= |w| ==> Depth(w[..k]) >= 0
  }

  /** A single brace group: it opens at once and closes only at its end. */
  predicate Group(w: string) {
    |w| >= 2 && Depth(w) == 0 && forall k :: 1 <= k < |w| ==> Depth(w[..k]) > 0
  }

  /** No delimiter character of the serialisation. */
  predicate Plain(s: string) {
    X.Avoids(s, '{') && X.Avoids(s, '}') && X.Avoids(s, '|') && X.Avoids(s, ':')
  }

  /** Every name in the tree is Plain. */
  predicate PlainNames(n: Tr.Node)
    decreases n
  {
    && (n.HasString() ==> Plain(n.name))
    && (n.HasArgs() ==> forall i :: 0 <= i < |n.args| ==> PlainNames(n.args[i]))
  }

  lemma {:induction false} DepthConcat(a: string, b: string)
    ensures Depth(a + b) == Depth(a) + Depth(b)
    decreases |b|
  {
    if b != [] {
      var b' := b[..|b| - 1];
      assert (a + b)[..|a + b| - 1] == a + b';
      DepthConcat(a, b');
    } else {
      assert a + b == a;
    }
  }

  lemma PrefixOfConcat(a: string, b: string, k: nat)
    ensures k <= |a| ==> (a + b)[..k] == a[..k]
    ensures |a| <= k <= |a| + |b| ==> (a + b)[..k] == a + b[..k - |a|]
  {
  }

  lemma BalancedConcat(a: string, b: string)
    requires Balanced(a) && Balanced(b)
    ensures Balanced(a + b)
  {
    DepthConcat(a, b);
    forall k | 0 <= k <= |a + b| ensures Depth((a + b)[..k]) >= 0 {
      PrefixOfConcat(a, b, k);
      if k > |a| {
        DepthConcat(a, b[..k - |a|]);
      }
    }
  }

  /** A string without braces has depth 0 at every prefix. */
  lemma {:induction false} BracelessDepth(s: string)
    requires X.Avoids(s, '{') && X.Avoids(s, '}')
    ensures Depth(s) == 0
    decreases |s|
  {
    if s != [] {
      BracelessDepth(s[..|s| - 1]);
    }
  }

  lemma BracelessBalanced(s: string)
    requires X.Avoids(s, '{') && X.Avoids(s, '}')
    ensures Balanced(s)
  {
    BracelessDepth(s);
    forall k | 0 <= k <= |s| ensures Depth(s[..k]) >= 0 {
      BracelessDepth(s[..k]);
    }
  }

  lemma GroupBalanced(w: string)
    requires Group(w)
    ensures Balanced(w)
  {
    assert w[..|w|] == w;
    assert Depth(w[..0]) == 0 by { assert w[..0] == []; }
  }

  /** "{" + a balanced body + "}" is a group. */
  lemma Wrap(body: string)
    requires Balanced(body)
    ensures Group("{" + body + "}")
  {
    var w := "{" + body + "}";
    DepthConcat("{", body);
    DepthConcat("{" + body, "}");
    assert Depth("{") == 1 by { assert "{"[..0] == []; }
    assert Depth("}") == -1 by { assert "}"[..0] == []; }
    forall k | 1 <= k < |w| ensures Depth(w[..k]) > 0 {
      assert w[..k] == "{" + body[..k - 1];
      DepthConcat("{", body[..k - 1]);
    }
  }

  lemma {:induction false} JoinBalanced(parts: seq<string>)
    requires forall k :: 0 <= k < |parts| ==> Balanced(parts[k])
    ensures Balanced(X.Join(parts, "|"))
  {
    if |parts| == 0 {
      BracelessBalanced("");
    } else if |parts| > 1 {
      JoinBalanced(parts[1..]);
      BracelessBalanced("|");
      BalancedConcat(parts[0], "|");
      BalancedConcat(parts[0] + "|", X.Join(parts[1..], "|"));
    }
  }

  /** No group is a proper prefix of another. */
  lemma GroupPrefixFree(u: string, v: string, x: string, y: string)
    requires Group(u) && Group(v) && u + x == v + y
    ensures u == v && x == y
  {
    var m := if |u| <= |v| then |u| else |v|;
    PrefixOfConcat(u, x, m);
    PrefixOfConcat(v, y, m);
    assert |u| == |v| by {
      assert u[..|u|] == u && v[..|v|] == v;
    }
    assert u == (u + x)[..|u|] && v == (v + y)[..|v|];
    assert x == (u + x)[|u|..] && y == (v + y)[|v|..];
  }

  /** The tail of a join after its first part. */
  function JoinTail(parts: seq<string>): string
    requires parts != []
  {
    if |parts| == 1 then "" else "|" + X.Join(parts[1..], "|")
  }

  lemma JoinSplit(parts: seq<string>)
    ensures parts != [] ==> (X.Join(parts, "|") == parts[0] + JoinTail(parts)
                              && (JoinTail(parts) == [] <==> |parts| == 1))
  {
  }

  /** Joined groups can be taken apart again. */
  lemma {:induction false} JoinGroupsInjective(us: seq<string>, vs: seq<string>)
    requires forall k :: 0 <= k < |us| ==> Group(us[k])
    requires forall k :: 0 <= k < |vs| ==> Group(vs[k])
    requires X.Join(us, "|") == X.Join(vs, "|")
    ensures us == vs
    decreases |us|
  {
    JoinHead(us, vs);
    if |us| >= 2 {
      var ut, vt := us[1..], vs[1..];
      forall k | 0 <= k < |ut| ensures Group(ut[k]) {
        assert ut[k] == us[k + 1];
      }
      forall k | 0 <= k < |vt| ensures Group(vt[k]) {
        assert vt[k] == vs[k + 1];
      }
      JoinGroupsInjective(ut, vt);
      assert us == [us[0]] + ut && vs == [vs[0]] + vt;
    }
  }

  /** Equal joins of groups start with the same group, and go on with equal joins. */
  lemma JoinHead(us: seq<string>, vs: seq<string>)
    requires forall k :: 0 <= k < |us| ==> Group(us[k])
    requires forall k :: 0 <= k < |vs| ==> Group(vs[k])
    requires X.Join(us, "|") == X.Join(vs, "|")
    ensures us == [] <==> vs == []
    ensures |us| == 1 <==> |vs| == 1
    ensures us != [] ==> us[0] == vs[0]
    ensures |us| >= 2 ==> |vs| >= 2 && X.Join(us[1..], "|") == X.Join(vs[1..], "|")
  {
    JoinSplit(us);
    JoinSplit(vs);
    if us != [] && vs != [] {
      GroupPrefixFree(us[0], vs[0], JoinTail(us), JoinTail(vs));
      if |us| >= 2 {
        assert JoinTail(us) == JoinTail(vs);
        assert X.Join(us[1..], "|") == JoinTail(us)[1..];
        assert X.Join(vs[1..], "|") == JoinTail(vs)[1..];
      }
    }
  }

  // ---- the serialisation is a group, and determines the node ----

  /** No braces in the number, string and shape segments. */
  predicate Braceless(s: string) {
    X.Avoids(s, '{') && X.Avoids(s, '}')
  }

  lemma IntStrBraceless(i: int)
    ensures Braceless(X.IntStr(i))
  {
    X.IntStrAvoids(i, '{');
    X.IntStrAvoids(i, '}');
  }

  lemma IntStrsBraceless(strs: seq<string>)
    requires forall k :: 0 <= k < |strs| ==> Braceless(strs[k])
    ensures Braceless(X.Join(strs, "|"))
  {
    X.JoinAvoids(strs, '|', '{');
    X.JoinAvoids(strs, '|', '}');
  }

  lemma NumberPartBalanced(n: Tr.Node)
    ensures Balanced(NumberPart(n))
  {
    if n.HasNumber() {
      var c := n.number;
      var strs := [X.IntStr(c.re.numerator), X.IntStr(c.re.denominator),
                   X.IntStr(c.im.numerator), X.IntStr(c.im.denominator)];
      IntStrBraceless(c.re.numerator);
      IntStrBraceless(c.re.denominator);
      IntStrBraceless(c.im.numerator);
      IntStrBraceless(c.im.denominator);
      IntStrsBraceless(strs);
      assert Braceless(":");
      assert ":" + NumberFields(c) == ":" + X.Join(strs, "|");
    }
    BracelessBalanced(NumberPart(n));
  }

  lemma StringPartBalanced(n: Tr.Node)
    requires n.HasString() ==> Plain(n.name)
    ensures Balanced(StringPart(n))
  {
    BracelessBalanced(StringPart(n));
  }

  lemma ShapePartBalanced(n: Tr.Node)
    ensures Balanced(ShapePart(n))
  {
    if n.Tensor? {
      var strs := ShapeStrs(n.shape);
      forall k | 0 <= k < |strs| ensures Braceless(strs[k]) {
        IntStrBraceless(n.shape[k]);
      }
      IntStrsBraceless(strs);
    }
    BracelessBalanced(ShapePart(n));
  }

  lemma ArgsPartBalanced(n: Tr.Node)
    requires n.HasArgs() ==> forall k :: 0 <= k < |n.args| ==> Group(ToString(n.args[k]))
    ensures Balanced(ArgsPart(n))
  {
    if n.HasArgs() {
      var strs := ArgStrs(n);
      forall k | 0 <= k < |strs| ensures Balanced(strs[k]) {
        GroupBalanced(strs[k]);
      }
      JoinBalanced(strs);
      BracelessBalanced(":");
      BalancedConcat(":", X.Join(strs, "|"));
    } else {
      BracelessBalanced("");
    }
  }

  lemma BodyBalanced(n: Tr.Node)
    requires n.HasString() ==> Plain(n.name)
    requires n.HasArgs() ==> forall k :: 0 <= k < |n.args| ==> Group(ToString(n.args[k]))
    ensures Balanced(Body(n))
  {
    BracelessBalanced(TypeCode(n.Kind()));
    NumberPartBalanced(n);
    StringPartBalanced(n);
    ShapePartBalanced(n);
    ArgsPartBalanced(n);
    BalancedConcat(NumberPart(n), StringPart(n));
    BalancedConcat(NumberPart(n) + StringPart(n), ShapePart(n));
    BalancedConcat(NumberPart(n) + StringPart(n) + ShapePart(n), ArgsPart(n));
    BalancedConcat(TypeCode(n.Kind()), Rest(n));
  }

  /** With Plain names, every serialisation is one brace group. */
  lemma {:induction false} ToStringGroup(n: Tr.Node)
    requires PlainNames(n)
    ensures Group(ToString(n))
    decreases n
  {
    if n.HasArgs() {
      forall k | 0 <= k < |n.args| ensures Group(ToString(n.args[k])) {
        ToStringGroup(n.args[k]);
      }
    }
    BodyBalanced(n);
    Wrap(Body(n));
  }

  /** Every node kind has a one-character code. */
  lemma CodeSingle(n: Tr.Node)
    ensures |TypeCode(n.Kind())| == 1
  {
  }

  /** The code characters of the twelve node kinds are distinct. */
  lemma CodeInjective(a: Tr.Node, b: Tr.Node)
    requires TypeCode(a.Kind())[0] == TypeCode(b.Kind())[0]
    ensures a.Kind() == b.Kind()
  {
  }

  lemma NumberEqual(c: C.Complex, d: C.Complex)
    requires NumberFields(c) == NumberFields(d)
    ensures c == d
  {
    var us := [X.IntStr(c.re.numerator), X.IntStr(c.re.denominator),
               X.IntStr(c.im.numerator), X.IntStr(c.im.denominator)];
    var vs := [X.IntStr(d.re.numerator), X.IntStr(d.re.denominator),
               X.IntStr(d.im.numerator), X.IntStr(d.im.denominator)];
    forall i: int ensures X.Avoids(X.IntStr(i), '|') {
      X.IntStrAvoids(i, '|');
    }
    X.JoinInjective(us, vs, '|');
    X.IntStrInjective(c.re.numerator, d.re.numerator);
    X.IntStrInjective(c.re.denominator, d.re.denominator);
    X.IntStrInjective(c.im.numerator, d.im.numerator);
    X.IntStrInjective(c.im.denominator, d.im.denominator);
  }

  lemma ShapeEqual(a: seq<int>, b: seq<int>)
    requires X.Join(ShapeStrs(a), "|") == X.Join(ShapeStrs(b), "|")
    ensures a == b
  {
    var us := ShapeStrs(a);
    var vs := ShapeStrs(b);
    forall i: int ensures X.Avoids(X.IntStr(i), '|') {
      X.IntStrAvoids(i, '|');
    }
    X.JoinInjective(us, vs, '|');
    forall k | 0 <= k < |a| ensures a[k] == b[k] {
      X.IntStrInjective(a[k], b[k]);
    }
  }

  lemma ShapeAvoidsColon(shape: seq<int>)
    ensures X.Avoids(X.Join(ShapeStrs(shape), "|"), ':')
  {
    var strs := ShapeStrs(shape);
    forall k | 0 <= k < |strs| ensures X.Avoids(strs[k], ':') {
      X.IntStrAvoids(shape[k], ':');
    }
    X.JoinAvoids(strs, '|', ':');
  }

  /** The arguments of a tree with Plain names serialise to groups. */
  lemma ArgGroups(n: Tr.Node)
    requires n.HasArgs() && PlainNames(n)
    ensures forall k :: 0 <= k < |n.args| ==> Group(ArgStrs(n)[k]) && PlainNames(n.args[k])
  {
    forall k | 0 <= k < |n.args| ensures Group(ArgStrs(n)[k]) {
      ToStringGroup(n.args[k]);
    }
  }

  /** Equal joined argument serialisations come from equal arguments. */
  lemma {:induction false} ArgsEqual(a: Tr.Node, b: Tr.Node)
    requires a.HasArgs() && b.HasArgs() && PlainNames(a) && PlainNames(b)
    requires X.Join(ArgStrs(a), "|") == X.Join(ArgStrs(b), "|")
    ensures a.args == b.args
    decreases a, 0
  {
    var us := ArgStrs(a);
    var vs := ArgStrs(b);
    ArgGroups(a);
    ArgGroups(b);
    JoinGroupsInjective(us, vs);
    forall k | 0 <= k < |a.args| ensures a.args[k] == b.args[k] {
      assert ToString(a.args[k]) == us[k] == vs[k] == ToString(b.args[k]);
      ToStringInjective(a.args[k], b.args[k]);
    }
  }

  lemma EmptyConcat(s: string)
    ensures s + [] == s && [] + s == s
  {
  }

  // Rest spelled out for each kind of node.

  lemma RestLiteral(n: Tr.Node)
    requires n.Literal?
    ensures Rest(n) == ":" + NumberFields(n.number)
  {
    EmptyConcat(":" + NumberFields(n.number));
  }

  lemma RestName(n: Tr.Node)
    requires n.Variable? || n.Constant?
    ensures Rest(n) == ":" + n.name
  {
    EmptyConcat(":" + n.name);
  }

  lemma DropColon(a: string, b: string)
    ensures ((":" + a) + (":" + b))[1..] == a + [':'] + b
  {
  }

  lemma RestFunction(n: Tr.Node)
    requires n.Function?
    ensures Rest(n)[1..] == n.name + [':'] + X.Join(ArgStrs(n), "|")
  {
    assert NumberPart(n) == [] && ShapePart(n) == [];
    EmptyConcat(StringPart(n));
    assert Rest(n) == StringPart(n) + ArgsPart(n);
    DropColon(n.name, X.Join(ArgStrs(n), "|"));
  }

  lemma RestTensor(n: Tr.Node)
    requires n.Tensor?
    ensures Rest(n)[1..] == X.Join(ShapeStrs(n.shape), "|") + [':'] + X.Join(ArgStrs(n), "|")
  {
    assert NumberPart(n) == [] && StringPart(n) == [];
    EmptyConcat(ShapePart(n));
    assert NumberPart(n) + StringPart(n) == [];
    assert Rest(n) == ShapePart(n) + ArgsPart(n);
    DropColon(X.Join(ShapeStrs(n.shape), "|"), X.Join(ArgStrs(n), "|"));
  }

  lemma RestArgs(n: Tr.Node)
    requires n.HasArgs() && !n.Function? && !n.Tensor?
    ensures Rest(n) == ":" + X.Join(ArgStrs(n), "|")
  {
    EmptyConcat(":" + X.Join(ArgStrs(n), "|"));
  }

  lemma LiteralFields(a: Tr.Node, b: Tr.Node)
    requires a.Literal? && b.Literal? && Rest(a) == Rest(b)
    ensures a.number == b.number
  {
    RestLiteral(a);
    RestLiteral(b);
    assert NumberFields(a.number) == Rest(a)[1..] == NumberFields(b.number);
    NumberEqual(a.number, b.number);
  }

  lemma NameFields(a: Tr.Node, b: Tr.Node)
    requires (a.Variable? && b.Variable?) || (a.Constant? && b.Constant?)
    requires Rest(a) == Rest(b)
    ensures a.name == b.name
  {
    RestName(a);
    RestName(b);
    assert a.name == Rest(a)[1..] == b.name;
  }

  lemma FunctionFields(a: Tr.Node, b: Tr.Node)
    requires a.Function? && b.Function? && Plain(a.name) && Plain(b.name) && Rest(a) == Rest(b)
    ensures a.name == b.name && X.Join(ArgStrs(a), "|") == X.Join(ArgStrs(b), "|")
  {
    RestFunction(a);
    RestFunction(b);
    X.SplitAt(a.name, b.name, ':', X.Join(ArgStrs(a), "|"), X.Join(ArgStrs(b), "|"));
  }

  lemma TensorFields(a: Tr.Node, b: Tr.Node)
    requires a.Tensor? && b.Tensor? && Rest(a) == Rest(b)
    ensures a.shape == b.shape && X.Join(ArgStrs(a), "|") == X.Join(ArgStrs(b), "|")
  {
    var sa := X.Join(ShapeStrs(a.shape), "|");
    var sb := X.Join(ShapeStrs(b.shape), "|");
    ShapeAvoidsColon(a.shape);
    ShapeAvoidsColon(b.shape);
    RestTensor(a);
    RestTensor(b);
    X.SplitAt(sa, sb, ':', X.Join(ArgStrs(a), "|"), X.Join(ArgStrs(b), "|"));
    ShapeEqual(a.shape, b.shape);
  }

  lemma ArgFields(a: Tr.Node, b: Tr.Node)
    requires a.HasArgs() && b.HasArgs() && !a.Function? && !a.Tensor? && !b.Function? && !b.Tensor?
    requires Rest(a) == Rest(b)
    ensures X.Join(ArgStrs(a), "|") == X.Join(ArgStrs(b), "|")
  {
    RestArgs(a);
    RestArgs(b);
    assert X.Join(ArgStrs(a), "|") == Rest(a)[1..];
  }

  /** With Plain names, the serialisation determines the node, tensor shape included. */
  lemma {:induction false} ToStringInjective(a: Tr.Node, b: Tr.Node)
    requires PlainNames(a) && PlainNames(b) && ToString(a) == ToString(b)
    ensures a == b
    decreases a, 1
  {
    var w := ToString(a);
    assert Body(a) == w[1..|w| - 1] == Body(b);
    CodeSingle(a);
    CodeSingle(b);
    assert TypeCode(a.Kind())[0] == Body(a)[0] == TypeCode(b.Kind())[0];
    assert Rest(a) == Body(a)[1..] == Rest(b);
    CodeInjective(a, b);
    if a.Literal? {
      LiteralFields(a, b);
    } else if a.Variable? || a.Constant? {
      NameFields(a, b);
    } else {
      if a.Function? {
        FunctionFields(a, b);
      } else if a.Tensor? {
        TensorFields(a, b);
      } else {
        ArgFields(a, b);
      }
      ArgsEqual(a, b);
    }
  }

  /** On trees without tensors the key agrees with NodeUtils.Equal in both directions. */
  lemma ToStringMatchesEqual(a: Tr.Node, b: Tr.Node)
    requires PlainNames(a) && PlainNames(b) && Tr.TensorFree(a)
    ensures ToString(a) == ToString(b) <==> NU.Equal(a, b)
  {
    NU.EqualIsIdentityWithoutTensors(a, b);
    if ToString(a) == ToString(b) {
      ToStringInjective(a, b);
    }
  }

  /** Unlike NodeUtils.Equal, the key tells tensors of different shapes apart. */
  lemma ToStringSeesShape()
    ensures var x := Tr.Variable("x");
      NU.Equal(Tr.Tensor([1], [x]), Tr.Tensor([2], [x]))
      && ToString(Tr.Tensor([1], [x])) != ToString(Tr.Tensor([2], [x]))
  {
    var x := Tr.Variable("x");
    NU.EqualIgnoresShape();
    assert Plain("x");
    assert PlainNames(x);
    assert PlainNames(Tr.Tensor([1], [x])) && PlainNames(Tr.Tensor([2], [x]));
    if ToString(Tr.Tensor([1], [x])) == ToString(Tr.Tensor([2], [x])) {
      ToStringInjective(Tr.Tensor([1], [x]), Tr.Tensor([2], [x]));
    }
  }

  // ---- patterns ----

  /** "1", "0" or nothing for the `commutative` flag. */
  function CommutativeMark(c: Option<bool>): string {
    match c
    case Some(true) => "1"
    case Some(false) => "0"
    case None => ""
  }

  function OrEmpty(s: Option<string>): string {
    if s.Some? then s.value else ""
  }

  /** PatternToString: "[", the alternatives joined by ":", "]". Conditions are host
      closures the source serialises with JSONEncode; here `encode` stands for that. */
  function PatternString(p: Pattern, encode: Condition -> string): string
    decreases p, 3
  {
    "[" + X.Join(AlternativeStrs(p, encode), ":") + "]"
  }

  function AlternativeStrs(p: Pattern, encode: Condition -> string): (r: seq<string>)
    ensures |r| == |p.alternatives| && forall i :: 0 <= i < |r| ==> r[i] == AlternativeString(p.alternatives[i], encode)
    decreases p, 2
  {
    seq(|p.alternatives|, i requires 0 <= i < |p.alternatives| => AlternativeString(p.alternatives[i], encode))
  }

  /** "{" type ":" string ":" [":" number] ":" [args] ":" [conditions] ":" special ":" flag "}". */
  function AlternativeString(d: DetectionNode, encode: Condition -> string): string
    decreases d, 2
  {
    AlternativeFields(d, encode) + ":" + CommutativeMark(d.commutative) + "}"
  }

  /** Everything before the commutative flag. */
  function AlternativeFields(d: DetectionNode, encode: Condition -> string): string
    decreases d, 1
  {
    "{" + (if d.kind.Some? then TypeCode(d.kind.value) else "")
      + ":" + OrEmpty(d.name)
      + ":" + (if d.number.Some? then ":" + NumberFields(d.number.value) else "")
      + ":" + (if d.args.Slots? then "[" + X.Join(SlotStrs(d, encode), ":") + "]" else "")
      + ":" + (if d.conditions.Some? then "[" + X.Join(ConditionStrs(d.conditions.value, encode), ":") + "]" else "")
      + ":" + OrEmpty(d.capture)
  }

  function SlotStrs(d: DetectionNode, encode: Condition -> string): (r: seq<string>)
    requires d.args.Slots?
    ensures |r| == |d.args.patterns| && forall i :: 0 <= i < |r| ==> r[i] == PatternString(d.args.patterns[i], encode)
    decreases d, 0
  {
    seq(|d.args.patterns|, i requires 0 <= i < |d.args.patterns| => PatternString(d.args.patterns[i], encode))
  }

  function ConditionStrs(cs: seq<Condition>, encode: Condition -> string): (r: seq<string>)
    ensures |r| == |cs| && forall i :: 0 <= i < |r| ==> r[i] == encode(cs[i])
  {
    seq(|cs|, i requires 0 <= i < |cs| => encode(cs[i]))
  }

  /** The three values of the commutative flag give three different keys. */
  lemma CommutativeDistinguishes(d: DetectionNode, encode: Condition -> string)
    ensures var t := d.(commutative := Some(true));
      var f := d.(commutative := Some(false));
      var u := d.(commutative := None);
      AlternativeString(t, encode) != AlternativeString(f, encode)
      && AlternativeString(t, encode) != AlternativeString(u, encode)
      && AlternativeString(f, encode) != AlternativeString(u, encode)
  {
    var t := d.(commutative := Some(true));
    var f := d.(commutative := Some(false));
    var u := d.(commutative := None);
    var pre := AlternativeFields(d, encode) + ":";
    assert AlternativeFields(t, encode) == AlternativeFields(f, encode) == AlternativeFields(u, encode) == AlternativeFields(d, encode);
    assert |AlternativeString(u, encode)| == |pre| + 1;
    assert AlternativeString(t, encode)[|pre|] == '1' && AlternativeString(f, encode)[|pre|] == '0';
  }

  /** One step of a loop that adds a separator before every part but the first. */
  lemma JoinStep(strs: seq<string>, j: nat, t0: string, open: string)
    requires j < |strs| && t0 == open + X.Join(strs[..j], ":")
    ensures (if j != 0 then t0 + ":" else t0) + strs[j] == open + X.Join(strs[..j + 1], ":")
  {
    X.JoinSnoc(strs[..j], strs[j], ":");
    assert strs[..j + 1] == strs[..j] + [strs[j]];
  }

  /** PatternToString as the source writes it: one pass over the alternatives, each built
      field by field, with inner passes over the argument slots and the conditions. */
  method PatternToString(p: Pattern, encode: Condition -> string) returns (s: string)
    ensures s == PatternString(p, encode)
    decreases p, 3
  {
    ghost var strs := AlternativeStrs(p, encode);
    s := "[";
    var i := 0;
    while i < |p.alternatives|
      invariant 0 <= i <= |p.alternatives|
      invariant s == "[" + X.Join(strs[..i], ":")
    {
      ghost var s0 := s;
      if i != 0 {
        s := s + ":";
      }
      var toAdd := AlternativeToString(p.alternatives[i], encode);
      s := s + toAdd;
      JoinStep(strs, i, s0, "[");
      i := i + 1;
    }
    assert strs[..i] == strs;
    s := s + "]";
  }

  /** The body of PatternToString's per-alternative callback. */
  method AlternativeToString(d: DetectionNode, encode: Condition -> string) returns (toAdd: string)
    ensures toAdd == AlternativeString(d, encode)
    decreases d, 2
  {
    toAdd := "{";
    if d.kind.Some? {
      toAdd := toAdd + TypeCode(d.kind.value);
    }
    assert toAdd == "{" + (if d.kind.Some? then TypeCode(d.kind.value) else "");
    toAdd := toAdd + ":";
    if d.name.Some? {
      toAdd := toAdd + d.name.value;
    }
    ghost var a := toAdd;
    assert a == "{" + (if d.kind.Some? then TypeCode(d.kind.value) else "") + ":" + OrEmpty(d.name);
    toAdd := toAdd + ":";
    if d.number.Some? {
      toAdd := toAdd + (":" + NumberFields(d.number.value));
    }
    assert toAdd == a + ":" + (if d.number.Some? then ":" + NumberFields(d.number.value) else "");
    ghost var b := toAdd;
    toAdd := toAdd + ":";
    if d.args.Slots? {
      var slots := SlotsToString(d, encode);
      toAdd := toAdd + slots;
    }
    assert toAdd == b + ":" + (if d.args.Slots? then "[" + X.Join(SlotStrs(d, encode), ":") + "]" else "");
    ghost var c := toAdd;
    toAdd := toAdd + ":";
    if d.conditions.Some? {
      var conds := ConditionsToString(d.conditions.value, encode);
      toAdd := toAdd + conds;
    }
    assert toAdd == c + ":" + (if d.conditions.Some? then "[" + X.Join(ConditionStrs(d.conditions.value, encode), ":") + "]" else "");
    ghost var e := toAdd;
    toAdd := toAdd + ":";
    if d.capture.Some? {
      toAdd := toAdd + d.capture.value;
    }
    assert toAdd == e + ":" + OrEmpty(d.capture) == AlternativeFields(d, encode);
    ghost var f := toAdd;
    toAdd := toAdd + ":";
    if d.commutative == Some(true) {
      toAdd := toAdd + "1";
    } else if d.commutative == Some(false) {
      toAdd := toAdd + "0";
    }
    assert toAdd == f + ":" + CommutativeMark(d.commutative);
    toAdd := toAdd + "}";
  }

  /** "[" + the slots' patterns, serialised and joined by ":" + "]". */
  method SlotsToString(d: DetectionNode, encode: Condition -> string) returns (t: string)
    requires d.args.Slots?
    ensures t == "[" + X.Join(SlotStrs(d, encode), ":") + "]"
    decreases d, 1
  {
    ghost var strs := SlotStrs(d, encode);
    var slots := d.args.patterns;
    t := "[";
    var j := 0;
    while j < |slots|
      invariant 0 <= j <= |slots|
      invariant t == "[" + X.Join(strs[..j], ":")
    {
      ghost var t0 := t;
      if j != 0 {
        t := t + ":";
      }
      var arg := PatternToString(slots[j], encode);
      t := t + arg;
      JoinStep(strs, j, t0, "[");
      j := j + 1;
    }
    assert strs[..j] == strs;
    t := t + "]";
  }

  /** "[" + the encoded conditions joined by ":" + "]". */
  method ConditionsToString(cs: seq<Condition>, encode: Condition -> string) returns (t: string)
    ensures t == "[" + X.Join(ConditionStrs(cs, encode), ":") + "]"
  {
    ghost var strs := ConditionStrs(cs, encode);
    t := "[";
    var j := 0;
    while j < |cs|
      invariant 0 <= j <= |cs|
      invariant t == "[" + X.Join(strs[..j], ":")
    {
      ghost var t0 := t;
      if j != 0 {
        t := t + ":";
      }
      t := t + encode(cs[j]);
      JoinStep(strs, j, t0, "[");
      j := j + 1;
    }
    assert strs[..j] == strs;
    t := t + "]";
  }
}
