/** PolynomialUtils (src/AST/Polynomials/Polynomial.ts): arithmetic on polynomials held
    as term lists, with Node coefficients built by the Nodes helpers. */
module Polynomials {
  import opened Wrappers
  import Tr = Tree
  import N = Nodes
  import B = BasicNodes
  import NT = NodeTests
  import AP = ArrayPolyfill
  import opened PowerMaps
  import PA = PolynomialAnalyzer
  import U = NodeUtils
  import T = NodeTypes

  type Term = PA.Term
  type Polynomial = PA.Polynomial

  /** Nodes.Divide on coefficients. Inverting a power that lacks its exponent reads a
      missing argument, which is taken as a host error. */
  function DivideNodes(a: Tr.Node, b: Tr.Node): Result<Tr.Node> {
    if b.Exponentiation? && |b.args| < 2 then Fail(HostError, "attempt to perform arithmetic on nil")
    else Ok(N.Divide(a, b))
  }

  // Constants

  /** Constant: the one-term polynomial of degree 0. */
  function Constant(node: Tr.Node): Polynomial {
    PA.Create([PA.Term(node, [], 0)])
  }

  function Zero(): Polynomial {
    Constant(N.Zero())
  }

  /** IsZero: no terms, or every coefficient is literal zero. */
  predicate IsZero(p: Polynomial) {
    |p.terms| == 0 || forall i :: 0 <= i < |p.terms| ==> NT.Zero(p.terms[i].coefficient)
  }

  /** The zero polynomial is one zero term of degree 0, and a constant is zero exactly
      when its node is literal zero. */
  lemma ConstantSpec(node: Tr.Node)
    ensures Constant(node).terms == [PA.Term(node, [], 0)]
    ensures Constant(node).degree == 0 && Constant(node).constantTerm == node
    ensures Constant(node).leadingCoefficient == node
    ensures IsZero(Constant(node)) <==> NT.Zero(node)
    ensures IsZero(Zero())
  {
    var ts := [PA.Term(node, [], 0)];
    assert ts[..0] == [];
    assert PA.MaxDegree(ts) == 0;
  }

  /** LeadingTerm: the first term of the polynomial's degree, if there is one. */
  function LeadingTerm(p: Polynomial): Option<Term> {
    Leading(p.terms, p.degree)
  }

  function Leading(terms: seq<Term>, d: int): Option<Term>
    decreases |terms|
  {
    if terms == [] then None
    else if terms[0].degree == d then Some(terms[0])
    else Leading(terms[1..], d)
  }

  /** Term k is the first of degree d. */
  predicate LeadsAt(terms: seq<Term>, d: int, k: int) {
    0 <= k < |terms| && terms[k].degree == d && forall i :: 0 <= i < k ==> terms[i].degree != d
  }

  /** The leading term is the first term of the polynomial's degree; there is none exactly
      when no term has that degree. */
  lemma {:induction false} LeadingSpec(terms: seq<Term>, d: int)
    ensures Leading(terms, d).None? <==> forall i :: 0 <= i < |terms| ==> terms[i].degree != d
    ensures Leading(terms, d).Some? ==> exists k :: LeadsAt(terms, d, k) && terms[k] == Leading(terms, d).value
    decreases |terms|
  {
    if terms != [] && terms[0].degree != d {
      LeadingSpec(terms[1..], d);
      if Leading(terms, d).Some? {
        var k :| LeadsAt(terms[1..], d, k) && terms[1..][k] == Leading(terms, d).value;
        assert terms[k + 1] == terms[1..][k];
        forall i | 0 <= i < k + 1 ensures terms[i].degree != d {
          if i > 0 { assert terms[i] == terms[1..][i - 1]; }
        }
        assert LeadsAt(terms, d, k + 1);
      }
      forall i | 0 <= i < |terms| && Leading(terms, d).None? ensures terms[i].degree != d {
        if i > 0 { assert terms[i] == terms[1..][i - 1]; }
      }
    } else if terms != [] {
      assert LeadsAt(terms, d, 0);
    }
  }

  // CombineTerms

  /** The signature of each term. */
  function Signatures(terms: seq<Term>): (r: seq<string>)
    ensures |r| == |terms| && forall i :: 0 <= i < |terms| ==> r[i] == PA.SignatureOf(terms[i].variables)
  {
    seq(|terms|, i requires 0 <= i < |terms| => PA.SignatureOf(terms[i].variables))
  }

  /** Each term beside its signature, as CombineTerms' loop computes them. */
  function Signed(terms: seq<Term>): Entries<Term>
    decreases |terms|
  {
    if terms == [] then []
    else Signed(terms[..|terms| - 1]) + [(PA.SignatureOf(terms[|terms| - 1].variables), terms[|terms| - 1])]
  }

  lemma {:induction false} SignedSpec(terms: seq<Term>)
    ensures |Signed(terms)| == |terms|
    ensures forall i :: 0 <= i < |terms| ==> Signed(terms)[i] == (PA.SignatureOf(terms[i].variables), terms[i])
    decreases |terms|
  {
    if terms != [] {
      SignedSpec(terms[..|terms| - 1]);
    }
  }

  /** Nodes.Add on two coefficients. The grouping below is stated for any way `add` of
      adding two coefficients, and CombineTerms uses this one. */
  function NodeSum(a: Tr.Node, b: Tr.Node): Tr.Node {
    N.Add([a, b])
  }

  /** A term with a further coefficient added on. */
  function AddCoefficient(t: Term, c: Tr.Node, add: (Tr.Node, Tr.Node) -> Tr.Node): Term {
    t.(coefficient := add(t.coefficient, c))
  }

  /** What CombineTerms stores for a term whose signature is `s`: the term itself, or the
      term already stored with the new coefficient added on. */
  function Stored(t: Entries<Term>, s: string, term: Term, add: (Tr.Node, Tr.Node) -> Tr.Node): Term {
    match Lookup(t, s)
    case Some(prev) => AddCoefficient(prev, term.coefficient, add)
    case None => term
  }

  /** CombineTerms' map after a prefix of the signed terms. */
  function Table(signed: Entries<Term>, add: (Tr.Node, Tr.Node) -> Tr.Node): Entries<Term>
    decreases |signed|
  {
    if signed == [] then []
    else
      var t := Table(signed[..|signed| - 1], add);
      var last := signed[|signed| - 1];
      Put(t, last.0, Stored(t, last.0, last.1, add))
  }

  /** CombineTerms: the map's values in iteration order. */
  function Combined(terms: seq<Term>): seq<Term> {
    Values(Table(Signed(terms), NodeSum))
  }

  /** The terms under a signature, in order. */
  function Matching(signed: Entries<Term>, s: string): seq<Term>
    decreases |signed|
  {
    if signed == [] then []
    else
      var last := signed[|signed| - 1];
      Matching(signed[..|signed| - 1], s) + (if last.0 == s then [last.1] else [])
  }

  /** The first term, with each later one's coefficient added on in turn. */
  function Accumulated(ts: seq<Term>, add: (Tr.Node, Tr.Node) -> Tr.Node): Term
    requires ts != []
    decreases |ts|
  {
    if |ts| == 1 then ts[0] else AddCoefficient(Accumulated(ts[..|ts| - 1], add), ts[|ts| - 1].coefficient, add)
  }

  /** The coefficients added up from the first. */
  function SumCoefficients(ts: seq<Term>, add: (Tr.Node, Tr.Node) -> Tr.Node): Tr.Node
    requires ts != []
    decreases |ts|
  {
    if |ts| == 1 then ts[0].coefficient
    else add(SumCoefficients(ts[..|ts| - 1], add), ts[|ts| - 1].coefficient)
  }

  /** Adding coefficients on keeps the first term's powers and degree and sums the
      coefficients in order. */
  lemma {:induction false} AccumulatedSpec(ts: seq<Term>, add: (Tr.Node, Tr.Node) -> Tr.Node)
    requires ts != []
    ensures Accumulated(ts, add) == ts[0].(coefficient := SumCoefficients(ts, add))
    decreases |ts|
  {
    if |ts| > 1 {
      AccumulatedSpec(ts[..|ts| - 1], add);
    }
  }

  /** What a combined list holds under a signature, given the terms of that signature. */
  function Grouped(ms: seq<Term>, add: (Tr.Node, Tr.Node) -> Tr.Node): Option<Term> {
    if ms == [] then None else Some(Accumulated(ms, add))
  }

  /** CombineTerms keeps, under each signature present, the first term of that signature
      with the coefficients of all of them added on in order, and nothing under the
      others. */
  lemma {:induction false} TableLookup(signed: Entries<Term>, s: string, add: (Tr.Node, Tr.Node) -> Tr.Node)
    ensures Lookup(Table(signed, add), s) == Grouped(Matching(signed, s), add)
    decreases |signed|
  {
    if signed != [] {
      var front := signed[..|signed| - 1];
      var last := signed[|signed| - 1];
      var t := Table(front, add);
      TableLookup(front, s, add);
      TableLookup(front, last.0, add);
      PutLookup(t, last.0, Stored(t, last.0, last.1, add), s);
      assert Table(signed, add) == Put(t, last.0, Stored(t, last.0, last.1, add));
      if last.0 == s {
        var M := Matching(front, s);
        var M' := M + [last.1];
        assert Matching(signed, s) == M';
        assert M'[..|M'| - 1] == M && M'[|M'| - 1] == last.1;
        if M == [] {
          assert M' == [last.1];
        } else {
          assert Accumulated(M', add) == AddCoefficient(Accumulated(M, add), last.1.coefficient, add);
        }
      } else {
        assert Matching(signed, s) == Matching(front, s) + [];
        assert Matching(signed, s) == Matching(front, s);
        assert Lookup(Table(signed, add), s) == Lookup(t, s);
        assert Lookup(t, s) == Grouped(Matching(front, s), add);
      }
    }
  }

  /** The map has one entry per signature, in the order the signatures first appear. */
  lemma {:induction false} TableKeys(signed: Entries<Term>, add: (Tr.Node, Tr.Node) -> Tr.Node)
    ensures Distinct(Table(signed, add))
    ensures Keys(Table(signed, add)) == AP.DeDup(Keys(signed))
    decreases |signed|
  {
    if signed != [] {
      var front := signed[..|signed| - 1];
      var (ls, last) := signed[|signed| - 1];
      var t := Table(front, add);
      TableKeys(front, add);
      assert Keys(signed) == Keys(front) + [ls];
      assert Keys(signed)[..|Keys(signed)| - 1] == Keys(front);
      LookupHas(t, ls);
      HasKeys(t, ls);
      var v := Stored(t, ls, last, add);
      PutDistinct(t, ls, v);
      if Lookup(t, ls).Some? {
        PutKeys(t, ls, v);
      } else {
        PutAppends(t, ls, v);
      }
    }
  }

  /** Every term under a signature is one of the signed terms with that signature. */
  lemma {:induction false} MatchingSigned(signed: Entries<Term>, s: string, t: Term)
    requires t in Matching(signed, s)
    ensures (s, t) in signed
    decreases |signed|
  {
    var front := signed[..|signed| - 1];
    if t in Matching(front, s) {
      MatchingSigned(front, s, t);
    }
  }

  /** CombineTerms leaves no two terms with one signature, and lists them in the order their
      signatures first appear. */
  lemma CombinedSpec(terms: seq<Term>)
    ensures AP.Distinct(Signatures(Combined(terms)))
    ensures Signatures(Combined(terms)) == AP.DeDup(Signatures(terms))
  {
    var signed := Signed(terms);
    SignedSpec(terms);
    var table := Table(signed, NodeSum);
    TableKeys(signed, NodeSum);
    assert Keys(signed) == Signatures(terms);
    var r := Combined(terms);
    forall i | 0 <= i < |r| ensures Signatures(r)[i] == Keys(table)[i] {
      var s := table[i].0;
      LookupEntry(table, i);
      TableLookup(signed, s, NodeSum);
      var M := Matching(signed, s);
      AccumulatedSpec(M, NodeSum);
      assert M[0] in M;
      MatchingSigned(signed, s, M[0]);
      var k :| 0 <= k < |signed| && signed[k] == (s, M[0]);
    }
    assert Signatures(r) == Keys(table);
    AP.DeDupSpec(Signatures(terms));
  }

  /** One more term either adds its coefficient to the entry of its signature or is stored
      under it. */
  lemma TableSnoc(terms: seq<Term>, i: nat)
    requires i < |terms|
    ensures var t := Table(Signed(terms[..i]), NodeSum);
      var signature := PA.SignatureOf(terms[i].variables);
      Table(Signed(terms[..i + 1]), NodeSum) == Put(t, signature, Stored(t, signature, terms[i], NodeSum))
  {
    assert terms[..i + 1][..i] == terms[..i];
    var signed := Signed(terms[..i + 1]);
    assert signed == Signed(terms[..i]) + [(PA.SignatureOf(terms[i].variables), terms[i])];
    assert signed[..|signed| - 1] == Signed(terms[..i]);
  }

  /** CombineTerms: the map is filled, then its values are read out in order. */
  method CombineTerms(terms: seq<Term>) returns (r: seq<Term>)
    ensures r == Combined(terms)
  {
    var table := CollectTerms(terms);
    r := ValuesOf(table);
  }

  /** CombineTerms' first loop: each term is added to the entry of its signature. */
  method CollectTerms(terms: seq<Term>) returns (table: Entries<Term>)
    ensures table == Table(Signed(terms), NodeSum)
  {
    table := [];
    var i := 0;
    while i < |terms|
      invariant 0 <= i <= |terms|
      invariant table == Table(Signed(terms[..i]), NodeSum)
    {
      var signature := PA.PowerSignature(terms[i].variables);
      TableSnoc(terms, i);
      var previous := Lookup(table, signature);
      if previous.Some? {
        table := Put(table, signature, AddCoefficient(previous.value, terms[i].coefficient, NodeSum));
      } else {
        table := Put(table, signature, terms[i]);
      }
      i := i + 1;
    }
    assert terms[..i] == terms;
  }

  // Add, Subtract, MultiplyScalar

  /** Add: both term lists, combined. */
  function PolySum(p1: Polynomial, p2: Polynomial): Polynomial {
    PA.Create(Combined(p1.terms + p2.terms))
  }

  method Add(p1: Polynomial, p2: Polynomial) returns (r: Polynomial)
    ensures r == PolySum(p1, p2)
  {
    var combined := CombineTerms(p1.terms + p2.terms);
    r := PA.CreatePolynomial(combined);
  }

  /** The second operand's terms with each coefficient negated. */
  function Negated(terms: seq<Term>): (r: seq<Term>)
    ensures |r| == |terms|
    ensures forall i :: 0 <= i < |terms| ==> r[i] == terms[i].(coefficient := N.Negative(terms[i].coefficient))
  {
    seq(|terms|, i requires 0 <= i < |terms| => terms[i].(coefficient := N.Negative(terms[i].coefficient)))
  }

  /** Subtract: the first list and the negated second, combined. */
  function PolyDifference(p1: Polynomial, p2: Polynomial): Polynomial {
    PA.Create(Combined(p1.terms + Negated(p2.terms)))
  }

  method Subtract(p1: Polynomial, p2: Polynomial) returns (r: Polynomial)
    ensures r == PolyDifference(p1, p2)
  {
    var negated := Negated(p2.terms);
    var combined := CombineTerms(p1.terms + negated);
    r := PA.CreatePolynomial(combined);
  }

  /** Signing distributes over concatenation. */
  lemma {:induction false} SignedAppend(a: seq<Term>, b: seq<Term>)
    ensures Signed(a + b) == Signed(a) + Signed(b)
    decreases |b|
  {
    if b == [] {
      assert a + b == a;
    } else {
      SignedAppend(a, b[..|b| - 1]);
      assert (a + b)[..|a + b| - 1] == a + b[..|b| - 1];
    }
  }

  /** The terms of a signature in a concatenation are those of each part. */
  lemma {:induction false} MatchingAppend(a: Entries<Term>, b: Entries<Term>, s: string)
    ensures Matching(a + b, s) == Matching(a, s) + Matching(b, s)
    decreases |b|
  {
    if b != [] {
      var front := b[..|b| - 1];
      MatchingAppend(a, front, s);
      assert (a + b)[..|a + b| - 1] == a + front;
    } else {
      assert a + b == a;
    }
  }

  /** Add: under each signature the sum holds the first operand's terms of that signature
      and then the second's, their coefficients added on in that order. */
  lemma AddSpec(p1: Polynomial, p2: Polynomial, s: string)
    ensures Lookup(Table(Signed(p1.terms + p2.terms), NodeSum), s)
      == Grouped(Matching(Signed(p1.terms), s) + Matching(Signed(p2.terms), s), NodeSum)
    ensures PolySum(p1, p2).terms == Combined(p1.terms + p2.terms)
  {
    SignedAppend(p1.terms, p2.terms);
    MatchingAppend(Signed(p1.terms), Signed(p2.terms), s);
    TableLookup(Signed(p1.terms + p2.terms), s, NodeSum);
  }

  /** Subtract: as Add, with the second operand's coefficients each negated. */
  lemma SubtractSpec(p1: Polynomial, p2: Polynomial, s: string)
    ensures Lookup(Table(Signed(p1.terms + Negated(p2.terms)), NodeSum), s)
      == Grouped(Matching(Signed(p1.terms), s) + Matching(Signed(Negated(p2.terms)), s), NodeSum)
    ensures PolyDifference(p1, p2).terms == Combined(p1.terms + Negated(p2.terms))
  {
    SignedAppend(p1.terms, Negated(p2.terms));
    MatchingAppend(Signed(p1.terms), Signed(Negated(p2.terms)), s);
    TableLookup(Signed(p1.terms + Negated(p2.terms)), s, NodeSum);
  }

  /** MultiplyScalar: every coefficient times the scalar. */
  function Scaled(p: Polynomial, scalar: Tr.Node): Polynomial {
    PA.Create(seq(|p.terms|, i requires 0 <= i < |p.terms| =>
      p.terms[i].(coefficient := N.Multiply([p.terms[i].coefficient, scalar]))))
  }

  /** MultiplyScalar keeps the terms' powers, degrees and order and so the polynomial's
      degree; it does not combine terms. */
  lemma ScaledSpec(p: Polynomial, scalar: Tr.Node)
    ensures |Scaled(p, scalar).terms| == |p.terms|
    ensures forall i :: 0 <= i < |p.terms| ==>
      Scaled(p, scalar).terms[i].variables == p.terms[i].variables && Scaled(p, scalar).terms[i].degree == p.terms[i].degree
    ensures Scaled(p, scalar).degree == PA.MaxDegree(p.terms)
  {
    var ts := Scaled(p, scalar).terms;
    SameDegrees(ts, p.terms);
  }

  /** Term lists with the same degrees have the same maximum degree. */
  lemma {:induction false} SameDegrees(a: seq<Term>, b: seq<Term>)
    requires |a| == |b| && forall i :: 0 <= i < |a| ==> a[i].degree == b[i].degree
    ensures PA.MaxDegree(a) == PA.MaxDegree(b)
    decreases |a|
  {
    if a != [] {
      SameDegrees(a[..|a| - 1], b[..|b| - 1]);
    }
  }

  // MultiplyTerms

  /** MultiplyTerms' first loop over a prefix of term1's powers: each gets term2's power
      of the same variable added. */
  function AddPowers(m1: PowerMap, m2: PowerMap): PowerMap
    decreases |m1|
  {
    if m1 == [] then []
    else
      var e := m1[|m1| - 1];
      Put(AddPowers(m1[..|m1| - 1], m2), e.0, e.1 + Get(m2, e.0))
  }

  /** The second loop over a prefix of term2's powers: a variable term1 lacks is set to its
      power in term2. */
  function NewPowers(acc: PowerMap, m1: PowerMap, m2: PowerMap): PowerMap
    decreases |m2|
  {
    if m2 == [] then acc
    else
      var t := NewPowers(acc, m1, m2[..|m2| - 1]);
      var e := m2[|m2| - 1];
      if Has(m1, e.0) then t else Put(t, e.0, e.1)
  }

  /** RemoveZeroPowers on a term's powers: the nonzero ones, set in order. */
  function NonzeroPowers(m: PowerMap): PowerMap
    decreases |m|
  {
    if m == [] then []
    else
      var t := NonzeroPowers(m[..|m| - 1]);
      var e := m[|m| - 1];
      if e.1 != 0 then Put(t, e.0, e.1) else t
  }

  /** MultiplyTerms: the coefficients multiplied, the powers added, zero powers removed and
      the degrees added. */
  function TermProduct(t1: Term, t2: Term): Term {
    PA.Term(
      N.Multiply([t1.coefficient, t2.coefficient]),
      NonzeroPowers(NewPowers(AddPowers(t1.variables, t2.variables), t1.variables, t2.variables)),
      t1.degree + t2.degree)
  }

  /** The powers after the first loop: term1's variables, each with both powers added. */
  lemma {:induction false} AddPowersSpec(m1: PowerMap, m2: PowerMap, v: string)
    requires Distinct(m1)
    ensures Distinct(AddPowers(m1, m2))
    ensures Has(AddPowers(m1, m2), v) <==> Has(m1, v)
    ensures Get(AddPowers(m1, m2), v) == if Has(m1, v) then Get(m1, v) + Get(m2, v) else 0
    decreases |m1|
  {
    if m1 != [] {
      var front := m1[..|m1| - 1];
      var e := m1[|m1| - 1];
      assert Distinct(front);
      AddPowersSpec(front, m2, v);
      var t := AddPowers(front, m2);
      PutDistinct(t, e.0, e.1 + Get(m2, e.0));
      PutHas(t, e.0, e.1 + Get(m2, e.0), v);
      PutLookup(t, e.0, e.1 + Get(m2, e.0), v);
      assert m1 == front + [e];
      LookupSnoc(front, e, v);
      LookupHas(front, v);
      LookupHas(m1, v);
      LookupHas(t, v);
      LastNew(m1);
    }
  }

  /** The powers after the second loop: term2's variables that term1 lacks are added with
      term2's power. */
  lemma {:induction false} NewPowersSpec(acc: PowerMap, m1: PowerMap, m2: PowerMap, v: string)
    requires Distinct(acc) && Distinct(m2)
    requires Has(acc, v) ==> Has(m1, v)
    ensures Distinct(NewPowers(acc, m1, m2))
    ensures Has(NewPowers(acc, m1, m2), v) <==> Has(acc, v) || (!Has(m1, v) && Has(m2, v))
    ensures Get(NewPowers(acc, m1, m2), v) == if Has(m1, v) then Get(acc, v) else Get(m2, v)
    decreases |m2|
  {
    LookupHas(acc, v);
    if m2 != [] {
      var front := m2[..|m2| - 1];
      var e := m2[|m2| - 1];
      assert Distinct(front);
      NewPowersSpec(acc, m1, front, v);
      var t := NewPowers(acc, m1, front);
      assert m2 == front + [e];
      LookupSnoc(front, e, v);
      LookupHas(front, v);
      LookupHas(m2, v);
      if !Has(m1, e.0) {
        PutDistinct(t, e.0, e.1);
        PutHas(t, e.0, e.1, v);
        PutLookup(t, e.0, e.1, v);
        LastNew(m2);
      }
    }
  }

  /** No power is zero. */
  predicate NoZeroPowers(m: PowerMap) {
    forall i :: 0 <= i < |m| ==> m[i].1 != 0
  }

  /** RemoveZeroPowers keeps every nonzero power and drops the zero ones. */
  lemma {:induction false} NonzeroPowersSpec(m: PowerMap, v: string)
    requires Distinct(m)
    ensures Distinct(NonzeroPowers(m)) && NoZeroPowers(NonzeroPowers(m))
    ensures Get(NonzeroPowers(m), v) == Get(m, v)
    ensures Has(NonzeroPowers(m), v) <==> Has(m, v) && Get(m, v) != 0
    decreases |m|
  {
    if m != [] {
      var front := m[..|m| - 1];
      var e := m[|m| - 1];
      assert Distinct(front);
      NonzeroPowersSpec(front, v);
      NonzeroPowersSpec(front, e.0);
      var t := NonzeroPowers(front);
      assert m == front + [e];
      LookupSnoc(front, e, v);
      LookupHas(front, v);
      LookupHas(m, v);
      LookupHas(t, v);
      LastNew(m);
      if e.1 != 0 {
        PutDistinct(t, e.0, e.1);
        PutHas(t, e.0, e.1, v);
        PutLookup(t, e.0, e.1, v);
        forall i | 0 <= i < |Put(t, e.0, e.1)| ensures Put(t, e.0, e.1)[i].1 != 0 {
          PutEntries(t, e.0, e.1, Put(t, e.0, e.1)[i]);
        }
      }
    }
  }

  /** MultiplyTerms: each variable's power in the product is the sum of its powers in the
      factors; a variable is present exactly when it occurs in a factor and the sum is not
      zero; no power is zero and the degree is the sum of the degrees. */
  lemma TermProductSpec(t1: Term, t2: Term, v: string)
    requires Distinct(t1.variables) && Distinct(t2.variables)
    ensures var r := TermProduct(t1, t2);
      && Distinct(r.variables) && NoZeroPowers(r.variables)
      && Get(r.variables, v) == Get(t1.variables, v) + Get(t2.variables, v)
      && (Has(r.variables, v) <==>
            (Has(t1.variables, v) || Has(t2.variables, v)) && Get(t1.variables, v) + Get(t2.variables, v) != 0)
      && r.degree == t1.degree + t2.degree
  {
    var m1 := t1.variables;
    var m2 := t2.variables;
    var a := AddPowers(m1, m2);
    AddPowersSpec(m1, m2, v);
    NewPowersSpec(a, m1, m2, v);
    var b := NewPowers(a, m1, m2);
    NonzeroPowersSpec(b, v);
    LookupHas(m1, v);
    LookupHas(m2, v);
  }

  /** RemoveZeroPowers on a term. */
  method RemoveZeroPowers(t: Term) returns (r: Term)
    ensures r == t.(variables := NonzeroPowers(t.variables))
  {
    var powers: PowerMap := [];
    var i := 0;
    while i < |t.variables|
      invariant 0 <= i <= |t.variables|
      invariant powers == NonzeroPowers(t.variables[..i])
    {
      assert t.variables[..i + 1][..i] == t.variables[..i];
      if t.variables[i].1 != 0 {
        powers := Put(powers, t.variables[i].0, t.variables[i].1);
      }
      i := i + 1;
    }
    assert t.variables[..i] == t.variables;
    r := t.(variables := powers);
  }

  /** RemoveZeroPowers on a polynomial: each term without its zero powers. */
  function TermsWithoutZeroPowers(ts: seq<Term>): (r: seq<Term>)
    ensures |r| == |ts|
  {
    seq(|ts|, i requires 0 <= i < |ts| => ts[i].(variables := NonzeroPowers(ts[i].variables)))
  }

  function WithoutZeroPowers(p: Polynomial): Polynomial {
    PA.Create(TermsWithoutZeroPowers(p.terms))
  }

  /** On a polynomial, RemoveZeroPowers keeps the terms, their order, coefficients and
      degrees, and the degree of its terms; a term's powers lose their zeros and nothing
      else. */
  lemma WithoutZeroPowersSpec(p: Polynomial, i: nat, v: string)
    requires i < |p.terms| && Distinct(p.terms[i].variables)
    ensures var q := WithoutZeroPowers(p);
      && |q.terms| == |p.terms| && q.degree == PA.MaxDegree(p.terms)
      && q.terms[i].coefficient == p.terms[i].coefficient && q.terms[i].degree == p.terms[i].degree
      && NoZeroPowers(q.terms[i].variables)
      && Get(q.terms[i].variables, v) == Get(p.terms[i].variables, v)
  {
    SameDegrees(TermsWithoutZeroPowers(p.terms), p.terms);
    NonzeroPowersSpec(p.terms[i].variables, v);
  }

  /** RemoveZeroPowers on a polynomial. */
  method RemovePolynomialZeroPowers(p: Polynomial) returns (r: Polynomial)
    ensures r == WithoutZeroPowers(p)
  {
    var terms: seq<Term> := [];
    var i := 0;
    while i < |p.terms|
      invariant 0 <= i <= |p.terms|
      invariant terms == TermsWithoutZeroPowers(p.terms)[..i]
    {
      var t := RemoveZeroPowers(p.terms[i]);
      terms := terms + [t];
      i := i + 1;
    }
    assert terms == TermsWithoutZeroPowers(p.terms);
    r := PA.CreatePolynomial(terms);
  }

  /** MultiplyTerms: the powers of both terms added, then the coefficient and the degree
      multiplied and summed, and zero powers dropped. */
  method MultiplyTerms(t1: Term, t2: Term) returns (r: Term)
    ensures r == TermProduct(t1, t2)
  {
    var coefficient := N.Multiply([t1.coefficient, t2.coefficient]);
    var powers := SharedPowers(t1.variables, t2.variables);
    powers := OwnPowers(powers, t1.variables, t2.variables);
    r := RemoveZeroPowers(PA.Term(coefficient, powers, t1.degree + t2.degree));
  }

  /** MultiplyTerms' first loop: each power of the first term plus the second's power of
      the same variable. */
  method SharedPowers(m1: PowerMap, m2: PowerMap) returns (powers: PowerMap)
    ensures powers == AddPowers(m1, m2)
  {
    powers := [];
    var i := 0;
    while i < |m1|
      invariant 0 <= i <= |m1|
      invariant powers == AddPowers(m1[..i], m2)
    {
      assert m1[..i + 1][..i] == m1[..i];
      var (v, p) := m1[i];
      powers := Put(powers, v, p + Get(m2, v));
      i := i + 1;
    }
    assert m1[..i] == m1;
  }

  /** MultiplyTerms' second loop: the second term's powers of variables the first lacks. */
  method OwnPowers(base: PowerMap, m1: PowerMap, m2: PowerMap) returns (powers: PowerMap)
    ensures powers == NewPowers(base, m1, m2)
  {
    powers := base;
    var j := 0;
    while j < |m2|
      invariant 0 <= j <= |m2|
      invariant powers == NewPowers(base, m1, m2[..j])
    {
      assert m2[..j + 1][..j] == m2[..j];
      var (v, p) := m2[j];
      if !Has(m1, v) {
        powers := Put(powers, v, p);
      }
      j := j + 1;
    }
    assert m2[..j] == m2;
  }

  // Multiply

  /** The products of one term with every term of the other list. Multiply's pairing is
      stated for any `product` of two terms, and Multiply uses MultiplyTerms. */
  function Row(t1: Term, ts2: seq<Term>, product: (Term, Term) -> Term): (r: seq<Term>)
    ensures |r| == |ts2| && forall j :: 0 <= j < |ts2| ==> r[j] == product(t1, ts2[j])
  {
    seq(|ts2|, j requires 0 <= j < |ts2| => product(t1, ts2[j]))
  }

  /** Multiply's nested loops: every pair, the first operand's terms outermost. */
  function Pairs(ts1: seq<Term>, ts2: seq<Term>, product: (Term, Term) -> Term): seq<Term>
    decreases |ts1|
  {
    if ts1 == [] then [] else Pairs(ts1[..|ts1| - 1], ts2, product) + Row(ts1[|ts1| - 1], ts2, product)
  }

  /** Multiply: all the term products, combined. */
  function PolyProduct(p1: Polynomial, p2: Polynomial): Polynomial {
    PA.Create(Combined(Pairs(p1.terms, p2.terms, TermProduct)))
  }

  /** The pair products: one per pair of terms, term i of the first operand with term j of
      the second at position i * |second| + j. */
  lemma {:induction false} PairsSpec(ts1: seq<Term>, ts2: seq<Term>, product: (Term, Term) -> Term)
    ensures |Pairs(ts1, ts2, product)| == |ts1| * |ts2|
    ensures forall i, j :: 0 <= i < |ts1| && 0 <= j < |ts2| ==>
      Pairs(ts1, ts2, product)[i * |ts2| + j] == product(ts1[i], ts2[j])
  {
    PairsLength(ts1, ts2, product);
    forall i, j | 0 <= i < |ts1| && 0 <= j < |ts2|
      ensures i * |ts2| + j < |Pairs(ts1, ts2, product)|
      ensures Pairs(ts1, ts2, product)[i * |ts2| + j] == product(ts1[i], ts2[j])
    {
      PairsAt(ts1, ts2, product, i, j);
    }
  }

  /** There is one pair product per pair of terms. */
  lemma {:induction false} PairsLength(ts1: seq<Term>, ts2: seq<Term>, product: (Term, Term) -> Term)
    ensures |Pairs(ts1, ts2, product)| == |ts1| * |ts2|
    decreases |ts1|
  {
    if ts1 != [] {
      PairsLength(ts1[..|ts1| - 1], ts2, product);
      assert |ts1| * |ts2| == (|ts1| - 1) * |ts2| + |ts2|;
    }
  }

  /** Term i of the first operand with term j of the second sits at i * |second| + j. */
  lemma {:induction false} PairsAt(ts1: seq<Term>, ts2: seq<Term>, product: (Term, Term) -> Term, i: nat, j: nat)
    requires i < |ts1| && j < |ts2|
    ensures i * |ts2| + j < |Pairs(ts1, ts2, product)|
    ensures Pairs(ts1, ts2, product)[i * |ts2| + j] == product(ts1[i], ts2[j])
    decreases |ts1|
  {
    var front := ts1[..|ts1| - 1];
    var n := |ts2|;
    PairsLength(front, ts2, product);
    assert Pairs(ts1, ts2, product) == Pairs(front, ts2, product) + Row(ts1[|ts1| - 1], ts2, product);
    if i < |front| {
      Below(i, j, |front|, n);
      PairsAt(front, ts2, product, i, j);
      assert ts1[i] == front[i];
    } else {
      assert i * n == |front| * n;
    }
  }

  /** Position i * n + j lies in the first k rows of n when i < k and j < n. */
  lemma {:induction false} Below(i: nat, j: nat, k: nat, n: nat)
    requires i < k && j < n
    ensures i * n + j < k * n
    decreases k
  {
    if i < k - 1 {
      Below(i, j, k - 1, n);
    }
    assert k * n == (k - 1) * n + n;
  }

  /** One more row of pairs: the first i + 1 terms give the pairs of the first i, then the
      row of term i. */
  lemma PairsStep(ts1: seq<Term>, ts2: seq<Term>, product: (Term, Term) -> Term, i: nat)
    requires i < |ts1|
    ensures Pairs(ts1[..i + 1], ts2, product) == Pairs(ts1[..i], ts2, product) + Row(ts1[i], ts2, product)
  {
    assert ts1[..i + 1][..i] == ts1[..i];
  }

  /** One more entry of a row. */
  lemma RowStep(t1: Term, ts2: seq<Term>, product: (Term, Term) -> Term, j: nat)
    requires j < |ts2|
    ensures Row(t1, ts2, product)[..j + 1] == Row(t1, ts2, product)[..j] + [product(t1, ts2[j])]
  {
  }

  method Multiply(p1: Polynomial, p2: Polynomial) returns (r: Polynomial)
    ensures r == PolyProduct(p1, p2)
  {
    var result: seq<Term> := [];
    var i := 0;
    while i < |p1.terms|
      invariant 0 <= i <= |p1.terms|
      invariant result == Pairs(p1.terms[..i], p2.terms, TermProduct)
    {
      ghost var before := result;
      var j := 0;
      while j < |p2.terms|
        invariant 0 <= j <= |p2.terms|
        invariant result == before + Row(p1.terms[i], p2.terms, TermProduct)[..j]
      {
        var newTerm := MultiplyTerms(p1.terms[i], p2.terms[j]);
        RowStep(p1.terms[i], p2.terms, TermProduct, j);
        result := result + [newTerm];
        j := j + 1;
      }
      assert Row(p1.terms[i], p2.terms, TermProduct)[..j] == Row(p1.terms[i], p2.terms, TermProduct);
      PairsStep(p1.terms, p2.terms, TermProduct, i);
      i := i + 1;
    }
    assert p1.terms[..i] == p1.terms;
    var combined := CombineTerms(result);
    r := PA.CreatePolynomial(combined);
  }

  // DivideTerms

  /** DivideTerms' loop over a prefix of the dividend's powers: positive differences are
      kept, zero ones dropped, and a negative one throws. */
  function PowerQuotient(m1: PowerMap, m2: PowerMap): Result<PowerMap>
    decreases |m1|
  {
    if m1 == [] then Ok([])
    else
      var t :- PowerQuotient(m1[..|m1| - 1], m2);
      var e := m1[|m1| - 1];
      var newPower := e.1 - Get(m2, e.0);
      if newPower > 0 then Ok(Put(t, e.0, newPower))
      else if newPower < 0 then Fail(PolynomialError, "Cannot divide polynomials, divisor has higher power")
      else Ok(t)
  }

  /** DivideTerms: the coefficients divided, the powers subtracted, the degrees subtracted. */
  function TermQuotient(dividend: Term, divisor: Term): Result<Term> {
    var c :- DivideNodes(dividend.coefficient, divisor.coefficient);
    var m :- PowerQuotient(dividend.variables, divisor.variables);
    Ok(PA.Term(c, m, dividend.degree - divisor.degree))
  }

  /** Some variable of the dividend has a higher power in the divisor. */
  predicate Exceeds(m1: PowerMap, m2: PowerMap) {
    exists i :: 0 <= i < |m1| && m1[i].1 < Get(m2, m1[i].0)
  }

  /** DivideTerms throws a polynomial error exactly when the divisor has a higher power of
      a dividend variable. */
  lemma {:induction false} PowerQuotientFails(m1: PowerMap, m2: PowerMap)
    ensures PowerQuotient(m1, m2).Err? <==> Exceeds(m1, m2)
    ensures PowerQuotient(m1, m2).Err? ==> PowerQuotient(m1, m2).error.kind == PolynomialError
    decreases |m1|
  {
    if m1 != [] {
      var front := m1[..|m1| - 1];
      PowerQuotientFails(front, m2);
      if Exceeds(m1, m2) {
        var i :| 0 <= i < |m1| && m1[i].1 < Get(m2, m1[i].0);
        if i < |front| {
          assert front[i] == m1[i];
        }
      }
      if Exceeds(front, m2) {
        var i :| 0 <= i < |front| && front[i].1 < Get(m2, front[i].0);
        assert m1[i] == front[i];
      }
    }
  }

  /** When it succeeds, the quotient's power of each dividend variable is the difference,
      a variable only the divisor has is dropped, and no power is zero. */
  lemma PowerQuotientSpec(m1: PowerMap, m2: PowerMap, v: string)
    requires Distinct(m1) && PowerQuotient(m1, m2).Ok?
    ensures var r := PowerQuotient(m1, m2).value;
      && Distinct(r) && NoZeroPowers(r)
      && Get(r, v) == (if Has(m1, v) then Get(m1, v) - Get(m2, v) else 0)
      && (Has(r, v) <==> Has(m1, v) && Get(m1, v) > Get(m2, v))
  {
    PowerQuotientShape(m1, m2);
    PowerQuotientAt(m1, m2, v);
  }

  /** The quotient has one entry per variable and no zero power. */
  lemma {:induction false} PowerQuotientShape(m1: PowerMap, m2: PowerMap)
    requires PowerQuotient(m1, m2).Ok?
    ensures Distinct(PowerQuotient(m1, m2).value) && NoZeroPowers(PowerQuotient(m1, m2).value)
    decreases |m1|
  {
    if m1 != [] {
      var front := m1[..|m1| - 1];
      var e := m1[|m1| - 1];
      PowerQuotientShape(front, m2);
      var t := PowerQuotient(front, m2).value;
      var np := e.1 - Get(m2, e.0);
      if np > 0 {
        PutDistinct(t, e.0, np);
        forall i | 0 <= i < |Put(t, e.0, np)| ensures Put(t, e.0, np)[i].1 != 0 {
          PutEntries(t, e.0, np, Put(t, e.0, np)[i]);
        }
      }
    }
  }

  /** The quotient's power of a variable: the difference for a dividend variable, present
      exactly when positive, and nothing for any other variable. */
  lemma PowerQuotientAt(m1: PowerMap, m2: PowerMap, v: string)
    requires Distinct(m1) && PowerQuotient(m1, m2).Ok?
    ensures var r := PowerQuotient(m1, m2).value;
      && Get(r, v) == (if Has(m1, v) then Get(m1, v) - Get(m2, v) else 0)
      && (Has(r, v) <==> Has(m1, v) && Get(m1, v) > Get(m2, v))
  {
    PowerQuotientGet(m1, m2, v);
    PowerQuotientHas(m1, m2, v);
  }

  lemma {:induction false} PowerQuotientGet(m1: PowerMap, m2: PowerMap, v: string)
    requires Distinct(m1) && PowerQuotient(m1, m2).Ok?
    ensures Get(PowerQuotient(m1, m2).value, v) == if Has(m1, v) then Get(m1, v) - Get(m2, v) else 0
    decreases |m1|
  {
    if m1 != [] {
      var front := m1[..|m1| - 1];
      var e := m1[|m1| - 1];
      assert Distinct(front);
      PowerQuotientGet(front, m2, v);
      var t := PowerQuotient(front, m2).value;
      assert m1 == front + [e];
      LookupSnoc(front, e, v);
      LookupHas(front, v);
      LookupHas(m1, v);
      LastNew(m1);
      var np := e.1 - Get(m2, e.0);
      if np > 0 {
        PutLookup(t, e.0, np, v);
      }
    }
  }

  lemma {:induction false} PowerQuotientHas(m1: PowerMap, m2: PowerMap, v: string)
    requires Distinct(m1) && PowerQuotient(m1, m2).Ok?
    ensures Has(PowerQuotient(m1, m2).value, v) <==> Has(m1, v) && Get(m1, v) > Get(m2, v)
    decreases |m1|
  {
    if m1 != [] {
      var front := m1[..|m1| - 1];
      var e := m1[|m1| - 1];
      assert Distinct(front);
      PowerQuotientHas(front, m2, v);
      var t := PowerQuotient(front, m2).value;
      assert m1 == front + [e];
      LookupSnoc(front, e, v);
      LookupHas(front, v);
      LookupHas(m1, v);
      LastNew(m1);
      var np := e.1 - Get(m2, e.0);
      if np > 0 {
        PutHas(t, e.0, np, v);
      }
    }
  }

  /** A variable only the divisor has is ignored while its degree is still subtracted:
      x divided by y is x with degree 0. */
  lemma DivisorOnlyVariable()
    ensures TermQuotient(PA.Term(N.One(), [("x", 1)], 1), PA.Term(N.One(), [("y", 1)], 1))
      == Ok(PA.Term(N.Divide(N.One(), N.One()), [("x", 1)], 0))
  {
    var m1: PowerMap := [("x", 1)];
    assert m1[..0] == [];
    assert Get([("y", 1)], "x") == 0;
  }

  /** DivideTerms' loop over the dividend's powers. */
  method DividePowers(m1: PowerMap, m2: PowerMap) returns (r: Result<PowerMap>)
    ensures r == PowerQuotient(m1, m2)
  {
    var powers: PowerMap := [];
    var i := 0;
    while i < |m1|
      invariant 0 <= i <= |m1|
      invariant PowerQuotient(m1[..i], m2) == Ok(powers)
    {
      assert m1[..i + 1][..i] == m1[..i];
      var (v, dividendPower) := m1[i];
      var divisorPower := Get(m2, v);
      var newPower := dividendPower - divisorPower;
      if newPower > 0 {
        powers := Put(powers, v, newPower);
      } else if newPower < 0 {
        PowerQuotientStop(m1, m2, i + 1);
        return Fail(PolynomialError, "Cannot divide polynomials, divisor has higher power");
      }
      i := i + 1;
    }
    assert m1[..i] == m1;
    return Ok(powers);
  }

  /** DivideTerms. */
  method DivideTerms(dividend: Term, divisor: Term) returns (r: Result<Term>)
    ensures r == TermQuotient(dividend, divisor)
  {
    var c :- DivideNodes(dividend.coefficient, divisor.coefficient);
    var powers :- DividePowers(dividend.variables, divisor.variables);
    return Ok(PA.Term(c, powers, dividend.degree - divisor.degree));
  }

  /** Once a prefix of the powers throws, so does the whole loop. */
  lemma {:induction false} PowerQuotientStop(m1: PowerMap, m2: PowerMap, i: nat)
    requires i <= |m1| && PowerQuotient(m1[..i], m2).Err?
    ensures PowerQuotient(m1, m2) == PowerQuotient(m1[..i], m2)
    decreases |m1|
  {
    if i == |m1| {
      assert m1[..i] == m1;
    } else {
      var front := m1[..|m1| - 1];
      assert front[..i] == m1[..i];
      PowerQuotientStop(front, m2, i);
    }
  }

  // Divide

  /** One pass of Divide's loop: the quotient of the leading terms, and the remainder less
      the divisor times that term. Reading a leading term that does not exist is a host
      error. */
  function Pass(rem: Polynomial, divisor: Polynomial): Result<(Polynomial, Term)> {
    var leadRem := LeadingTerm(rem);
    var leadDiv := LeadingTerm(divisor);
    if leadRem.None? || leadDiv.None? then Fail(HostError, "attempt to index nil")
    else
      var q :- TermQuotient(leadRem.value, leadDiv.value);
      Ok((PolyDifference(rem, PolyProduct(divisor, PA.Create([q]))), q))
  }

  /** The loop body for a divisor. */
  function PassBy(divisor: Polynomial): Polynomial -> Result<(Polynomial, Term)> {
    rem => Pass(rem, divisor)
  }

  /** Divide's loop, from a remainder and the quotient terms so far, with at most `fuel`
      more passes of `pass`. */
  function DivideLoop(rem: Polynomial, divisor: Polynomial, quo: seq<Term>, fuel: nat,
                      pass: Polynomial -> Result<(Polynomial, Term)>): Result<(Polynomial, seq<Term>)>
    decreases fuel
  {
    if IsZero(rem) || rem.degree < divisor.degree then Ok((rem, quo))
    else if fuel == 0 then Fail(Diverges, "polynomial division does not end")
    else
      var next :- pass(rem);
      DivideLoop(next.0, divisor, quo + [next.1], fuel - 1, pass)
  }

  /** Divide around a loop body: quotient and remainder, the quotient Zero() when no pass
      ran. */
  function DivisionWith(p1: Polynomial, p2: Polynomial, fuel: nat,
                        pass: Polynomial -> Result<(Polynomial, Term)>): Result<(Polynomial, Polynomial)> {
    if IsZero(p2) then Fail(PolynomialError, "Dividing by a zero polynomial is not possible")
    else
      var d :- DivideLoop(p1, p2, [], fuel, pass);
      Ok((if |d.1| > 0 then PA.Create(d.1) else Zero(), d.0))
  }

  /** Divide, with the code's pass. */
  function Division(p1: Polynomial, p2: Polynomial, fuel: nat): Result<(Polynomial, Polynomial)> {
    DivisionWith(p1, p2, fuel, PassBy(p2))
  }

  /** The loop ends only with a zero remainder or one of lower degree than the divisor,
      whatever its body does. */
  lemma {:induction false} DivideLoopExit(rem: Polynomial, divisor: Polynomial, quo: seq<Term>, fuel: nat,
                                          pass: Polynomial -> Result<(Polynomial, Term)>)
    requires DivideLoop(rem, divisor, quo, fuel, pass).Ok?
    ensures var r := DivideLoop(rem, divisor, quo, fuel, pass).value.0;
      IsZero(r) || r.degree < divisor.degree
    decreases fuel
  {
    if !(IsZero(rem) || rem.degree < divisor.degree) {
      var next := pass(rem).value;
      DivideLoopExit(next.0, divisor, quo + [next.1], fuel - 1, pass);
    }
  }

  /** Dividing by a zero polynomial throws; a result has a zero remainder or one of lower
      degree than the divisor; a dividend already below the divisor's degree is the
      remainder of a zero quotient. */
  lemma DivisionSpec(p1: Polynomial, p2: Polynomial, fuel: nat)
    ensures IsZero(p2) ==> Division(p1, p2, fuel) == Fail(PolynomialError, "Dividing by a zero polynomial is not possible")
    ensures Division(p1, p2, fuel).Ok? ==>
      var r := Division(p1, p2, fuel).value.1; IsZero(r) || r.degree < p2.degree
    ensures !IsZero(p2) && (IsZero(p1) || p1.degree < p2.degree) ==> Division(p1, p2, fuel) == Ok((Zero(), p1))
  {
    if !IsZero(p2) && DivideLoop(p1, p2, [], fuel, PassBy(p2)).Ok? {
      DivideLoopExit(p1, p2, [], fuel, PassBy(p2));
    }
  }

  /** One pass of Divide's loop. */
  method DividePass(rem: Polynomial, divisor: Polynomial) returns (r: Result<(Polynomial, Term)>)
    ensures r == Pass(rem, divisor)
  {
    var leadingTermRem := LeadingTerm(rem);
    var leadingTermDiv := LeadingTerm(divisor);
    if leadingTermRem.None? || leadingTermDiv.None? {
      return Fail(HostError, "attempt to index nil");
    }
    var quoTerm := DivideTerms(leadingTermRem.value, leadingTermDiv.value);
    if quoTerm.Err? {
      return Err(quoTerm.error);
    }
    var polyFromQuoTerm := PA.CreatePolynomial([quoTerm.value]);
    var toSubtract := Multiply(divisor, polyFromQuoTerm);
    var next := Subtract(rem, toSubtract);
    return Ok((next, quoTerm.value));
  }

  /** Divide's loop, with its body given as `pass`; Divide runs it with the body `Pass`
      that DividePass computes. */
  method DivisionLoop(p1: Polynomial, p2: Polynomial, fuel: nat, pass: Polynomial -> Result<(Polynomial, Term)>)
    returns (r: Result<(Polynomial, seq<Term>)>)
    ensures r == DivideLoop(p1, p2, [], fuel, pass)
  {
    var rem := p1;
    var quoTerms: seq<Term> := [];
    var steps: nat := 0;
    while !IsZero(rem) && rem.degree >= p2.degree
      invariant steps <= fuel
      invariant DivideLoop(p1, p2, [], fuel, pass) == DivideLoop(rem, p2, quoTerms, fuel - steps, pass)
      decreases fuel - steps
    {
      if steps == fuel {
        return Fail(Diverges, "polynomial division does not end");
      }
      var next := pass(rem);
      if next.Err? {
        return Err(next.error);
      }
      rem, quoTerms := next.value.0, quoTerms + [next.value.1];
      steps := steps + 1;
    }
    return Ok((rem, quoTerms));
  }

  /** Divide. The loop has no bound of its own; `fuel` caps its passes. */
  method Divide(p1: Polynomial, p2: Polynomial, fuel: nat) returns (r: Result<(Polynomial, Polynomial)>)
    ensures r == Division(p1, p2, fuel)
  {
    if IsZero(p2) {
      return Fail(PolynomialError, "Dividing by a zero polynomial is not possible");
    }
    var d := DivisionLoop(p1, p2, fuel, PassBy(p2));
    if d.Err? {
      return Err(d.error);
    }
    var rem := d.value.0;
    var quoTerms := d.value.1;
    if |quoTerms| > 0 {
      var quo := PA.CreatePolynomial(quoTerms);
      return Ok((quo, rem));
    }
    return Ok((Zero(), rem));
  }

  // x divided by x, as written

  /** The term c·x. */
  function XTerm(c: Tr.Node): Term {
    PA.Term(c, [("x", 1)], 1)
  }

  /** The polynomial c·x. */
  function LinearX(c: Tr.Node): Polynomial {
    PA.Create([XTerm(c)])
  }

  /** The polynomial x. */
  function X(): Polynomial {
    LinearX(N.One())
  }

  /** c·x has degree 1 and leads with c·x, and is zero exactly when c is literal zero. */
  lemma LinearXShape(c: Tr.Node)
    ensures LinearX(c).terms == [XTerm(c)] && LinearX(c).degree == 1
    ensures LeadingTerm(LinearX(c)) == Some(XTerm(c))
    ensures IsZero(LinearX(c)) <==> NT.Zero(c)
  {
    var p := LinearX(c);
    LinearXFields(c);
    assert Leading(p.terms, 1) == Some(XTerm(c));
    assert IsZero(p) <==> NT.Zero(p.terms[0].coefficient);
  }

  /** c·x is the one term c·x, of degree 1. */
  lemma LinearXFields(c: Tr.Node)
    ensures LinearX(c).terms == [XTerm(c)] && LinearX(c).degree == 1
  {
    var ts := [XTerm(c)];
    assert ts[..0] == [];
    assert PA.MaxDegree(ts) == 1;
  }

  /** A node plus a negated node is an Add node, so never literal zero: the code's Subtract
      does not cancel even a term with itself. */
  lemma NegatedSumIsAdd(a: Tr.Node, b: Tr.Node)
    ensures NodeSum(a, N.Negative(b)).Add?
    ensures !NT.Zero(NodeSum(a, N.Negative(b)))
  {
    var m := N.Negative(b);
    var combined := U.CombineLiterals(T.Add, [a, m]);
    BesideNonLiteral(a, m);
    assert N.Add([a, m]) == U.QuickFlat(Tr.OfKind(T.Add, combined));
  }

  /** Combining literals in a node and a non-literal leaves two operands. */
  lemma BesideNonLiteral(a: Tr.Node, m: Tr.Node)
    requires !m.Literal?
    ensures |U.CombineLiterals(T.Add, [a, m])| == 2
  {
    var nodes := [a, m];
    assert nodes[1..] == [m] && nodes[1..][1..] == [];
    assert U.NonLiterals([m]) == [m] && U.Literals([m]) == [];
    if a.Literal? {
      assert U.NonLiterals(nodes) == [m] && U.Literals(nodes) == [a];
    } else {
      assert U.NonLiterals(nodes) == [a, m] && U.Literals(nodes) == [];
    }
  }

  /** Combining one term keeps it. */
  lemma CombinedOne(t: Term)
    ensures Combined([t]) == [t]
  {
    var s := PA.SignatureOf(t.variables);
    assert [t][..0] == [];
    assert Signed([t]) == [(s, t)];
    assert [(s, t)][..0] == [];
    assert Table([(s, t)], NodeSum) == [(s, t)];
  }

  /** Combining two terms with the same powers keeps the first with the second's coefficient
      added on. */
  lemma CombinedTwin(t: Term, u: Term)
    requires t.variables == u.variables
    ensures Combined([t, u]) == [AddCoefficient(t, u.coefficient, NodeSum)]
  {
    var s := PA.SignatureOf(t.variables);
    SignedSpec([t, u]);
    assert Signed([t, u]) == [(s, t), (s, u)];
    TableTwin(s, t, u, NodeSum);
    var x := AddCoefficient(t, u.coefficient, NodeSum);
    assert Values([(s, x)]) == [x];
  }

  /** The table of one entry is that entry. */
  lemma TableOne(s: string, t: Term, add: (Tr.Node, Tr.Node) -> Tr.Node)
    ensures Table([(s, t)], add) == [(s, t)]
  {
    assert [(s, t)][..0] == [];
  }

  /** The table of two entries under one signature holds the first with the second's
      coefficient added on. */
  lemma TableTwin(s: string, t: Term, u: Term, add: (Tr.Node, Tr.Node) -> Tr.Node)
    ensures Table([(s, t), (s, u)], add) == [(s, AddCoefficient(t, u.coefficient, add))]
  {
    var e := [(s, t), (s, u)];
    assert e[..1] == [(s, t)];
    TableOne(s, t, add);
    assert Lookup([(s, t)], s) == Some(t);
  }

  /** c·x over x is the constant c / 1. */
  lemma XQuotient(c: Tr.Node)
    ensures TermQuotient(XTerm(c), XTerm(N.One())) == Ok(PA.Term(N.Divide(c, N.One()), [], 0))
  {
    var m: PowerMap := [("x", 1)];
    assert m[..0] == [];
    assert PowerQuotient(m, m) == Ok([]);
  }

  /** x times a constant term k is the term 1·k times x. */
  lemma XProduct(k: Term)
    requires k.variables == [] && k.degree == 0
    ensures PolyProduct(X(), PA.Create([k])).terms == [XTerm(N.Multiply([N.One(), k.coefficient]))]
  {
    LinearXShape(N.One());
    var m: PowerMap := [("x", 1)];
    assert m[..0] == [] && m[..1] == m;
    assert AddPowers(m, []) == m;
    assert NewPowers(m, m, []) == m;
    assert NonzeroPowers(m) == m;
    var p := XTerm(N.Multiply([N.One(), k.coefficient]));
    assert TermProduct(XTerm(N.One()), k) == p;
    assert [XTerm(N.One())][..0] == [];
    assert Pairs([XTerm(N.One())], [k], TermProduct) == [p];
    CombinedOne(p);
  }

  /** c·x less a polynomial whose one term is d·x is the one term (c + -d)·x. */
  lemma XDifference(c: Tr.Node, p: Polynomial, d: Tr.Node)
    requires p.terms == [XTerm(d)]
    ensures PolyDifference(LinearX(c), p) == LinearX(NodeSum(c, N.Negative(d)))
  {
    LinearXShape(c);
    assert Negated(p.terms) == [XTerm(N.Negative(d))];
    CombinedTwin(XTerm(c), XTerm(N.Negative(d)));
    assert [XTerm(c)] + [XTerm(N.Negative(d))] == [XTerm(c), XTerm(N.Negative(d))];
  }

  /** One pass of the code's loop on c·x divided by x leaves c·x less c·x, an Add node in
      place of zero, so the remainder keeps degree 1. */
  lemma PassOnLinearX(c: Tr.Node)
    ensures Pass(LinearX(c), X()).Ok?
    ensures Pass(LinearX(c), X()).value.0
      == LinearX(NodeSum(c, N.Negative(N.Multiply([N.One(), N.Divide(c, N.One())]))))
  {
    LinearXShape(c);
    LinearXShape(N.One());
    XQuotient(c);
    var q := PA.Term(N.Divide(c, N.One()), [], 0);
    XProduct(q);
    var prod := PolyProduct(X(), PA.Create([q]));
    XDifference(c, prod, N.Multiply([N.One(), N.Divide(c, N.One())]));
    assert Pass(LinearX(c), X()) == Ok((PolyDifference(LinearX(c), prod), q));
  }

  /** The polynomial is c·x for some c that is not literal zero. */
  predicate NonzeroLinearX(p: Polynomial) {
    |p.terms| == 1 && p == LinearX(p.terms[0].coefficient) && !NT.Zero(p.terms[0].coefficient)
  }

  /** A pass of the code's loop takes a nonzero c·x divided by x to another, never to zero. */
  lemma StaysLinearX(rem: Polynomial)
    requires NonzeroLinearX(rem)
    ensures !IsZero(rem) && rem.degree >= X().degree
    ensures PassBy(X())(rem).Ok? && NonzeroLinearX(PassBy(X())(rem).value.0)
  {
    var c := rem.terms[0].coefficient;
    LinearXShape(c);
    LinearXShape(N.One());
    PassOnLinearX(c);
    var d := N.Multiply([N.One(), N.Divide(c, N.One())]);
    var c' := NodeSum(c, N.Negative(d));
    NegatedSumIsAdd(c, d);
    LinearXShape(c');
  }

  /** Wherever `stuck` holds the loop goes on, and its body succeeds and keeps `stuck`. */
  ghost predicate KeepsStuck(divisor: Polynomial, pass: Polynomial -> Result<(Polynomial, Term)>,
                             stuck: Polynomial -> bool) {
    forall r :: stuck(r) ==>
      !IsZero(r) && r.degree >= divisor.degree && pass(r).Ok? && stuck(pass(r).value.0)
  }

  /** A loop whose body always succeeds and keeps the remainder where `stuck` holds, and
      `stuck` only where the loop goes on, runs out of any fuel. */
  lemma {:induction false} NeverExits(rem: Polynomial, divisor: Polynomial, quo: seq<Term>, fuel: nat,
                                      pass: Polynomial -> Result<(Polynomial, Term)>, stuck: Polynomial -> bool)
    requires stuck(rem) && KeepsStuck(divisor, pass, stuck)
    ensures DivideLoop(rem, divisor, quo, fuel, pass) == Fail(Diverges, "polynomial division does not end")
    decreases fuel
  {
    assert !IsZero(rem) && rem.degree >= divisor.degree && pass(rem).Ok? && stuck(pass(rem).value.0);
    if fuel > 0 {
      LoopStep(rem, divisor, quo, fuel, pass);
      NeverExits(pass(rem).value.0, divisor, quo + [pass(rem).value.1], fuel - 1, pass, stuck);
    } else {
      OutOfFuel(rem, divisor, quo, pass);
    }
  }

  /** Every nonzero c·x stays stuck under the code's pass by x. */
  lemma StuckOnX()
    ensures KeepsStuck(X(), PassBy(X()), NonzeroLinearX)
  {
    forall r | NonzeroLinearX(r)
      ensures !IsZero(r) && r.degree >= X().degree && PassBy(X())(r).Ok? && NonzeroLinearX(PassBy(X())(r).value.0)
    {
      StaysLinearX(r);
    }
  }

  /** x is a nonzero c·x. */
  lemma XIsStuck()
    ensures NonzeroLinearX(X()) && !IsZero(X())
  {
    LinearXShape(N.One());
  }

  /** Division around a loop that runs out of fuel runs out of fuel too. */
  lemma DivisionDiverges(p1: Polynomial, p2: Polynomial, fuel: nat, pass: Polynomial -> Result<(Polynomial, Term)>)
    requires !IsZero(p2)
    requires DivideLoop(p1, p2, [], fuel, pass) == Fail(Diverges, "polynomial division does not end")
    ensures DivisionWith(p1, p2, fuel, pass) == Fail(Diverges, "polynomial division does not end")
  {
  }

  /** As written, Divide(x, x) never returns: every pass leaves a remainder of degree 1. */
  lemma XOverXNeverReturns(fuel: nat)
    ensures Division(X(), X(), fuel) == Fail(Diverges, "polynomial division does not end")
  {
    XIsStuck();
    StuckOnX();
    NeverExits(X(), X(), [], fuel, PassBy(X()), NonzeroLinearX);
    DivisionDiverges(X(), X(), fuel, PassBy(X()));
  }

  /** As written, GCD(x, x) never returns either. */
  lemma GcdXXNeverReturns(fuel: nat)
    ensures GcdOf(X(), X(), fuel).Err? && GcdOf(X(), X(), fuel).error.kind == Diverges
  {
    LinearXShape(N.One());
    XOverXNeverReturns(fuel);
  }

  // Divide, cancelling

  /** The terms without the first one of degree d. */
  function WithoutLeading(terms: seq<Term>, d: int): (r: seq<Term>)
    ensures forall t :: t in r ==> t in terms
    decreases |terms|
  {
    if terms == [] then []
    else if terms[0].degree == d then terms[1..]
    else [terms[0]] + WithoutLeading(terms[1..], d)
  }

  /** A pass in which the leading terms cancel: the quotient term is the code's, and the
      remainder less the divisor times it is taken over the terms below the two leading
      ones, whose difference is zero by the choice of that term. */
  function CancellingPass(rem: Polynomial, divisor: Polynomial): Result<(Polynomial, Term)> {
    var leadRem := LeadingTerm(rem);
    var leadDiv := LeadingTerm(divisor);
    if leadRem.None? || leadDiv.None? then Fail(HostError, "attempt to index nil")
    else
      var q :- TermQuotient(leadRem.value, leadDiv.value);
      var rest := PA.Create(WithoutLeading(rem.terms, rem.degree));
      var lower := PA.Create(WithoutLeading(divisor.terms, divisor.degree));
      Ok((PolyDifference(rest, PolyProduct(lower, PA.Create([q]))), q))
  }

  function CancellingPassBy(divisor: Polynomial): Polynomial -> Result<(Polynomial, Term)> {
    rem => CancellingPass(rem, divisor)
  }

  /** Divide with the cancelling pass. */
  function CancellingDivision(p1: Polynomial, p2: Polynomial, fuel: nat): Result<(Polynomial, Polynomial)> {
    DivisionWith(p1, p2, fuel, CancellingPassBy(p2))
  }

  function CancellingDivisionBy(fuel: nat): (Polynomial, Polynomial) -> Result<(Polynomial, Polynomial)> {
    (a, b) => CancellingDivision(a, b, fuel)
  }

  /** GCD with the cancelling division. */
  function CancellingGcd(p1: Polynomial, p2: Polynomial, fuel: nat): Result<Polynomial> {
    GcdLoop(p1, p2, fuel, CancellingDivisionBy(fuel))
  }

  /** The powers the code keeps for a term of degree d in the one variable v: none at 0. */
  function PowersOf(v: string, d: int): PowerMap {
    if d == 0 then [] else [(v, d)]
  }

  /** The term is c·v^d with d at least 0. */
  predicate InVariable(t: Term, v: string) {
    t.degree >= 0 && t.variables == PowersOf(v, t.degree)
  }

  /** Every term is in v. */
  predicate InOneVariable(terms: seq<Term>, v: string) {
    forall t :: t in terms ==> InVariable(t, v)
  }

  /** No two terms share a degree. */
  predicate DistinctDegrees(terms: seq<Term>) {
    forall i, j :: 0 <= i < j < |terms| ==> terms[i].degree != terms[j].degree
  }

  /** Every degree is below d. */
  predicate DegreesBelow(terms: seq<Term>, d: int) {
    forall t :: t in terms ==> t.degree < d
  }

  /** A polynomial in v with one term per degree, its degree the largest, as CombineTerms
      and CreatePolynomial leave it. */
  predicate Univariate(p: Polynomial, v: string) {
    InOneVariable(p.terms, v) && DistinctDegrees(p.terms) && p.degree == PA.MaxDegree(p.terms)
  }

  /** A coefficient Nodes.Divide can invert. */
  predicate Invertible(c: Tr.Node) {
    c.Exponentiation? ==> |c.args| >= 2
  }

  lemma GetPowersOf(v: string, d: int)
    ensures Get(PowersOf(v, d), v) == d
    ensures Has(PowersOf(v, d), v) <==> d != 0
  {
    if d != 0 {
      assert PowersOf(v, d)[0].0 == v;
    }
  }

  /** DividePowers on a single power of v. */
  lemma PowerQuotientSingle(v: string, d: int, m2: PowerMap)
    requires d > 0 && d >= Get(m2, v)
    ensures PowerQuotient(PowersOf(v, d), m2) == Ok(PowersOf(v, d - Get(m2, v)))
  {
    var m1 := PowersOf(v, d);
    assert m1[..0] == [] && m1[0] == (v, d);
  }

  /** In one variable, DivideTerms of a higher or equal power succeeds: the coefficients
      divided and the power the difference of the degrees. */
  lemma TermQuotientInOneVariable(a: Term, b: Term, v: string)
    requires InVariable(a, v) && InVariable(b, v) && a.degree >= b.degree
    requires Invertible(b.coefficient)
    ensures TermQuotient(a, b)
      == Ok(PA.Term(N.Divide(a.coefficient, b.coefficient), PowersOf(v, a.degree - b.degree), a.degree - b.degree))
  {
    GetPowersOf(v, b.degree);
    assert DivideNodes(a.coefficient, b.coefficient) == Ok(N.Divide(a.coefficient, b.coefficient));
    if a.degree > 0 {
      PowerQuotientSingle(v, a.degree, b.variables);
    } else {
      assert PowerQuotient(a.variables, b.variables) == Ok([]);
    }
  }

  /** MultiplyTerms' loops on single powers of v. */
  lemma PowersProductSingle(v: string, d1: int, d2: int)
    requires d1 >= 0 && d2 >= 0
    ensures var m1, m2 := PowersOf(v, d1), PowersOf(v, d2);
      NonzeroPowers(NewPowers(AddPowers(m1, m2), m1, m2)) == PowersOf(v, d1 + d2)
  {
    var m1, m2 := PowersOf(v, d1), PowersOf(v, d2);
    GetPowersOf(v, d1);
    GetPowersOf(v, d2);
    var added := AddPowers(m1, m2);
    if d1 != 0 {
      assert m1[..0] == [];
      assert added == [(v, d1 + d2)];
    } else {
      assert added == [];
    }
    var n := NewPowers(added, m1, m2);
    if d2 != 0 {
      assert m2[..0] == [];
      assert NewPowers(added, m1, m2) == if Has(m1, v) then added else Put(added, v, d2);
    }
    assert n == PowersOf(v, d1 + d2);
    if n != [] {
      assert n[..0] == [];
    }
  }

  /** In one variable, MultiplyTerms adds the degrees and keeps the powers of the sum. */
  lemma TermProductInOneVariable(a: Term, b: Term, v: string)
    requires InVariable(a, v) && InVariable(b, v)
    ensures TermProduct(a, b).degree == a.degree + b.degree
    ensures TermProduct(a, b).variables == PowersOf(v, a.degree + b.degree)
  {
    PowersProductSingle(v, a.degree, b.degree);
  }

  /** Each combined term is an input term with only its coefficient changed. */
  lemma CombinedFrom(terms: seq<Term>, i: nat) returns (k: nat)
    requires i < |Combined(terms)|
    ensures k < |terms| && Combined(terms)[i] == terms[k].(coefficient := Combined(terms)[i].coefficient)
  {
    var signed := Signed(terms);
    SignedSpec(terms);
    var table := Table(signed, NodeSum);
    TableKeys(signed, NodeSum);
    var s := table[i].0;
    LookupEntry(table, i);
    TableLookup(signed, s, NodeSum);
    var M := Matching(signed, s);
    AccumulatedSpec(M, NodeSum);
    assert M[0] in M;
    MatchingSigned(signed, s, M[0]);
    var j :| 0 <= j < |signed| && signed[j] == (s, M[0]);
    k := j;
  }

  /** Combining terms in one variable below a degree leaves terms in that variable below
      it, one per degree. */
  lemma CombinedInOneVariable(terms: seq<Term>, v: string, d: int)
    requires InOneVariable(terms, v) && DegreesBelow(terms, d)
    ensures InOneVariable(Combined(terms), v) && DegreesBelow(Combined(terms), d)
    ensures DistinctDegrees(Combined(terms))
  {
    var r := Combined(terms);
    forall i | 0 <= i < |r|
      ensures InVariable(r[i], v) && r[i].degree < d
    {
      var k := CombinedFrom(terms, i);
      assert terms[k] in terms;
    }
    CombinedSpec(terms);
    forall i, j | 0 <= i < j < |r| ensures r[i].degree != r[j].degree {
      assert Signatures(r)[i] != Signatures(r)[j];
    }
  }

  /** Without the first term of degree d, no term of a list with distinct degrees has
      degree d. */
  lemma {:induction false} WithoutLeadingBelow(terms: seq<Term>, d: int)
    requires DistinctDegrees(terms)
    ensures forall t :: t in WithoutLeading(terms, d) ==> t.degree != d
    decreases |terms|
  {
    if terms != [] {
      var tail := terms[1..];
      assert DistinctDegrees(tail) by {
        forall i, j | 0 <= i < j < |tail| ensures tail[i].degree != tail[j].degree {
          assert tail[i] == terms[i + 1] && tail[j] == terms[j + 1];
        }
      }
      if terms[0].degree == d {
        forall t | t in tail ensures t.degree != d {
          var j :| 0 <= j < |tail| && tail[j] == t;
          assert terms[j + 1] == t;
        }
      } else {
        WithoutLeadingBelow(tail, d);
      }
    }
  }

  /** A nonempty list of degrees from 0 up to below d has a largest degree below d. */
  lemma MaxDegreeBelow(terms: seq<Term>, d: int)
    requires forall t :: t in terms ==> 0 <= t.degree < d
    ensures terms == [] || PA.MaxDegree(terms) < d
  {
    PA.MaxDegreeSpec(terms);
    if terms != [] {
      assert terms[0] in terms;
      if PA.MaxDegree(terms) != 0 {
        var i :| 0 <= i < |terms| && terms[i].degree == PA.MaxDegree(terms);
        assert terms[i] in terms;
      }
    }
  }

  /** A univariate polynomial with terms leads with a term of its degree, and its other
      terms lie below it. */
  lemma UnivariateLeading(p: Polynomial, v: string)
    requires Univariate(p, v) && p.terms != []
    ensures LeadingTerm(p).Some? && LeadingTerm(p).value.degree == p.degree
    ensures InVariable(LeadingTerm(p).value, v)
    ensures InOneVariable(WithoutLeading(p.terms, p.degree), v)
    ensures DegreesBelow(WithoutLeading(p.terms, p.degree), p.degree)
    ensures p.degree >= 0
  {
    PA.MaxDegreeSpec(p.terms);
    var i: nat := 0;
    if p.degree != 0 {
      i :| 0 <= i < |p.terms| && p.terms[i].degree == p.degree;
    } else {
      assert p.terms[0] in p.terms;
    }
    LeadingSpec(p.terms, p.degree);
    var k :| LeadsAt(p.terms, p.degree, k) && p.terms[k] == LeadingTerm(p).value;
    assert p.terms[k] in p.terms;
    WithoutLeadingBelow(p.terms, p.degree);
    forall t | t in WithoutLeading(p.terms, p.degree) ensures t.degree < p.degree {
      var j :| 0 <= j < |p.terms| && p.terms[j] == t;
    }
  }

  /** The divisor's leading coefficient, if any, can be inverted. */
  predicate InvertibleLead(p: Polynomial) {
    LeadingTerm(p).Some? ==> Invertible(LeadingTerm(p).value.coefficient)
  }

  /** The pair products with a one-term polynomial: each term times that term, in order. */
  lemma {:induction false} PairsWithOne(ts: seq<Term>, q: Term, product: (Term, Term) -> Term)
    ensures |Pairs(ts, [q], product)| == |ts|
    ensures forall i :: 0 <= i < |ts| ==> Pairs(ts, [q], product)[i] == product(ts[i], q)
    decreases |ts|
  {
    if ts != [] {
      var front := ts[..|ts| - 1];
      PairsWithOne(front, q, product);
      assert Row(ts[|ts| - 1], [q], product) == [product(ts[|ts| - 1], q)];
    }
  }

  /** A product of terms that multiplies in one variable by adding degrees. */
  ghost predicate AddsDegrees(product: (Term, Term) -> Term, v: string) {
    forall a, b {:trigger product(a, b)} :: InVariable(a, v) && InVariable(b, v) ==>
      product(a, b).degree == a.degree + b.degree && product(a, b).variables == PowersOf(v, a.degree + b.degree)
  }

  /** MultiplyTerms adds degrees in any one variable. */
  lemma TermProductAddsDegrees(v: string)
    ensures AddsDegrees(TermProduct, v)
  {
    forall a, b | InVariable(a, v) && InVariable(b, v)
      ensures TermProduct(a, b).degree == a.degree + b.degree
      ensures TermProduct(a, b).variables == PowersOf(v, a.degree + b.degree)
    {
      TermProductInOneVariable(a, b, v);
    }
  }

  /** Terms in v times a term in v, with every degree sum below d, give products in v
      below d. */
  lemma ProductsBelow(lower: seq<Term>, q: Term, v: string, d: int, product: (Term, Term) -> Term,
                      products: seq<Term>)
    requires AddsDegrees(product, v)
    requires InOneVariable(lower, v) && InVariable(q, v)
    requires forall t :: t in lower ==> t.degree + q.degree < d
    requires |products| == |lower| && forall i :: 0 <= i < |lower| ==> products[i] == product(lower[i], q)
    ensures InOneVariable(products, v) && DegreesBelow(products, d)
  {
    forall t | t in products ensures InVariable(t, v) && t.degree < d {
      var i :| 0 <= i < |products| && products[i] == t;
      assert lower[i] in lower;
    }
  }

  /** Terms in v below d less terms in v times a term in v, each below d, combine to a
      polynomial in v with no terms or a degree below d. */
  lemma DifferenceBelow(rest: seq<Term>, lower: seq<Term>, q: Term, v: string, d: int)
    requires InOneVariable(rest, v) && DegreesBelow(rest, d)
    requires InOneVariable(lower, v) && InVariable(q, v)
    requires forall t :: t in lower ==> t.degree + q.degree < d
    ensures var r := PolyDifference(PA.Create(rest), PolyProduct(PA.Create(lower), PA.Create([q])));
      Univariate(r, v) && (r.terms == [] || r.degree < d)
  {
    var pairs := Pairs(lower, [q], TermProduct);
    TermProductAddsDegrees(v);
    PairsWithOne(lower, q, TermProduct);
    ProductsBelow(lower, q, v, d, TermProduct, pairs);
    CombinedInOneVariable(pairs, v, d);
    var prod := PolyProduct(PA.Create(lower), PA.Create([q]));
    assert prod.terms == Combined(pairs);
    var negated := Negated(prod.terms);
    NegatedBelow(prod.terms, v, d);
    var all := rest + negated;
    CombinedInOneVariable(all, v, d);
    var r := PolyDifference(PA.Create(rest), prod);
    assert r.terms == Combined(all);
    MaxDegreeBelow(r.terms, d);
  }

  /** Negating keeps terms in v below d. */
  lemma NegatedBelow(terms: seq<Term>, v: string, d: int)
    requires InOneVariable(terms, v) && DegreesBelow(terms, d)
    ensures InOneVariable(Negated(terms), v) && DegreesBelow(Negated(terms), d)
  {
    forall t | t in Negated(terms) ensures InVariable(t, v) && t.degree < d {
      var i :| 0 <= i < |Negated(terms)| && Negated(terms)[i] == t;
      assert terms[i] in terms;
    }
  }

  /** The cancelling pass on polynomials in one variable succeeds and leaves a polynomial
      in that variable of lower degree, or none at all; the quotient term has the
      difference of the degrees. */
  lemma CancellingPassLowers(rem: Polynomial, divisor: Polynomial, v: string)
    requires Univariate(rem, v) && Univariate(divisor, v) && rem.terms != [] && divisor.terms != []
    requires rem.degree >= divisor.degree && InvertibleLead(divisor)
    ensures CancellingPass(rem, divisor).Ok?
    ensures var r := CancellingPass(rem, divisor).value.0;
      Univariate(r, v) && (r.terms == [] || r.degree < rem.degree)
    ensures CancellingPass(rem, divisor).value.1.degree == rem.degree - divisor.degree
  {
    UnivariateLeading(rem, v);
    UnivariateLeading(divisor, v);
    var a, b := LeadingTerm(rem).value, LeadingTerm(divisor).value;
    TermQuotientInOneVariable(a, b, v);
    var q := TermQuotient(a, b).value;
    var rest := WithoutLeading(rem.terms, rem.degree);
    var lower := WithoutLeading(divisor.terms, divisor.degree);
    DifferenceBelow(rest, lower, q, v, rem.degree);
    CancellingPassOf(rem, divisor);
  }

  /** Where both leading terms exist and divide, the cancelling pass is the difference over
      the lower terms. */
  lemma CancellingPassOf(rem: Polynomial, divisor: Polynomial)
    requires LeadingTerm(rem).Some? && LeadingTerm(divisor).Some?
    requires TermQuotient(LeadingTerm(rem).value, LeadingTerm(divisor).value).Ok?
    ensures var q := TermQuotient(LeadingTerm(rem).value, LeadingTerm(divisor).value).value;
      CancellingPass(rem, divisor) == Ok((PolyDifference(PA.Create(WithoutLeading(rem.terms, rem.degree)),
        PolyProduct(PA.Create(WithoutLeading(divisor.terms, divisor.degree)), PA.Create([q]))), q))
  {
  }

  /** A loop that has not reached its exit and has no fuel left gives up. */
  lemma OutOfFuel(rem: Polynomial, divisor: Polynomial, quo: seq<Term>, pass: Polynomial -> Result<(Polynomial, Term)>)
    requires !IsZero(rem) && rem.degree >= divisor.degree
    ensures DivideLoop(rem, divisor, quo, 0, pass) == Fail(Diverges, "polynomial division does not end")
  {
  }

  /** A loop that has not reached its exit runs one pass and goes on. */
  lemma LoopStep(rem: Polynomial, divisor: Polynomial, quo: seq<Term>, fuel: nat,
                 pass: Polynomial -> Result<(Polynomial, Term)>)
    requires !IsZero(rem) && rem.degree >= divisor.degree && fuel > 0 && pass(rem).Ok?
    ensures DivideLoop(rem, divisor, quo, fuel, pass)
      == DivideLoop(pass(rem).value.0, divisor, quo + [pass(rem).value.1], fuel - 1, pass)
  {
  }

  /** The cancelling pass on x over x leaves no terms. */
  lemma CancellingPassXX()
    ensures CancellingPass(X(), X()) == Ok((PA.Create([]), PA.Term(N.Divide(N.One(), N.One()), [], 0)))
  {
    LinearXShape(N.One());
    XQuotient(N.One());
    var q := PA.Term(N.Divide(N.One(), N.One()), [], 0);
    var none := PA.Create([]);
    assert WithoutLeading(X().terms, X().degree) == [];
    assert Pairs([], [q], TermProduct) == [];
    assert Combined([]) == [];
    assert PolyProduct(none, PA.Create([q])) == none;
    assert [] + Negated([]) == [];
  }

  /** A loop whose body, wherever `good` holds and the loop goes on, succeeds and leaves a
      `good` remainder with no terms or of lower degree ends once the fuel exceeds the
      difference of the degrees, with a `good` remainder. */
  lemma {:induction false} LoopEnds(rem: Polynomial, divisor: Polynomial, quo: seq<Term>, fuel: nat,
                                    pass: Polynomial -> Result<(Polynomial, Term)>, good: Polynomial -> bool)
    requires good(rem) && fuel > rem.degree - divisor.degree
    requires forall r :: good(r) && !IsZero(r) && r.degree >= divisor.degree ==>
      pass(r).Ok? && good(pass(r).value.0) && (pass(r).value.0.terms == [] || pass(r).value.0.degree < r.degree)
    ensures DivideLoop(rem, divisor, quo, fuel, pass).Ok?
    ensures good(DivideLoop(rem, divisor, quo, fuel, pass).value.0)
    decreases fuel
  {
    if !(IsZero(rem) || rem.degree < divisor.degree) {
      var next := pass(rem).value;
      if next.0.terms == [] {
        assert IsZero(next.0);
        assert DivideLoop(next.0, divisor, quo + [next.1], fuel - 1, pass) == Ok((next.0, quo + [next.1]));
      } else {
        LoopEnds(next.0, divisor, quo + [next.1], fuel - 1, pass, good);
      }
    }
  }

  /** In one variable, the cancelling loop ends once the fuel exceeds the difference of the
      degrees, since every pass lowers the remainder's degree; the remainder stays in that
      variable. */
  lemma CancellingLoopEnds(rem: Polynomial, divisor: Polynomial, quo: seq<Term>, fuel: nat, v: string)
    requires Univariate(rem, v) && Univariate(divisor, v) && divisor.terms != [] && InvertibleLead(divisor)
    requires fuel > rem.degree - divisor.degree
    ensures DivideLoop(rem, divisor, quo, fuel, CancellingPassBy(divisor)).Ok?
    ensures Univariate(DivideLoop(rem, divisor, quo, fuel, CancellingPassBy(divisor)).value.0, v)
  {
    var pass := CancellingPassBy(divisor);
    var good := (r: Polynomial) => Univariate(r, v);
    forall r | good(r) && !IsZero(r) && r.degree >= divisor.degree
      ensures pass(r).Ok? && good(pass(r).value.0) && (pass(r).value.0.terms == [] || pass(r).value.0.degree < r.degree)
    {
      CancellingPassLowers(r, divisor, v);
    }
    LoopEnds(rem, divisor, quo, fuel, pass, good);
  }

  /** Corrected, Divide of polynomials in one variable returns once the fuel exceeds the
      difference of their degrees, with a remainder that is zero or below the divisor's
      degree. */
  lemma CancellingDivisionEnds(p1: Polynomial, p2: Polynomial, v: string, fuel: nat)
    requires Univariate(p1, v) && Univariate(p2, v) && !IsZero(p2) && InvertibleLead(p2)
    requires fuel > p1.degree - p2.degree
    ensures CancellingDivision(p1, p2, fuel).Ok?
    ensures var r := CancellingDivision(p1, p2, fuel).value.1;
      Univariate(r, v) && (IsZero(r) || r.degree < p2.degree)
  {
    CancellingLoopEnds(p1, p2, [], fuel, v);
    DivideLoopExit(p1, p2, [], fuel, CancellingPassBy(p2));
  }

  /** The polynomial of no terms is zero. */
  lemma EmptyIsZero()
    ensures PA.Create([]).terms == [] && IsZero(PA.Create([]))
  {
  }

  /** A loop whose first pass leaves a zero remainder stops after it, with that pass's
      quotient term alone. */
  lemma OnePassExits(rem: Polynomial, divisor: Polynomial, fuel: nat, pass: Polynomial -> Result<(Polynomial, Term)>)
    requires !IsZero(rem) && rem.degree >= divisor.degree && fuel >= 1
    requires pass(rem).Ok? && IsZero(pass(rem).value.0)
    ensures DivideLoop(rem, divisor, [], fuel, pass) == Ok((pass(rem).value.0, [pass(rem).value.1]))
  {
    LoopStep(rem, divisor, [], fuel, pass);
    assert [] + [pass(rem).value.1] == [pass(rem).value.1];
  }

  /** The cancelling loop on x over x stops after one pass with no remainder. */
  lemma CancellingXXLoop(fuel: nat)
    requires fuel >= 1
    ensures DivideLoop(X(), X(), [], fuel, CancellingPassBy(X()))
      == Ok((PA.Create([]), [PA.Term(N.Divide(N.One(), N.One()), [], 0)]))
  {
    XIsStuck();
    CancellingPassXX();
    var q := PA.Term(N.Divide(N.One(), N.One()), [], 0);
    assert CancellingPassBy(X())(X()) == Ok((PA.Create([]), q));
    EmptyIsZero();
    OnePassExits(X(), X(), fuel, CancellingPassBy(X()));
  }

  /** Division around a loop that succeeds returns its quotient terms and remainder. */
  lemma DivisionOk(p1: Polynomial, p2: Polynomial, fuel: nat, pass: Polynomial -> Result<(Polynomial, Term)>)
    requires !IsZero(p2) && DivideLoop(p1, p2, [], fuel, pass).Ok?
    ensures var d := DivideLoop(p1, p2, [], fuel, pass).value;
      DivisionWith(p1, p2, fuel, pass) == Ok((if |d.1| > 0 then PA.Create(d.1) else Zero(), d.0))
  {
  }

  /** Corrected, x / x is the constant 1 / 1 with no remainder, after one pass. */
  lemma CancellingXOverX(fuel: nat)
    requires fuel >= 1
    ensures CancellingDivision(X(), X(), fuel)
      == Ok((PA.Create([PA.Term(N.Divide(N.One(), N.One()), [], 0)]), PA.Create([])))
  {
    XIsStuck();
    CancellingXXLoop(fuel);
    DivisionOk(X(), X(), fuel, CancellingPassBy(X()));
  }

  /** A GCD loop whose first division leaves a zero remainder is the divisor made monic. */
  lemma GcdExact(a: Polynomial, b: Polynomial, fuel: nat,
                 divide: (Polynomial, Polynomial) -> Result<(Polynomial, Polynomial)>)
    requires !IsZero(b) && fuel >= 1 && divide(a, b).Ok? && IsZero(divide(a, b).value.1)
    ensures GcdLoop(a, b, fuel, divide) == Monic(b)
  {
  }

  /** Corrected, GCD(x, x) is x made monic. */
  lemma CancellingGcdXX(fuel: nat)
    requires fuel >= 1
    ensures CancellingGcd(X(), X(), fuel) == Monic(X())
  {
    XIsStuck();
    CancellingXOverX(fuel);
    EmptyIsZero();
    assert CancellingDivisionBy(fuel)(X(), X()) == CancellingDivision(X(), X(), fuel);
    GcdExact(X(), X(), fuel, CancellingDivisionBy(fuel));
  }

  // Exponentiation

  /** `result = Multiply(result, poly)` repeated: poly multiplied by itself e - 1 times. */
  function Repeated(p: Polynomial, e: int): Polynomial
    requires e >= 1
    decreases e
  {
    if e == 1 then p else PolyProduct(Repeated(p, e - 1), p)
  }

  /** Exponentiation as written: exponent 0 gives the zero polynomial. */
  function PowerAsWritten(p: Polynomial, e: int): Result<Polynomial> {
    if e < 0 then Fail(PolynomialError, "Negative exponents not supported for polynomial exponents")
    else if e == 0 then Ok(Zero())
    else Ok(Repeated(p, e))
  }

  /** Exponentiation with exponent 0 giving the constant 1. */
  function Power(p: Polynomial, e: int): Result<Polynomial> {
    if e < 0 then Fail(PolynomialError, "Negative exponents not supported for polynomial exponents")
    else if e == 0 then Ok(Constant(N.One()))
    else Ok(Repeated(p, e))
  }

  /** As written, every polynomial to the power 0 is the zero polynomial, x included. */
  lemma ZeroPowerIsZero(p: Polynomial)
    ensures PowerAsWritten(p, 0).Ok? && IsZero(PowerAsWritten(p, 0).value)
    ensures PowerAsWritten(p, 0) != Power(p, 0)
  {
    ConstantSpec(N.Zero());
    ConstantSpec(N.One());
    assert !NT.Zero(N.One());
  }

  /** Corrected: p^0 is the nonzero constant 1, p^1 is p, p^(e+1) is p^e times p; negative
      exponents throw. Both versions agree from exponent 1 on. */
  lemma PowerSpec(p: Polynomial, e: int)
    ensures Power(p, 0) == Ok(Constant(N.One())) && !IsZero(Constant(N.One()))
    ensures Constant(N.One()).constantTerm == N.One() && Constant(N.One()).degree == 0
    ensures Power(p, 1) == Ok(p)
    ensures e >= 1 ==> Power(p, e + 1) == Ok(PolyProduct(Power(p, e).value, p))
    ensures e < 0 ==> Power(p, e).Err? && Power(p, e).error.kind == PolynomialError
    ensures e != 0 ==> Power(p, e) == PowerAsWritten(p, e)
  {
    ConstantSpec(N.One());
    assert !NT.Zero(N.One());
  }

  /** Exponentiation (with the exponent-0 case corrected). */
  method Exponentiation(p: Polynomial, e: int) returns (r: Result<Polynomial>)
    ensures r == Power(p, e)
  {
    if e < 0 {
      return Fail(PolynomialError, "Negative exponents not supported for polynomial exponents");
    }
    if e == 0 {
      return Ok(Constant(N.One()));
    }
    // Exponent 1 runs no pass and gives `p` back, as the early return in the code does.
    var result := p;
    var i := 1;
    while i < e
      invariant 1 <= i <= e
      invariant result == Repeated(p, i)
    {
      result := Multiply(result, p);
      i := i + 1;
    }
    return Ok(result);
  }

  // ToMonic and GCD

  /** ToMonic: a zero polynomial is returned as it is; otherwise every coefficient is
      divided by the leading coefficient. */
  function Monic(p: Polynomial): Result<Polynomial> {
    if IsZero(p) then Ok(p)
    else
      var lead := p.leadingCoefficient;
      if lead.Exponentiation? && |lead.args| < 2 then Fail(HostError, "attempt to perform arithmetic on nil")
      else Ok(PA.Create(seq(|p.terms|, i requires 0 <= i < |p.terms| =>
        p.terms[i].(coefficient := N.Divide(p.terms[i].coefficient, lead)))))
  }

  /** ToMonic keeps a zero polynomial and otherwise keeps every term's powers and degree,
      dividing its coefficient by the leading one. */
  lemma MonicSpec(p: Polynomial)
    ensures IsZero(p) ==> Monic(p) == Ok(p)
    ensures Monic(p).Ok? && !IsZero(p) ==>
      var q := Monic(p).value;
      && |q.terms| == |p.terms|
      && q.degree == PA.MaxDegree(p.terms)
      && forall i :: 0 <= i < |p.terms| ==>
           && q.terms[i].variables == p.terms[i].variables && q.terms[i].degree == p.terms[i].degree
           && DivideNodes(p.terms[i].coefficient, p.leadingCoefficient) == Ok(q.terms[i].coefficient)
  {
    if Monic(p).Ok? && !IsZero(p) {
      SameDegrees(Monic(p).value.terms, p.terms);
    }
  }

  /** GCD's loop: Euclid on remainders, each division by `divide`, at most `fuel` passes,
      then ToMonic. */
  function GcdLoop(a: Polynomial, b: Polynomial, fuel: nat,
                   divide: (Polynomial, Polynomial) -> Result<(Polynomial, Polynomial)>): Result<Polynomial>
    decreases fuel
  {
    if IsZero(b) then Monic(a)
    else if fuel == 0 then Fail(Diverges, "polynomial GCD does not end")
    else
      var d :- divide(a, b);
      GcdLoop(b, d.1, fuel - 1, divide)
  }

  /** GCD, each division capped at `fuel` passes as well. */
  function GcdOf(p1: Polynomial, p2: Polynomial, fuel: nat): Result<Polynomial> {
    GcdLoop(p1, p2, fuel, (a, b) => Division(a, b, fuel))
  }

  /** The GCD with a zero polynomial is the other made monic, and any result GCD gives is
      some remainder made monic, whatever the division. */
  lemma {:induction false} GcdSpec(a: Polynomial, b: Polynomial, fuel: nat,
                                   divide: (Polynomial, Polynomial) -> Result<(Polynomial, Polynomial)>)
    ensures IsZero(b) ==> GcdLoop(a, b, fuel, divide) == Monic(a)
    ensures GcdLoop(a, b, fuel, divide).Ok? ==>
      exists x: Polynomial :: Monic(x) == GcdLoop(a, b, fuel, divide)
    decreases fuel
  {
    if !IsZero(b) && fuel > 0 && divide(a, b).Ok? {
      GcdSpec(b, divide(a, b).value.1, fuel - 1, divide);
    }
  }

  /** GCD's loop, with the division given as `divide`. */
  method GcdRun(p1: Polynomial, p2: Polynomial, fuel: nat,
                divide: (Polynomial, Polynomial) -> Result<(Polynomial, Polynomial)>) returns (r: Result<Polynomial>)
    ensures r == GcdLoop(p1, p2, fuel, divide)
  {
    var a := p1;
    var b := p2;
    var steps: nat := 0;
    while !IsZero(b)
      invariant steps <= fuel
      invariant GcdLoop(p1, p2, fuel, divide) == GcdLoop(a, b, fuel - steps, divide)
      decreases fuel - steps
    {
      if steps == fuel {
        return Fail(Diverges, "polynomial GCD does not end");
      }
      var d := divide(a, b);
      if d.Err? {
        return Err(d.error);
      }
      a := b;
      b := d.value.1;
      steps := steps + 1;
    }
    r := Monic(a);
  }

  /** GCD. */
  method GCD(p1: Polynomial, p2: Polynomial, fuel: nat) returns (r: Result<Polynomial>)
    ensures r == GcdOf(p1, p2, fuel)
  {
    r := GcdRun(p1, p2, fuel, (a, b) => Division(a, b, fuel));
  }

  // Derivative

  /** Which powers a derivative keeps after lowering: the code keeps a power only when it
      was above 1; the corrected rule keeps every power that does not become 0. */
  datatype LoweringRule = AsWritten | Corrected

  function Keeps(rule: LoweringRule, power: int): bool {
    if rule == AsWritten then power > 1 else power != 1
  }

  /** TermDerivative's loop over a prefix of the powers: the coefficient scaled by the
      variable's power, the other powers kept, and whether the variable was met. */
  function DeriveSteps(c: Tr.Node, m: PowerMap, v: string, rule: LoweringRule,
                       scale: (Tr.Node, int) -> Tr.Node): (Tr.Node, PowerMap, bool)
    decreases |m|
  {
    if m == [] then (c, [], false)
    else
      var (c', powers, hasVar) := DeriveSteps(c, m[..|m| - 1], v, rule, scale);
      var e := m[|m| - 1];
      if e.0 == v then
        (scale(c', e.1), if Keeps(rule, e.1) then Put(powers, e.0, e.1 - 1) else powers, true)
      else (c', Put(powers, e.0, e.1), hasVar)
  }

  /** One more entry of the corrected loop. */
  lemma DeriveStepsSnoc(c: Tr.Node, m: PowerMap, i: nat, v: string)
    requires i < |m|
    ensures var (c', powers, hasVar) := DeriveSteps(c, m[..i], v, Corrected, MultiplyByPower);
      DeriveSteps(c, m[..i + 1], v, Corrected, MultiplyByPower)
        == if m[i].0 == v then (MultiplyByPower(c', m[i].1), if m[i].1 != 1 then Put(powers, m[i].0, m[i].1 - 1) else powers, true)
           else (c', Put(powers, m[i].0, m[i].1), hasVar)
  {
    assert m[..i + 1][..i] == m[..i];
  }

  /** The coefficient divided by a power, as the code does. */
  function DivideByPower(c: Tr.Node, power: int): Tr.Node {
    N.Divide(c, B.Literal(power))
  }

  /** The coefficient times the power, as the power rule has it. */
  function MultiplyByPower(c: Tr.Node, power: int): Tr.Node {
    N.Multiply([c, B.Literal(power)])
  }

  /** TermDerivative under a lowering rule and a coefficient rule: none when the variable
      does not occur; the degree is the sum of the new powers. */
  function DeriveTerm(t: Term, v: string, rule: LoweringRule, scale: (Tr.Node, int) -> Tr.Node): Option<Term> {
    var (c, powers, hasVar) := DeriveSteps(t.coefficient, t.variables, v, rule, scale);
    if hasVar then Some(PA.Term(c, powers, Sum(powers))) else None
  }

  /** TermDerivative as written. */
  function TermDerivativeAsWritten(t: Term, v: string): Option<Term> {
    DeriveTerm(t, v, AsWritten, DivideByPower)
  }

  /** TermDerivative corrected: every power lowered, and the coefficient multiplied by the
      old power. */
  function TermDerivativeOf(t: Term, v: string): Option<Term> {
    DeriveTerm(t, v, Corrected, MultiplyByPower)
  }

  /** As written, the derivative of 3x^2 in x is (3 / 2)x; corrected, it is (3 · 2)x. */
  lemma SquareDerivativeHalves()
    ensures var t := PA.Term(B.Literal(3), [("x", 2)], 2);
      && TermDerivativeAsWritten(t, "x") == Some(PA.Term(N.Divide(B.Literal(3), B.Literal(2)), [("x", 1)], 1))
      && TermDerivativeOf(t, "x") == Some(PA.Term(N.Multiply([B.Literal(3), B.Literal(2)]), [("x", 1)], 1))
  {
    var m: PowerMap := [("x", 2)];
    assert m[..0] == [];
    var n: PowerMap := [("x", 1)];
    assert Sum(n) == 1;
  }

  /** The derivative loop on a map with one entry per variable: the variable is met exactly
      when present; its power drops by one (under the corrected rule), the others stay;
      the coefficient is scaled once, by the variable's power. */
  lemma DeriveStepsSpec(c: Tr.Node, m: PowerMap, v: string, x: string,
                        scale: (Tr.Node, int) -> Tr.Node)
    requires Distinct(m)
    ensures var (c', powers, hasVar) := DeriveSteps(c, m, v, Corrected, scale);
      && Distinct(powers)
      && (hasVar <==> Has(m, v))
      && (x != v ==> Get(powers, x) == Get(m, x))
      && (Has(m, v) ==> Get(powers, v) == Get(m, v) - 1)
      && (!Has(m, v) ==> c' == c && Get(powers, v) == 0)
      && (Has(m, v) ==> c' == scale(c, Get(m, v)))
      && Sum(powers) == Sum(m) - (if Has(m, v) then 1 else 0)
  {
    DeriveStepsFlag(c, m, v, scale);
    DeriveStepsPowers(c, m, v, x, scale);
    DeriveStepsSum(c, m, v, scale);
  }

  /** The variable is met exactly when present, and the coefficient is scaled once, by
      its power. */
  lemma {:induction false} DeriveStepsFlag(c: Tr.Node, m: PowerMap, v: string, scale: (Tr.Node, int) -> Tr.Node)
    requires Distinct(m)
    ensures var (c', _, hasVar) := DeriveSteps(c, m, v, Corrected, scale);
      && (hasVar <==> Has(m, v))
      && (!Has(m, v) ==> c' == c)
      && (Has(m, v) ==> c' == scale(c, Get(m, v)))
    decreases |m|
  {
    if m != [] {
      var front := m[..|m| - 1];
      var e := m[|m| - 1];
      assert m == front + [e];
      assert Distinct(front);
      DeriveStepsFlag(c, front, v, scale);
      LookupSnoc(front, e, v);
      LookupHas(front, v);
      LookupHas(m, v);
      LastNew(m);
    }
  }

  /** The variable's power drops by one, the other powers stay, and no key repeats. */
  lemma DeriveStepsPowers(c: Tr.Node, m: PowerMap, v: string, x: string,
                          scale: (Tr.Node, int) -> Tr.Node)
    requires Distinct(m)
    ensures var (_, powers, _) := DeriveSteps(c, m, v, Corrected, scale);
      && Distinct(powers)
      && (x != v ==> Get(powers, x) == Get(m, x))
      && (Has(m, v) ==> Get(powers, v) == Get(m, v) - 1)
      && (!Has(m, v) ==> Get(powers, v) == 0)
  {
    DeriveStepsDistinct(c, m, v, scale);
    if x != v {
      DeriveStepsOther(c, m, v, x, scale);
    }
    DeriveStepsVar(c, m, v, scale);
  }

  lemma {:induction false} DeriveStepsDistinct(c: Tr.Node, m: PowerMap, v: string,
                                               scale: (Tr.Node, int) -> Tr.Node)
    requires Distinct(m)
    ensures Distinct(DeriveSteps(c, m, v, Corrected, scale).1)
    decreases |m|
  {
    if m != [] {
      var front := m[..|m| - 1];
      var e := m[|m| - 1];
      assert Distinct(front);
      DeriveStepsDistinct(c, front, v, scale);
      var p0 := DeriveSteps(c, front, v, Corrected, scale).1;
      var value := if e.0 == v then e.1 - 1 else e.1;
      if e.0 != v || Keeps(Corrected, e.1) {
        PutDistinct(p0, e.0, value);
      }
    }
  }

  lemma {:induction false} DeriveStepsOther(c: Tr.Node, m: PowerMap, v: string, x: string,
                                            scale: (Tr.Node, int) -> Tr.Node)
    requires Distinct(m) && x != v
    ensures Get(DeriveSteps(c, m, v, Corrected, scale).1, x) == Get(m, x)
    decreases |m|
  {
    if m != [] {
      var front := m[..|m| - 1];
      var e := m[|m| - 1];
      assert m == front + [e];
      assert Distinct(front);
      DeriveStepsOther(c, front, v, x, scale);
      var p0 := DeriveSteps(c, front, v, Corrected, scale).1;
      LookupSnoc(front, e, x);
      LastNew(m);
      LookupHas(front, e.0);
      var value := if e.0 == v then e.1 - 1 else e.1;
      if e.0 != v || Keeps(Corrected, e.1) {
        PutLookup(p0, e.0, value, x);
      }
    }
  }

  lemma {:induction false} DeriveStepsVar(c: Tr.Node, m: PowerMap, v: string,
                                          scale: (Tr.Node, int) -> Tr.Node)
    requires Distinct(m)
    ensures var powers := DeriveSteps(c, m, v, Corrected, scale).1;
      && (Has(m, v) ==> Get(powers, v) == Get(m, v) - 1)
      && (!Has(m, v) ==> Get(powers, v) == 0)
    decreases |m|
  {
    if m != [] {
      var front := m[..|m| - 1];
      var e := m[|m| - 1];
      assert m == front + [e];
      assert Distinct(front);
      DeriveStepsVar(c, front, v, scale);
      var p0 := DeriveSteps(c, front, v, Corrected, scale).1;
      LookupSnoc(front, e, v);
      LookupHas(front, v);
      LookupHas(m, v);
      LastNew(m);
      var value := if e.0 == v then e.1 - 1 else e.1;
      if e.0 != v || Keeps(Corrected, e.1) {
        PutLookup(p0, e.0, value, v);
      }
    }
  }

  /** The degree, the sum of the powers, drops by one when the variable is present. */
  lemma {:induction false} DeriveStepsSum(c: Tr.Node, m: PowerMap, v: string, scale: (Tr.Node, int) -> Tr.Node)
    requires Distinct(m)
    ensures var (_, powers, _) := DeriveSteps(c, m, v, Corrected, scale);
      Sum(powers) == Sum(m) - (if Has(m, v) then 1 else 0)
    decreases |m|
  {
    if m != [] {
      var front := m[..|m| - 1];
      var e := m[|m| - 1];
      assert m == front + [e];
      assert Distinct(front);
      DeriveStepsSum(c, front, v, scale);
      DeriveStepsPowers(c, front, v, e.0, scale);
      var (_, p0, _) := DeriveSteps(c, front, v, Corrected, scale);
      SumSnoc(front, e);
      LookupSnoc(front, e, v);
      LookupHas(front, v);
      LookupHas(m, v);
      LookupHas(front, e.0);
      LastNew(m);
      var value := if e.0 == v then e.1 - 1 else e.1;
      if e.0 != v || Keeps(Corrected, e.1) {
        PutSum(p0, e.0, value);
      }
    }
  }

  /** The sum of a map with one more entry at the end. */
  lemma {:induction false} SumSnoc(m: PowerMap, e: (string, int))
    ensures Sum(m + [e]) == Sum(m) + e.1
    decreases |m|
  {
    if m != [] {
      assert (m + [e])[1..] == m[1..] + [e];
      SumSnoc(m[1..], e);
    }
  }

  /** Corrected derivative of a term with one entry per variable: none when the variable
      does not occur; otherwise its power drops by one, every other power stays, the
      coefficient is multiplied by the old power, and the degree (the sum of the powers) drops
      by one. */
  lemma TermDerivativeSpec(t: Term, v: string, x: string)
    requires Distinct(t.variables)
    ensures TermDerivativeOf(t, v).None? <==> !Has(t.variables, v)
    ensures TermDerivativeOf(t, v).Some? ==>
      var d := TermDerivativeOf(t, v).value;
      && Get(d.variables, v) == Get(t.variables, v) - 1
      && (x != v ==> Get(d.variables, x) == Get(t.variables, x))
      && d.coefficient == N.Multiply([t.coefficient, B.Literal(Get(t.variables, v))])
      && d.degree == Sum(t.variables) - 1
  {
    DeriveStepsSpec(t.coefficient, t.variables, v, x, MultiplyByPower);
  }

  /** As written, the derivative of x^-1 in x drops x altogether: power 0 and degree 0,
      not power -2 and degree -2. */
  lemma NegativePowerDerivative()
    ensures var t := PA.Term(N.One(), [("x", -1)], -1);
      && TermDerivativeAsWritten(t, "x") == Some(PA.Term(N.Divide(N.One(), B.Literal(-1)), [], 0))
      && Get(TermDerivativeOf(t, "x").value.variables, "x") == -2
      && TermDerivativeOf(t, "x").value.degree == -2
  {
    var t := PA.Term(N.One(), [("x", -1)], -1);
    assert t.variables[..0] == [];
    TermDerivativeSpec(t, "x", "x");
  }

  /** TermDerivative (corrected). */
  method TermDerivative(t: Term, v: string) returns (r: Option<Term>)
    ensures r == TermDerivativeOf(t, v)
  {
    var coeff, powers, hasVar := LowerPowers(t, v);
    var degree := SumPowers(powers);
    if hasVar {
      return Some(PA.Term(coeff, powers, degree));
    }
    return None;
  }

  /** TermDerivative's first loop, corrected: the coefficient multiplied by the variable's
      power and the powers lowered, with whether the variable was met. */
  method LowerPowers(t: Term, v: string) returns (coeff: Tr.Node, powers: PowerMap, hasVar: bool)
    ensures (coeff, powers, hasVar) == DeriveSteps(t.coefficient, t.variables, v, Corrected, MultiplyByPower)
  {
    powers := [];
    coeff := t.coefficient;
    hasVar := false;
    var i := 0;
    while i < |t.variables|
      invariant 0 <= i <= |t.variables|
      invariant DeriveSteps(t.coefficient, t.variables[..i], v, Corrected, MultiplyByPower) == (coeff, powers, hasVar)
    {
      DeriveStepsSnoc(t.coefficient, t.variables, i, v);
      var vari := t.variables[i].0;
      var power := t.variables[i].1;
      if vari == v {
        coeff := MultiplyByPower(coeff, power);
        if power != 1 {
          powers := Put(powers, vari, power - 1);
        }
        hasVar := true;
      } else {
        powers := Put(powers, vari, power);
      }
      i := i + 1;
    }
    assert t.variables[..i] == t.variables;
  }

  /** Derivative's loop over a prefix of the terms: the derivatives of those that have the
      variable, in order. */
  function DerivedTerms(terms: seq<Term>, v: string): seq<Term>
    decreases |terms|
  {
    if terms == [] then []
    else
      var d := TermDerivativeOf(terms[|terms| - 1], v);
      DerivedTerms(terms[..|terms| - 1], v) + (if d.Some? then [d.value] else [])
  }

  /** Derivative: the terms' derivatives, not combined. */
  function DerivativeOf(p: Polynomial, v: string): Polynomial {
    PA.Create(DerivedTerms(p.terms, v))
  }

  /** Terms without the variable vanish from the derivative and one with it gives one term. */
  lemma {:induction false} DerivedTermsCount(terms: seq<Term>, v: string)
    requires forall i :: 0 <= i < |terms| ==> Distinct(terms[i].variables)
    ensures |DerivedTerms(terms, v)| == |terms| - Absent(terms, v)
    decreases |terms|
  {
    if terms != [] {
      var front := terms[..|terms| - 1];
      DerivedTermsCount(front, v);
      TermDerivativeSpec(terms[|terms| - 1], v, v);
    }
  }

  /** How many terms lack the variable. */
  function Absent(terms: seq<Term>, v: string): nat
    decreases |terms|
  {
    if terms == [] then 0
    else Absent(terms[..|terms| - 1], v) + (if Has(terms[|terms| - 1].variables, v) then 0 else 1)
  }

  /** Derivative, in x unless another variable is given. */
  method Derivative(p: Polynomial, v: string := "x") returns (r: Polynomial)
    ensures r == DerivativeOf(p, v)
  {
    var terms: seq<Term> := [];
    var i := 0;
    while i < |p.terms|
      invariant 0 <= i <= |p.terms|
      invariant terms == DerivedTerms(p.terms[..i], v)
    {
      assert p.terms[..i + 1][..i] == p.terms[..i];
      var derivative := TermDerivative(p.terms[i], v);
      if derivative.Some? {
        terms := terms + [derivative.value];
      }
      i := i + 1;
    }
    assert p.terms[..i] == p.terms;
    r := PA.CreatePolynomial(terms);
  }

  // ToNode

  /** TermToNode's arguments: the coefficient, then `v ^ k` per power in iteration order. */
  function PowerNodes(m: PowerMap): (r: seq<Tr.Node>)
    ensures |r| == |m|
  {
    seq(|m|, i requires 0 <= i < |m| => N.Exponentiation(B.Variable(m[i].0), B.Literal(m[i].1)))
  }

  /** TermToNode. */
  function TermNode(t: Term): Tr.Node {
    N.Multiply([t.coefficient] + PowerNodes(t.variables))
  }

  /** ToNode's arguments: TermToNode of each term, in order. */
  function TermNodes(ts: seq<Term>): (r: seq<Tr.Node>)
    ensures |r| == |ts|
    decreases |ts|
  {
    if ts == [] then [] else TermNodes(ts[..|ts| - 1]) + [TermNode(ts[|ts| - 1])]
  }

  /** ToNode: the terms' nodes summed by Nodes.Add. */
  function PolyNode(p: Polynomial): Tr.Node {
    N.Add(TermNodes(p.terms))
  }

  /** A term without powers is its coefficient; the zero polynomial is literal 0. */
  lemma NodeSpec(c: Tr.Node)
    requires !(c.Multiply? && N.AllZero(c.args))
    ensures TermNode(PA.Term(c, [], 0)) == c
    ensures PolyNode(Zero()) == N.Zero()
  {
    assert [c] + PowerNodes([]) == [c];
    N.FewOperands(c);
    N.FewOperands(N.Zero());
    ConstantSpec(N.Zero());
    var z := PA.Term(N.Zero(), [], 0);
    assert [N.Zero()] + PowerNodes([]) == [N.Zero()];
    assert TermNode(z) == N.Zero();
    assert [z][..0] == [];
    assert TermNodes([z]) == [N.Zero()];
  }

  /** TermToNode. */
  method TermToNode(t: Term) returns (r: Tr.Node)
    ensures r == TermNode(t)
  {
    var args := [t.coefficient];
    var i := 0;
    while i < |t.variables|
      invariant 0 <= i <= |t.variables|
      invariant args == [t.coefficient] + PowerNodes(t.variables)[..i]
    {
      var (variable, power) := t.variables[i];
      assert PowerNodes(t.variables)[..i + 1] == PowerNodes(t.variables)[..i] + [PowerNodes(t.variables)[i]];
      args := args + [N.Exponentiation(B.Variable(variable), B.Literal(power))];
      i := i + 1;
    }
    assert PowerNodes(t.variables)[..i] == PowerNodes(t.variables);
    r := N.Multiply(args);
  }

  /** ToNode. */
  method ToNode(p: Polynomial) returns (r: Tr.Node)
    ensures r == PolyNode(p)
  {
    var args: seq<Tr.Node> := [];
    var i := 0;
    while i < |p.terms|
      invariant 0 <= i <= |p.terms|
      invariant args == TermNodes(p.terms[..i])
    {
      TermNodesSnoc(p.terms, i);
      var node := TermToNode(p.terms[i]);
      args := args + [node];
      i := i + 1;
    }
    assert p.terms[..i] == p.terms;
    r := N.Add(args);
  }

  lemma TermNodesSnoc(ts: seq<Term>, i: nat)
    requires i < |ts|
    ensures TermNodes(ts[..i + 1]) == TermNodes(ts[..i]) + [TermNode(ts[i])]
  {
    assert ts[..i + 1][..i] == ts[..i];
  }
}
