/** Matching expanded instances against trees and applying rewrite rules
    (src/Matching/PatternMatcher.ts). A capture map is threaded through one attempt;
    a failed attempt's map is discarded, so an attempt yields `Option<Captures>`. */
module Matcher {
  import opened Wrappers
  import opened Match
  import C = Complexes
  import Tr = Tree
  import T = NodeTypes
  import U = NodeUtils
  import E = Expansion
  import X = PatternExpansion

  // ---- full matching (MatchSingleNode, MatchArgs) ----

  /** `if (pattern.specialNode)`: a present, non-empty capture name. */
  predicate Named(capture: Option<string>) {
    capture.Some? && capture.value != ""
  }

  /** The capture step: the first occurrence binds, a later one must be Equal to the binding. */
  function Bind(node: Tr.Node, capture: Option<string>, caps: Captures): Option<Captures> {
    if !Named(capture) then Some(caps)
    else if capture.value in caps then (if U.Equal(node, caps[capture.value]) then Some(caps) else None)
    else Some(caps[capture.value := node])
  }

  /** The type, string, number and condition constraints of an instance. */
  predicate FieldsMatch(node: Tr.Node, m: MatchNode) {
    && (m.kind.None? || node.Kind() == m.kind.value)
    && (m.name.None? || (node.HasString() && node.name == m.name.value))
    && (m.number.None? || (node.HasNumber() && C.Equal(node.number, m.number.value)))
    && ConditionsHold(m.conditions, node)
  }

  /** MatchSingleNode: the capture map after a successful match, or None. */
  function MatchSingle(node: Tr.Node, m: MatchNode, caps: Captures): Option<Captures>
    decreases m, 2
  {
    match Bind(node, m.capture, caps)
    case None => None
    case Some(bound) =>
      if !FieldsMatch(node, m) then None
      else if m.args.ArgList? then (if node.HasArgs() then MatchArgs(node.args, m, bound) else None)
      else Some(bound)
  }

  /** MatchArgs: equal arity, then positional matches sharing one map. */
  function MatchArgs(nodes: seq<Tr.Node>, m: MatchNode, caps: Captures): Option<Captures>
    requires m.args.ArgList?
    decreases m, 1
  {
    if |nodes| != |m.args.items| then None else MatchFrom(nodes, m, 0, caps)
  }

  function MatchFrom(nodes: seq<Tr.Node>, m: MatchNode, i: nat, caps: Captures): Option<Captures>
    requires m.args.ArgList? && |nodes| == |m.args.items| && i <= |nodes|
    decreases m, 0, |nodes| - i
  {
    if i == |nodes| then Some(caps)
    else
      match MatchSingle(nodes[i], m.args.items[i], caps)
      case None => None
      case Some(next) => MatchFrom(nodes, m, i + 1, next)
  }

  /** The reference meaning of a match under a final capture map `c`: every captured
      position is Equal to its binding, every field constraint holds, and the arguments
      match position by position. */
  predicate Matches(node: Tr.Node, m: MatchNode, c: Captures)
    decreases m, 1
  {
    && (Named(m.capture) ==> m.capture.value in c && U.Equal(node, c[m.capture.value]))
    && FieldsMatch(node, m)
    && (m.args.ArgList? ==> node.HasArgs() && AllMatch(node.args, m, c))
  }

  predicate AllMatch(nodes: seq<Tr.Node>, m: MatchNode, c: Captures)
    requires m.args.ArgList?
    decreases m, 0
  {
    |nodes| == |m.args.items| && forall i :: 0 <= i < |nodes| ==> Matches(nodes[i], m.args.items[i], c)
  }

  /** `c` keeps every binding of `caps` unchanged. */
  predicate Extends(c: Captures, caps: Captures) {
    forall k :: k in caps ==> k in c && c[k] == caps[k]
  }

  /** Every binding of `caps` is Equal to the one in `c`. */
  predicate Agrees(caps: Captures, c: Captures) {
    forall k :: k in caps ==> k in c && U.Equal(caps[k], c[k])
  }

  /** Bindings are only ever added, never changed. */
  lemma {:induction false} MatchSingleGrows(node: Tr.Node, m: MatchNode, caps: Captures)
    ensures MatchSingle(node, m, caps).Some? ==> Extends(MatchSingle(node, m, caps).value, caps)
    decreases m, 2
  {
    var b := Bind(node, m.capture, caps);
    if b.Some? && FieldsMatch(node, m) && m.args.ArgList? && node.HasArgs() && |node.args| == |m.args.items| {
      MatchFromGrows(node.args, m, 0, b.value);
    }
  }

  lemma {:induction false} MatchFromGrows(nodes: seq<Tr.Node>, m: MatchNode, i: nat, caps: Captures)
    requires m.args.ArgList? && |nodes| == |m.args.items| && i <= |nodes|
    ensures MatchFrom(nodes, m, i, caps).Some? ==> Extends(MatchFrom(nodes, m, i, caps).value, caps)
    decreases m, 0, |nodes| - i
  {
    if i < |nodes| {
      var r := MatchSingle(nodes[i], m.args.items[i], caps);
      MatchSingleGrows(nodes[i], m.args.items[i], caps);
      if r.Some? {
        MatchFromGrows(nodes, m, i + 1, r.value);
      }
    }
  }

  lemma {:induction false} MatchesExtend(node: Tr.Node, m: MatchNode, c: Captures, d: Captures)
    requires Matches(node, m, c) && Extends(d, c)
    ensures Matches(node, m, d)
    decreases m
  {
    if m.args.ArgList? {
      forall i | 0 <= i < |node.args| ensures Matches(node.args[i], m.args.items[i], d) {
        MatchesExtend(node.args[i], m.args.items[i], c, d);
      }
    }
  }

  /** Soundness: a successful match satisfies the reference meaning under its final map. */
  lemma {:induction false} MatchSingleSound(node: Tr.Node, m: MatchNode, caps: Captures)
    ensures MatchSingle(node, m, caps).Some? ==> Matches(node, m, MatchSingle(node, m, caps).value)
    decreases m, 2
  {
    var b := Bind(node, m.capture, caps);
    if b.Some? && FieldsMatch(node, m) {
      var r := MatchSingle(node, m, caps);
      if r.Some? {
        if m.args.ArgList? {
          assert r == MatchArgs(node.args, m, b.value);
          assert |node.args| == |m.args.items|;
          MatchFromSound(node.args, m, 0, b.value);
          MatchFromGrows(node.args, m, 0, b.value);
        }
        if Named(m.capture) && m.capture.value !in caps {
          U.EqualReflexive(node);
        }
      }
    }
  }

  lemma {:induction false} MatchFromSound(nodes: seq<Tr.Node>, m: MatchNode, i: nat, caps: Captures)
    requires m.args.ArgList? && |nodes| == |m.args.items| && i <= |nodes|
    ensures MatchFrom(nodes, m, i, caps).Some? ==>
      forall j :: i <= j < |nodes| ==> Matches(nodes[j], m.args.items[j], MatchFrom(nodes, m, i, caps).value)
    decreases m, 0, |nodes| - i
  {
    if i < |nodes| {
      var r := MatchSingle(nodes[i], m.args.items[i], caps);
      if r.Some? {
        var final := MatchFrom(nodes, m, i + 1, r.value);
        MatchFromSound(nodes, m, i + 1, r.value);
        if final.Some? {
          MatchSingleSound(nodes[i], m.args.items[i], caps);
          MatchFromGrows(nodes, m, i + 1, r.value);
          MatchesExtend(nodes[i], m.args.items[i], r.value, final.value);
        }
      }
    }
  }

  /** Completeness: whenever the reference meaning holds under some map that the current
      bindings agree with, the match succeeds and its bindings still agree with that map. */
  lemma {:induction false} MatchSingleComplete(node: Tr.Node, m: MatchNode, caps: Captures, c: Captures)
    requires Matches(node, m, c) && Agrees(caps, c)
    ensures MatchSingle(node, m, caps).Some? && Agrees(MatchSingle(node, m, caps).value, c)
    decreases m, 2
  {
    BindComplete(node, m.capture, caps, c);
    var b := Bind(node, m.capture, caps).value;
    if m.args.ArgList? {
      MatchFromComplete(node.args, m, 0, b, c);
    }
  }

  /** The capture step succeeds when the final map binds the name to an Equal node. */
  lemma BindComplete(node: Tr.Node, capture: Option<string>, caps: Captures, c: Captures)
    requires Named(capture) ==> capture.value in c && U.Equal(node, c[capture.value])
    requires Agrees(caps, c)
    ensures Bind(node, capture, caps).Some? && Agrees(Bind(node, capture, caps).value, c)
  {
    if Named(capture) {
      var k := capture.value;
      if k in caps {
        U.EqualSymmetric(node, c[k]);
        U.EqualTransitive(caps[k], c[k], node);
        U.EqualSymmetric(caps[k], node);
      }
    }
  }

  lemma {:induction false} MatchFromComplete(nodes: seq<Tr.Node>, m: MatchNode, i: nat, caps: Captures, c: Captures)
    requires m.args.ArgList? && |nodes| == |m.args.items| && i <= |nodes|
    requires forall j :: i <= j < |nodes| ==> Matches(nodes[j], m.args.items[j], c)
    requires Agrees(caps, c)
    ensures MatchFrom(nodes, m, i, caps).Some? && Agrees(MatchFrom(nodes, m, i, caps).value, c)
    decreases m, 0, |nodes| - i
  {
    if i < |nodes| {
      MatchSingleComplete(nodes[i], m.args.items[i], caps, c);
      var r := MatchSingle(nodes[i], m.args.items[i], caps);
      MatchFromComplete(nodes, m, i + 1, r.value, c);
    }
  }

  /** A fresh attempt succeeds exactly when some capture map gives the reference meaning. */
  lemma MatchFresh(node: Tr.Node, m: MatchNode)
    ensures MatchSingle(node, m, map[]).Some? <==> exists c :: Matches(node, m, c)
  {
    MatchSingleSound(node, m, map[]);
    var r := MatchSingle(node, m, map[]);
    if r.Some? {
      var c0 := r.value;
      assert Matches(node, m, c0);
      assert exists c :: Matches(node, m, c);
    } else {
      forall c | Matches(node, m, c) ensures false {
        MatchSingleComplete(node, m, map[], c);
      }
    }
  }

  /** The step-by-step matcher: the capture test, the field tests, then the argument
      loop, with the source's early exits. */
  method MatchSingleNode(node: Tr.Node, m: MatchNode, caps: Captures) returns (r: Option<Captures>)
    ensures r == MatchSingle(node, m, caps)
    decreases m, 2
  {
    var specialNodes := CaptureStep(node, m.capture, caps);
    if specialNodes.None? { return None; }
    var fields := FieldTests(node, m);
    if !fields { return None; }
    if m.args.ArgList? && node.HasArgs() {
      r := MatchArgsLoop(node.args, m, specialNodes.value);
      return;
    } else if m.args.ArgList? && !node.HasArgs() {
      return None;
    }
    return specialNodes;
  }

  /** The special-node test: bind on first sight, otherwise compare with NodeUtils.Equal. */
  method CaptureStep(node: Tr.Node, capture: Option<string>, caps: Captures) returns (r: Option<Captures>)
    ensures r == Bind(node, capture, caps)
  {
    if Named(capture) {
      var k := capture.value;
      if k in caps {
        var eq := U.EqualNodes(node, caps[k]);
        if !eq { return None; }
      } else {
        return Some(caps[k := node]);
      }
    }
    return Some(caps);
  }

  /** The type, string, number and condition tests in the source's order. */
  method FieldTests(node: Tr.Node, m: MatchNode) returns (ok: bool)
    ensures ok == FieldsMatch(node, m)
  {
    if m.kind.Some? && node.Kind() != m.kind.value { return false; }
    if m.name.Some? && node.HasString() && node.name != m.name.value {
      return false;
    } else if m.name.Some? && !node.HasString() {
      return false;
    }
    if m.number.Some? && node.HasNumber() {
      if !C.Equal(node.number, m.number.value) { return false; }
    } else if m.number.Some? && !node.HasNumber() {
      return false;
    }
    if m.conditions.Some? {
      var conditions := m.conditions.value;
      for i := 0 to |conditions|
        invariant forall j :: 0 <= j < i ==> Holds(conditions[j], node)
      {
        if !Holds(conditions[i], node) { return false; }
      }
    }
    return true;
  }

  method MatchArgsLoop(nodes: seq<Tr.Node>, m: MatchNode, caps: Captures) returns (r: Option<Captures>)
    requires m.args.ArgList?
    ensures r == MatchArgs(nodes, m, caps)
    decreases m, 1
  {
    if |nodes| != |m.args.items| { return None; }
    var specialNodes := caps;
    for i := 0 to |nodes|
      invariant MatchFrom(nodes, m, i, specialNodes) == MatchFrom(nodes, m, 0, caps)
    {
      var next := MatchSingleNode(nodes[i], m.args.items[i], specialNodes);
      if next.None? { return None; }
      specialNodes := next.value;
    }
    return Some(specialNodes);
  }

  // ---- index combinations (GenerateCombinations, GetIndicesArray) ----

  /** 0, 1, ..., n - 1. */
  function Indices(n: nat): (r: seq<nat>)
    ensures |r| == n && forall j :: 0 <= j < n ==> r[j] == j
  {
    seq(n, j requires 0 <= j < n => j)
  }

  /** GetIndicesArray. */
  method GetIndicesArray(size: nat) returns (indices: seq<nat>)
    ensures indices == Indices(size)
  {
    indices := [];
    for i := 0 to size
      invariant indices == Indices(i)
    {
      indices := indices + [i];
    }
  }

  predicate Ascending(c: seq<nat>) {
    forall a, b :: 0 <= a < b < |c| ==> c[a] < c[b]
  }

  /** `c` is an ascending choice of `k` indices from [start, n). */
  predicate Choice(c: seq<nat>, start: nat, n: nat, k: nat) {
    |c| == k && Ascending(c) && forall j :: 0 <= j < |c| ==> start <= c[j] < n
  }

  /** The choices of `k` indices from [start, n) in the order the backtracking emits them:
      those starting with the smallest index first. */
  function Combos(start: nat, n: nat, k: nat): seq<seq<nat>>
    requires start <= n
    decreases n - start, k, 1
  {
    if k == 0 then [[]] else CombosFrom(start, n, k)
  }

  /** The loop of `backtrack` from position i on. */
  function CombosFrom(i: nat, n: nat, k: nat): seq<seq<nat>>
    requires i <= n && k > 0
    decreases n - i, k, 0
  {
    if i == n then [] else E.Prepend(i, Combos(i + 1, n, k - 1)) + CombosFrom(i + 1, n, k)
  }

  /** GenerateCombinations with its three shortcuts, ahead of the backtracking. */
  function GenerateCombinations(n: nat, count: nat): seq<seq<nat>> {
    if count > n then []
    else if count == 0 then [[]]
    else if count == n then [Indices(n)]
    else Combos(0, n, count)
  }

  function Choose(m: nat, k: nat): nat {
    if k == 0 then 1 else if m == 0 then 0 else Choose(m - 1, k - 1) + Choose(m - 1, k)
  }

  lemma {:induction false} CombosSound(start: nat, n: nat, k: nat)
    requires start <= n
    ensures forall j :: 0 <= j < |Combos(start, n, k)| ==> Choice(Combos(start, n, k)[j], start, n, k)
    decreases n - start, k, 1
  {
    if k > 0 {
      CombosFromSound(start, n, k);
    }
  }

  lemma {:induction false} CombosFromSound(i: nat, n: nat, k: nat)
    requires i <= n && k > 0
    ensures forall j :: 0 <= j < |CombosFrom(i, n, k)| ==> Choice(CombosFrom(i, n, k)[j], i, n, k)
    decreases n - i, k, 0
  {
    if i < n {
      var head, tail := E.Prepend(i, Combos(i + 1, n, k - 1)), CombosFrom(i + 1, n, k);
      CombosSound(i + 1, n, k - 1);
      CombosFromSound(i + 1, n, k);
      forall j | 0 <= j < |head + tail| ensures Choice((head + tail)[j], i, n, k) {
        if j < |head| {
          var c := Combos(i + 1, n, k - 1)[j];
          assert (head + tail)[j] == [i] + c;
          assert Choice(c, i + 1, n, k - 1);
        } else {
          assert (head + tail)[j] == tail[j - |head|];
        }
      }
    }
  }

  lemma {:induction false} CombosComplete(start: nat, n: nat, k: nat, c: seq<nat>)
    requires start <= n && Choice(c, start, n, k)
    ensures c in Combos(start, n, k)
    decreases n - start, k, 1
  {
    if k > 0 {
      CombosFromComplete(start, n, k, c);
    }
  }

  lemma {:induction false} CombosFromComplete(i: nat, n: nat, k: nat, c: seq<nat>)
    requires i <= n && k > 0 && Choice(c, i, n, k)
    ensures c in CombosFrom(i, n, k)
    decreases n - i, k, 0
  {
    assert i <= c[0] < n;
    if c[0] == i {
      assert Choice(c[1..], i + 1, n, k - 1) by {
        forall j | 0 <= j < |c[1..]| ensures i + 1 <= c[1..][j] < n {
          assert c[0] < c[j + 1];
        }
      }
      CombosComplete(i + 1, n, k - 1, c[1..]);
      var rest := Combos(i + 1, n, k - 1);
      var j :| 0 <= j < |rest| && rest[j] == c[1..];
      assert E.Prepend(i, rest)[j] == c;
    } else {
      assert Choice(c, i + 1, n, k) by {
        forall j | 0 <= j < |c| ensures i + 1 <= c[j] {
          if j > 0 { assert c[0] < c[j]; }
        }
      }
      CombosFromComplete(i + 1, n, k, c);
    }
  }

  lemma {:induction false} CombosCount(start: nat, n: nat, k: nat)
    requires start <= n
    ensures |Combos(start, n, k)| == Choose(n - start, k)
    decreases n - start, k, 1
  {
    if k > 0 {
      CombosFromCount(start, n, k);
    }
  }

  lemma {:induction false} CombosFromCount(i: nat, n: nat, k: nat)
    requires i <= n && k > 0
    ensures |CombosFrom(i, n, k)| == Choose(n - i, k)
    decreases n - i, k, 0
  {
    if i < n {
      CombosCount(i + 1, n, k - 1);
      CombosFromCount(i + 1, n, k);
    }
  }

  /** i, i + 1, ..., n - 1. */
  function Range(i: nat, n: nat): (r: seq<nat>)
    requires i <= n
    ensures |r| == n - i && forall j :: 0 <= j < n - i ==> r[j] == i + j
  {
    seq(n - i, j requires 0 <= j < n - i => i + j)
  }

  /** More indices than positions left: nothing. */
  lemma {:induction false} CombosTooMany(i: nat, n: nat, k: nat)
    requires i <= n && k > n - i
    ensures Combos(i, n, k) == [] && CombosFrom(i, n, k) == []
    decreases n - i
  {
    if i < n {
      CombosTooMany(i + 1, n, k - 1);
      CombosTooMany(i + 1, n, k);
    }
  }

  /** Exactly as many indices as positions left: the one full range. */
  lemma {:induction false} CombosExact(i: nat, n: nat)
    requires i <= n
    ensures Combos(i, n, n - i) == [Range(i, n)]
    decreases n - i
  {
    if i < n {
      CombosExact(i + 1, n);
      CombosTooMany(i + 1, n, n - i);
      assert [i] + Range(i + 1, n) == Range(i, n);
    }
  }

  /** The shortcuts agree with the backtracking they skip. */
  lemma GenerateCombinationsIsBacktracking(n: nat, count: nat)
    ensures count <= n ==> GenerateCombinations(n, count) == Combos(0, n, count)
    ensures count > n ==> GenerateCombinations(n, count) == []
  {
    if count == n {
      CombosExact(0, n);
      assert Range(0, n) == Indices(n);
    }
  }

  /** The combinations are exactly the ascending index choices, C(n, count) of them. */
  lemma GenerateCombinationsMeaning(n: nat, count: nat)
    ensures forall c :: c in GenerateCombinations(n, count) <==> Choice(c, 0, n, count)
    ensures |GenerateCombinations(n, count)| == (if count <= n then Choose(n, count) else 0)
  {
    GenerateCombinationsIsBacktracking(n, count);
    if count <= n {
      CombosSound(0, n, count);
      CombosCount(0, n, count);
      forall c | Choice(c, 0, n, count) ensures c in Combos(0, n, count) {
        CombosComplete(0, n, count, c);
      }
    } else {
      forall c | Choice(c, 0, n, count) ensures false {
        assert 0 <= c[count - 1] < n;
        AscendingBound(c);
      }
    }
  }

  /** An ascending index list of length m reaches at least m - 1. */
  lemma {:induction false} AscendingBound(c: seq<nat>)
    requires Ascending(c) && |c| > 0
    ensures c[|c| - 1] >= |c| - 1
  {
    if |c| > 1 {
      var init := c[..|c| - 1];
      assert Ascending(init);
      AscendingBound(init);
      assert c[|c| - 2] < c[|c| - 1];
    }
  }

  /** `p` in front of every combination. */
  function PrefixAll(p: seq<nat>, cs: seq<seq<nat>>): (r: seq<seq<nat>>)
    ensures |r| == |cs| && forall j :: 0 <= j < |cs| ==> r[j] == p + cs[j]
  {
    seq(|cs|, j requires 0 <= j < |cs| => p + cs[j])
  }

  lemma PrefixAllConcat(p: seq<nat>, a: seq<seq<nat>>, b: seq<seq<nat>>)
    ensures PrefixAll(p, a + b) == PrefixAll(p, a) + PrefixAll(p, b)
  {
    assert forall j :: 0 <= j < |a| ==> (a + b)[j] == a[j];
    assert forall j :: |a| <= j < |a| + |b| ==> (a + b)[j] == b[j - |a|];
  }

  /** `backtrack`: extend `current` by every ascending choice from `start` on. The shared
      result array of the source is the list returned here. */
  method Backtrack(n: nat, count: nat, start: nat, current: seq<nat>) returns (out: seq<seq<nat>>)
    requires |current| <= count && start <= n
    ensures out == PrefixAll(current, Combos(start, n, count - |current|))
    decreases n - start
  {
    if |current| == count {
      BacktrackComplete(current, start, n);
      return [current];
    }
    var k := count - |current|;
    out := [];
    BacktrackStart(current, start, n, k);
    var i := start;
    ghost var total := PrefixAll(current, CombosFrom(start, n, k));
    while i < n
      invariant start <= i <= n
      invariant out + PrefixAll(current, CombosFrom(i, n, k)) == total
      decreases n - i
    {
      var sub := Backtrack(n, count, i + 1, current + [i]);
      BacktrackStep(current, i, n, k, sub, out);
      out := out + sub;
      i := i + 1;
    }
    BacktrackDone(current, start, n, k, out);
  }

  /** A full `current` is the one combination. */
  lemma BacktrackComplete(current: seq<nat>, start: nat, n: nat)
    requires start <= n
    ensures [current] == PrefixAll(current, Combos(start, n, 0))
  {
    assert current + [] == current;
  }

  lemma BacktrackStart(current: seq<nat>, start: nat, n: nat, k: nat)
    requires start <= n && k > 0
    ensures [] + PrefixAll(current, CombosFrom(start, n, k)) == PrefixAll(current, Combos(start, n, k))
  {
  }

  lemma BacktrackDone(current: seq<nat>, start: nat, n: nat, k: nat, out: seq<seq<nat>>)
    requires start <= n && k > 0
    requires out + PrefixAll(current, CombosFrom(n, n, k)) == PrefixAll(current, CombosFrom(start, n, k))
    ensures out == PrefixAll(current, Combos(start, n, k))
  {
    assert PrefixAll(current, CombosFrom(n, n, k)) == [];
    assert out + [] == out;
  }

  /** One turn of backtrack's loop: choosing i next yields the combinations that start
      with i, ahead of those that start later. */
  lemma BacktrackStep(current: seq<nat>, i: nat, n: nat, k: nat, sub: seq<seq<nat>>, out: seq<seq<nat>>)
    requires i < n && k > 0 && sub == PrefixAll(current + [i], Combos(i + 1, n, k - 1))
    ensures (out + sub) + PrefixAll(current, CombosFrom(i + 1, n, k)) == out + PrefixAll(current, CombosFrom(i, n, k))
  {
    var rest := Combos(i + 1, n, k - 1);
    var head, tail := E.Prepend(i, rest), CombosFrom(i + 1, n, k);
    assert PrefixAll(current, head) == sub by {
      forall j | 0 <= j < |head| ensures PrefixAll(current, head)[j] == sub[j] {
        assert current + ([i] + rest[j]) == (current + [i]) + rest[j];
      }
    }
    PrefixAllConcat(current, head, tail);
  }

  method GenerateCombinationsLoop(n: nat, count: nat) returns (combinations: seq<seq<nat>>)
    ensures combinations == GenerateCombinations(n, count)
  {
    if count > n { return []; }
    if count == 0 { return [[]]; }
    if count == n {
      var all := GetIndicesArray(n);
      return [all];
    }
    combinations := Backtrack(n, count, 0, []);
    var all := Combos(0, n, count);
    assert forall j :: 0 <= j < |all| ==> [] + all[j] == all[j];
    assert PrefixAll([], all) == all;
  }

  // ---- partial matching (FindPartialMatches) ----

  predicate InRange(idx: seq<nat>, n: nat) {
    forall j :: 0 <= j < |idx| ==> idx[j] < n
  }

  /** The arguments at the chosen positions, in order. */
  function Pick(nodes: seq<Tr.Node>, idx: seq<nat>): (r: seq<Tr.Node>)
    requires InRange(idx, |nodes|)
    ensures |r| == |idx| && forall j :: 0 <= j < |idx| ==> r[j] == nodes[idx[j]]
  {
    seq(|idx|, j requires 0 <= j < |idx| => nodes[idx[j]])
  }

  /** The arguments at `idx` match the slots of `m`, starting from a fresh map. */
  predicate PickMatches(nodes: seq<Tr.Node>, m: MatchNode, idx: seq<nat>)
    requires m.args.ArgList?
  {
    InRange(idx, |nodes|) && MatchArgs(Pick(nodes, idx), m, map[]).Some?
  }

  /** The first combination whose picked arguments match the instance's slots, each tried
      with a fresh map. */
  function FirstMatch(nodes: seq<Tr.Node>, m: MatchNode, combos: seq<seq<nat>>): Option<(Captures, seq<nat>)>
    requires m.args.ArgList?
    requires forall j :: 0 <= j < |combos| ==> |combos[j]| == |m.args.items| && InRange(combos[j], |nodes|)
  {
    if combos == [] then None
    else
      match MatchFrom(Pick(nodes, combos[0]), m, 0, map[])
      case Some(caps) => Some((caps, combos[0]))
      case None => FirstMatch(nodes, m, combos[1..])
  }

  /** Partial matching applies to an Add or Multiply of the instance's own type. */
  predicate PartialApplies(node: Tr.Node, m: MatchNode) {
    node.HasArgs() && m.args.ArgList? && (node.Add? || node.Multiply?) && m.kind == Some(node.Kind())
  }

  /** FindPartialMatches: the captures and ascending indices of the first matching choice. */
  function FindPartial(node: Tr.Node, m: MatchNode): Option<(Captures, seq<nat>)> {
    if !PartialApplies(node, m) then None
    else
      var combos := GenerateCombinations(|node.args|, |m.args.items|);
      assert forall j :: 0 <= j < |combos| ==> |combos[j]| == |m.args.items| && InRange(combos[j], |node.args|) by {
        GenerateCombinationsMeaning(|node.args|, |m.args.items|);
        assert forall j :: 0 <= j < |combos| ==> combos[j] in combos;
      }
      FirstMatch(node.args, m, combos)
  }

  lemma {:induction false} FirstMatchFirst(nodes: seq<Tr.Node>, m: MatchNode, combos: seq<seq<nat>>)
    requires m.args.ArgList?
    requires forall j :: 0 <= j < |combos| ==> |combos[j]| == |m.args.items| && InRange(combos[j], |nodes|)
    ensures FirstMatch(nodes, m, combos).None? <==>
      forall j :: 0 <= j < |combos| ==> !PickMatches(nodes, m, combos[j])
    ensures FirstMatch(nodes, m, combos).Some? ==> exists j :: (0 <= j < |combos|
      && FirstMatch(nodes, m, combos).value.1 == combos[j]
      && MatchArgs(Pick(nodes, combos[j]), m, map[]) == Some(FirstMatch(nodes, m, combos).value.0)
      && forall i :: 0 <= i < j ==> !PickMatches(nodes, m, combos[i]))
  {
    if combos != [] {
      var rest := combos[1..];
      FirstMatchFirst(nodes, m, rest);
      forall j | 0 <= j < |rest| ensures rest[j] == combos[j + 1] { }
      if !PickMatches(nodes, m, combos[0]) {
        if FirstMatch(nodes, m, rest).Some? {
          var j :| 0 <= j < |rest| && FirstMatch(nodes, m, rest).value.1 == rest[j]
            && MatchArgs(Pick(nodes, rest[j]), m, map[]) == Some(FirstMatch(nodes, m, rest).value.0)
            && forall i :: 0 <= i < j ==> !PickMatches(nodes, m, rest[i]);
          assert combos[j + 1] == rest[j];
        }
      }
    }
  }

  /** A partial match consists of ascending argument positions, one per slot, whose arguments
      match the slots; every choice the backtracking visits before it fails. */
  lemma FindPartialSound(node: Tr.Node, m: MatchNode)
    ensures FindPartial(node, m).Some? ==>
      var (caps, idx) := FindPartial(node, m).value;
      && PartialApplies(node, m)
      && Choice(idx, 0, |node.args|, |m.args.items|)
      && PickMatches(node.args, m, idx)
      && MatchArgs(Pick(node.args, idx), m, map[]) == Some(caps)
      && exists j :: (0 <= j < |GenerateCombinations(|node.args|, |m.args.items|)|
        && GenerateCombinations(|node.args|, |m.args.items|)[j] == idx
        && forall i :: 0 <= i < j ==> !PickMatches(node.args, m, GenerateCombinations(|node.args|, |m.args.items|)[i]))
  {
    if PartialApplies(node, m) {
      var n, k := |node.args|, |m.args.items|;
      var combos := GenerateCombinations(n, k);
      GenerateCombinationsMeaning(n, k);
      assert forall j :: 0 <= j < |combos| ==> combos[j] in combos;
      FirstMatchFirst(node.args, m, combos);
    }
  }

  /** No partial match means no ascending choice of positions matches the slots. */
  lemma FindPartialComplete(node: Tr.Node, m: MatchNode, idx: seq<nat>)
    requires PartialApplies(node, m) && Choice(idx, 0, |node.args|, |m.args.items|)
    requires PickMatches(node.args, m, idx)
    ensures FindPartial(node, m).Some?
  {
    var n, k := |node.args|, |m.args.items|;
    var combos := GenerateCombinations(n, k);
    GenerateCombinationsMeaning(n, k);
    assert forall j :: 0 <= j < |combos| ==> combos[j] in combos;
    FirstMatchFirst(node.args, m, combos);
    var j :| 0 <= j < |combos| && combos[j] == idx;
  }

  method FindPartialMatches(node: Tr.Node, m: MatchNode) returns (r: Option<(Captures, seq<nat>)>)
    ensures r == FindPartial(node, m)
  {
    if !node.HasArgs() || !m.args.ArgList? { return None; }
    if !node.Add? && !node.Multiply? { return None; }
    if m.kind != Some(node.Kind()) { return None; }
    var combinations := GenerateCombinationsLoop(|node.args|, |m.args.items|);
    GenerateCombinationsMeaning(|node.args|, |m.args.items|);
    assert forall j :: 0 <= j < |combinations| ==> combinations[j] in combinations;
    for c := 0 to |combinations|
      invariant FirstMatch(node.args, m, combinations[c..]) == FirstMatch(node.args, m, combinations)
    {
      var combo := combinations[c];
      var temp := MatchArgsLoop(Pick(node.args, combo), m, map[]);
      assert combinations[c..][1..] == combinations[c + 1..];
      if temp.Some? {
        return Some((temp.value, combo));
      }
    }
    return None;
  }

  // ---- ReplaceChildren ----

  /** The arguments from position j on whose positions are not in `removed`, in order. */
  function Keep(args: seq<Tr.Node>, removed: set<nat>, j: nat): seq<Tr.Node>
    decreases |args| - j
  {
    if j >= |args| then [] else (if j in removed then [] else [args[j]]) + Keep(args, removed, j + 1)
  }

  function SetOf(indices: seq<nat>): set<nat> {
    set i | i in indices
  }

  /** ReplaceChildren: the node with the matched arguments removed and the replacement
      appended; argless nodes and rules without `children` are returned unchanged. */
  function ReplaceChildren(node: Tr.Node, rule: Rule, caps: Captures, indices: seq<nat>): Tr.Node {
    if !node.HasArgs() || rule.children.None? then node
    else node.WithArgs(Keep(node.args, SetOf(indices), 0) + [rule.children.value(node, caps)])
  }

  lemma {:induction false} KeepSkips(args: seq<Tr.Node>, removed: set<nat>, j: nat, i: nat)
    requires j <= i <= |args| && forall x :: x in removed ==> !(j <= x < i)
    ensures Keep(args, removed, j) == args[j..i] + Keep(args, removed, i)
    decreases i - j
  {
    if j < i {
      KeepSkips(args, removed, j + 1, i);
      assert j !in removed;
      ConsSlice(args, j, i, Keep(args, removed, i));
    }
  }

  lemma ConsSlice(args: seq<Tr.Node>, j: nat, i: nat, tail: seq<Tr.Node>)
    requires j < i <= |args|
    ensures [args[j]] + (args[j + 1..i] + tail) == args[j..i] + tail
  {
    assert args[j..i] == [args[j]] + args[j + 1..i];
  }

  lemma {:induction false} KeepLocal(args: seq<Tr.Node>, a: set<nat>, b: set<nat>, j: nat)
    requires forall x :: j <= x ==> (x in a <==> x in b)
    ensures Keep(args, a, j) == Keep(args, b, j)
    decreases |args| - j
  {
    if j < |args| {
      KeepLocal(args, a, b, j + 1);
    }
  }

  /** Removing position i, below every position already removed, removes args[i]. */
  lemma RemoveStep(args: seq<Tr.Node>, removed: set<nat>, i: nat)
    requires i < |args| && forall x :: x in removed ==> x > i
    ensures var kept := Keep(args, removed, 0);
      i < |kept| && kept[..i] + kept[i + 1..] == Keep(args, removed + {i}, 0)
  {
    var more := removed + {i};
    KeepSkips(args, removed, 0, i);
    KeepStep(args, removed, i);
    KeepSkips(args, more, 0, i);
    KeepStep(args, more, i);
    KeepLocal(args, removed, more, i + 1);
    SpliceOut(args[0..i], args[i], Keep(args, removed, i + 1));
  }

  /** Keep at one position. */
  lemma KeepStep(args: seq<Tr.Node>, removed: set<nat>, j: nat)
    requires j < |args|
    ensures Keep(args, removed, j) == (if j in removed then [] else [args[j]]) + Keep(args, removed, j + 1)
  {
  }

  lemma SpliceOut(pre: seq<Tr.Node>, x: Tr.Node, post: seq<Tr.Node>)
    ensures var k := pre + ([x] + post);
      |pre| < |k| && k[..|pre|] + k[|pre| + 1..] == pre + post
  {
    var k := pre + ([x] + post);
    assert k[..|pre|] == pre && k[|pre| + 1..] == post;
  }

  lemma {:induction false} KeepNothing(args: seq<Tr.Node>, j: nat)
    requires j <= |args|
    ensures Keep(args, {}, j) == args[j..]
    decreases |args| - j
  {
    if j < |args| {
      KeepNothing(args, j + 1);
    }
  }

  /** Kept arguments are exactly those at positions not removed, and order is kept. */
  lemma {:induction false} KeepMembers(args: seq<Tr.Node>, removed: set<nat>, j: nat)
    ensures forall x :: x in Keep(args, removed, j) <==> exists p :: j <= p < |args| && p !in removed && args[p] == x
    decreases |args| - j
  {
    if j < |args| {
      KeepMembers(args, removed, j + 1);
    }
  }

  /** ReplaceChildren on ascending in-range indices removes one argument per index. */
  lemma {:induction false} KeepLength(args: seq<Tr.Node>, indices: seq<nat>)
    requires Ascending(indices) && InRange(indices, |args|)
    ensures |Keep(args, SetOf(indices), 0)| == |args| - |indices|
    decreases |indices|
  {
    if indices == [] {
      KeepNothing(args, 0);
      assert SetOf(indices) == {};
    } else {
      var i, rest := indices[0], indices[1..];
      assert Ascending(rest);
      KeepLength(args, rest);
      assert forall p :: 0 <= p < |rest| ==> rest[p] == indices[p + 1] > i;
      RemoveStep(args, SetOf(rest), i);
      assert SetOf(rest) + {i} == SetOf(indices);
    }
  }

  /** The replacement keeps the node's type and other fields; its arguments are the
      unmatched ones in their order, then the replacement. */
  lemma ReplaceChildrenShape(node: Tr.Node, rule: Rule, caps: Captures, indices: seq<nat>, r: Tr.Node)
    requires node.HasArgs() && rule.children.Some? && r == ReplaceChildren(node, rule, caps, indices)
    ensures r.Kind() == node.Kind() && r == node.WithArgs(r.args)
    ensures |r.args| > 0 && r.args[|r.args| - 1] == rule.children.value(node, caps)
    ensures forall x :: x in r.args ==>
      (x == rule.children.value(node, caps) || exists p :: 0 <= p < |node.args| && p !in indices && node.args[p] == x)
    ensures forall p :: 0 <= p < |node.args| && p !in indices ==> node.args[p] in r.args
    ensures Ascending(indices) && InRange(indices, |node.args|) ==> |r.args| == |node.args| - |indices| + 1
  {
    var kept := Keep(node.args, SetOf(indices), 0);
    KeepMembers(node.args, SetOf(indices), 0);
    assert r.args == kept + [rule.children.value(node, caps)];
    if Ascending(indices) && InRange(indices, |node.args|) {
      KeepLength(node.args, indices);
    }
  }

  /** The source's steps: copy the arguments, remove the indices from the largest down
      (the sort with comparator a > b puts ascending indices in reverse), append. */
  method ReplaceChildrenLoop(node: Tr.Node, rule: Rule, caps: Captures, matchedIndices: seq<nat>) returns (r: Tr.Node)
    requires Ascending(matchedIndices) && (node.HasArgs() ==> InRange(matchedIndices, |node.args|))
    ensures r == ReplaceChildren(node, rule, caps, matchedIndices)
  {
    if !node.HasArgs() || rule.children.None? {
      return node;
    }
    var newArg := rule.children.value(node, caps);
    var newArgs := node.args;
    KeepNothing(node.args, 0);
    var k := |matchedIndices|;
    assert SetOf(matchedIndices[k..]) == {};
    while k > 0
      invariant 0 <= k <= |matchedIndices|
      invariant newArgs == Keep(node.args, SetOf(matchedIndices[k..]), 0)
    {
      k := k - 1;
      var i := matchedIndices[k];
      assert forall p :: k + 1 <= p < |matchedIndices| ==> matchedIndices[p] > i;
      RemoveStep(node.args, SetOf(matchedIndices[k + 1..]), i);
      assert SetOf(matchedIndices[k + 1..]) + {i} == SetOf(matchedIndices[k..]) by {
        assert matchedIndices[k..] == [i] + matchedIndices[k + 1..];
      }
      newArgs := newArgs[..i] + newArgs[i + 1..];
    }
    newArgs := newArgs + [newArg];
    return node.WithArgs(newArgs);
  }

  // ---- whole attempts, ApplyRuleWithPartialMatch and Match ----

  /** What one attempt on one instance yields: the captures when it matched, and the
      indices a `children` replacement removes. */
  datatype MatchResult = MatchResult(captures: Option<Captures>, indices: Option<seq<nat>>)

  /** Lines 26-32: a full match from a fresh map; on failure an Add or Multiply falls back
      to a partial match; otherwise a node with args gets all its indices. */
  function Attempt(node: Tr.Node, m: MatchNode): MatchResult {
    var full := MatchSingle(node, m, map[]);
    if full.None? && (node.Add? || node.Multiply?) then
      match FindPartial(node, m)
      case None => MatchResult(None, None)
      case Some(found) => MatchResult(Some(found.0), Some(found.1))
    else MatchResult(full, if node.HasArgs() then Some(Indices(|node.args|)) else None)
  }

  predicate HasAll(required: seq<string>, caps: Captures) {
    forall i :: 0 <= i < |required| ==> required[i] in caps
  }

  /** The instances in order; the first that matches, binds every required name and has a
      usable replacement wins. */
  function ApplyInstances(node: Tr.Node, rule: Rule, instances: seq<MatchNode>): Option<Tr.Node> {
    if instances == [] then None
    else
      var result := Attempt(node, instances[0]);
      if result.captures.Some? && HasAll(rule.requiredNodes, result.captures.value) && rule.node.Some? then
        Some(rule.node.value(node, result.captures.value))
      else if result.captures.Some? && HasAll(rule.requiredNodes, result.captures.value)
              && rule.children.Some? && result.indices.Some? then
        Some(ReplaceChildren(node, rule, result.captures.value, result.indices.value))
      else ApplyInstances(node, rule, instances[1..])
  }

  /** An instance wins for a rule. */
  predicate Fires(node: Tr.Node, rule: Rule, m: MatchNode) {
    var a := Attempt(node, m);
    a.captures.Some? && HasAll(rule.requiredNodes, a.captures.value)
    && (rule.node.Some? || (rule.children.Some? && a.indices.Some?))
  }

  /** The winner's rewrite: `node` replaces the whole node, even after a partial match;
      otherwise `children` replaces the matched arguments. */
  function Rewrite(node: Tr.Node, rule: Rule, m: MatchNode): Tr.Node
    requires Fires(node, rule, m)
  {
    var a := Attempt(node, m);
    if rule.node.Some? then rule.node.value(node, a.captures.value)
    else ReplaceChildren(node, rule, a.captures.value, a.indices.value)
  }

  /** ApplyRuleWithPartialMatch returns the rewrite of the first winning instance, and
      nothing exactly when no instance wins. */
  lemma {:induction false} ApplyInstancesFirst(node: Tr.Node, rule: Rule, instances: seq<MatchNode>)
    ensures ApplyInstances(node, rule, instances).None? <==>
      forall j :: 0 <= j < |instances| ==> !Fires(node, rule, instances[j])
    ensures ApplyInstances(node, rule, instances).Some? ==> exists j :: (0 <= j < |instances|
      && Fires(node, rule, instances[j])
      && ApplyInstances(node, rule, instances).value == Rewrite(node, rule, instances[j])
      && forall i :: 0 <= i < j ==> !Fires(node, rule, instances[i]))
  {
    if instances != [] {
      var rest := instances[1..];
      ApplyInstancesFirst(node, rule, rest);
      ApplyInstancesHead(node, rule, instances);
      if !Fires(node, rule, instances[0]) {
        forall j | 0 <= j < |rest| ensures rest[j] == instances[j + 1] { }
        if ApplyInstances(node, rule, rest).Some? {
          var j :| 0 <= j < |rest| && Fires(node, rule, rest[j])
            && ApplyInstances(node, rule, rest).value == Rewrite(node, rule, rest[j])
            && forall i :: 0 <= i < j ==> !Fires(node, rule, rest[i]);
          assert instances[j + 1] == rest[j];
        }
      }
    }
  }

  /** ApplyInstances tries the first instance, then the rest. */
  lemma ApplyInstancesHead(node: Tr.Node, rule: Rule, instances: seq<MatchNode>)
    requires instances != []
    ensures ApplyInstances(node, rule, instances)
      == if Fires(node, rule, instances[0]) then Some(Rewrite(node, rule, instances[0]))
         else ApplyInstances(node, rule, instances[1..])
  {
  }

  /** After a full match a `children` rule replaces all arguments; a partial match replaces
      an ascending choice of them; an argless node never takes a `children` rewrite. */
  lemma AttemptIndices(node: Tr.Node, m: MatchNode)
    ensures MatchSingle(node, m, map[]).Some? ==>
      Attempt(node, m) == MatchResult(MatchSingle(node, m, map[]), if node.HasArgs() then Some(Indices(|node.args|)) else None)
    ensures !node.HasArgs() ==> Attempt(node, m).indices.None?
    ensures Attempt(node, m).indices.Some? ==>
      node.HasArgs() && Ascending(Attempt(node, m).indices.value) && InRange(Attempt(node, m).indices.value, |node.args|)
  {
    FindPartialSound(node, m);
  }

  /** Match: the captures of the first instance that matches, fully or partially. */
  function MatchInstances(node: Tr.Node, instances: seq<MatchNode>): Option<Captures> {
    if instances == [] then None
    else
      var result := Attempt(node, instances[0]);
      if result.captures.Some? then result.captures else MatchInstances(node, instances[1..])
  }

  lemma {:induction false} MatchInstancesFirst(node: Tr.Node, instances: seq<MatchNode>)
    ensures MatchInstances(node, instances).None? <==>
      forall j :: 0 <= j < |instances| ==> Attempt(node, instances[j]).captures.None?
    ensures MatchInstances(node, instances).Some? ==> exists j :: (0 <= j < |instances|
      && Attempt(node, instances[j]).captures == MatchInstances(node, instances)
      && forall i :: 0 <= i < j ==> Attempt(node, instances[i]).captures.None?)
  {
    if instances != [] {
      var rest := instances[1..];
      MatchInstancesFirst(node, rest);
      forall j | 0 <= j < |rest| ensures rest[j] == instances[j + 1] { }
      if Attempt(node, instances[0]).captures.None? && MatchInstances(node, rest).Some? {
        var j :| 0 <= j < |rest| && Attempt(node, rest[j]).captures == MatchInstances(node, rest)
          && forall i :: 0 <= i < j ==> Attempt(node, rest[i]).captures.None?;
        assert instances[j + 1] == rest[j];
      }
    }
  }

  /** A rule applied through an uncached expansion bounded by `maxDepth`. */
  function ApplyRule(node: Tr.Node, rule: Rule, maxDepth: int): Result<Option<Tr.Node>> {
    var instances :- E.ExpandAt(rule.pattern, 0, maxDepth);
    Ok(ApplyInstances(node, rule, instances))
  }

  method AttemptLoop(node: Tr.Node, m: MatchNode) returns (result: MatchResult)
    ensures result == Attempt(node, m)
  {
    var full := MatchSingleNode(node, m, map[]);
    if full.None? && (node.Add? || node.Multiply?) {
      var found := FindPartialMatches(node, m);
      if found.None? {
        return MatchResult(None, None);
      }
      return MatchResult(Some(found.value.0), Some(found.value.1));
    } else if node.HasArgs() {
      var all := GetIndicesArray(|node.args|);
      return MatchResult(full, Some(all));
    }
    return MatchResult(full, None);
  }

  /** The loop of ApplyRuleWithPartialMatch over the instances, with its early returns. */
  method ApplyInstancesLoop(node: Tr.Node, rule: Rule, instances: seq<MatchNode>) returns (r: Option<Tr.Node>)
    ensures r == ApplyInstances(node, rule, instances)
  {
    for i := 0 to |instances|
      invariant ApplyInstances(node, rule, instances[i..]) == ApplyInstances(node, rule, instances)
    {
      var result := AttemptLoop(node, instances[i]);
      assert instances[i..][1..] == instances[i + 1..];
      if result.captures.Some? {
        var hasAllRequired := true;
        for j := 0 to |rule.requiredNodes|
          invariant hasAllRequired <==> forall k :: 0 <= k < j ==> rule.requiredNodes[k] in result.captures.value
        {
          hasAllRequired := hasAllRequired && rule.requiredNodes[j] in result.captures.value;
        }
        if hasAllRequired {
          if rule.node.Some? {
            return Some(rule.node.value(node, result.captures.value));
          } else if rule.children.Some? && result.indices.Some? {
            AttemptIndices(node, instances[i]);
            var replaced := ReplaceChildrenLoop(node, rule, result.captures.value, result.indices.value);
            return Some(replaced);
          }
        }
      }
    }
    return None;
  }

  /** The loop of Match over the instances. */
  method MatchInstancesLoop(node: Tr.Node, instances: seq<MatchNode>) returns (r: Option<Captures>)
    ensures r == MatchInstances(node, instances)
  {
    for i := 0 to |instances|
      invariant MatchInstances(node, instances[i..]) == MatchInstances(node, instances)
    {
      var result := AttemptLoop(node, instances[i]);
      assert instances[i..][1..] == instances[i + 1..];
      if result.captures.Some? {
        return result.captures;
      }
    }
    return None;
  }

  /** The matcher with its expander. */
  class PatternMatcher {
    const expander: X.PatternExpander

    ghost predicate Valid()
      reads this, expander, expander.cache
    {
      expander.Valid()
    }

    constructor(keyOf: Pattern -> Option<string>)
      ensures Valid() && fresh(expander) && fresh(expander.cache)
      ensures expander.maxDepth == 100 && expander.enableCache && expander.cache.maxSize == 500
      ensures expander.cache.keyOf == keyOf && expander.cache.entries == map[]
    {
      expander := new X.PatternExpander(None, None, None, keyOf);
    }

    /** ApplyRuleWithPartialMatch: the instances come from the expander; with distinct keys
        per pattern they are the pattern's expansion. */
    method ApplyRuleWithPartialMatch(node: Tr.Node, rule: Rule) returns (r: Result<Option<Tr.Node>>)
      requires Valid()
      modifies expander.cache
      ensures Valid()
      ensures !expander.enableCache ==> r == ApplyRule(node, rule, expander.maxDepth)
      ensures expander.cache.KeysInjective() && r.Ok? ==> r.value == ApplyInstances(node, rule, E.Expand(rule.pattern))
      ensures r.Err? ==> r.error.kind == MaxDepthExceeded || r.error.kind == CacheError
    {
      var expandedPatterns := expander.Expand(rule.pattern);
      if expandedPatterns.Err? {
        return Err(expandedPatterns.error);
      }
      var found := ApplyInstancesLoop(node, rule, expandedPatterns.value);
      return Ok(found);
    }

    /** Match: the captures of the first instance that matches. */
    method Match(node: Tr.Node, pattern: Pattern) returns (r: Result<Option<Captures>>)
      requires Valid()
      modifies expander.cache
      ensures Valid()
      ensures !expander.enableCache ==> r.Ok? == E.ExpandAt(pattern, 0, expander.maxDepth).Ok?
      ensures !expander.enableCache && r.Ok? ==> r.value == MatchInstances(node, E.Expand(pattern))
      ensures expander.cache.KeysInjective() && r.Ok? ==> r.value == MatchInstances(node, E.Expand(pattern))
      ensures r.Err? ==> r.error.kind == MaxDepthExceeded || r.error.kind == CacheError
    {
      var expandedPatterns := expander.Expand(pattern);
      if expandedPatterns.Err? {
        return Err(expandedPatterns.error);
      }
      var found := MatchInstancesLoop(node, expandedPatterns.value);
      return Ok(found);
    }
  }
}
