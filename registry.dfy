/** The Registry (src/Registry.ts): the functions, post-processor converters, variables
    and constants a parser is configured with. The add* methods update its fields in
    place. */
module Registries {
  import opened Wrappers
  import Tr = Tree
  import N = Nodes
  import PP = PostProcessor

  /** What the validators read of a registered function: the names it answers to and
      its arity. Its numeric implementation is not part of this model. */
  datatype FunctionEntry = FunctionEntry(names: seq<string>, arguments: int)

  /** An argument of addVariables: a bare name, or a name with the node bound to it. */
  datatype VariableSpec = Bare(name: string) | Bound(name: string, node: Tr.Node) {
    /** The binding it stands for: a bare name is bound to literal 0. */
    function Binding(): (string, Tr.Node) {
      if Bare? then (name, N.Zero()) else (name, node)
    }
  }

  function Bindings(specs: seq<VariableSpec>): (r: seq<(string, Tr.Node)>)
    ensures |r| == |specs|
    ensures forall i :: 0 <= i < |specs| ==> r[i] == specs[i].Binding()
  {
    seq(|specs|, i requires 0 <= i < |specs| => specs[i].Binding())
  }

  /** The table after assigning every pair in order. */
  function BindAll(m: map<string, Tr.Node>, pairs: seq<(string, Tr.Node)>): map<string, Tr.Node> {
    if pairs == [] then m
    else BindAll(m, pairs[..|pairs| - 1])[pairs[|pairs| - 1].0 := pairs[|pairs| - 1].1]
  }

  /** The value the last pair naming `key` assigns, if any pair names it. */
  function LastBinding(pairs: seq<(string, Tr.Node)>, key: string): Option<Tr.Node> {
    if pairs == [] then None
    else if pairs[|pairs| - 1].0 == key then Some(pairs[|pairs| - 1].1)
    else LastBinding(pairs[..|pairs| - 1], key)
  }

  /** After the assignments a key holds the value of the last pair naming it, and keeps
      its old value when no pair names it; no other key appears. */
  lemma {:induction false} BindAllLookup(m: map<string, Tr.Node>, pairs: seq<(string, Tr.Node)>, key: string)
    ensures key in BindAll(m, pairs) <==> key in m || LastBinding(pairs, key).Some?
    ensures LastBinding(pairs, key).Some? ==> BindAll(m, pairs)[key] == LastBinding(pairs, key).value
    ensures LastBinding(pairs, key).None? && key in m ==> BindAll(m, pairs)[key] == m[key]
    decreases |pairs|
  {
    if pairs != [] {
      BindAllLookup(m, pairs[..|pairs| - 1], key);
    }
  }

  /** Pair i names `key` and no later pair does. */
  predicate LastNaming(pairs: seq<(string, Tr.Node)>, key: string, i: int) {
    0 <= i < |pairs| && pairs[i].0 == key && forall j :: i < j < |pairs| ==> pairs[j].0 != key
  }

  /** LastBinding is the value of a pair of the list that no later pair overrides. */
  lemma {:induction false} LastBindingIsLast(pairs: seq<(string, Tr.Node)>, key: string)
    ensures LastBinding(pairs, key).None? <==> forall i :: 0 <= i < |pairs| ==> pairs[i].0 != key
    ensures LastBinding(pairs, key).Some? ==>
      exists i :: LastNaming(pairs, key, i) && pairs[i].1 == LastBinding(pairs, key).value
    decreases |pairs|
  {
    if pairs != [] {
      var n := |pairs|;
      var front := pairs[..n - 1];
      LastBindingIsLast(front, key);
      if pairs[n - 1].0 == key {
        assert LastNaming(pairs, key, n - 1);
      } else if LastBinding(pairs, key).Some? {
        var i :| LastNaming(front, key, i) && front[i].1 == LastBinding(front, key).value;
        assert LastNaming(pairs, key, i);
      }
    }
  }

  class Registry {
    var functions: seq<FunctionEntry>
    var postProcessorFunctions: seq<PP.Converter>
    var variables: map<string, Tr.Node>
    var constants: map<string, Tr.Node>

    /** A fresh registry: no functions or converters, variable a bound to 0 and constant
        a to 1. */
    constructor()
      ensures functions == [] && postProcessorFunctions == []
      ensures variables == map["a" := N.Zero()] && constants == map["a" := N.One()]
    {
      functions := [];
      postProcessorFunctions := [];
      variables := map["a" := N.Zero()];
      constants := map["a" := N.One()];
    }

    /** addVariables: each argument in order binds its name, overwriting. */
    method AddVariables(specs: seq<VariableSpec>)
      modifies this
      ensures variables == BindAll(old(variables), Bindings(specs))
      ensures functions == old(functions) && postProcessorFunctions == old(postProcessorFunctions)
      ensures constants == old(constants)
    {
      var i := 0;
      while i < |specs|
        invariant 0 <= i <= |specs|
        invariant variables == BindAll(old(variables), Bindings(specs)[..i])
        invariant functions == old(functions) && postProcessorFunctions == old(postProcessorFunctions)
        invariant constants == old(constants)
      {
        assert Bindings(specs)[..i + 1][..i] == Bindings(specs)[..i];
        var spec := specs[i];
        if spec.Bare? {
          variables := variables[spec.name := N.Zero()];
        } else {
          variables := variables[spec.name := spec.node];
        }
        i := i + 1;
      }
      assert Bindings(specs)[..i] == Bindings(specs);
    }

    /** addPostProcessorFunctions: appended in argument order, duplicates kept. */
    method AddPostProcessorFunctions(converters: seq<PP.Converter>)
      modifies this
      ensures postProcessorFunctions == old(postProcessorFunctions) + converters
      ensures functions == old(functions) && variables == old(variables) && constants == old(constants)
    {
      var i := 0;
      while i < |converters|
        invariant 0 <= i <= |converters|
        invariant postProcessorFunctions == old(postProcessorFunctions) + converters[..i]
        invariant functions == old(functions) && variables == old(variables) && constants == old(constants)
      {
        postProcessorFunctions := postProcessorFunctions + [converters[i]];
        assert converters[..i + 1] == converters[..i] + [converters[i]];
        i := i + 1;
      }
      assert converters[..i] == converters;
    }

    /** addFunctions: appended in argument order, duplicates kept. */
    method AddFunctions(entries: seq<FunctionEntry>)
      modifies this
      ensures functions == old(functions) + entries
      ensures postProcessorFunctions == old(postProcessorFunctions) && variables == old(variables)
      ensures constants == old(constants)
    {
      var i := 0;
      while i < |entries|
        invariant 0 <= i <= |entries|
        invariant functions == old(functions) + entries[..i]
        invariant postProcessorFunctions == old(postProcessorFunctions) && variables == old(variables)
        invariant constants == old(constants)
      {
        functions := functions + [entries[i]];
        assert entries[..i + 1] == entries[..i] + [entries[i]];
        i := i + 1;
      }
      assert entries[..i] == entries;
    }

    /** addConstants: each pair in order binds its name, overwriting. */
    method AddConstants(pairs: seq<(string, Tr.Node)>)
      modifies this
      ensures constants == BindAll(old(constants), pairs)
      ensures functions == old(functions) && postProcessorFunctions == old(postProcessorFunctions)
      ensures variables == old(variables)
    {
      var i := 0;
      while i < |pairs|
        invariant 0 <= i <= |pairs|
        invariant constants == BindAll(old(constants), pairs[..i])
        invariant functions == old(functions) && postProcessorFunctions == old(postProcessorFunctions)
        invariant variables == old(variables)
      {
        assert pairs[..i + 1][..i] == pairs[..i];
        constants := constants[pairs[i].0 := pairs[i].1];
        i := i + 1;
      }
      assert pairs[..i] == pairs;
    }
  }

  /** A bare name added after a binding of the same name resets it to 0; "a" stays
      bound to 0 in a fresh registry unless a later argument names it. */
  lemma BareNameOverwrites(m: map<string, Tr.Node>, x: string, node: Tr.Node)
    ensures BindAll(m, Bindings([Bound(x, node), Bare(x)]))[x] == N.Zero()
    ensures BindAll(m, Bindings([Bare(x), Bound(x, node)]))[x] == node
  {
    var p := Bindings([Bound(x, node), Bare(x)]);
    BindAllLookup(m, p, x);
    var q := Bindings([Bare(x), Bound(x, node)]);
    BindAllLookup(m, q, x);
  }
}
