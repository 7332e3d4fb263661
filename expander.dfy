/** The expansion cache and the expander of src/Matching/PatternExpander.ts.
    Map iteration order is modelled as insertion order: `order` lists the keys from the
    oldest insertion to the newest. */
module PatternExpansion {
  import opened Wrappers
  import opened Match
  import E = Expansion

  /** The keys of `s` other than `k`, in order. */
  function Without(s: seq<string>, k: string): (r: seq<string>)
    ensures forall x :: x in r <==> x in s && x != k
    ensures k !in s ==> r == s
    ensures |r| <= |s|
  {
    if s == [] then [] else (if s[0] == k then [] else [s[0]]) + Without(s[1..], k)
  }

  predicate Distinct(s: seq<string>) {
    forall i, j :: 0 <= i < j < |s| ==> s[i] != s[j]
  }

  lemma {:induction false} WithoutDistinct(s: seq<string>, k: string)
    requires Distinct(s)
    ensures Distinct(Without(s, k))
    ensures k in s ==> |Without(s, k)| == |s| - 1
  {
    if s != [] {
      WithoutDistinct(s[1..], k);
      assert Distinct(s[1..]);
      if k in s && s[0] != k {
        assert k in s[1..];
      }
      if s[0] == k {
        assert k !in s[1..] by {
          forall j | 1 <= j < |s| ensures s[j] != k { }
        }
      } else {
        assert s[0] !in Without(s[1..], k) by {
          forall j | 1 <= j < |s| ensures s[j] != s[0] { }
        }
      }
    }
  }

  lemma {:induction false} DistinctCount(s: seq<string>, m: set<string>)
    requires Distinct(s) && forall x :: x in m <==> x in s
    ensures |m| == |s|
  {
    if s != [] {
      assert Distinct(s[1..]);
      assert s[0] !in s[1..] by {
        forall j | 1 <= j < |s| ensures s[j] != s[0] { }
      }
      DistinctCount(s[1..], m - {s[0]});
    }
  }

  /** A size-bounded map from pattern keys to expansions, the least recently inserted
      or read entry evicted first. `origin` records which pattern each key came from. */
  class ExpansionCache {
    var order: seq<string>
    var entries: map<string, seq<MatchNode>>
    ghost var origin: map<string, Pattern>
    const maxSize: int
    /** getKey: the host's JSON encoding of a pattern, None where encoding fails. */
    const keyOf: Pattern -> Option<string>

    /** At least one entry fits: an insert into a full cache evicts first, and an empty
        cache always takes one. */
    function Capacity(): nat {
      if maxSize >= 1 then maxSize else 1
    }

    ghost predicate Valid()
      reads this
    {
      && Distinct(order)
      && (forall k :: k in entries <==> k in order)
      && origin.Keys == entries.Keys
      && (forall k :: k in origin ==> keyOf(origin[k]) == Some(k))
      && |order| <= Capacity()
    }

    constructor(maxSize: int, keyOf: Pattern -> Option<string>)
      ensures Valid()
      ensures this.maxSize == maxSize && this.keyOf == keyOf
      ensures order == [] && entries == map[] && origin == map[]
    {
      this.maxSize := maxSize;
      this.keyOf := keyOf;
      order := [];
      entries := map[];
      origin := map[];
    }

    method GetKey(p: Pattern) returns (r: Result<string>)
      ensures keyOf(p).Some? ==> r == Ok(keyOf(p).value)
      ensures keyOf(p).None? ==> r.Err? && r.error.kind == CacheError
    {
      var k := keyOf(p);
      if k.None? {
        return Err(Error(CacheError, "pattern could not be encoded"));
      }
      return Ok(k.value);
    }

    /** A hit returns the stored expansion and makes its key the newest; a miss returns
        None and changes nothing. */
    method Get(p: Pattern) returns (r: Result<Option<seq<MatchNode>>>)
      requires Valid()
      modifies this
      ensures Valid()
      ensures entries == old(entries) && origin == old(origin)
      ensures keyOf(p).None? ==> r.Err? && r.error.kind == CacheError && order == old(order)
      ensures keyOf(p).Some? && keyOf(p).value !in old(entries) ==> r == Ok(None) && order == old(order)
      ensures keyOf(p).Some? && keyOf(p).value in old(entries) ==>
        (r == Ok(Some(old(entries)[keyOf(p).value]))
        && order == Without(old(order), keyOf(p).value) + [keyOf(p).value])
    {
      var key :- GetKey(p);
      if key !in entries {
        return Ok(None);
      }
      var value := entries[key];
      WithoutDistinct(order, key);
      order := Without(order, key) + [key];
      return Ok(Some(value));
    }

    /** Storing under an existing key replaces it and makes it the newest; storing a new
        key into a full cache first evicts the oldest key. */
    method Set(p: Pattern, result: seq<MatchNode>) returns (r: Result<()>)
      requires Valid()
      modifies this
      ensures Valid()
      ensures keyOf(p).None? ==> r.Err? && r.error.kind == CacheError && unchanged(this)
      ensures keyOf(p).Some? ==> (r.Ok? && keyOf(p).value in entries && entries[keyOf(p).value] == result
        && origin[keyOf(p).value] == p)
      ensures keyOf(p).Some? && keyOf(p).value in old(entries) ==>
        var k := keyOf(p).value;
        entries == old(entries)[k := result] && order == Without(old(order), k) + [k]
      ensures keyOf(p).Some? && keyOf(p).value !in old(entries) && |old(order)| < maxSize ==>
        var k := keyOf(p).value;
        entries == old(entries)[k := result] && order == old(order) + [k]
      ensures keyOf(p).Some? && keyOf(p).value !in old(entries) && |old(order)| >= maxSize && old(order) != [] ==>
        var k := keyOf(p).value;
        entries == (old(entries) - {old(order)[0]})[k := result] && order == old(order)[1..] + [k]
      ensures forall k :: k in entries && Some(k) != keyOf(p) ==>
        (k in old(entries) && entries[k] == old(entries)[k] && origin[k] == old(origin)[k])
    {
      var key :- GetKey(p);
      if key in entries {
        Replace(key, p, result);
      } else {
        Insert(key, p, result);
      }
      return Ok(());
    }

    /** Set on a key already stored. */
    method Replace(k: string, p: Pattern, result: seq<MatchNode>)
      requires Valid() && k in entries && keyOf(p) == Some(k)
      modifies this
      ensures Valid()
      ensures entries == old(entries)[k := result] && origin == old(origin)[k := p]
      ensures order == Without(old(order), k) + [k]
    {
      DistinctCount(order, entries.Keys);
      Detach(k);
      Attach(k, p, result);
    }

    /** Set on a new key, evicting the oldest entry when the cache is full. */
    method Insert(k: string, p: Pattern, result: seq<MatchNode>)
      requires Valid() && k !in entries && keyOf(p) == Some(k)
      modifies this
      ensures Valid()
      ensures |old(order)| < maxSize || old(order) == [] ==>
        entries == old(entries)[k := result] && origin == old(origin)[k := p] && order == old(order) + [k]
      ensures |old(order)| >= maxSize && old(order) != [] ==>
        && entries == (old(entries) - {old(order)[0]})[k := result]
        && origin == (old(origin) - {old(order)[0]})[k := p]
        && order == old(order)[1..] + [k]
    {
      DistinctCount(order, entries.Keys);
      if |entries| >= maxSize && order != [] {
        EvictOldest();
      }
      Attach(k, p, result);
    }

    /** Removes `k` from the order only, ahead of storing it again. */
    method Detach(k: string)
      requires Valid() && k in entries
      modifies this
      ensures order == Without(old(order), k) && |order| == |old(order)| - 1 && Distinct(order)
      ensures entries == old(entries) && origin == old(origin)
      ensures forall x :: x in entries <==> x in order || x == k
    {
      WithoutDistinct(order, k);
      order := Without(order, k);
    }

    method EvictOldest()
      requires Valid() && order != []
      modifies this
      ensures order == old(order)[1..] && Distinct(order) && old(order)[0] !in order
      ensures entries == old(entries) - {old(order)[0]} && origin == old(origin) - {old(order)[0]}
      ensures Valid()
    {
      var oldest := order[0];
      assert Distinct(order[1..]);
      assert oldest !in order[1..] by {
        forall j | 1 <= j < |order| ensures order[j] != oldest { }
      }
      entries := entries - {oldest};
      origin := origin - {oldest};
      order := order[1..];
    }

    method Attach(k: string, p: Pattern, result: seq<MatchNode>)
      requires Distinct(order) && k !in order && keyOf(p) == Some(k)
      requires forall x :: x != k ==> (x in entries <==> x in order)
      requires origin.Keys == entries.Keys && (forall x :: x in origin ==> keyOf(origin[x]) == Some(x))
      requires |order| < Capacity()
      modifies this
      ensures Valid()
      ensures order == old(order) + [k] && entries == old(entries)[k := result] && origin == old(origin)[k := p]
    {
      entries := entries[k := result];
      origin := origin[k := p];
      order := order + [k];
    }

    method Clear()
      requires Valid()
      modifies this
      ensures Valid() && order == [] && entries == map[] && origin == map[]
    {
      order := [];
      entries := map[];
      origin := map[];
    }

    method GetSize() returns (n: nat)
      requires Valid()
      ensures n == |entries| && n == |order| && n <= Capacity()
    {
      DistinctCount(order, entries.Keys);
      n := |entries|;
    }

    /** Different patterns never share a key. */
    ghost predicate KeysInjective() {
      forall p, q :: keyOf(p).Some? && keyOf(p) == keyOf(q) ==> p == q
    }
  }

  /** One of the three settable configuration fields. */
  datatype ConfigUpdate = MaxDepth(depth: int) | EnableCache(enabled: bool) | MaxCacheSize(size: int)

  class PatternExpander {
    const cache: ExpansionCache
    var maxDepth: int
    var enableCache: bool
    var maxCacheSize: int

    /** Every cached list is the expansion of the pattern it was stored for. */
    ghost predicate Valid()
      reads this, cache
    {
      cache.Valid() && forall k :: k in cache.entries ==> cache.entries[k] == E.Expand(cache.origin[k])
    }

    /** Missing settings default to depth 100, caching on and 500 entries. */
    constructor(maxDepth: Option<int>, enableCache: Option<bool>, maxCacheSize: Option<int>,
                keyOf: Pattern -> Option<string>)
      ensures Valid() && fresh(cache)
      ensures this.maxDepth == maxDepth.GetOr(100) && this.enableCache == enableCache.GetOr(true)
      ensures this.maxCacheSize == maxCacheSize.GetOr(500)
      ensures cache.maxSize == this.maxCacheSize && cache.keyOf == keyOf && cache.entries == map[]
    {
      this.maxDepth := maxDepth.GetOr(100);
      this.enableCache := enableCache.GetOr(true);
      this.maxCacheSize := maxCacheSize.GetOr(500);
      cache := new ExpansionCache(maxCacheSize.GetOr(500), keyOf);
    }

    /** setConfig changes one field; the cache built by the constructor keeps its size. */
    method SetConfig(u: ConfigUpdate)
      modifies this
      ensures u.MaxDepth? ==> maxDepth == u.depth && enableCache == old(enableCache) && maxCacheSize == old(maxCacheSize)
      ensures u.EnableCache? ==> enableCache == u.enabled && maxDepth == old(maxDepth) && maxCacheSize == old(maxCacheSize)
      ensures u.MaxCacheSize? ==> maxCacheSize == u.size && maxDepth == old(maxDepth) && enableCache == old(enableCache)
      ensures unchanged(cache)
    {
      match u
      case MaxDepth(d) => maxDepth := d;
      case EnableCache(b) => enableCache := b;
      case MaxCacheSize(n) => maxCacheSize := n;
    }

    method ClearCache()
      requires Valid()
      modifies cache
      ensures Valid() && cache.entries == map[]
    {
      cache.Clear();
    }

    /** expand: a cache hit is returned as stored; a miss expands from depth 0 and
        stores a successful result; with the cache off the cache is not touched. */
    method Expand(p: Pattern) returns (r: Result<seq<MatchNode>>)
      requires Valid()
      modifies cache
      ensures Valid()
      ensures !enableCache ==> r == E.ExpandAt(p, 0, maxDepth) && unchanged(cache)
      ensures enableCache && cache.keyOf(p).None? ==> r.Err? && r.error.kind == CacheError
      ensures enableCache && cache.keyOf(p).Some? && cache.keyOf(p).value in old(cache.entries) ==>
        r == Ok(old(cache.entries)[cache.keyOf(p).value])
        && r.value == E.Expand(old(cache.origin)[cache.keyOf(p).value])
      ensures enableCache && cache.keyOf(p).Some? && cache.keyOf(p).value !in old(cache.entries) ==>
        r == E.ExpandAt(p, 0, maxDepth)
        && (r.Ok? ==> cache.keyOf(p).value in cache.entries && cache.entries[cache.keyOf(p).value] == r.value)
      ensures cache.KeysInjective() && r.Ok? ==> r.value == E.Expand(p)
      ensures r.Err? ==> r.error.kind == MaxDepthExceeded || r.error.kind == CacheError
    {
      if enableCache {
        var cached :- cache.Get(p);
        if cached.Some? {
          return Ok(cached.value);
        }
      }
      r := ExpandPattern(p, 0);
      if r.Ok? {
        assert r.value == E.Expand(p);
        if enableCache {
          var stored := cache.Set(p, r.value);
          assert stored.Ok?;
        }
      }
    }

    /** expandPattern: each alternative's instances in order, or MaxDepthExceeded. */
    method ExpandPattern(p: Pattern, depth: nat) returns (r: Result<seq<MatchNode>>)
      ensures r == E.ExpandAt(p, depth, maxDepth)
      decreases p
    {
      if depth > maxDepth {
        return E.DepthError();
      }
      var alts := p.alternatives;
      var result: seq<MatchNode> := [];
      var j := 0;
      while j < |alts|
        invariant 0 <= j <= |alts|
        invariant result == E.Flatten(E.NodeInstances(alts[..j]))
        invariant E.AlternativesWithin(alts, j, maxDepth - depth)
      {
        var expanded := ExpandNode(alts[j], depth + 1);
        if expanded.Err? {
          E.DeepAlternative(p, j, depth, maxDepth);
          return E.DepthError();
        }
        E.ExpandStep(alts, j, result, expanded.value, maxDepth - depth);
        result := result + expanded.value;
        j := j + 1;
      }
      E.ShallowPattern(p, depth, maxDepth, result);
      return Ok(result);
    }

    /** expandNode at the depth of its slots. */
    method ExpandNode(d: DetectionNode, depth: nat) returns (r: Result<seq<MatchNode>>)
      requires depth <= maxDepth + 1
      ensures r == if depth - 1 + E.NodeHeight(d) > maxDepth then E.DepthError() else Ok(E.ExpandNode(d))
      decreases d, 1
    {
      if d.args.NoSlots? {
        return Ok([Leaf(d)]);
      }
      r := ExpandNormal(d, depth);
    }

    method ExpandNormal(d: DetectionNode, depth: nat) returns (r: Result<seq<MatchNode>>)
      requires d.args.Slots? && depth <= maxDepth + 1
      ensures r == if depth - 1 + E.NodeHeight(d) > maxDepth then E.DepthError() else Ok(E.ExpandNode(d))
      decreases d, 0
    {
      var slots := d.args.patterns;
      var expandedArgs: seq<seq<MatchNode>> := [];
      E.SlotsHeightBound(d, 0, maxDepth + 1 - depth);
      for i := 0 to |slots|
        invariant expandedArgs == E.ExpandSlots(d, 0)[..i]
        invariant forall k :: 0 <= k < i ==> 1 + E.Height(slots[k]) <= maxDepth + 1 - depth
      {
        var e := ExpandPattern(slots[i], depth);
        if e.Err? {
          return E.DepthError();
        }
        expandedArgs := expandedArgs + [e.value];
      }
      assert expandedArgs == E.ExpandSlots(d, 0);
      var combined := GenerateCombinations(d, expandedArgs);
      return Ok(combined);
    }

    /** generateCombinations: each combination, or each of its orderings when the node is
        commutative, becomes one instance. */
    method GenerateCombinations(d: DetectionNode, expandedArgs: seq<seq<MatchNode>>) returns (result: seq<MatchNode>)
      ensures result == E.Instances(d, E.CartesianProduct(expandedArgs))
    {
      var combinations := E.CartesianProduct(expandedArgs);
      result := [];
      var i := 0;
      while i < |combinations|
        invariant 0 <= i <= |combinations|
        invariant result == E.Instances(d, combinations[..i])
        decreases |combinations| - i
      {
        var next := PushInstances(d, result, combinations[i]);
        E.InstancesStep(d, combinations, i, result, next);
        result := next;
        i := i + 1;
      }
      E.InstancesDone(d, combinations, result);
    }

    /** One combination's instances: each ordering of it when the node is commutative,
        the combination itself otherwise. */
    static method PushInstances(d: DetectionNode, result: seq<MatchNode>, combination: seq<MatchNode>)
      returns (r: seq<MatchNode>)
      ensures r == result + E.Instances(d, [combination])
    {
      E.InstancesSingle(d, combination);
      if d.commutative == Some(true) {
        var permutations := GeneratePermutations(combination);
        r := result;
        var k := 0;
        while k < |permutations|
          invariant 0 <= k <= |permutations|
          invariant r == result + E.WithEach(d, permutations[..k])
          decreases |permutations| - k
        {
          assert E.WithEach(d, permutations[..k + 1]) == E.WithEach(d, permutations[..k]) + [WithArgs(d, permutations[k])];
          r := r + [WithArgs(d, permutations[k])];
          k := k + 1;
        }
        assert permutations[..k] == permutations;
      } else {
        r := result + [WithArgs(d, combination)];
      }
    }

    /** generatePermutations: positions in turn first, each followed by every ordering of
        the remaining positions. */
    static method GeneratePermutations<X>(arr: seq<X>) returns (result: seq<seq<X>>)
      ensures result == E.Permutations(arr)
      decreases |arr|
    {
      if |arr| == 0 {
        return [[]];
      }
      result := [];
      for i := 0 to |arr|
        invariant result + E.PermutationsFrom(arr, i) == E.PermutationsFrom(arr, 0)
      {
        var current := arr[i];
        var remaining := arr[..i] + arr[i + 1..];
        var perms := GeneratePermutations(remaining);
        var next := PushPrepended(result, current, perms);
        E.PermutationsFromStep(arr, i, perms, result, next);
        result := next;
      }
    }

    /** The inner loop of generatePermutations: `current` in front of each ordering. */
    static method PushPrepended<X>(result: seq<seq<X>>, current: X, perms: seq<seq<X>>) returns (r: seq<seq<X>>)
      ensures r == result + E.Prepend(current, perms)
    {
      r := result;
      for k := 0 to |perms|
        invariant r == result + E.Prepend(current, perms[..k])
      {
        assert E.Prepend(current, perms[..k + 1]) == E.Prepend(current, perms[..k]) + [[current] + perms[k]];
        r := r + [[current] + perms[k]];
      }
      assert perms[..|perms|] == perms;
    }
  }
}
