/** The array helpers of src/Polyfill/Array.ts, generic over the element type. A
    callback receives the element, its index and the whole array, as in the source. */
module ArrayPolyfill {
  import opened Wrappers

  /** The arrays laid end to end. */
  function Flatten<T>(arrays: seq<seq<T>>): (r: seq<T>)
  {
    if arrays == [] then [] else Flatten(arrays[..|arrays| - 1]) + arrays[|arrays| - 1]
  }

  function TotalLength<T>(arrays: seq<seq<T>>): nat {
    if arrays == [] then 0 else TotalLength(arrays[..|arrays| - 1]) + |arrays[|arrays| - 1]|
  }

  /** The flattened array holds every item of every array, and nothing else. */
  lemma {:induction false} FlattenContents<T>(arrays: seq<seq<T>>, x: T)
    ensures |Flatten(arrays)| == TotalLength(arrays)
    ensures x in Flatten(arrays) <==> exists k :: 0 <= k < |arrays| && x in arrays[k]
    decreases |arrays|
  {
    if arrays != [] {
      var n := |arrays|;
      var front := arrays[..n - 1];
      FlattenContents(front, x);
      if x in Flatten(front) {
        var k :| 0 <= k < |front| && x in front[k];
        assert x in arrays[k];
      }
      if exists k :: 0 <= k < n && x in arrays[k] {
        var k :| 0 <= k < n && x in arrays[k];
        if k < n - 1 {
          assert x in front[k];
        }
      }
    }
  }

  /** concat: every item of every array, in order. */
  method Concat<T>(arrays: seq<seq<T>>) returns (result: seq<T>)
    ensures result == Flatten(arrays)
  {
    result := [];
    var a := 0;
    while a < |arrays|
      invariant 0 <= a <= |arrays|
      invariant result == Flatten(arrays[..a])
    {
      var items := arrays[a];
      var i := 0;
      while i < |items|
        invariant 0 <= i <= |items|
        invariant result == Flatten(arrays[..a]) + items[..i]
      {
        result := result + [items[i]];
        assert items[..i + 1] == items[..i] + [items[i]];
        i := i + 1;
      }
      assert arrays[..a + 1][..a] == arrays[..a] && items[..i] == items;
      a := a + 1;
    }
    assert arrays[..a] == arrays;
  }

  /** The callback's results for every position, in order. */
  function Mapped<T, U>(items: seq<T>, callback: (T, int, seq<T>) -> U): (r: seq<U>)
    ensures |r| == |items|
  {
    seq(|items|, i requires 0 <= i < |items| => callback(items[i], i, items))
  }

  /** flatMap: the callback's arrays for every position, concatenated. */
  method FlatMap<T, U>(items: seq<T>, callback: (T, int, seq<T>) -> seq<U>) returns (result: seq<U>)
    ensures result == Flatten(Mapped(items, callback))
  {
    result := [];
    var i := 0;
    while i < |items|
      invariant 0 <= i <= |items|
      invariant result == Flatten(Mapped(items, callback)[..i])
    {
      var mapped := callback(items[i], i, items);
      result := Concat([result, mapped]);
      assert Mapped(items, callback)[..i + 1][..i] == Mapped(items, callback)[..i];
      assert [result] == [result][..1];
      i := i + 1;
    }
    assert Mapped(items, callback)[..i] == Mapped(items, callback);
  }

  /** A start or end position as slice reads it: a negative one counts from the end, and
      either way it is clamped into [0, length]. */
  function Clamp(pos: int, length: nat): (r: nat)
    ensures r <= length
    ensures 0 <= pos <= length ==> r == pos
    ensures pos < 0 && length + pos >= 0 ==> r == length + pos
  {
    if pos < 0 then (if length + pos > 0 then length + pos else 0)
    else if pos < length then pos else length
  }

  /** slice: the items from the clamped start up to the clamped end (no end means the
      length); nothing when the end is not after the start. */
  method Slice<T>(items: seq<T>, startPos: int, endPos: Option<int>) returns (result: seq<T>)
    ensures var s := Clamp(startPos, |items|);
      var e := Clamp(endPos.GetOr(|items|), |items|);
      result == if s < e then items[s..e] else []
  {
    result := [];
    var arrayLength := |items|;
    var start := Clamp(startPos, arrayLength);
    var end := Clamp(endPos.GetOr(arrayLength), arrayLength);
    var i := start;
    while i < end
      invariant start <= i <= |items|
      invariant if start < end then i <= end else i == start
      invariant result == items[start..i]
    {
      result := result + [items[i]];
      i := i + 1;
    }
  }


  /** map: the callback's result for every position. */
  method Map<T, U>(items: seq<T>, callback: (T, int, seq<T>) -> U) returns (result: seq<U>)
    ensures result == Mapped(items, callback)
  {
    result := [];
    var i := 0;
    while i < |items|
      invariant 0 <= i <= |items|
      invariant result == Mapped(items, callback)[..i]
    {
      result := result + [callback(items[i], i, items)];
      i := i + 1;
    }
  }

  /** from: `size` copies of the value (none for a size below 1). */
  method From<T>(size: int, value: T) returns (result: seq<T>)
    ensures |result| == if size < 0 then 0 else size
    ensures forall i :: 0 <= i < |result| ==> result[i] == value
  {
    result := [];
    var i := 0;
    while i < size
      invariant 0 <= i <= if size < 0 then 0 else size
      invariant |result| == i && forall k :: 0 <= k < i ==> result[k] == value
    {
      result := result + [value];
      i := i + 1;
    }
  }

  /** The reduce of deDuplicate: each item is appended unless the accumulator already
      includes it. */
  function DeDup<T(==)>(s: seq<T>): seq<T> {
    if s == [] then []
    else
      var acc := DeDup(s[..|s| - 1]);
      if s[|s| - 1] in acc then acc else acc + [s[|s| - 1]]
  }

  predicate Distinct<T(==)>(s: seq<T>) {
    forall i, j :: 0 <= i < j < |s| ==> s[i] != s[j]
  }

  /** deDuplicate: the first occurrence of every item, in order. */
  method DeDuplicate<T(==)>(items: seq<T>) returns (acc: seq<T>)
    ensures acc == DeDup(items)
  {
    acc := [];
    var i := 0;
    while i < |items|
      invariant 0 <= i <= |items|
      invariant acc == DeDup(items[..i])
    {
      assert items[..i + 1][..i] == items[..i];
      if !(items[i] in acc) {
        acc := acc + [items[i]];
      }
      i := i + 1;
    }
    assert items[..i] == items;
  }

  /** The result of deDuplicate has no repeats and holds exactly the array's items. */
  lemma {:induction false} DeDupSpec<T>(s: seq<T>)
    ensures Distinct(DeDup(s))
    ensures forall x :: x in DeDup(s) <==> x in s
    decreases |s|
  {
    if s != [] {
      var front := s[..|s| - 1];
      DeDupSpec(front);
      forall x ensures x in s <==> x in front || x == s[|s| - 1] {
        assert s == front + [s[|s| - 1]];
      }
    }
  }

  /** An array without repeats is left as it is; so deDuplicate is idempotent. */
  lemma {:induction false} DeDupDistinct<T>(s: seq<T>)
    requires Distinct(s)
    ensures DeDup(s) == s
    decreases |s|
  {
    if s != [] {
      var front := s[..|s| - 1];
      DeDupDistinct(front);
      assert s[|s| - 1] !in front;
      assert s == front + [s[|s| - 1]];
    }
  }

  lemma DeDupIdempotent<T>(s: seq<T>)
    ensures DeDup(DeDup(s)) == DeDup(s)
  {
    DeDupSpec(s);
    DeDupDistinct(DeDup(s));
  }

  /** An iteration order of a map: every key of the map exactly once. */
  predicate IterationOrder<K, T>(m: map<K, T>, order: seq<K>) {
    Distinct(order)
    && (forall i :: 0 <= i < |order| ==> order[i] in m)
    && (forall k :: k in m ==> k in order)
  }

  /** A sequence without repeats has as many items as the set of its items. */
  lemma {:induction false} DistinctCard<T>(s: seq<T>)
    requires Distinct(s)
    ensures |set x | x in s| == |s|
    decreases |s|
  {
    if s != [] {
      var front := s[..|s| - 1];
      DistinctCard(front);
      assert s[|s| - 1] !in front;
      assert (set x | x in s) == (set x | x in front) + {s[|s| - 1]} by {
        assert s == front + [s[|s| - 1]];
      }
    }
  }

  /** An iteration order is as long as the map is large. */
  lemma IterationOrderLength<K, T>(m: map<K, T>, order: seq<K>)
    requires IterationOrder(m, order)
    ensures |order| == |m|
  {
    DistinctCard(order);
    assert (set x | x in order) == m.Keys;
  }

  /** arrayFromMap: the values in the map's iteration order, which the host chooses and
      which is passed in here as the sequence of keys. */
  method ArrayFromMap<K, T>(m: map<K, T>, order: seq<K>) returns (result: seq<T>)
    requires IterationOrder(m, order)
    ensures |result| == |order| == |m|
    ensures forall i :: 0 <= i < |order| ==> result[i] == m[order[i]]
  {
    IterationOrderLength(m, order);
    result := [];
    var i := 0;
    while i < |order|
      invariant 0 <= i <= |order|
      invariant |result| == i && forall k :: 0 <= k < i ==> result[k] == m[order[k]]
    {
      result := result + [m[order[i]]];
      i := i + 1;
    }
  }

  /** Every key of the map contributes its value at exactly one position of the array. */
  lemma ArrayFromMapComplete<K, T>(m: map<K, T>, order: seq<K>, result: seq<T>, k: K)
    requires IterationOrder(m, order)
    requires |result| == |order| && forall i :: 0 <= i < |order| ==> result[i] == m[order[i]]
    requires k in m
    ensures exists i :: 0 <= i < |result| && order[i] == k && result[i] == m[k]
    ensures forall i, j :: 0 <= i < |result| && 0 <= j < |result| && order[i] == k && order[j] == k ==> i == j
  {
    var i :| 0 <= i < |order| && order[i] == k;
    assert result[i] == m[k];
  }
}
