/** The roblox-ts `Map<string, V>` the polynomial code builds (a term's variable powers,
    the signature tables of CombineTerms and GetCoefficients), as its entries in iteration
    order. Iteration is taken to follow first insertion: `set` on a present key replaces its
    entry in place, on a new key appends one. */
module PowerMaps {
  import opened Wrappers
  import opened Text

  type Entries<V> = seq<(string, V)>

  /** A term's variables and their powers. */
  type PowerMap = Entries<int>

  /** No key has two entries. */
  predicate Distinct<V>(m: Entries<V>) {
    forall i, j :: 0 <= i < j < |m| ==> m[i].0 != m[j].0
  }

  predicate Has<V>(m: Entries<V>, k: string) {
    exists i :: 0 <= i < |m| && m[i].0 == k
  }

  /** `m.get(k)`: the first entry under the key. */
  function Lookup<V>(m: Entries<V>, k: string): Option<V> {
    if m == [] then None else if m[0].0 == k then Some(m[0].1) else Lookup(m[1..], k)
  }

  /** `m.get(k) || 0` */
  function Get(m: PowerMap, k: string): int {
    match Lookup(m, k)
    case Some(v) => v
    case None => 0
  }

  /** `m.set(k, v)` */
  function Put<V>(m: Entries<V>, k: string, v: V): (r: Entries<V>)
    ensures |r| == if Has(m, k) then |m| else |m| + 1
  {
    if m == [] then [(k, v)]
    else if m[0].0 == k then [(k, v)] + m[1..]
    else
      assert Has(m, k) <==> Has(m[1..], k) by { HasTail(m, k); }
      [m[0]] + Put(m[1..], k, v)
  }

  /** The keys in iteration order. */
  function Keys<V>(m: Entries<V>): (r: seq<string>)
    ensures |r| == |m| && forall i :: 0 <= i < |m| ==> r[i] == m[i].0
  {
    seq(|m|, i requires 0 <= i < |m| => m[i].0)
  }

  /** The values in iteration order. */
  function Values<V>(m: Entries<V>): (r: seq<V>)
    ensures |r| == |m| && forall i :: 0 <= i < |m| ==> r[i] == m[i].1
  {
    seq(|m|, i requires 0 <= i < |m| => m[i].1)
  }

  /** A `forEach` that pushes every value onto a fresh array. */
  method ValuesOf<V>(m: Entries<V>) returns (r: seq<V>)
    ensures r == Values(m)
  {
    r := [];
    var j := 0;
    while j < |m|
      invariant 0 <= j <= |m|
      invariant |r| == j && forall k :: 0 <= k < j ==> r[k] == m[k].1
    {
      r := r + [m[j].1];
      j := j + 1;
    }
  }

  /** `forEach(power => sum += power)` */
  function Sum(m: PowerMap): int {
    if m == [] then 0 else m[0].1 + Sum(m[1..])
  }

  /** The `forEach` loop that adds up the powers. */
  method SumPowers(m: PowerMap) returns (sum: int)
    ensures sum == Sum(m)
  {
    sum := 0;
    var j := 0;
    while j < |m|
      invariant 0 <= j <= |m|
      invariant sum + Sum(m[j..]) == Sum(m)
    {
      assert m[j..][1..] == m[j + 1..];
      sum := sum + m[j].1;
      j := j + 1;
    }
  }

  /** A key is present exactly when it heads the map or is in its tail. */
  lemma HasTail<V>(m: Entries<V>, k: string)
    requires m != []
    ensures Has(m, k) <==> m[0].0 == k || Has(m[1..], k)
  {
    if Has(m, k) {
      var i :| 0 <= i < |m| && m[i].0 == k;
      if i > 0 {
        assert m[1..][i - 1] == m[i];
      }
    }
    if Has(m[1..], k) {
      var i :| 0 <= i < |m[1..]| && m[1..][i].0 == k;
      assert m[i + 1] == m[1..][i];
    }
  }

  /** `get` finds a value exactly for the keys that have an entry. */
  lemma {:induction false} LookupHas<V>(m: Entries<V>, k: string)
    ensures Lookup(m, k).Some? <==> Has(m, k)
    decreases |m|
  {
    if m != [] {
      HasTail(m, k);
      LookupHas(m[1..], k);
    }
  }

  /** After `set`, the key holds the new value and every other key its old one. */
  lemma {:induction false} PutLookup<V>(m: Entries<V>, k: string, v: V, j: string)
    ensures Lookup(Put(m, k, v), j) == if j == k then Some(v) else Lookup(m, j)
    decreases |m|
  {
    if m != [] && m[0].0 != k {
      PutLookup(m[1..], k, v, j);
      assert Put(m, k, v)[1..] == Put(m[1..], k, v);
    }
  }

  /** `set` adds its key and no other. */
  lemma {:induction false} PutHas<V>(m: Entries<V>, k: string, v: V, j: string)
    ensures Has(Put(m, k, v), j) <==> j == k || Has(m, j)
    decreases |m|
  {
    if m != [] && m[0].0 != k {
      PutHas(m[1..], k, v, j);
      HasTail(m, j);
      HasTail(Put(m, k, v), j);
      assert Put(m, k, v)[1..] == Put(m[1..], k, v);
    } else if m != [] {
      HasTail(m, j);
      HasTail(Put(m, k, v), j);
      assert Put(m, k, v)[1..] == m[1..];
    } else {
      assert Put(m, k, v)[0].0 == k;
    }
  }

  /** `set` on a present key keeps the keys and their order. */
  lemma {:induction false} PutKeys<V>(m: Entries<V>, k: string, v: V)
    requires Has(m, k)
    ensures Keys(Put(m, k, v)) == Keys(m)
    decreases |m|
  {
    HasTail(m, k);
    if m[0].0 != k {
      PutKeys(m[1..], k, v);
      var r := Put(m, k, v);
      assert r[1..] == Put(m[1..], k, v);
      assert |r| == |m|;
      forall i | 0 <= i < |m| ensures r[i].0 == m[i].0 {
        if i > 0 {
          assert r[i] == r[1..][i - 1];
          assert Keys(r[1..])[i - 1] == Keys(m[1..])[i - 1];
        }
      }
    }
  }

  /** `set` on an absent key appends its entry. */
  lemma {:induction false} PutAppends<V>(m: Entries<V>, k: string, v: V)
    requires !Has(m, k)
    ensures Put(m, k, v) == m + [(k, v)]
    decreases |m|
  {
    if m != [] {
      HasTail(m, k);
      PutAppends(m[1..], k, v);
      assert m == [m[0]] + m[1..];
    }
  }

  /** `set` keeps the keys distinct. */
  lemma {:induction false} PutDistinct<V>(m: Entries<V>, k: string, v: V)
    requires Distinct(m)
    ensures Distinct(Put(m, k, v))
    decreases |m|
  {
    if m != [] {
      assert Distinct(m[1..]);
      PutDistinct(m[1..], k, v);
      var r := Put(m, k, v);
      forall i, j | 0 <= i < j < |r|
        ensures r[i].0 != r[j].0
      {
        if i == 0 {
          PutHas(m[1..], k, v, r[j].0);
          assert Has(Put(m[1..], k, v), r[j].0) by {
            assert Put(m[1..], k, v)[j - 1] == r[j] || r[1..] == m[1..];
          }
          if m[0].0 == k {
            assert r[1..] == m[1..];
            assert m[j].0 == r[j].0;
          } else {
            assert r[1..] == Put(m[1..], k, v);
            HasTail(m, r[j].0);
            if Has(m[1..], r[j].0) {
              var t :| 0 <= t < |m[1..]| && m[1..][t].0 == r[j].0;
              assert m[t + 1].0 == r[j].0;
            }
          }
        }
      }
    }
  }

  /** `set` changes the sum of the powers by the change at the key. */
  lemma {:induction false} PutSum(m: PowerMap, k: string, v: int)
    requires Distinct(m)
    ensures Sum(Put(m, k, v)) == Sum(m) - Get(m, k) + v
    decreases |m|
  {
    if m != [] {
      assert Distinct(m[1..]);
      if m[0].0 == k {
        assert Put(m, k, v)[1..] == m[1..];
      } else {
        assert Put(m, k, v)[1..] == Put(m[1..], k, v);
        PutSum(m[1..], k, v);
      }
    }
  }

  /** A key is present exactly when it is among the keys. */
  lemma HasKeys<V>(m: Entries<V>, k: string)
    ensures Has(m, k) <==> k in Keys(m)
  {
    if Has(m, k) {
      var i :| 0 <= i < |m| && m[i].0 == k;
      assert Keys(m)[i] == k;
    }
  }

  /** Every entry after `set` is the new one or an old one. */
  lemma {:induction false} PutEntries<V>(m: Entries<V>, k: string, v: V, e: (string, V))
    requires e in Put(m, k, v)
    ensures e == (k, v) || e in m
    decreases |m|
  {
    if m != [] && m[0].0 != k {
      var r := Put(m, k, v);
      assert r == [m[0]] + Put(m[1..], k, v);
      if e != m[0] {
        assert e in Put(m[1..], k, v);
        PutEntries(m[1..], k, v, e);
      }
    } else if m != [] {
      assert Put(m, k, v) == [(k, v)] + m[1..];
    }
  }

  /** In a map with one entry per key, each entry is what `get` finds under its key. */
  lemma {:induction false} LookupEntry<V>(m: Entries<V>, i: nat)
    requires Distinct(m) && i < |m|
    ensures Lookup(m, m[i].0) == Some(m[i].1)
    decreases i
  {
    if i > 0 {
      assert m[0].0 != m[i].0;
      assert Distinct(m[1..]);
      assert m[1..][i - 1] == m[i];
      LookupEntry(m[1..], i - 1);
    }
  }

  /** The last entry's key reads its value; other keys read as in the entries before it. */
  lemma {:induction false} LookupSnoc<V>(m: Entries<V>, e: (string, V), k: string)
    ensures Lookup(m + [e], k) == if Lookup(m, k).Some? then Lookup(m, k) else if e.0 == k then Some(e.1) else None
    decreases |m|
  {
    if m != [] {
      assert (m + [e])[1..] == m[1..] + [e];
      LookupSnoc(m[1..], e, k);
    }
  }

  /** In a map with one entry per key, the last key is not among the earlier ones. */
  lemma LastNew<V>(m: Entries<V>)
    requires Distinct(m) && m != []
    ensures !Has(m[..|m| - 1], m[|m| - 1].0)
  {
    var front := m[..|m| - 1];
    forall i | 0 <= i < |front| ensures front[i].0 != m[|m| - 1].0 {
      assert front[i] == m[i];
    }
  }

  /** The `${variable}^${power}` pieces, concatenated in iteration order. */
  function Signature(m: PowerMap): string {
    if m == [] then "" else m[0].0 + "^" + IntStr(m[0].1) + Signature(m[1..])
  }
}
