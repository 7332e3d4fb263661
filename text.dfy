/** Host string operations the source relies on: `tostring` of an integral number and
    `join`. Numbers that hold integers print as their decimal digits, with a leading "-"
    when negative; the host's exponent notation for huge values is not modelled. */
module Text {

  function DigitChar(d: nat): char
    requires d < 10
  {
    "0123456789"[d]
  }

  /** The decimal digits of n, most significant first. */
  function NatStr(n: nat): (r: string)
    ensures |r| > 0
    decreases n
  {
    if n < 10 then [DigitChar(n)] else NatStr(n / 10) + [DigitChar(n % 10)]
  }

  /** A number that holds an integer, as the host prints it. */
  function IntStr(i: int): (r: string)
    ensures |r| > 0
  {
    if i < 0 then "-" + NatStr(-i) else NatStr(i)
  }

  predicate IsDigit(c: char) {
    '0' <= c <= '9'
  }

  /** The reference reading of a digit string, most significant first. */
  function DigitsValue(s: string): nat
    requires forall k :: 0 <= k < |s| ==> IsDigit(s[k])
  {
    if s == [] then 0 else 10 * DigitsValue(s[..|s| - 1]) + DigitValue(s[|s| - 1])
  }

  function DigitValue(c: char): nat
    requires IsDigit(c)
  {
    c as int - '0' as int
  }

  /** The reading of IntStr's output back into a number. */
  function ParseInt(s: string): int
    requires |s| > 0
    requires forall k :: 0 <= k < |s| ==> IsDigit(s[k]) || (k == 0 && s[k] == '-')
  {
    if s[0] == '-' then 0 - DigitsValue(s[1..]) else DigitsValue(s)
  }

  lemma DigitCharValue(d: nat)
    requires d < 10
    ensures IsDigit(DigitChar(d)) && DigitValue(DigitChar(d)) == d
  {
  }

  lemma {:induction false} NatStrDigits(n: nat)
    ensures forall k :: 0 <= k < |NatStr(n)| ==> IsDigit(NatStr(n)[k])
    ensures DigitsValue(NatStr(n)) == n
    decreases n
  {
    if n < 10 {
      DigitCharValue(n);
      assert NatStr(n)[..0] == [];
    } else {
      var s := NatStr(n);
      NatStrDigits(n / 10);
      DigitCharValue(n % 10);
      assert s[..|s| - 1] == NatStr(n / 10);
    }
  }

  /** IntStr's output is a sign and digits, and ParseInt reads it back. */
  lemma IntStrRoundTrip(i: int)
    ensures forall k :: 0 <= k < |IntStr(i)| ==> IsDigit(IntStr(i)[k]) || (k == 0 && IntStr(i)[k] == '-')
    ensures ParseInt(IntStr(i)) == i
  {
    if i < 0 {
      NatStrDigits(-i);
      assert IntStr(i)[1..] == NatStr(-i);
    } else {
      NatStrDigits(i);
    }
  }

  /** Distinct numbers print differently. */
  lemma IntStrInjective(i: int, j: int)
    requires IntStr(i) == IntStr(j)
    ensures i == j
  {
    IntStrRoundTrip(i);
    IntStrRoundTrip(j);
  }

  /** `array.join(sep)`. */
  function Join(parts: seq<string>, sep: string): string {
    if parts == [] then ""
    else if |parts| == 1 then parts[0]
    else parts[0] + sep + Join(parts[1..], sep)
  }

  /** The character does not occur in s. */
  predicate Avoids(s: string, c: char) {
    forall k :: 0 <= k < |s| ==> s[k] != c
  }

  lemma IntStrAvoids(i: int, c: char)
    requires c != '-' && !IsDigit(c)
    ensures Avoids(IntStr(i), c)
  {
    IntStrRoundTrip(i);
  }

  /** Cutting at the first separator: the parts before it are equal, and so are the rests. */
  lemma SplitAt(u: string, v: string, c: char, x: string, y: string)
    requires Avoids(u, c) && Avoids(v, c) && u + [c] + x == v + [c] + y
    ensures u == v && x == y
  {
    FirstOccurrence(u, c, x);
    FirstOccurrence(v, c, y);
    var w := u + [c] + x;
    assert |u| == |v|;
    assert u == w[..|u|] && v == (v + [c] + y)[..|v|];
    assert x == w[|u| + 1..] && y == (v + [c] + y)[|v| + 1..];
  }

  /** In u + [c] + x with u free of c, the first c is at |u|. */
  lemma FirstOccurrence(u: string, c: char, x: string)
    requires Avoids(u, c)
    ensures (u + [c] + x)[|u|] == c
    ensures forall k :: 0 <= k < |u| ==> (u + [c] + x)[k] != c
  {
    assert forall k :: 0 <= k < |u| ==> (u + [c] + x)[k] == u[k];
  }

  lemma JoinAvoids(parts: seq<string>, sep: char, c: char)
    requires c != sep && forall k :: 0 <= k < |parts| ==> Avoids(parts[k], c)
    ensures Avoids(Join(parts, [sep]), c)
  {
    if |parts| > 1 {
      JoinAvoids(parts[1..], sep, c);
    }
  }

  /** Joining nonempty parts that avoid the separator loses nothing. */
  lemma {:induction false} JoinInjective(us: seq<string>, vs: seq<string>, c: char)
    requires forall k :: 0 <= k < |us| ==> |us[k]| > 0 && Avoids(us[k], c)
    requires forall k :: 0 <= k < |vs| ==> |vs[k]| > 0 && Avoids(vs[k], c)
    requires Join(us, [c]) == Join(vs, [c])
    ensures us == vs
  {
    JoinShape(us, c);
    JoinShape(vs, c);
    if |us| >= 2 {
      SplitAt(us[0], vs[0], c, Join(us[1..], [c]), Join(vs[1..], [c]));
      JoinInjective(us[1..], vs[1..], c);
      assert us == [us[0]] + us[1..] && vs == [vs[0]] + vs[1..];
    }
  }

  /** A join of parts free of the separator contains it exactly when there are two parts
      or more; it is empty exactly when there are none. */
  lemma JoinShape(parts: seq<string>, c: char)
    requires forall k :: 0 <= k < |parts| ==> |parts[k]| > 0 && Avoids(parts[k], c)
    ensures |parts| >= 2 ==> Join(parts, [c]) == parts[0] + [c] + Join(parts[1..], [c]) && !Avoids(Join(parts, [c]), c)
    ensures |parts| < 2 ==> Avoids(Join(parts, [c]), c)
    ensures (Join(parts, [c]) == []) <==> parts == []
  {
    if |parts| >= 2 {
      FirstOccurrence(parts[0], c, Join(parts[1..], [c]));
    }
  }

  /** Appending one part to a join, as a loop that adds a separator before every part
      but the first does. */
  lemma {:induction false} JoinSnoc(parts: seq<string>, x: string, sep: string)
    ensures Join(parts + [x], sep) == if parts == [] then x else Join(parts, sep) + sep + x
  {
    if |parts| == 1 {
      assert parts + [x] == [parts[0], x];
    } else if |parts| > 1 {
      assert (parts + [x])[1..] == parts[1..] + [x];
      JoinSnoc(parts[1..], x, sep);
    }
  }
}
