/** RLEagerTokenizer (src/Parse/Tokenizing/RLEagerTokenizer.ts): splits an identifier
    such as `xy` into known identifiers and single characters, right to left, with `*`
    tokens between the pieces. */
module RLEagerTokenizer {
  import opened Tokens

  /** Luau `string.sub(s, i, j)`: positions count from 1, both ends are included, and a
      negative position counts back from the end (-1 is the last character). */
  function Sub(s: string, i: int, j: int): string {
    var l := |s|;
    var start := if i < 0 then (if i + l + 1 < 0 then 0 else i + l + 1) else i;
    var end := if j < 0 then (if j + l + 1 < 0 then 0 else j + l + 1) else j;
    var start' := if start < 1 then 1 else start;
    var end' := if end > l then l else end;
    if start' <= end' then s[start' - 1..end'] else ""
  }

  /** `sub(2)` drops the first character, and `sub(1, -(k + 1))` drops the last k. */
  lemma SubSpec(s: string, k: int)
    requires 0 <= k <= |s|
    ensures Sub(s, 2, -1) == if s == [] then [] else s[1..]
    ensures Sub(s, 1, -(k + 1)) == s[..|s| - k]
  {
  }

  /** EagerTokenizer: the longest suffix of the value that is an identifier, or else its
      last character; the index moves past the characters dropped. The caller never passes
      an empty value. */
  function Eager(input: Token, identifiers: set<string>): (r: Token)
    requires input.value != []
    decreases |input.value|
  {
    if |input.value| == 1 then input
    else if input.value in identifiers then input
    else
      SubSpec(input.value, 0);
      Eager(Token(input.kind, Sub(input.value, 2, -1), input.index + 1), identifiers)
  }

  /** The piece EagerTokenizer finds is a non-empty suffix of the value; it is an identifier
      or a single character; no longer suffix is an identifier; its index is where it
      starts. */
  lemma {:induction false} EagerSpec(input: Token, identifiers: set<string>)
    requires input.value != []
    ensures var r := Eager(input, identifiers);
      && r.kind == input.kind
      && 1 <= |r.value| <= |input.value|
      && r.value == input.value[|input.value| - |r.value|..]
      && r.index == input.index + |input.value| - |r.value|
      && (|r.value| == 1 || r.value in identifiers)
      && forall k :: 0 <= k < |input.value| - |r.value| ==> input.value[k..] !in identifiers
    decreases |input.value|
  {
    if |input.value| > 1 && input.value !in identifiers {
      SubSpec(input.value, 0);
      var next := Token(input.kind, input.value[1..], input.index + 1);
      EagerSpec(next, identifiers);
      var r := Eager(input, identifiers);
      forall k | 0 <= k < |input.value| - |r.value| ensures input.value[k..] !in identifiers {
        if k > 0 {
          assert input.value[k..] == next.value[k - 1..];
        }
      }
    }
  }

  /** Which value the loop goes on with: the code takes it from the piece just found, the
      corrected loop from the value the piece was found in. */
  datatype Remainder = AsWritten | Corrected

  /** The loop's next input: `sub(1, -(n + 1))` of the chosen value, n the piece's length,
      at the index moved on by n. */
  function Rest(input: Token, piece: Token, rule: Remainder): Token {
    var from := if rule == AsWritten then piece.value else input.value;
    Token(input.kind, Sub(from, 1, -(|piece.value| + 1)), input.index + |piece.value|)
  }

  /** The loop's next input under either rule is shorter: empty as written, the value less
      the piece when corrected. */
  lemma RestSpec(input: Token, identifiers: set<string>)
    requires input.value != []
    ensures var piece := Eager(input, identifiers);
      && 1 <= |piece.value| <= |input.value|
      && Rest(input, piece, AsWritten).value == []
      && Rest(input, piece, Corrected).value == input.value[..|input.value| - |piece.value|]
      && Rest(input, piece, Corrected).value + piece.value == input.value
  {
    var piece := Eager(input, identifiers);
    EagerSpec(input, identifiers);
    var n, l := |piece.value|, |input.value|;
    assert piece.value == input.value[l - n..];
    SubSpec(piece.value, n);
    SubSpec(input.value, n);
    assert Rest(input, piece, AsWritten).value == piece.value[..0];
    assert Rest(input, piece, Corrected).value == input.value[..l - n];
    assert input.value[..l - n] + input.value[l - n..] == input.value;
  }

  /** The tokens RLEagerTokenizer returns under a rule: each piece, then `*` while a
      remainder is left. */
  function Split(input: Token, identifiers: set<string>, rule: Remainder): seq<Token>
    decreases |input.value|
  {
    if input.value == [] then []
    else
      var piece := Eager(input, identifiers);
      var next := Rest(input, piece, rule);
      RestSpec(input, identifiers);
      [piece] + (if next.value != [] then [Star(next.index)] else []) + Split(next, identifiers, rule)
  }

  /** RLEagerTokenizer as written. */
  function SplitAsWritten(input: Token, identifiers: set<string>): seq<Token> {
    Split(input, identifiers, AsWritten)
  }

  /** RLEagerTokenizer with the remainder taken from the input. */
  function SplitOf(input: Token, identifiers: set<string>): seq<Token> {
    Split(input, identifiers, Corrected)
  }

  /** As written, the loop runs once: only the rightmost piece is returned, and the rest of
      the identifier is lost. */
  lemma SplitAsWrittenSpec(input: Token, identifiers: set<string>)
    ensures SplitAsWritten(input, identifiers) == if input.value == [] then [] else [Eager(input, identifiers)]
  {
    if input.value != [] {
      RestSpec(input, identifiers);
      var next := Rest(input, Eager(input, identifiers), AsWritten);
      assert Split(next, identifiers, AsWritten) == [];
    }
  }

  /** `xy` with no known identifiers comes back as the single token `y`. */
  lemma SplitDropsPieces()
    ensures SplitAsWritten(Token(Identifier, "xy", 0), {}) == [Token(Identifier, "y", 1)]
    ensures SplitOf(Token(Identifier, "xy", 0), {})
      == [Token(Identifier, "y", 1), Star(1), Token(Identifier, "x", 1)]
  {
    var input := Token(Identifier, "xy", 0);
    SplitAsWrittenSpec(input, {});
    SubSpec("xy", 0);
    assert Eager(input, {}) == Token(Identifier, "y", 1);
    RestSpec(input, {});
    var next := Rest(input, Eager(input, {}), Corrected);
    assert next == Token(Identifier, "x", 1);
    assert Eager(next, {}) == next;
    RestSpec(next, {});
  }

  /** The piece values, read from the last token back, glued together. */
  function Glued(ts: seq<Token>): string
    decreases |ts|
  {
    if ts == [] then ""
    else (if |ts| >= 2 then Glued(ts[2..]) else "") + ts[0].value
  }

  /** The split of a non-empty value under either rule: the piece, then, while a remainder
      is left, `*` and the split of the remainder; corrected, the remainder and the piece
      make up the value. */
  lemma SplitStep(input: Token, identifiers: set<string>, rule: Remainder)
    requires input.value != []
    ensures var piece := Eager(input, identifiers);
      var next := Rest(input, piece, rule);
      && (rule == Corrected ==> next.value + piece.value == input.value)
      && (next.value == [] ==> Split(input, identifiers, rule) == [piece])
      && (next.value != [] ==> Split(input, identifiers, rule) == [piece, Star(next.index)] + Split(next, identifiers, rule))
  {
    var piece := Eager(input, identifiers);
    var next := Rest(input, piece, rule);
    assert Split(input, identifiers, rule)
      == [piece] + (if next.value != [] then [Star(next.index)] else []) + Split(next, identifiers, rule);
    if rule == Corrected {
      RestSpec(input, identifiers);
    }
    if next.value == [] {
      assert Split(next, identifiers, rule) == [];
    }
  }

  /** Pieces are on the even positions and `*` tokens between them, none trailing; every
      piece is a known identifier or one character. */
  lemma {:induction false} SplitShape(input: Token, identifiers: set<string>)
    ensures var r := SplitOf(input, identifiers);
      && (r == [] <==> input.value == [])
      && (r != [] ==> |r| % 2 == 1)
      && (forall k :: 0 <= k < |r| && k % 2 == 1 ==> r[k] == Star(r[k].index))
      && (forall k :: 0 <= k < |r| && k % 2 == 0 ==>
            r[k].kind == input.kind && r[k].value != [] && (|r[k].value| == 1 || r[k].value in identifiers))
    decreases |input.value|
  {
    if input.value != [] {
      var piece := Eager(input, identifiers);
      var next := Rest(input, piece, Corrected);
      EagerSpec(input, identifiers);
      SplitStep(input, identifiers, Corrected);
      if next.value != [] {
        SplitShape(next, identifiers);
        var tail := SplitOf(next, identifiers);
        var r := SplitOf(input, identifiers);
        forall k | 2 <= k < |r|
          ensures r[k] == tail[k - 2]
        {
        }
      }
    }
  }

  /** The pieces, read right to left, glue back to the input value. */
  lemma {:induction false} SplitGlued(input: Token, identifiers: set<string>)
    ensures Glued(SplitOf(input, identifiers)) == input.value
    decreases |input.value|
  {
    if input.value != [] {
      var piece := Eager(input, identifiers);
      var next := Rest(input, piece, Corrected);
      SplitStep(input, identifiers, Corrected);
      RestSpec(input, identifiers);
      if next.value != [] {
        SplitGlued(next, identifiers);
        var r := SplitOf(input, identifiers);
        assert r[2..] == SplitOf(next, identifiers);
      }
    }
  }

  /** RLEagerTokenizer under a rule: the loop cuts the rest from the piece just found as
      written, from the value it was found in when corrected. */
  method Tokenize(token: Token, identifiers: set<string>, rule: Remainder) returns (result: seq<Token>)
    ensures result == Split(token, identifiers, rule)
  {
    result := [];
    var input := token;
    while input.value != []
      invariant result + Split(input, identifiers, rule) == Split(token, identifiers, rule)
      decreases |input.value|
    {
      var newToken := Eager(input, identifiers);
      SplitStep(input, identifiers, rule);
      RestSpec(input, identifiers);
      result := result + [newToken];
      var from := if rule == AsWritten then newToken.value else input.value;
      input := Token(input.kind, Sub(from, 1, -(|newToken.value| + 1)), input.index + |newToken.value|);
      if input.value != [] {
        result := result + [Star(input.index)];
      }
    }
  }
}
