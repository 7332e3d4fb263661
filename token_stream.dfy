/** TokenStream (src/Parse/Tokenizing/TokenStream.ts): the token list the parser reads
    with a cursor, built by tokenizing, splitting identifiers and inserting implicit `*`
    tokens. */
module TokenStreams {
  import opened Wrappers
  import opened Tokens
  import RL = RLEagerTokenizer

  /** What tokenize accepts: source text, given here as the tokens the Tokenizer reads from
      it, or a ready token list. */
  datatype Input = Source(lexed: seq<Token>) | TokenList(tokens: seq<Token>)

  /** processInput: text appends its tokens to the list, a token list replaces it. */
  function Processed(tokens: seq<Token>, input: Input): seq<Token> {
    match input
    case Source(lexed) => tokens + lexed
    case TokenList(ts) => ts
  }

  /** RLEagerTokenize on one token: an identifier is split (against the constant names,
      under the splitter's rule), any other token kept. */
  function Replacement(t: Token, identifiers: set<string>, rule: RL.Remainder): seq<Token> {
    if t.kind == Identifier then RL.Split(t, identifiers, rule) else [t]
  }

  /** RLEagerTokenize: the replacements, in order. */
  function Expanded(ts: seq<Token>, identifiers: set<string>, rule: RL.Remainder): seq<Token>
    decreases |ts|
  {
    if ts == [] then [] else Expanded(ts[..|ts| - 1], identifiers, rule) + Replacement(ts[|ts| - 1], identifiers, rule)
  }

  /** Splitting a list splits each part in place: tokens keep their order. */
  lemma {:induction false} ExpandedAppend(a: seq<Token>, b: seq<Token>, identifiers: set<string>, rule: RL.Remainder)
    ensures Expanded(a + b, identifiers, rule) == Expanded(a, identifiers, rule) + Expanded(b, identifiers, rule)
    decreases |b|
  {
    if b != [] {
      var front := b[..|b| - 1];
      assert (a + b)[..|a + b| - 1] == a + front;
      assert (a + b)[|a + b| - 1] == b[|b| - 1];
      ExpandedAppend(a, front, identifiers, rule);
    } else {
      assert a + b == a;
    }
  }

  /** With no identifiers in the list, RLEagerTokenize changes nothing. */
  lemma {:induction false} ExpandedKeeps(ts: seq<Token>, identifiers: set<string>, rule: RL.Remainder)
    requires forall i :: 0 <= i < |ts| ==> ts[i].kind != Identifier
    ensures Expanded(ts, identifiers, rule) == ts
    decreases |ts|
  {
    if ts != [] {
      ExpandedKeeps(ts[..|ts| - 1], identifiers, rule);
    }
  }

  /** After RLEagerTokenize, every identifier of more than one character is a known one,
      and nothing but the inserted `*` tokens is new. */
  lemma {:induction false} ExpandedIdentifiers(ts: seq<Token>, identifiers: set<string>, rule: RL.Remainder)
    ensures forall t :: t in Expanded(ts, identifiers, rule) && t.kind == Identifier ==>
      |t.value| == 1 || t.value in identifiers
    ensures forall t :: t in Expanded(ts, identifiers, rule) ==> t in ts || t.kind == Identifier || t == Star(t.index)
    decreases |ts|
  {
    if ts != [] {
      var front := ts[..|ts| - 1];
      var last := ts[|ts| - 1];
      ExpandedIdentifiers(front, identifiers, rule);
      var r := Replacement(last, identifiers, rule);
      if last.kind == Identifier {
        if rule == RL.Corrected {
          RL.SplitShape(last, identifiers);
        } else {
          RL.SplitAsWrittenSpec(last, identifiers);
          if last.value != [] {
            RL.EagerSpec(last, identifiers);
          }
        }
        forall t | t in r ensures t.kind == Identifier ==> |t.value| == 1 || t.value in identifiers
          ensures t.kind == Identifier || t == Star(t.index)
        {
          var k :| 0 <= k < |r| && r[k] == t;
        }
      }
      forall t | t in Expanded(front, identifiers, rule) ensures t in front ==> t in ts {
        if t in front {
          var k :| 0 <= k < |front| && front[k] == t;
          assert ts[k] == t;
        }
      }
    }
  }

  /** The two splitter rules on one identifier: as written only the rightmost piece is
      kept; corrected, the pieces spell the identifier. */
  lemma ReplacementRules(t: Token, identifiers: set<string>)
    requires t.kind == Identifier
    ensures Replacement(t, identifiers, RL.AsWritten) == if t.value == [] then [] else [RL.Eager(t, identifiers)]
    ensures RL.Glued(Replacement(t, identifiers, RL.Corrected)) == t.value
  {
    RL.SplitAsWrittenSpec(t, identifiers);
    RL.SplitGlued(t, identifiers);
  }

  /** The stream of `xy` with no known constants: the code's splitter leaves `y` alone, the
      corrected one `y`, `*`, `x`. */
  lemma ExpandedXY()
    ensures Expanded([Token(Identifier, "xy", 0)], {}, RL.AsWritten) == [Token(Identifier, "y", 1)]
    ensures Expanded([Token(Identifier, "xy", 0)], {}, RL.Corrected)
      == [Token(Identifier, "y", 1), Star(1), Token(Identifier, "x", 1)]
  {
    var ts := [Token(Identifier, "xy", 0)];
    assert ts[..0] == [];
    RL.SplitDropsPieces();
  }

  /** The token kinds after which a `*` may be implied. */
  predicate LeftOperand(k: TokenType) {
    k in {Literal, Identifier, RightParenthesis, RightSquareBracket, RightCurlyBracket, Factorial}
  }

  /** The token kinds before which a `*` may be implied. */
  predicate RightOperand(k: TokenType) {
    k in {Literal, Identifier, LeftParenthesis, LeftSquareBracket, LeftCurlyBracket, Absolute}
  }

  /** shouldInsertMultiplication */
  predicate ShouldInsertMultiplication(current: Token, next: Token, functions: set<string>) {
    && LeftOperand(current.kind) && RightOperand(next.kind)
    && !(current.kind == Literal && next.kind == Literal)
    && current.value !in functions
  }

  /** The pairs the code lists as examples get a `*`; two literals, a function name before
      its parenthesis and an operator do not. */
  lemma ShouldInsertExamples(functions: set<string>)
    requires "sin" in functions && "2" !in functions && "x" !in functions
    requires ")" !in functions && "]" !in functions && "}" !in functions && "!" !in functions
    ensures ShouldInsertMultiplication(Token(Literal, "2", 0), Token(Identifier, "x", 1), functions)
    ensures ShouldInsertMultiplication(Token(Identifier, "x", 0), Token(Literal, "2", 1), functions)
    ensures ShouldInsertMultiplication(Token(RightParenthesis, ")", 4), Token(Identifier, "y", 5), functions)
    ensures ShouldInsertMultiplication(Token(RightSquareBracket, "]", 4), Token(Identifier, "x", 5), functions)
    ensures ShouldInsertMultiplication(Token(RightCurlyBracket, "}", 4), Token(Identifier, "x", 5), functions)
    ensures ShouldInsertMultiplication(Token(Factorial, "!", 1), Token(Identifier, "x", 2), functions)
    ensures ShouldInsertMultiplication(Token(Identifier, "x", 0), Token(LeftParenthesis, "(", 1), functions)
    ensures ShouldInsertMultiplication(Token(Identifier, "x", 0), Token(Absolute, "|", 1), functions)
    ensures !ShouldInsertMultiplication(Token(Literal, "2", 0), Token(Literal, "3", 2), functions)
    ensures !ShouldInsertMultiplication(Token(Identifier, "sin", 0), Token(LeftParenthesis, "(", 3), functions)
    ensures !ShouldInsertMultiplication(Token(Identifier, "x", 0), Token(Add, "+", 1), functions)
  {
  }

  /** The `*` implied after a token, placed just past its text. */
  function ImpliedStar(t: Token): Token {
    Star(t.index + |t.value|)
  }

  /** What implicitMultiplication emits for token k: the token, then `*` when the next
      token calls for it. */
  function Emitted(ts: seq<Token>, k: int, functions: set<string>): seq<Token>
    requires 0 <= k < |ts|
  {
    [ts[k]] + (if k + 1 < |ts| && ShouldInsertMultiplication(ts[k], ts[k + 1], functions) then [ImpliedStar(ts[k])] else [])
  }

  /** What implicitMultiplication emits for the first i tokens. */
  function Steps(ts: seq<Token>, i: int, functions: set<string>): seq<Token>
    requires 0 <= i <= |ts|
    decreases i
  {
    if i == 0 then [] else Steps(ts, i - 1, functions) + Emitted(ts, i - 1, functions)
  }

  /** implicitMultiplication */
  function Implicit(ts: seq<Token>, functions: set<string>): seq<Token> {
    Steps(ts, |ts|, functions)
  }

  /** Where token k lands in the result. */
  function Position(ts: seq<Token>, k: int, functions: set<string>): int
    requires 0 <= k <= |ts|
  {
    |Steps(ts, k, functions)|
  }

  /** What is emitted for fewer tokens is a prefix of what is emitted for more. */
  lemma {:induction false} StepsPrefix(ts: seq<Token>, i: int, j: int, functions: set<string>)
    requires 0 <= i <= j <= |ts|
    ensures Steps(ts, i, functions) <= Steps(ts, j, functions)
    decreases j - i
  {
    if i < j {
      StepsPrefix(ts, i, j - 1, functions);
    }
  }

  /** implicitMultiplication keeps every token in order; between two neighbours it puts
      exactly one `*`, just past the left one's text, when shouldInsertMultiplication holds
      and nothing otherwise; nothing follows the last token. */
  lemma ImplicitSpec(ts: seq<Token>, functions: set<string>, k: int)
    requires 0 <= k < |ts|
    ensures var r := Implicit(ts, functions);
      && Position(ts, 0, functions) == 0
      && Position(ts, k, functions) < |r| && r[Position(ts, k, functions)] == ts[k]
      && (k + 1 < |ts| ==>
            if ShouldInsertMultiplication(ts[k], ts[k + 1], functions) then
              Position(ts, k + 1, functions) == Position(ts, k, functions) + 2
              && Position(ts, k, functions) + 1 < |r|
              && r[Position(ts, k, functions) + 1] == ImpliedStar(ts[k])
            else Position(ts, k + 1, functions) == Position(ts, k, functions) + 1)
      && (k + 1 == |ts| ==> |r| == Position(ts, k, functions) + 1)
  {
    StepsPrefix(ts, k + 1, |ts|, functions);
    var r := Implicit(ts, functions);
    var before := Steps(ts, k + 1, functions);
    assert before == Steps(ts, k, functions) + Emitted(ts, k, functions);
    assert r[..|before|] == before;
    assert r[Position(ts, k, functions)] == before[Position(ts, k, functions)];
    if k + 1 < |ts| && ShouldInsertMultiplication(ts[k], ts[k + 1], functions) {
      assert r[Position(ts, k, functions) + 1] == before[Position(ts, k, functions) + 1];
    }
  }

  /** The token list and the parser's cursor into it. */
  class TokenStream {
    var tokens: seq<Token>
    var cursor: nat
    /** The names the Tokenizer knows as functions and as constants. */
    const functions: set<string>
    const constants: set<string>
    /** The rule of the identifier splitter: the code's is RL.AsWritten. */
    const rule: RL.Remainder

    /** The constructor tokenizes its input into an empty list. */
    constructor(input: Input, functions: set<string>, constants: set<string>, rule: RL.Remainder)
      ensures this.functions == functions && this.constants == constants && this.rule == rule
      ensures tokens == Implicit(Expanded(Processed([], input), constants, rule), functions)
      ensures cursor == 0
    {
      this.functions := functions;
      this.constants := constants;
      this.rule := rule;
      tokens := [];
      cursor := 0;
      new;
      Tokenize(input);
    }

    /** tokenize: processInput, then RLEagerTokenize, then implicitMultiplication; the
        cursor stays where it was. */
    method Tokenize(input: Input)
      modifies this
      ensures tokens == Implicit(Expanded(Processed(old(tokens), input), constants, rule), functions)
      ensures cursor == old(cursor)
    {
      ProcessInput(input);
      RLEagerTokenize();
      ImplicitMultiplication();
    }

    predicate HasMoreTokens()
      reads this
    {
      cursor < |tokens|
    }

    /** nextToken: the token under the cursor, which moves on; at the end an
        UnexpectedEndOfInput error and nothing changes. */
    method NextToken() returns (r: Result<Token>)
      modifies this
      ensures tokens == old(tokens)
      ensures old(cursor) < |tokens| ==> r == Ok(tokens[old(cursor)]) && cursor == old(cursor) + 1
      ensures old(cursor) >= |tokens| ==> r == Fail(UnexpectedEndOfInput, "") && cursor == old(cursor)
    {
      if !HasMoreTokens() {
        return Fail(UnexpectedEndOfInput, "");
      }
      var token := tokens[cursor];
      cursor := cursor + 1;
      return Ok(token);
    }

    /** reset: no tokens, cursor at the start. */
    method Reset()
      modifies this
      ensures tokens == [] && cursor == 0
    {
      tokens := [];
      cursor := 0;
    }

    /** processInput */
    method ProcessInput(input: Input)
      modifies this
      ensures tokens == Processed(old(tokens), input) && cursor == old(cursor)
    {
      match input
      case Source(lexed) =>
        var i := 0;
        while i < |lexed|
          invariant 0 <= i <= |lexed|
          invariant tokens == old(tokens) + lexed[..i] && cursor == old(cursor)
        {
          tokens := tokens + [lexed[i]];
          i := i + 1;
          assert lexed[..i] == lexed[..i - 1] + [lexed[i - 1]];
        }
        assert lexed[..i] == lexed;
      case TokenList(ts) =>
        tokens := ts;
    }

    /** RLEagerTokenize: every identifier split against the constant names, under the
        stream's splitter rule. */
    method RLEagerTokenize()
      modifies this
      ensures tokens == Expanded(old(tokens), constants, rule) && cursor == old(cursor)
    {
      var eagerTokenized: seq<Token> := [];
      var i := 0;
      while i < |tokens|
        invariant 0 <= i <= |tokens|
        invariant eagerTokenized == Expanded(tokens[..i], constants, rule)
        invariant tokens == old(tokens) && cursor == old(cursor)
      {
        assert tokens[..i + 1][..i] == tokens[..i];
        var token := tokens[i];
        if token.kind == Identifier {
          var replacement := RL.Tokenize(token, constants, rule);
          eagerTokenized := eagerTokenized + replacement;
        } else {
          eagerTokenized := eagerTokenized + [token];
        }
        i := i + 1;
      }
      assert tokens[..i] == tokens;
      tokens := eagerTokenized;
    }

    /** implicitMultiplication */
    method ImplicitMultiplication()
      modifies this
      ensures tokens == Implicit(old(tokens), functions) && cursor == old(cursor)
    {
      var result: seq<Token> := [];
      var i := 0;
      while i < |tokens|
        invariant 0 <= i <= |tokens|
        invariant result == Steps(tokens, i, functions)
      {
        var current := tokens[i];
        result := result + [current];
        if i + 1 >= |tokens| {
          i := i + 1;
          break;
        }
        var nextToken := tokens[i + 1];
        if ShouldInsertMultiplication(current, nextToken, functions) {
          result := result + [ImpliedStar(current)];
        }
        i := i + 1;
      }
      tokens := result;
    }
  }
}
