/** The token record the tokenizers produce and the parser reads (src/Typescript/Parsing.ts). */
module Tokens {
  datatype TokenType =
    | Literal | Identifier | Comma | LeftParenthesis | RightParenthesis | Absolute
    | LeftSquareBracket | RightSquareBracket | Add | Subtract | Multiply | Divide
    | Exponentiation | Factorial | LeftCurlyBracket | RightCurlyBracket

  /** `type` is a Dafny keyword, so the field is `kind`. */
  datatype Token = Token(kind: TokenType, value: string, index: int)

  /** The `*` token the tokenizers insert at a position. */
  function Star(index: int): Token {
    Token(Multiply, "*", index)
  }
}
