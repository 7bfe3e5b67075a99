/**
 * The lexer's output: token kinds, tokens with their span, tokenize errors.
 * Spans (`pos`, `len`) are byte offsets into the scanned buffer.
 */
module Tokens {
  import opened Wrappers
  import opened Bytes

  /** The logical file name a token or error points back to; the lexer never looks inside it. */
  datatype Path = Path(name: string)

  /**
   * `TokenType`: the kinds the lexer constructs. Payload kinds own copies of
   * their bytes: a `Real` keeps its lexeme (digits, `.`, digits) in place of
   * the `f64` it parses to, and a `UInt` keeps its decimal value.
   */
  datatype TokenType =
    | Real(lexeme: seq<Byte>)
    | UInt(value: nat)
    | Identifier(name: seq<Byte>)
    | StringLiteral(text: seq<Byte>)
    | Comment(content: seq<Byte>)
    // reserved words
    | OpenQasm | Include | QReg | CReg | Barrier | Gate | If | Measure | Opaque | Reset
    // builtin constant
    | Pi
    // builtin gates
    | U | CX
    // builtin unary functions
    | Sin | Cos | Tan | Exp | Ln | Sqrt
    // punctuation
    | Plus | Minus | Times | Devide | Power | Comma | Semicolon | DoubleEqual | Arrow
    // brackets
    | LParen | RParen | LBrace | RBrace | LSqBracket | RSqBracket
  {
    /** A kind without payload: the kinds the keyword table can name. */
    predicate IsKeyword() {
      !(Real? || UInt? || Identifier? || StringLiteral? || Comment?)
    }
  }

  /** `Token`: a kind, the file it came from, and its span. */
  datatype Token = Token(token: TokenType, filename: Option<Path>, pos: nat, len: nat) {
    /** `Token::is_comment`. */
    predicate IsComment(): (b: bool)
      ensures b ==> !token.IsKeyword()
    {
      token.Comment?
    }
  }

  /** `TokenizeError`: the file, the offending span and a message. */
  datatype TokenizeError = TokenizeError(filename: Path, pos: nat, len: nat, errstr: string)

  type TokenResult = Result<Token, TokenizeError>
}
