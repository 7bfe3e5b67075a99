/**
 * The numbers, string literals and comments one call of `get_token` yields,
 * and the runs that produce them: each kind of token is exactly what the
 * run at the lexeme spells.
 */
module TokenKinds {
  import opened Wrappers
  import opened Bytes
  import opened Utf8
  import opened Tokens
  import opened Keyword
  import opened KeywordFacts
  import opened Lexer

  // Integers.

  /**
   * A `UInt` is a maximal digit run at the lexeme, closed by a byte that is
   * neither a digit nor `.`; it carries the decimal value of the digits,
   * which fits a `usize` when there are at most 19 of them.
   */
  lemma UIntToken(code: seq<Byte>, filename: Path, pos: nat, t: Token)
    requires pos <= |code| && Lex(code, filename, pos).item == Some(Ok(t)) && t.token.UInt?
    ensures t.pos == SkipWhitespace(code, pos) && t.len >= 1 && t.pos + t.len < |code|
    ensures Lex(code, filename, pos).pos == t.pos + t.len
    ensures AllDigits(code[t.pos..t.pos + t.len])
    ensures !IsAsciiDigit(code[t.pos + t.len]) && code[t.pos + t.len] != '.'
    ensures t.token.value == DecimalValue(code[t.pos..t.pos + t.len])
    ensures t.len <= 19 ==> t.token.value < 0x1_0000_0000_0000_0000
  {
    var w := SkipWhitespace(code, pos);
    UIntFromNumber(code, filename, w, t);
  }

  /** `UIntToken` for the number branch, once whitespace is skipped. */
  lemma UIntFromNumber(code: seq<Byte>, filename: Path, w: nat, t: Token)
    requires w < |code| && IsAsciiDigit(code[w])
    requires LexNumber(code, filename, w).item == Some(Ok(t)) && t.token.UInt?
    ensures t.pos == w && t.len >= 1 && t.pos + t.len < |code|
    ensures LexNumber(code, filename, w).pos == t.pos + t.len
    ensures AllDigits(code[t.pos..t.pos + t.len])
    ensures !IsAsciiDigit(code[t.pos + t.len]) && code[t.pos + t.len] != '.'
    ensures t.token.value == DecimalValue(code[t.pos..t.pos + t.len])
    ensures t.len <= 19 ==> t.token.value < 0x1_0000_0000_0000_0000
  {
    var e := RunEnd(code, w, IsAsciiDigit);
    RunEndSpec(code, w, IsAsciiDigit);
    assert e < |code| && t.pos == w && t.len == e - w;
    assert code[t.pos..t.pos + t.len] == code[w..e];
    assert t.token.value == DecimalValue(code[w..e]);
    if t.len <= 19 {
      DecimalValueFitsUsize(code[w..e]);
    }
  }

  /**
   * Conversely, a digit run at the lexeme closed by a byte that is neither a
   * digit nor `.` is one `UInt` token.
   */
  lemma IntegerRun(code: seq<Byte>, filename: Path, pos: nat, e: nat)
    requires pos <= |code| && SkipWhitespace(code, pos) < e < |code|
    requires forall i :: SkipWhitespace(code, pos) <= i < e ==> IsAsciiDigit(code[i])
    requires !IsAsciiDigit(code[e]) && code[e] != '.'
    ensures var w := SkipWhitespace(code, pos);
      AllDigits(code[w..e]) &&
      Lex(code, filename, pos) == Outcome(Some(Emit(UInt(DecimalValue(code[w..e])), filename, w, e - w)), e)
  {
    var w := SkipWhitespace(code, pos);
    RunEndUnique(code, w, IsAsciiDigit, e);
    assert LexAt(code, filename, w) == LexNumber(code, filename, w);
  }

  /**
   * Round trip: the decimal digits of any number, followed by a byte that
   * ends the run, lex back to that number.
   */
  lemma UIntRoundTrip(n: nat, b: Byte, filename: Path)
    requires !IsAsciiDigit(b) && b != '.'
    ensures var code := DecimalDigits(n) + [b];
      Lex(code, filename, 0) == Outcome(Some(Emit(UInt(n), filename, 0, |DecimalDigits(n)|)), |DecimalDigits(n)|)
  {
    var digits := DecimalDigits(n);
    var code := digits + [b];
    assert code[0] == digits[0] && !IsAsciiWhitespace(code[0]);
    assert SkipWhitespace(code, 0) == 0;
    assert code[0..|digits|] == digits;
    IntegerRun(code, filename, 0, |digits|);
    DecimalValueOfDigits(n);
  }

  // Reals.

  /**
   * A `Real` is a digit run, one `.` and a second, possibly empty, digit run
   * at the lexeme, closed by a byte that is not a digit (a second `.`, say);
   * it carries exactly those bytes.
   */
  lemma RealToken(code: seq<Byte>, filename: Path, pos: nat, t: Token)
    requires pos <= |code| && Lex(code, filename, pos).item == Some(Ok(t)) && t.token.Real?
    ensures t.pos == SkipWhitespace(code, pos) && t.pos + t.len < |code|
    ensures Lex(code, filename, pos).pos == t.pos + t.len
    ensures t.token.lexeme == code[t.pos..t.pos + t.len]
    ensures IsRealLexeme(t.token.lexeme)
    ensures !IsAsciiDigit(code[t.pos + t.len])
  {
    var w := SkipWhitespace(code, pos);
    RealFromNumber(code, filename, w, t);
  }

  /** Digits, one `.`, then digits again. */
  predicate IsRealLexeme(s: seq<Byte>) {
    exists dot :: 0 < dot < |s| && s[dot] == '.' && AllDigits(s[..dot]) && AllDigits(s[dot + 1..])
  }

  /** `RealToken` for the number branch, once whitespace is skipped. */
  lemma RealFromNumber(code: seq<Byte>, filename: Path, w: nat, t: Token)
    requires w < |code| && IsAsciiDigit(code[w])
    requires LexNumber(code, filename, w).item == Some(Ok(t)) && t.token.Real?
    ensures t.pos == w && t.pos + t.len < |code|
    ensures LexNumber(code, filename, w).pos == t.pos + t.len
    ensures t.token.lexeme == code[t.pos..t.pos + t.len]
    ensures IsRealLexeme(t.token.lexeme)
    ensures !IsAsciiDigit(code[t.pos + t.len])
  {
    var e := RunEnd(code, w, IsAsciiDigit);
    RunEndSpec(code, w, IsAsciiDigit);
    var f := RunEnd(code, e + 1, IsAsciiDigit);
    RunEndSpec(code, e + 1, IsAsciiDigit);
    assert f < |code| && t.pos == w && t.len == f - w;
    assert t.pos + t.len == f && !IsAsciiDigit(code[f]);
    var lexeme := code[w..f];
    assert lexeme[e - w] == '.' && lexeme[..e - w] == code[w..e] && lexeme[e - w + 1..] == code[e + 1..f];
    assert AllDigits(lexeme[..e - w]) && AllDigits(lexeme[e - w + 1..]);
    assert 0 < e - w < |lexeme|;
  }

  /** Conversely, such a lexeme closed by a non-digit is one `Real` token. */
  lemma RealRun(code: seq<Byte>, filename: Path, pos: nat, dot: nat, f: nat)
    requires pos <= |code| && SkipWhitespace(code, pos) < dot < f < |code|
    requires forall i :: SkipWhitespace(code, pos) <= i < dot ==> IsAsciiDigit(code[i])
    requires code[dot] == '.' && forall i :: dot < i < f ==> IsAsciiDigit(code[i])
    requires !IsAsciiDigit(code[f])
    ensures var w := SkipWhitespace(code, pos);
      Lex(code, filename, pos) == Outcome(Some(Emit(Real(code[w..f]), filename, w, f - w)), f)
  {
    var w := SkipWhitespace(code, pos);
    RunEndUnique(code, w, IsAsciiDigit, dot);
    RunEndUnique(code, dot + 1, IsAsciiDigit, f);
    assert LexAt(code, filename, w) == LexNumber(code, filename, w);
  }

  // String literals.

  /**
   * A `StringLiteral` is the body of a `"…"` at the lexeme: the span starts
   * just past the opening `"`, holds no `"`, is closed by the next `"`, which
   * is consumed, and is valid UTF-8; the token carries exactly those bytes.
   */
  lemma StringToken(code: seq<Byte>, filename: Path, pos: nat, t: Token)
    requires pos <= |code| && Lex(code, filename, pos).item == Some(Ok(t)) && t.token.StringLiteral?
    ensures var w := SkipWhitespace(code, pos); w < |code| && code[w] == '"' && t.pos == w + 1
    ensures t.pos + t.len < |code| && code[t.pos + t.len] == '"'
    ensures forall i :: t.pos <= i < t.pos + t.len ==> code[i] != '"'
    ensures t.token.text == code[t.pos..t.pos + t.len] && IsValidUtf8(t.token.text)
    ensures Lex(code, filename, pos).pos == t.pos + t.len + 1
  {
    var w := SkipWhitespace(code, pos);
    assert LexAt(code, filename, w) == LexPunctuation(code, filename, w);
    StringFromPunctuation(code, filename, w, t);
  }

  /** `StringToken` for the punctuation branch. */
  lemma StringFromPunctuation(code: seq<Byte>, filename: Path, w: nat, t: Token)
    requires w < |code| && LexPunctuation(code, filename, w).item == Some(Ok(t)) && t.token.StringLiteral?
    ensures code[w] == '"' && t.pos == w + 1
    ensures t.pos + t.len < |code| && code[t.pos + t.len] == '"'
    ensures forall i :: t.pos <= i < t.pos + t.len ==> code[i] != '"'
    ensures t.token.text == code[t.pos..t.pos + t.len] && IsValidUtf8(t.token.text)
    ensures LexPunctuation(code, filename, w).pos == t.pos + t.len + 1
  {
    assert code[w] == '"' && LexPunctuation(code, filename, w) == LexString(code, filename, w + 1);
    var e := RunEnd(code, w + 1, NotQuote);
    RunEndSpec(code, w + 1, NotQuote);
    assert e < |code| && t.pos == w + 1 && t.len == e - (w + 1);
    assert code[t.pos..t.pos + t.len] == code[w + 1..e];
  }

  /**
   * Conversely, a `"` at the lexeme whose next `"` is at `close` gives the
   * literal between them when that is valid UTF-8, and otherwise an error
   * at the byte after the opening `"`, where the cursor then stays.
   */
  lemma StringRun(code: seq<Byte>, filename: Path, pos: nat, close: nat)
    requires pos <= |code| && SkipWhitespace(code, pos) < close < |code|
    requires code[SkipWhitespace(code, pos)] == '"' && code[close] == '"'
    requires forall i :: SkipWhitespace(code, pos) < i < close ==> code[i] != '"'
    ensures var w := SkipWhitespace(code, pos);
      Lex(code, filename, pos) ==
        if IsValidUtf8(code[w + 1..close]) then
          Outcome(Some(Emit(StringLiteral(code[w + 1..close]), filename, w + 1, close - (w + 1))), close + 1)
        else Outcome(Some(Err(TokenizeError(filename, w + 1, 1, InvalidUtf8))), w + 1)
  {
    var w := SkipWhitespace(code, pos);
    RunEndUnique(code, w + 1, NotQuote, close);
    assert LexAt(code, filename, w) == LexPunctuation(code, filename, w);
  }

  /**
   * A `"` at the lexeme with no `"` after it yields nothing, and the cursor
   * stops just past the opening `"`.
   */
  lemma UnterminatedString(code: seq<Byte>, filename: Path, pos: nat)
    requires pos <= |code| && SkipWhitespace(code, pos) + 1 < |code|
    requires code[SkipWhitespace(code, pos)] == '"'
    requires forall i :: SkipWhitespace(code, pos) < i < |code| ==> code[i] != '"'
    ensures Lex(code, filename, pos) == Outcome(None, SkipWhitespace(code, pos) + 1)
  {
    var w := SkipWhitespace(code, pos);
    RunEndUnique(code, w + 1, NotQuote, |code|);
    assert LexAt(code, filename, w) == LexPunctuation(code, filename, w);
  }

  /**
   * In a buffer that is valid UTF-8 (as a Rust `&str` always is) a string
   * literal's body is valid UTF-8 too, so every error is `Unexpected
   * character.` at the lexeme.
   */
  lemma StringErrorUnreachable(code: seq<Byte>, filename: Path, pos: nat, e: TokenizeError)
    requires pos <= |code| && IsValidUtf8(code) && Lex(code, filename, pos).item == Some(Err(e))
    ensures Err(e) == Unexpected(filename, SkipWhitespace(code, pos))
  {
    var w := SkipWhitespace(code, pos);
    ErrorItem(code, filename, pos, e);
    if code[w] == '"' {
      ValidBufferValidBodies(code, w);
    }
  }

  /** Between a `"` and the next `"` of a valid UTF-8 buffer lies valid UTF-8. */
  lemma ValidBufferValidBodies(code: seq<Byte>, w: nat)
    requires w < |code| && code[w] == '"' && IsValidUtf8(code)
    ensures !InvalidStringBody(code, w)
  {
    forall close | w < close < |code| && code[close] == '"'
      ensures IsValidUtf8(code[w + 1..close])
    {
      BetweenAsciiBytes(code, w, close);
    }
  }

  // Comments.

  /**
   * A `Comment` is the text after a `//` at the lexeme up to the next line
   * feed, which is consumed; the token carries exactly those bytes.
   */
  lemma CommentToken(code: seq<Byte>, filename: Path, pos: nat, t: Token)
    requires pos <= |code| && Lex(code, filename, pos).item == Some(Ok(t)) && t.token.Comment?
    ensures var w := SkipWhitespace(code, pos);
      w + 1 < |code| && code[w] == '/' && code[w + 1] == '/' && t.pos == w + 2
    ensures t.pos + t.len < |code| && code[t.pos + t.len] == '\n'
    ensures forall i :: t.pos <= i < t.pos + t.len ==> code[i] != '\n'
    ensures t.token.content == code[t.pos..t.pos + t.len]
    ensures Lex(code, filename, pos).pos == t.pos + t.len + 1
  {
    var w := SkipWhitespace(code, pos);
    assert LexAt(code, filename, w) == LexPunctuation(code, filename, w);
    CommentFromPunctuation(code, filename, w, t);
  }

  /** `CommentToken` for the punctuation branch. */
  lemma CommentFromPunctuation(code: seq<Byte>, filename: Path, w: nat, t: Token)
    requires w < |code| && LexPunctuation(code, filename, w).item == Some(Ok(t)) && t.token.Comment?
    ensures w + 1 < |code| && code[w] == '/' && code[w + 1] == '/' && t.pos == w + 2
    ensures t.pos + t.len < |code| && code[t.pos + t.len] == '\n'
    ensures forall i :: t.pos <= i < t.pos + t.len ==> code[i] != '\n'
    ensures t.token.content == code[t.pos..t.pos + t.len]
    ensures LexPunctuation(code, filename, w).pos == t.pos + t.len + 1
  {
    assert code[w] == '/' && code[w + 1] == '/';
    assert LexPunctuation(code, filename, w) == LexComment(code, filename, w + 2);
    var e := RunEnd(code, w + 2, NotNewline);
    RunEndSpec(code, w + 2, NotNewline);
    assert e < |code| && t.pos == w + 2 && t.len == e - (w + 2);
    assert code[t.pos..t.pos + t.len] == code[w + 2..e];
  }

  /** Conversely, a `//` at the lexeme whose next line feed is at `eol` is one comment. */
  lemma CommentRun(code: seq<Byte>, filename: Path, pos: nat, eol: nat)
    requires pos <= |code| && SkipWhitespace(code, pos) + 2 <= eol < |code|
    requires code[SkipWhitespace(code, pos)] == '/' && code[SkipWhitespace(code, pos) + 1] == '/'
    requires code[eol] == '\n' && forall i :: SkipWhitespace(code, pos) + 2 <= i < eol ==> code[i] != '\n'
    ensures var w := SkipWhitespace(code, pos);
      Lex(code, filename, pos) ==
        Outcome(Some(Emit(Comment(code[w + 2..eol]), filename, w + 2, eol - (w + 2))), eol + 1)
  {
    var w := SkipWhitespace(code, pos);
    RunEndUnique(code, w + 2, NotNewline, eol);
    assert LexAt(code, filename, w) == LexPunctuation(code, filename, w);
  }

  /**
   * A `//` at the lexeme with no line feed after it yields nothing, and the
   * cursor stops just past the `//`.
   */
  lemma UnterminatedComment(code: seq<Byte>, filename: Path, pos: nat)
    requires pos <= |code| && SkipWhitespace(code, pos) + 1 < |code|
    requires code[SkipWhitespace(code, pos)] == '/' && code[SkipWhitespace(code, pos) + 1] == '/'
    requires forall i :: SkipWhitespace(code, pos) + 2 <= i < |code| ==> code[i] != '\n'
    ensures Lex(code, filename, pos) == Outcome(None, SkipWhitespace(code, pos) + 2)
  {
    var w := SkipWhitespace(code, pos);
    RunEndUnique(code, w + 2, NotNewline, |code|);
    assert LexAt(code, filename, w) == LexPunctuation(code, filename, w);
  }

  // Errors.

  /**
   * The lexeme at `w` cannot start a token: its byte is of no class the
   * lexer knows, or it is a punctuation byte other than `-`, `/` and `"`
   * with a byte after it, and is `=` not followed by `=` or finds no table
   * entry as a one-byte slice (by `OneByteLookup`, is none of the one-byte
   * spellings).
   */
  predicate Unlexable(code: seq<Byte>, w: nat)
    requires w < |code|
  {
    var c := code[w];
    if IsAsciiDigit(c) || IsIdentifierStart(c) then false
    else if !IsAsciiPunctuation(c) then true
    else if c == '-' || c == '/' || c == '"' then false
    else w + 1 < |code| && (if c == '=' then code[w + 1] != '=' else MatchKeywordExact([c]).None?)
  }

  /** The `"` at `w` is closed, and the body up to the closing `"` is not valid UTF-8. */
  predicate InvalidStringBody(code: seq<Byte>, w: nat) {
    exists close :: w < close < |code| && code[close] == '"' &&
      (forall i :: w < i < close ==> code[i] != '"') && !IsValidUtf8(code[w + 1..close])
  }

  /**
   * Every error is either `Unexpected character.` at an unlexable lexeme,
   * which it consumes, or `invalid utf-8` at the body of a closed string
   * literal, where the cursor then stays.
   */
  lemma ErrorItem(code: seq<Byte>, filename: Path, pos: nat, e: TokenizeError)
    requires pos <= |code| && Lex(code, filename, pos).item == Some(Err(e))
    ensures var w := SkipWhitespace(code, pos);
      w < |code| && Lex(code, filename, pos).pos == w + 1 &&
      ((Err(e) == Unexpected(filename, w) && Unlexable(code, w)) ||
       (code[w] == '"' && e == TokenizeError(filename, w + 1, 1, InvalidUtf8) && InvalidStringBody(code, w)))
  {
    var w := SkipWhitespace(code, pos);
    var c := code[w];
    if IsAsciiPunctuation(c) && !IsAsciiDigit(c) && !IsIdentifierStart(c) {
      assert LexAt(code, filename, w) == LexPunctuation(code, filename, w);
      PunctuationError(code, filename, w, e);
    }
  }

  /** `ErrorItem` for the punctuation branch. */
  lemma PunctuationError(code: seq<Byte>, filename: Path, w: nat, e: TokenizeError)
    requires w < |code| && IsAsciiPunctuation(code[w]) && !IsAsciiDigit(code[w]) && !IsIdentifierStart(code[w])
    requires LexPunctuation(code, filename, w).item == Some(Err(e))
    ensures LexPunctuation(code, filename, w).pos == w + 1
    ensures (Err(e) == Unexpected(filename, w) && Unlexable(code, w)) ||
      (code[w] == '"' && e == TokenizeError(filename, w + 1, 1, InvalidUtf8) && InvalidStringBody(code, w))
  {
    if code[w] == '"' {
      QuoteError(code, filename, w, e);
    } else {
      OtherPunctuationError(code, filename, w, e);
    }
  }

  /** The only error a `"` gives: a closed literal whose body is not valid UTF-8. */
  lemma QuoteError(code: seq<Byte>, filename: Path, w: nat, e: TokenizeError)
    requires w < |code| && code[w] == '"' && LexPunctuation(code, filename, w).item == Some(Err(e))
    ensures LexPunctuation(code, filename, w).pos == w + 1
    ensures e == TokenizeError(filename, w + 1, 1, InvalidUtf8) && InvalidStringBody(code, w)
  {
    var close := RunEnd(code, w + 1, NotQuote);
    RunEndSpec(code, w + 1, NotQuote);
    assert close < |code| && !IsValidUtf8(code[w + 1..close]);
  }

  /** Any other punctuation byte that gives an error is unlexable. */
  lemma OtherPunctuationError(code: seq<Byte>, filename: Path, w: nat, e: TokenizeError)
    requires w < |code| && IsAsciiPunctuation(code[w]) && !IsAsciiDigit(code[w]) && !IsIdentifierStart(code[w])
    requires code[w] != '"' && LexPunctuation(code, filename, w).item == Some(Err(e))
    ensures LexPunctuation(code, filename, w).pos == w + 1
    ensures Err(e) == Unexpected(filename, w) && Unlexable(code, w)
  {
  }

  /** Conversely, an unlexable lexeme gives `Unexpected character.` there and is consumed. */
  lemma UnlexableGivesError(code: seq<Byte>, filename: Path, pos: nat, w: nat)
    requires pos <= |code| && w == SkipWhitespace(code, pos) && w < |code| && Unlexable(code, w)
    ensures Lex(code, filename, pos) == Outcome(Some(Unexpected(filename, w)), w + 1)
  {
  }
}
