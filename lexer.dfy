/**
 * The tokenizer: `TokenIterator` and its `get_token` state machine, and the
 * comment filter.
 *
 * `Lex` states what one call of `get_token` does, in terms of maximal runs:
 * skip whitespace, then look at the first byte of the lexeme. The method
 * `TokenIterator.GetToken` and the scanning methods it hands over to are the
 * byte-by-byte state machine itself, and are proved to agree with `Lex`.
 */
module Lexer {
  import opened Wrappers
  import opened Bytes
  import opened Utf8
  import opened Tokens
  import opened Keyword

  const UnexpectedCharacter: string := "Unexpected character."

  /** The text `FromUtf8Error::description` gives. */
  const InvalidUtf8: string := "invalid utf-8"

  /** What one call produces: the item (or none) and the new value of `pos`. */
  datatype Outcome = Outcome(item: Option<TokenResult>, pos: nat)

  /** The `Unexpected character.` error for the byte at `at`. */
  function Unexpected(filename: Path, at: nat): TokenResult {
    Err(TokenizeError(filename, at, 1, UnexpectedCharacter))
  }

  /** A token of the iterator's file spanning `len` bytes from `at`. */
  function Emit(kind: TokenType, filename: Path, at: nat, len: nat): TokenResult {
    Ok(Token(kind, Some(filename), at, len))
  }

  predicate NotNewline(b: Byte) { b != '\n' }

  predicate NotQuote(b: Byte) { b != '"' }

  /** One call of `get_token` with `pos` as the cursor. */
  function Lex(code: seq<Byte>, filename: Path, pos: nat): (o: Outcome)
    ensures pos >= |code| ==> o == Outcome(None, pos)
    ensures pos <= o.pos && (pos <= |code| ==> o.pos <= |code|)
    ensures o.item.Some? ==> pos < o.pos
  {
    if pos >= |code| then Outcome(None, pos)
    else LexAt(code, filename, SkipWhitespace(code, pos))
  }

  /** The call once whitespace is skipped and `p` is the first byte of the lexeme. */
  function LexAt(code: seq<Byte>, filename: Path, p: nat): (o: Outcome)
    requires p <= |code|
    ensures p <= o.pos <= |code|
    ensures o.item.Some? ==> p < o.pos
    ensures o.item.None? ==> o.pos <= p + 2
  {
    if p == |code| then Outcome(None, p)
    else if IsAsciiDigit(code[p]) then LexNumber(code, filename, p)
    else if IsIdentifierStart(code[p]) then LexIdentifier(code, filename, p)
    else if IsAsciiPunctuation(code[p]) then LexPunctuation(code, filename, p)
    else Outcome(Some(Unexpected(filename, p)), p + 1)
  }

  /**
   * A maximal identifier run; a run that reaches the end of the buffer is
   * dropped and the cursor stays at its start.
   */
  function LexIdentifier(code: seq<Byte>, filename: Path, p: nat): (o: Outcome)
    requires p < |code|
    ensures o.item.None? ==> o.pos == p
    ensures o.item.Some? ==> (o.item.value.Ok? &&
      var t := o.item.value.value;
      t.pos == p && o.pos == p + t.len < |code| && !IsIdentifierByte(code[o.pos]))
  {
    var e := RunEnd(code, p, IsIdentifierByte);
    RunEndSpec(code, p, IsIdentifierByte);
    if e == |code| then Outcome(None, p)
    else
      Outcome(Some(Emit(IdentifierKind(code[p..e]), filename, p, e - p)), e)
  }

  /** The kind of an identifier-shaped run: its keyword if it spells one, else `Identifier`. */
  function IdentifierKind(run: seq<Byte>): (k: TokenType)
    ensures k.IsKeyword() <==> MatchKeywordExact(run).Some?
    ensures !k.IsKeyword() ==> k == Identifier(run)
  {
    match MatchKeywordExact(run)
      case Some(k) => k
      case None => Identifier(run)
  }

  /**
   * A maximal digit run, continued past one `.` by a second digit run into a
   * real; one that reaches the end of the buffer is dropped.
   */
  function LexNumber(code: seq<Byte>, filename: Path, p: nat): (o: Outcome)
    requires p < |code|
    ensures o.item.None? ==> o.pos == p
    ensures o.item.Some? ==> (o.item.value.Ok? &&
      var t := o.item.value.value;
      (t.token.UInt? || t.token.Real?) &&
      t.pos == p && o.pos == p + t.len < |code| && !IsAsciiDigit(code[o.pos]))
  {
    var e := RunEnd(code, p, IsAsciiDigit);
    RunEndSpec(code, p, IsAsciiDigit);
    if e == |code| then Outcome(None, p)
    else if code[e] == '.' then
      var f := RunEnd(code, e + 1, IsAsciiDigit);
      RunEndSpec(code, e + 1, IsAsciiDigit);
      if f == |code| then Outcome(None, p)
      else Outcome(Some(Emit(Real(code[p..f]), filename, p, f - p)), f)
    else Outcome(Some(Emit(UInt(DecimalValue(code[p..e])), filename, p, e - p)), e)
  }

  /**
   * A punctuation byte, decided by the byte after it; a punctuation byte that
   * is the last of the buffer is dropped.
   */
  function LexPunctuation(code: seq<Byte>, filename: Path, p: nat): (o: Outcome)
    requires p < |code|
    ensures p <= o.pos <= |code|
    ensures o.item.Some? ==> p < o.pos
    ensures o.item.None? ==> o.pos <= p + 2
    ensures o.item.Some? && o.item.value.Ok? ==>
      var t := o.item.value.value;
      p <= t.pos <= p + 2 && t.pos + t.len <= o.pos
  {
    if p + 1 == |code| then Outcome(None, p)
    else
      var c, next := code[p], code[p + 1];
      if c == '=' then
        if next == '=' then Outcome(Some(Emit(DoubleEqual, filename, p, 2)), p + 2)
        else Outcome(Some(Unexpected(filename, p)), p + 1)
      else if c == '-' then
        if next == '>' then Outcome(Some(Emit(Arrow, filename, p, 2)), p + 2)
        else Outcome(Some(Emit(Minus, filename, p, 1)), p + 1)
      else if c == '/' then
        if next == '/' then LexComment(code, filename, p + 2)
        else Outcome(Some(Emit(Devide, filename, p, 1)), p + 1)
      else if c == '"' then LexString(code, filename, p + 1)
      else match MatchKeywordExact([c])
        case Some(k) => Outcome(Some(Emit(k, filename, p, 1)), p + 1)
        case None => Outcome(Some(Unexpected(filename, p)), p + 1)
  }

  /**
   * The body of a `//` comment that starts at `start`, up to the next line
   * feed, which is consumed; without a line feed the comment is dropped and
   * the cursor stays just past the `//`.
   */
  function LexComment(code: seq<Byte>, filename: Path, start: nat): (o: Outcome)
    requires start <= |code|
    ensures o.item.None? ==> o.pos == start
    ensures o.item.Some? ==> (o.item.value.Ok? &&
      var t := o.item.value.value;
      t.token.Comment? && t.pos == start && t.pos + t.len < |code| &&
      code[t.pos + t.len] == '\n' && o.pos == t.pos + t.len + 1)
  {
    var e := RunEnd(code, start, NotNewline);
    RunEndSpec(code, start, NotNewline);
    if e == |code| then Outcome(None, start)
    else Outcome(Some(Emit(Comment(code[start..e]), filename, start, e - start)), e + 1)
  }

  /**
   * The body of a string literal that starts at `start`, up to the closing
   * `"`, which is consumed. A body that is not valid UTF-8 gives an error at
   * `start` and leaves the cursor there; without a closing `"` the literal
   * is dropped and the cursor stays just past the opening one.
   */
  function LexString(code: seq<Byte>, filename: Path, start: nat): (o: Outcome)
    requires start <= |code|
    ensures o.item.None? || o.item.value.Err? ==> o.pos == start
    ensures o.item.Some? && o.item.value.Ok? ==>
      var t := o.item.value.value;
      t.token.StringLiteral? && t.pos == start && t.pos + t.len < |code| &&
      code[t.pos + t.len] == '"' && o.pos == t.pos + t.len + 1
  {
    var e := RunEnd(code, start, NotQuote);
    RunEndSpec(code, start, NotQuote);
    if e == |code| then Outcome(None, start)
    else if IsValidUtf8(code[start..e]) then
      Outcome(Some(Emit(StringLiteral(code[start..e]), filename, start, e - start)), e + 1)
    else Outcome(Some(Err(TokenizeError(filename, start, 1, InvalidUtf8))), start)
  }

  // Each lemma below gives the outcome `Lex` prescribes at one exit of the
  // scanning methods of `TokenIterator`, from the facts a loop has collected
  // about the lexeme that starts at `p`, the first non-whitespace byte at or
  // after `start`: the run it has scanned reaches `cur`, and `cur` closes it.

  lemma ExitUnexpected(code: seq<Byte>, filename: Path, start: nat, p: nat)
    requires start < |code| && SkipWhitespace(code, start) == p < |code|
    requires !IsAsciiDigit(code[p]) && !IsIdentifierStart(code[p]) && !IsAsciiPunctuation(code[p])
    ensures Lex(code, filename, start) == Outcome(Some(Unexpected(filename, p)), p + 1)
  {
  }

  lemma ExitIdentifier(code: seq<Byte>, filename: Path, start: nat, p: nat, cur: nat)
    requires start < |code| && SkipWhitespace(code, start) == p
    requires p < cur <= |code| && IsIdentifierStart(code[p])
    requires RunEnd(code, p, IsIdentifierByte) >= cur
    requires cur < |code| ==> !IsIdentifierByte(code[cur])
    ensures Lex(code, filename, start) ==
      if cur == |code| then Outcome(None, p)
      else Outcome(Some(Emit(IdentifierKind(code[p..cur]), filename, p, cur - p)), cur)
  {
    RunEndAt(code, p, cur, IsIdentifierByte);
  }

  lemma ExitInteger(code: seq<Byte>, filename: Path, start: nat, p: nat, cur: nat)
    requires start < |code| && SkipWhitespace(code, start) == p
    requires p < cur <= |code| && IsAsciiDigit(code[p])
    requires RunEnd(code, p, IsAsciiDigit) >= cur
    requires cur < |code| ==> !IsAsciiDigit(code[cur]) && code[cur] != '.'
    ensures AllDigits(code[p..cur])
    ensures Lex(code, filename, start) ==
      if cur == |code| then Outcome(None, p)
      else Outcome(Some(Emit(UInt(DecimalValue(code[p..cur])), filename, p, cur - p)), cur)
  {
    RunEndAt(code, p, cur, IsAsciiDigit);
    RunEndSpec(code, p, IsAsciiDigit);
    assert Lex(code, filename, start) == LexNumber(code, filename, p);
  }

  lemma ExitReal(code: seq<Byte>, filename: Path, start: nat, p: nat, dot: nat, cur: nat)
    requires start < |code| && SkipWhitespace(code, start) == p
    requires p < dot < cur <= |code| && code[dot] == '.' && IsAsciiDigit(code[p])
    requires RunEnd(code, p, IsAsciiDigit) == dot
    requires RunEnd(code, dot + 1, IsAsciiDigit) >= cur
    requires cur < |code| ==> !IsAsciiDigit(code[cur])
    ensures Lex(code, filename, start) ==
      if cur == |code| then Outcome(None, p)
      else Outcome(Some(Emit(Real(code[p..cur]), filename, p, cur - p)), cur)
  {
    RunEndAt(code, dot + 1, cur, IsAsciiDigit);
  }

  lemma ExitPunctuation(code: seq<Byte>, filename: Path, start: nat, p: nat)
    requires start < |code| && SkipWhitespace(code, start) == p
    requires p < |code| && IsAsciiPunctuation(code[p]) && !IsIdentifierStart(code[p])
    ensures Lex(code, filename, start) == LexPunctuation(code, filename, p)
  {
  }

  /**
   * `TokenIterator`: a cursor over one buffer. Only `pos` changes; it never
   * passes the end of the buffer.
   */
  class TokenIterator {
    const code: seq<Byte>
    const filename: Path
    var pos: nat

    ghost predicate Valid()
      reads this
    {
      pos <= |code|
    }

    /** The struct literal: a cursor at the start of the buffer. */
    constructor (code: seq<Byte>, filename: Path)
      ensures this.code == code && this.filename == filename && pos == 0
      ensures Valid()
    {
      this.code := code;
      this.filename := filename;
      pos := 0;
    }

    /** `TokenIterator::new`. */
    static method New(code: seq<Byte>, filename: Path) returns (it: TokenIterator)
      ensures fresh(it) && it.Valid()
      ensures it.code == code && it.filename == filename && it.pos == 0
    {
      it := Tokenize(code, filename);
    }

    /** `TokenIterator::from_owned`. */
    static method FromOwned(code: seq<Byte>, filename: Path) returns (it: TokenIterator)
      ensures fresh(it) && it.Valid()
      ensures it.code == code && it.filename == filename && it.pos == 0
    {
      it := new TokenIterator(code, filename);
    }

    /**
     * `get_token`: one pass of the state machine from `pos`. It returns what
     * `Lex` says and leaves `pos` where `Lex` says.
     *
     * This method is the `Whitespace` state; each other state of the loop is
     * the method named after it, which goes on scanning from the byte after
     * the one that chose it.
     */
    method GetToken() returns (r: Option<TokenResult>)
      requires Valid()
      modifies this
      ensures Valid()
      ensures r == Lex(code, filename, old(pos)).item
      ensures pos == Lex(code, filename, old(pos)).pos
    {
      if pos >= |code| {
        return None;
      }
      ghost var start := pos;
      // The source's `cur`: in this state it moves along with `pos`.
      ghost var cur := pos;
      while pos < |code|
        invariant start <= pos <= |code| && SkipWhitespace(code, pos) == SkipWhitespace(code, start)
        invariant cur == pos
      {
        var ch := code[pos];
        if IsAsciiWhitespace(ch) {
          pos := pos + 1;
          cur := cur + 1;
        } else if IsAsciiDigit(ch) {
          r := ScanInteger(start);
          return;
        } else if IsAsciiAlphabetic(ch) || ch == '_' {
          r := ScanIdentifier(start);
          return;
        } else if IsAsciiPunctuation(ch) {
          ExitPunctuation(code, filename, start, pos);
          r := ScanPunctuation(start, cur);
          return;
        } else {
          ExitUnexpected(code, filename, start, pos);
          var at := pos;
          pos := pos + 1;
          return Some(Unexpected(filename, at));
        }
      }
      // The buffer holds only whitespace from `start` on.
      return None;
    }

    /** The `Identifier` state: the lexeme at `pos` starts with a letter or `_`. */
    method ScanIdentifier(ghost start: nat) returns (r: Option<TokenResult>)
      requires start < |code| && SkipWhitespace(code, start) == pos < |code|
      requires IsIdentifierStart(code[pos])
      modifies this
      ensures Valid()
      ensures r == Lex(code, filename, start).item
      ensures pos == Lex(code, filename, start).pos
    {
      var cur := pos + 1;
      while cur < |code|
        invariant pos == old(pos)
        invariant pos < cur <= |code| && RunEnd(code, pos, IsIdentifierByte) >= cur
      {
        var ch := code[cur];
        if IsAsciiDigit(ch) || IsAsciiAlphabetic(ch) || ch == '_' {
          RunEndPast(code, pos, cur, IsIdentifierByte);
        } else {
          ExitIdentifier(code, filename, start, pos, cur);
          var toktype := IdentifierKind(code[pos..cur]);
          var tok := Token(toktype, Some(filename), pos, cur - pos);
          pos := cur;
          return Some(Ok(tok));
        }
        cur := cur + 1;
      }
      // The run reaches the end of the buffer: it is dropped.
      ExitIdentifier(code, filename, start, pos, cur);
      return None;
    }

    /** The `Integer` state: the lexeme at `pos` starts with a digit. */
    method ScanInteger(ghost start: nat) returns (r: Option<TokenResult>)
      requires start < |code| && SkipWhitespace(code, start) == pos < |code|
      requires IsAsciiDigit(code[pos])
      modifies this
      ensures Valid()
      ensures r == Lex(code, filename, start).item
      ensures pos == Lex(code, filename, start).pos
    {
      var cur := pos + 1;
      while cur < |code|
        invariant pos == old(pos)
        invariant pos < cur <= |code| && RunEnd(code, pos, IsAsciiDigit) >= cur
      {
        var ch := code[cur];
        if IsAsciiDigit(ch) {
          RunEndPast(code, pos, cur, IsAsciiDigit);
        } else if ch == '.' {
          RunEndAt(code, pos, cur, IsAsciiDigit);
          r := ScanReal(start, cur);
          return;
        } else {
          ExitInteger(code, filename, start, pos, cur);
          var tok := Token(UInt(DecimalValue(code[pos..cur])), Some(filename), pos, cur - pos);
          pos := cur;
          return Some(Ok(tok));
        }
        cur := cur + 1;
      }
      // The run reaches the end of the buffer: it is dropped.
      ExitInteger(code, filename, start, pos, cur);
      return None;
    }

    /** The `Real` state: the digits at `pos` are followed by the `.` at `dot`. */
    method ScanReal(ghost start: nat, dot: nat) returns (r: Option<TokenResult>)
      requires start < |code| && SkipWhitespace(code, start) == pos < |code|
      requires IsAsciiDigit(code[pos]) && pos < dot < |code| && code[dot] == '.'
      requires RunEnd(code, pos, IsAsciiDigit) == dot
      modifies this
      ensures Valid()
      ensures r == Lex(code, filename, start).item
      ensures pos == Lex(code, filename, start).pos
    {
      var cur := dot + 1;
      while cur < |code|
        invariant pos == old(pos)
        invariant dot < cur <= |code| && RunEnd(code, dot + 1, IsAsciiDigit) >= cur
      {
        var ch := code[cur];
        if IsAsciiDigit(ch) {
          RunEndPast(code, dot + 1, cur, IsAsciiDigit);
        } else {
          ExitReal(code, filename, start, pos, dot, cur);
          var tok := Token(Real(code[pos..cur]), Some(filename), pos, cur - pos);
          pos := cur;
          return Some(Ok(tok));
        }
        cur := cur + 1;
      }
      // The run reaches the end of the buffer: it is dropped.
      ExitReal(code, filename, start, pos, dot, cur);
      return None;
    }

    /**
     * The `Punctuation` state: the lexeme at `pos` starts with a punctuation
     * byte, and the byte after it decides the token. `chosen` is the value of
     * the loop's cursor when it chose this state; it then advanced the cursor
     * by one, so the source's three `assert_eq!(self.pos + 1, cur)` hold.
     */
    method ScanPunctuation(ghost start: nat, ghost chosen: nat) returns (r: Option<TokenResult>)
      requires start < |code| && SkipWhitespace(code, start) == pos < |code|
      requires chosen == pos
      requires IsAsciiPunctuation(code[pos]) && !IsIdentifierStart(code[pos])
      modifies this
      ensures Valid()
      ensures r == LexPunctuation(code, filename, old(pos)).item
      ensures pos == LexPunctuation(code, filename, old(pos)).pos
    {
      var cur := pos + 1;
      if cur == |code| {
        // A punctuation byte at the end of the buffer is dropped.
        return None;
      }
      var ch := code[cur];
      if code[pos] == '=' {
        assert pos + 1 == chosen + 1 == cur;
        if ch == '=' {
          var tok := Token(DoubleEqual, Some(filename), pos, 2);
          pos := pos + 2;
          return Some(Ok(tok));
        } else {
          var at := pos;
          pos := pos + 1;
          return Some(Unexpected(filename, at));
        }
      } else if code[pos] == '-' {
        assert pos + 1 == chosen + 1 == cur;
        if code[cur] == '>' {
          var tok := Token(Arrow, Some(filename), pos, 2);
          pos := pos + 2;
          return Some(Ok(tok));
        } else {
          var tok := Token(Minus, Some(filename), pos, 1);
          pos := pos + 1;
          return Some(Ok(tok));
        }
      } else if code[pos] == '/' {
        assert pos + 1 == chosen + 1 == cur;
        if code[cur] == '/' {
          pos := pos + 2;
          r := ScanComment();
        } else {
          var tok := Token(Devide, Some(filename), pos, 1);
          pos := pos + 1;
          return Some(Ok(tok));
        }
      } else if code[pos] == '"' {
        pos := pos + 1;
        r := ScanString();
      } else {
        SingletonSlice(code, pos);
        match MatchKeywordExact(code[pos..pos + 1]) {
          case Some(kwd) =>
            var tok := Token(kwd, Some(filename), pos, 1);
            pos := pos + 1;
            return Some(Ok(tok));
          case None =>
            var at := pos;
            pos := pos + 1;
            return Some(Unexpected(filename, at));
        }
      }
    }

    /** The `Comment` state: the comment body starts at `pos`, just past the `//`. */
    method ScanComment() returns (r: Option<TokenResult>)
      requires pos <= |code|
      modifies this
      ensures Valid()
      ensures r == LexComment(code, filename, old(pos)).item
      ensures pos == LexComment(code, filename, old(pos)).pos
    {
      var cur := pos;
      while cur < |code|
        invariant pos == old(pos)
        invariant pos <= cur <= |code| && RunEnd(code, pos, NotNewline) >= cur
      {
        var ch := code[cur];
        if ch != '\n' {
          RunEndPast(code, pos, cur, NotNewline);
        } else {
          RunEndAt(code, pos, cur, NotNewline);
          var tok := Token(Comment(code[pos..cur]), Some(filename), pos, cur - pos);
          pos := cur + 1;
          return Some(Ok(tok));
        }
        cur := cur + 1;
      }
      // No line feed follows: the comment is dropped.
      RunEndAt(code, pos, cur, NotNewline);
      return None;
    }

    /** The `StringLiteral` state: the literal's body starts at `pos`, just past the opening `"`. */
    method ScanString() returns (r: Option<TokenResult>)
      requires pos <= |code|
      modifies this
      ensures Valid()
      ensures r == LexString(code, filename, old(pos)).item
      ensures pos == LexString(code, filename, old(pos)).pos
    {
      var cur := pos;
      while cur < |code|
        invariant pos == old(pos)
        invariant pos <= cur <= |code| && RunEnd(code, pos, NotQuote) >= cur
      {
        var ch := code[cur];
        if ch != '"' {
          RunEndPast(code, pos, cur, NotQuote);
        } else {
          RunEndAt(code, pos, cur, NotQuote);
          if IsValidUtf8(code[pos..cur]) {
            var tok := Token(StringLiteral(code[pos..cur]), Some(filename), pos, cur - pos);
            pos := cur + 1;
            return Some(Ok(tok));
          } else {
            return Some(Err(TokenizeError(filename, pos, 1, InvalidUtf8)));
          }
        }
        cur := cur + 1;
      }
      // No closing quote: the literal is dropped.
      RunEndAt(code, pos, cur, NotQuote);
      return None;
    }

    /** `Iterator::next`: the next item of the stream. */
    method Next() returns (r: Option<TokenResult>)
      requires Valid()
      modifies this
      ensures Valid()
      ensures r == Lex(code, filename, old(pos)).item
      ensures pos == Lex(code, filename, old(pos)).pos
    {
      r := GetToken();
    }
  }

  /** `tokenize`: a fresh cursor at the start of `code`. */
  method Tokenize(code: seq<Byte>, filename: Path) returns (it: TokenIterator)
    ensures fresh(it) && it.Valid()
    ensures it.code == code && it.filename == filename && it.pos == 0
  {
    it := new TokenIterator(code, filename);
  }

  /** The filter's test: errors and non-comment tokens are kept. */
  predicate Keeps(r: TokenResult): (b: bool)
    ensures r.Err? ==> b
    ensures r.Ok? && r.value.token.Comment? ==> !b
  {
    r.Err? || !r.value.IsComment()
  }

  /** `filter_comment`: the stream without its comment tokens. */
  function FilterComment(rs: seq<TokenResult>): (out: seq<TokenResult>)
    ensures |out| <= |rs|
    ensures forall i :: 0 <= i < |out| ==> Keeps(out[i]) && out[i] in rs
  {
    if rs == [] then []
    else (if Keeps(rs[0]) then [rs[0]] else []) + FilterComment(rs[1..])
  }
}
