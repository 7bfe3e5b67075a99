/**
 * What one call of `get_token` guarantees, stated about `Lex` (which
 * `TokenIterator.GetToken` is proved to follow), what iterating it to the end
 * yields, and what `filter_comment` does to that stream.
 */
module LexerProperties {
  import opened Wrappers
  import opened Bytes
  import opened Utf8
  import opened Tokens
  import opened Keyword
  import opened KeywordFacts
  import opened Lexer

  /** The offset an item points at. */
  function ItemPos(r: TokenResult): nat {
    match r
    case Ok(t) => t.pos
    case Err(e) => e.pos
  }

  /** An item's span lies inside the buffer, and an error's span is one byte wide. */
  predicate WithinBuffer(code: seq<Byte>, r: TokenResult) {
    match r
    case Ok(t) => t.pos + t.len <= |code|
    case Err(e) => e.len == 1 && e.pos + e.len <= |code|
  }

  /** An item names the file of the iterator that produced it. */
  predicate FromFile(filename: Path, r: TokenResult) {
    match r
    case Ok(t) => t.filename == Some(filename)
    case Err(e) => e.filename == filename
  }

  /** At or past the end of the buffer a call yields nothing and leaves the cursor alone. */
  lemma EndOfBuffer(code: seq<Byte>, filename: Path, pos: nat)
    requires pos >= |code|
    ensures Lex(code, filename, pos) == Outcome(None, pos)
  {
  }

  /** Every item lies inside the buffer and names the iterator's file; every error is one byte wide. */
  lemma ItemWithinBuffer(code: seq<Byte>, filename: Path, pos: nat)
    ensures Lex(code, filename, pos).item.Some? ==>
      WithinBuffer(code, Lex(code, filename, pos).item.value) &&
      FromFile(filename, Lex(code, filename, pos).item.value)
  {
  }

  /**
   * Progress: the cursor never moves back or past the end of the buffer, and
   * it moves forward whenever an item is produced; a token is consumed whole.
   */
  lemma Progress(code: seq<Byte>, filename: Path, pos: nat)
    ensures Lex(code, filename, pos).pos >= pos
    ensures pos <= |code| ==> Lex(code, filename, pos).pos <= |code|
    ensures Lex(code, filename, pos).item.Some? ==> Lex(code, filename, pos).pos > pos
    ensures Lex(code, filename, pos).item.Some? && Lex(code, filename, pos).item.value.Ok? ==>
      var t := Lex(code, filename, pos).item.value.value;
      t.pos + t.len <= Lex(code, filename, pos).pos
  {
  }

  /**
   * Only whitespace lies between the cursor and the item, which starts at the
   * lexeme or, for a string literal or a comment, just past its opening
   * delimiter.
   */
  lemma WhitespaceBeforeItem(code: seq<Byte>, filename: Path, pos: nat)
    requires pos <= |code|
    ensures forall i :: pos <= i < SkipWhitespace(code, pos) ==> IsAsciiWhitespace(code[i])
    ensures Lex(code, filename, pos).item.Some? ==>
      var w, at := SkipWhitespace(code, pos), ItemPos(Lex(code, filename, pos).item.value);
      w <= at <= w + 2 &&
      (at == w + 1 ==> code[w] == '"') &&
      (at == w + 2 ==> code[w] == '/' && code[w + 1] == '/')
  {
    RunEndSpec(code, pos, IsAsciiWhitespace);
  }

  /**
   * The items of the stream from `pos` on: `next` is called until it yields
   * nothing. There are at most as many as bytes left, so the stream ends.
   */
  function Items(code: seq<Byte>, filename: Path, pos: nat): (items: seq<TokenResult>)
    requires pos <= |code|
    ensures |items| <= |code| - pos
    decreases |code| - pos
  {
    var o := Lex(code, filename, pos);
    Progress(code, filename, pos);
    if o.item.None? then [] else [o.item.value] + Items(code, filename, o.pos)
  }

  /** Every item of the stream lies inside the buffer and names the iterator's file. */
  lemma {:induction false} ItemsWithinBuffer(code: seq<Byte>, filename: Path, pos: nat)
    requires pos <= |code|
    ensures forall r :: r in Items(code, filename, pos) ==> WithinBuffer(code, r) && FromFile(filename, r)
    decreases |code| - pos
  {
    var o := Lex(code, filename, pos);
    Progress(code, filename, pos);
    if o.item.Some? {
      ItemWithinBuffer(code, filename, pos);
      ItemsWithinBuffer(code, filename, o.pos);
    }
  }

  /** A buffer that holds only whitespace from `pos` on yields no item. */
  lemma WhitespaceOnly(code: seq<Byte>, filename: Path, pos: nat)
    requires pos <= |code|
    requires forall i :: pos <= i < |code| ==> IsAsciiWhitespace(code[i])
    ensures Items(code, filename, pos) == []
  {
    RunEndUnique(code, pos, IsAsciiWhitespace, |code|);
  }

  /**
   * A call at whose lexeme a `"` or `//` opens a literal or comment that
   * does not close before the end of the buffer.
   */
  predicate OpensLiteral(code: seq<Byte>, w: nat) {
    w + 1 < |code| && (code[w] == '"' || (code[w] == '/' && code[w + 1] == '/'))
  }

  /**
   * After a call that yields nothing the next call yields nothing as well and
   * leaves the cursor where it is, unless the lexeme was an unterminated
   * string literal or comment (`NoneAfterOpenQuote` shows that case).
   */
  lemma NoneIsSticky(code: seq<Byte>, filename: Path, pos: nat)
    requires pos <= |code| && Lex(code, filename, pos).item.None?
    requires !OpensLiteral(code, SkipWhitespace(code, pos))
    ensures Lex(code, filename, Lex(code, filename, pos).pos) == Lex(code, filename, pos)
  {
    var w := SkipWhitespace(code, pos);
    var o := Lex(code, filename, pos);
    if pos < |code| && w < |code| {
      assert o.pos == w;
      assert SkipWhitespace(code, w) == w;
    }
  }

  /**
   * For the buffer `"a b` the first call yields nothing and stops just past
   * the quote, and the second call then yields the identifier `a`.
   */
  lemma NoneAfterOpenQuote(code: seq<Byte>, filename: Path)
    requires |code| == 4 && code[0] == '"' && code[1] == 'a' && code[2] == ' ' && code[3] == 'b'
    ensures Lex(code, filename, 0) == Outcome(None, 1)
    ensures Lex(code, filename, 1) == Outcome(Some(Emit(Identifier(code[1..2]), filename, 1, 1)), 2)
  {
    assert SkipWhitespace(code, 0) == 0 && SkipWhitespace(code, 1) == 1;
    RunEndUnique(code, 1, NotQuote, 4);
    RunEndUnique(code, 1, IsIdentifierByte, 2);
    NoEntryFound(code[1..2]);
  }

  // One-byte lookahead after a punctuation byte at the lexeme `w`.

  /**
   * `==` is one token of length 2; `=` before any other byte is an error at
   * the `=` that consumes it alone; `->` is one token of length 2 and `-`
   * before any other byte is `Minus`; `/` not followed by `/` is `Devide`.
   */
  lemma Operators(code: seq<Byte>, filename: Path, pos: nat, w: nat)
    requires pos <= |code| && w == SkipWhitespace(code, pos) && w + 1 < |code|
    ensures code[w] == '=' && code[w + 1] == '=' ==>
      Lex(code, filename, pos) == Outcome(Some(Emit(DoubleEqual, filename, w, 2)), w + 2)
    ensures code[w] == '=' && code[w + 1] != '=' ==>
      Lex(code, filename, pos) == Outcome(Some(Unexpected(filename, w)), w + 1)
    ensures code[w] == '-' && code[w + 1] == '>' ==>
      Lex(code, filename, pos) == Outcome(Some(Emit(Arrow, filename, w, 2)), w + 2)
    ensures code[w] == '-' && code[w + 1] != '>' ==>
      Lex(code, filename, pos) == Outcome(Some(Emit(Minus, filename, w, 1)), w + 1)
    ensures code[w] == '/' && code[w + 1] != '/' ==>
      Lex(code, filename, pos) == Outcome(Some(Emit(Devide, filename, w, 1)), w + 1)
  {
  }

  /**
   * Any other punctuation byte is a one-byte token when it is a one-byte
   * table entry, and an error at that byte otherwise (`.`, `#` or `!`, say).
   */
  lemma OtherPunctuation(code: seq<Byte>, filename: Path, pos: nat, w: nat)
    requires pos <= |code| && w == SkipWhitespace(code, pos) && w + 1 < |code|
    requires IsAsciiPunctuation(code[w]) && !IsIdentifierStart(code[w])
    requires code[w] != '=' && code[w] != '-' && code[w] != '/' && code[w] != '"'
    ensures Lex(code, filename, pos).pos == w + 1 && Lex(code, filename, pos).item.Some?
    ensures Lex(code, filename, pos).item.value.Ok? <==> code[w] in OneByteSpellings
    ensures Lex(code, filename, pos).item.value.Ok? ==>
      var t := Lex(code, filename, pos).item.value.value;
      t.pos == w && t.len == 1 && MatchKeywordExact([code[w]]) == Some(t.token)
    ensures Lex(code, filename, pos).item.value.Err? ==>
      Lex(code, filename, pos).item.value == Unexpected(filename, w)
  {
    OneByteLookup(code[w]);
  }

  /**
   * A punctuation byte that is the last byte of the buffer is dropped; so is
   * `_`, which is punctuation too but starts an identifier run.
   */
  lemma LastPunctuationDropped(code: seq<Byte>, filename: Path, pos: nat, w: nat)
    requires pos <= |code| && w == SkipWhitespace(code, pos) && w + 1 == |code|
    requires IsAsciiPunctuation(code[w])
    ensures Lex(code, filename, pos) == Outcome(None, w)
  {
    if code[w] == '_' {
      RunEndSpec(code, w, IsIdentifierByte);
      assert LexAt(code, filename, w) == LexIdentifier(code, filename, w);
    }
  }

  // The tokens of each kind, as a call yields them.

  /**
   * An identifier is a maximal run of letters, digits and `_` that starts
   * with a letter or `_` at the lexeme and is not a keyword spelling; it
   * carries exactly the run's bytes, which are valid UTF-8.
   */
  lemma IdentifierToken(code: seq<Byte>, filename: Path, pos: nat, t: Token)
    requires pos <= |code| && Lex(code, filename, pos).item == Some(Ok(t)) && t.token.Identifier?
    ensures t.pos == SkipWhitespace(code, pos) && t.len >= 1 && t.pos + t.len < |code|
    ensures Lex(code, filename, pos).pos == t.pos + t.len
    ensures t.token.name == code[t.pos..t.pos + t.len]
    ensures IsIdentifierStart(code[t.pos]) && forall i :: t.pos <= i < t.pos + t.len ==> IsIdentifierByte(code[i])
    ensures !IsIdentifierByte(code[t.pos + t.len])
    ensures MatchKeywordExact(t.token.name) == None
    ensures IsValidUtf8(t.token.name)
  {
    var w := SkipWhitespace(code, pos);
    RunEndSpec(code, w, IsIdentifierByte);
    AsciiIsValidUtf8(t.token.name);
  }

  /**
   * Conversely, an identifier run at the lexeme closed by another byte is
   * one token: the keyword it spells, or else an identifier.
   */
  lemma IdentifierRun(code: seq<Byte>, filename: Path, pos: nat, w: nat, e: nat)
    requires pos <= |code| && w == SkipWhitespace(code, pos) && w < e < |code|
    requires IsIdentifierStart(code[w])
    requires forall i :: w <= i < e ==> IsIdentifierByte(code[i])
    requires !IsIdentifierByte(code[e])
    ensures Lex(code, filename, pos) == Outcome(Some(Emit(IdentifierKind(code[w..e]), filename, w, e - w)), e)
  {
    RunEndUnique(code, w, IsIdentifierByte, e);
    ExitIdentifier(code, filename, pos, w, e);
  }

  /**
   * A token without payload spells its own table entry; one that starts
   * with a letter is a whole identifier run.
   */
  lemma KeywordToken(code: seq<Byte>, filename: Path, pos: nat, t: Token)
    requires pos <= |code| && Lex(code, filename, pos).item == Some(Ok(t)) && t.token.IsKeyword()
    ensures t.pos == SkipWhitespace(code, pos) && t.pos + t.len <= |code|
    ensures MatchKeywordExact(code[t.pos..t.pos + t.len]) == Some(t.token)
    ensures IsAsciiAlphabetic(code[t.pos]) ==>
      (forall i :: t.pos <= i < t.pos + t.len ==> IsIdentifierByte(code[i])) &&
      t.pos + t.len < |code| && !IsIdentifierByte(code[t.pos + t.len])
  {
    var w := SkipWhitespace(code, pos);
    if IsIdentifierStart(code[w]) {
      KeywordFromIdentifier(code, filename, w, t);
    } else {
      KeywordFromPunctuation(code, filename, w, t);
    }
  }

  /** A keyword from an identifier run is the table entry that the whole run spells. */
  lemma KeywordFromIdentifier(code: seq<Byte>, filename: Path, w: nat, t: Token)
    requires w < |code| && LexIdentifier(code, filename, w).item == Some(Ok(t)) && t.token.IsKeyword()
    ensures t.pos == w && t.pos + t.len < |code|
    ensures MatchKeywordExact(code[t.pos..t.pos + t.len]) == Some(t.token)
    ensures forall i :: t.pos <= i < t.pos + t.len ==> IsIdentifierByte(code[i])
    ensures !IsIdentifierByte(code[t.pos + t.len])
  {
    var e := RunEnd(code, w, IsIdentifierByte);
    assert e < |code| && t.pos == w && t.len == e - w;
    assert code[t.pos..t.pos + t.len] == code[w..e];
    assert t.token == IdentifierKind(code[w..e]);
    IdentifierKindKeyword(code[w..e]);
    RunEndSpec(code, w, IsIdentifierByte);
    assert t.pos + t.len == e && !IsIdentifierByte(code[e]);
  }

  /** An identifier run gives a kind without payload only by spelling a table entry. */
  lemma IdentifierKindKeyword(run: seq<Byte>)
    requires IdentifierKind(run).IsKeyword()
    ensures MatchKeywordExact(run) == Some(IdentifierKind(run))
  {
  }

  /** A keyword from a punctuation byte is a table entry of one or two bytes at that byte. */
  lemma KeywordFromPunctuation(code: seq<Byte>, filename: Path, w: nat, t: Token)
    requires w < |code| && IsAsciiPunctuation(code[w])
    requires LexPunctuation(code, filename, w).item == Some(Ok(t)) && t.token.IsKeyword()
    ensures t.pos == w && 1 <= t.len <= 2 && t.pos + t.len <= |code|
    ensures MatchKeywordExact(code[t.pos..t.pos + t.len]) == Some(t.token)
  {
    var c := code[w];
    if c == '=' || c == '-' || c == '/' {
      LookaheadKeyword(code, filename, w, t);
    } else {
      OneByteKeyword(code, filename, w, t);
    }
  }

  /** Any other punctuation token is the one-byte entry its byte spells. */
  lemma OneByteKeyword(code: seq<Byte>, filename: Path, w: nat, t: Token)
    requires w < |code| && code[w] != '=' && code[w] != '-' && code[w] != '/'
    requires LexPunctuation(code, filename, w).item == Some(Ok(t)) && t.token.IsKeyword()
    ensures t.pos == w && t.len == 1 && t.pos + t.len <= |code|
    ensures MatchKeywordExact(code[t.pos..t.pos + t.len]) == Some(t.token)
  {
    var c := code[w];
    assert t.pos == w && t.len == 1 && MatchKeywordExact([c]) == Some(t.token);
    OneByteSpan(code, t, c);
  }

  /** A one-byte span holding `c` is looked up as `[c]`. */
  lemma OneByteSpan(code: seq<Byte>, t: Token, c: Byte)
    requires t.pos < |code| && t.len == 1 && code[t.pos] == c && MatchKeywordExact([c]) == Some(t.token)
    ensures MatchKeywordExact(code[t.pos..t.pos + t.len]) == Some(t.token)
  {
    assert code[t.pos..t.pos + t.len] == [c];
  }

  /** The tokens of the lookahead branches spell `==`, `->`, `-` and `/`. */
  lemma LookaheadKeyword(code: seq<Byte>, filename: Path, w: nat, t: Token)
    requires w < |code| && (code[w] == '=' || code[w] == '-' || code[w] == '/')
    requires LexPunctuation(code, filename, w).item == Some(Ok(t)) && t.token.IsKeyword()
    ensures t.pos == w && 1 <= t.len <= 2 && t.pos + t.len <= |code|
    ensures MatchKeywordExact(code[t.pos..t.pos + t.len]) == Some(t.token)
  {
    var c := code[w];
    if c == '=' {
      assert t.pos == w && t.len == 2 && t.token == DoubleEqual;
      SpellingAt(code, t, 26);
    } else if c == '-' && code[w + 1] == '>' {
      assert t.pos == w && t.len == 2 && t.token == Arrow;
      SpellingAt(code, t, 27);
    } else if c == '-' {
      assert t.pos == w && t.len == 1 && t.token == Minus;
      SpellingAt(code, t, 20);
    } else {
      assert t.pos == w && t.len == 1 && t.token == Devide;
      SpellingAt(code, t, 22);
    }
  }

  /** A token whose span spells entry `i` and whose kind is that entry's is found by the lookup. */
  lemma SpellingAt(code: seq<Byte>, t: Token, i: nat)
    requires i < |KeywordTable| && t.len == |KeywordTable[i].0| && t.pos + t.len <= |code|
    requires t.token == KeywordTable[i].1
    requires forall j :: 0 <= j < t.len ==> code[t.pos + j] == KeywordTable[i].0[j]
    ensures MatchKeywordExact(code[t.pos..t.pos + t.len]) == Some(t.token)
  {
    assert code[t.pos..t.pos + t.len] == KeywordTable[i].0;
    EntryFound(i);
  }
}
