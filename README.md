# openqasm-rs tokenizer, modelled in Dafny

This project models the tokenizer of openqasm-rs, a Rust front end for
OpenQASM 2.0 programs. The tokenizer is a `TokenIterator` that walks over a
byte buffer with a cursor `pos`. Each call of `get_token` skips ASCII
whitespace and then runs a small state machine over the lexeme that
follows:

- an identifier or a keyword;
- an unsigned integer or a real;
- a punctuation token, including `==` and `->`;
- a `"…"` string literal or a `//` comment;
- or an error at one byte.

The iterator's `next` is `get_token`. `filter_comment` drops the comment
tokens from a stream of results.

The model has two layers:

- **Spec functions.** The pure functions `Lexer.Lex`, `LexNumber`,
  `LexIdentifier`, `LexPunctuation`, `LexComment` and `LexString` say what
  one call does, in terms of maximal byte runs.
- **Imperative class.** The class `Lexer.TokenIterator` keeps the source's
  loop over `cur`, written as imperative code. Its methods are proved to
  follow the spec functions. The module `LexerProperties` and the module
  `TokenKinds` then prove what a call yields: what each token kind's span
  and payload are, what the errors are, that the cursor makes progress, and
  round trips.

The keyword lookup `match_keyword_exact` is modelled as an exact,
case-sensitive lookup in a table. The table pairs each spelling of
src/keyword.rs with the token kind of the same name (`Keyword`,
`KeywordFacts`).

Bytes are modelled as `Bytes.Byte`, the characters below 0x100. A Rust byte
literal such as `b'='` is therefore written `'='`.

Modules, one per file:

| file | module | models |
|---|---|---|
| wrappers.dfy | `Wrappers` | `Option` and `Result` |
| bytes.dfy | `Bytes` | byte classes, maximal runs, decimal values |
| utf8.dfy | `Utf8` | well-formed UTF-8 and how it splits at ASCII bytes |
| tokens.dfy | `Tokens` | `TokenType`, `Token`, `TokenizeError` |
| keyword.dfy | `Keyword` | the keyword table and `match_keyword_exact` |
| keyword_facts.dfy | `KeywordFacts` | what the table lets each slice find |
| lexer.dfy | `Lexer` | `Lex`, `TokenIterator`, `tokenize`, `filter_comment` |
| lexer_properties.dfy | `LexerProperties` | streams, progress, punctuation, identifiers, keywords |
| token_kinds.dfy | `TokenKinds` | integers, reals, strings, comments, errors |
| comment_filter.dfy | `CommentFilter` | properties of `filter_comment` |

## Model

| member | source | states |
|---|---|---|
| Lexer.Lex | src/lexer.rs:84-313 | One call of `get_token` from cursor `pos`. At or past the end it yields nothing and leaves `pos` alone (lines 97-99). Otherwise it skips ASCII whitespace and `LexAt` decides at the first other byte. The contract: the cursor never moves back, stays within the buffer, and moves forward whenever an item is produced. |
| Lexer.LexAt | src/lexer.rs:100-127 | The `Whitespace` state's choice at the first non-whitespace byte. A digit goes to `LexNumber`, a letter or `_` to `LexIdentifier`, and other punctuation to `LexPunctuation`. Any other byte is an `Unexpected character.` error that consumes it, and the end of the buffer gives nothing. The contract: the cursor moves forward on every item, and by at most two bytes when nothing is yielded. |
| Lexer.LexIdentifier | src/lexer.rs:216-233 | The maximal run of letters, digits and `_` from the lexeme, with its kind from `IdentifierKind`. A run that reaches the end of the buffer gives nothing, with the cursor at the lexeme (lines 310-312). The contract: a token starts at the lexeme, and the cursor ends at the byte after it, which does not belong to the run. |
| Lexer.IdentifierKind | src/lexer.rs:220-224 | `match_keyword_exact(run).unwrap_or(Identifier(run))`. The contract: the kind has no payload exactly when the lookup finds the run; otherwise it is `Identifier` of exactly the run's bytes. |
| Lexer.LexNumber | src/lexer.rs:235-270 | The maximal digit run from the lexeme. At a `.`, the second digit run makes a `Real` of the whole lexeme; otherwise the run is a `UInt` of its decimal value. A run that reaches the end gives nothing, with the cursor at the lexeme. The contract: a token is a `UInt` or a `Real` starting at the lexeme, closed by a non-digit, and the cursor stops at that non-digit. |
| Lexer.LexPunctuation | src/lexer.rs:129-213 | The `Punctuation` state, in the source's order: `==` or an error for `=`, then `->` or `Minus`, then a comment or `Devide`, then a string at `"`, then the one-byte table lookup or an error. A last byte gives nothing. The contract: the cursor moves forward on every item, by at most two bytes when nothing is yielded, and past every token, which starts within two bytes of the lexeme. |
| Lexer.LexComment | src/lexer.rs:295-308 | The `Comment` state from the first byte after `//`. The contract: a token is a `Comment` that starts there and ends at a line feed, and the cursor moves past the line feed. Without a line feed, nothing is yielded and the cursor stays at the body's start. |
| Lexer.LexString | src/lexer.rs:271-294 | The `StringLiteral` state from the first byte after `"`. The contract: a token is a `StringLiteral` that starts there and ends at a `"`, and the cursor moves past that `"`. An error, or a literal that is never closed, leaves the cursor at the body's start. |
| Lexer.Keeps | src/lexer.rs:64 | The filter's closure. The contract: every error is kept (the `unwrap_or(true)`), and every comment token is dropped. |
| Tokens.Token.IsComment | src/lexer.rs:64 | `is_comment` holds exactly for the `Comment` kind. The contract: a comment token is never one of the payload-free keyword kinds. |
| Lexer.TokenIterator.constructor | src/lexer.rs:56-61 | A new iterator holds the given buffer and file name, with the cursor at the start of the buffer. |
| Lexer.Tokenize | src/lexer.rs:48-54 | `tokenize` gives a fresh iterator over the buffer and file name, with the cursor at 0. |
| Lexer.TokenIterator.New | src/lexer.rs:68-70 | `new` is `tokenize`: a fresh iterator with the cursor at 0. |
| Lexer.TokenIterator.FromOwned | src/lexer.rs:72-78 | `from_owned` gives a fresh iterator over the owned buffer and file name, with the cursor at 0. |
| Lexer.TokenIterator.GetToken | src/lexer.rs:84-128 | One call returns the item `Lex` prescribes for the old cursor and moves the cursor to where `Lex` puts it. The cursor stays within the buffer. At or past the end, the result is `None`. |
| Lexer.TokenIterator.ScanIdentifier | src/lexer.rs:216-233 | The loop over an identifier run ends with `Lex`'s outcome: the keyword or identifier for the maximal run, or `None` with the cursor at the lexeme when the run reaches the end of the buffer. |
| Lexer.TokenIterator.ScanInteger | src/lexer.rs:235-253 | The loop over a digit run ends with `Lex`'s outcome: a `UInt` of the run's decimal value, a hand-over to the `Real` scan at a `.`, or `None` when the run reaches the end. |
| Lexer.TokenIterator.ScanReal | src/lexer.rs:254-270 | The loop over the digits after the `.` ends with `Lex`'s outcome: a `Real` carrying the whole lexeme, or `None` when the run reaches the end. |
| Lexer.TokenIterator.ScanPunctuation | src/lexer.rs:129-215 | The state reached at a punctuation byte gives `LexPunctuation`'s outcome, decided by the byte after it: `==`, `=` (error), `->`, `-`, `//` (comment), `/`, `"` (string), or a one-byte table lookup. A punctuation byte that ends the buffer gives `None`. The ghost cursor `chosen` that `GetToken` hands over shows that the source's `assert_eq!(self.pos + 1, cur)` checks (lines 131, 150, 171) hold. |
| Lexer.TokenIterator.ScanComment | src/lexer.rs:295-308 | The comment scan gives `LexComment`'s outcome: the body up to the next line feed, with the line feed consumed, or `None` with the cursor just past `//`. |
| Lexer.TokenIterator.ScanString | src/lexer.rs:271-294 | The string scan gives `LexString`'s outcome: the body up to the next `"`, with the quote consumed, when the body is valid UTF-8; otherwise an `invalid utf-8` error at the body with the cursor left there. Without a closing `"` it gives `None`. |
| Lexer.TokenIterator.Next | src/lexer.rs:316-321 | `next` is one call of `get_token`: the same item and cursor as `Lex`. |
| Lexer.FilterComment | src/lexer.rs:63-65 | The filtered stream is no longer than its input. Every item in it is an error or a non-comment token taken from the input. |
| Lexer.ExitUnexpected | src/lexer.rs:120-127 | A lexeme byte that is no digit, letter, `_` or punctuation is an `Unexpected character.` error of length 1 at that byte, and is consumed. |
| Lexer.ExitIdentifier | src/lexer.rs:216-233 | When the scan stops at a non-identifier byte or at the end of the buffer, the outcome is the token for the scanned run, or `None` at the end. |
| Lexer.ExitInteger | src/lexer.rs:235-253 | When the digit scan stops at a byte that is neither a digit nor `.`, or at the end, the outcome is the run's `UInt`, or `None` at the end. |
| Lexer.ExitReal | src/lexer.rs:254-270 | When the scan of the second digit run stops at a non-digit, or at the end, the outcome is the `Real` of the whole lexeme, or `None` at the end. |
| Lexer.ExitPunctuation | src/lexer.rs:118-119 | A punctuation lexeme is decided by `LexPunctuation` alone. |
| Keyword.MatchKeywordExact | src/keyword.rs:7-47 | Every kind the lookup finds is a kind without payload. |
| Keyword.MatchKeywordExactIsExact | src/keyword.rs:7-47 | The lookup gives `k` for a slice exactly when the table pairs that slice with `k`: the lookup is exact and case-sensitive. |
| Keyword.Lookup | src/keyword.rs:7-47 | A first-match lookup finds something exactly when some entry has that spelling, and what it finds is paired with the spelling in the table. |
| Keyword.SpellingsDistinct | src/keyword.rs:8-46 | No two table entries have the same spelling. |
| Keyword.WordSpellingsDistinct | src/keyword.rs:8-29 | No two word entries have the same spelling. |
| Keyword.SymbolSpellingsDistinct | src/keyword.rs:31-46 | No two punctuation entries have the same spelling. |
| Keyword.TableKindsAreKeywords | src/keyword.rs:8-46 | Every kind in the table is a kind without payload. |
| KeywordFacts.EntryFound | src/keyword.rs:8-46 | Every spelling of the table finds its own kind, so `OPENQASM`, `U`, `CX`, `==` and `->` are all found. |
| KeywordFacts.NoEntryFound | src/keyword.rs:7-47 | A slice that is no spelling of the table finds nothing. |
| KeywordFacts.WordSpellingsAreLetters | src/keyword.rs:8-29 | The reserved words, `pi`, the gates and the functions are spelled with ASCII letters only. |
| KeywordFacts.SymbolSpellingsArePunctuation | src/keyword.rs:31-46 | The remaining entries are one or two ASCII punctuation bytes. |
| KeywordFacts.OneByteLookup | src/lexer.rs:193-212 | A punctuation byte looked up alone is found exactly when it is one of `+-*/^,;(){}[]`. |
| KeywordFacts.NoTwoByteKindFromOneByte | src/keyword.rs:38-39 | A one-byte slice never finds `DoubleEqual` or `Arrow`. |
| KeywordFacts.OneByteEntries | src/keyword.rs:8-46 | The entries with one-byte spellings have kinds other than `DoubleEqual` and `Arrow`. |
| KeywordFacts.NearKeywordsAreNone | src/keyword.rs:8-22 | Lower-case `openqasm`, `u` and `cx`, and the extended words `pie` and `gates`, are not keywords: the lookup is case-sensitive and whole-slice. |
| LexerProperties.EndOfBuffer | src/lexer.rs:97-99 | At or past the end of the buffer, a call yields nothing and leaves the cursor alone. |
| LexerProperties.ItemWithinBuffer | src/lexer.rs:84-313 | Every item's span lies inside the buffer and names the iterator's file. Every error is one byte wide. |
| LexerProperties.Progress | src/lexer.rs:84-313 | The cursor never moves back or past the end. It moves forward whenever an item is produced, and past the whole token. |
| LexerProperties.WhitespaceBeforeItem | src/lexer.rs:111-113 | Only whitespace lies between the cursor and the lexeme. The item starts at the lexeme, or just past an opening `"` or `//`. |
| LexerProperties.Items | src/lexer.rs:316-321 | Calling `next` until it yields nothing gives at most as many items as there are bytes left, so the stream ends. |
| LexerProperties.ItemsWithinBuffer | src/lexer.rs:316-321 | Every item of the whole stream lies inside the buffer and names the iterator's file. |
| LexerProperties.WhitespaceOnly | src/lexer.rs:310-312 | A buffer that is all whitespace from the cursor on yields an empty stream. |
| LexerProperties.NoneIsSticky | src/lexer.rs:310-312 | A call that yields nothing leaves a cursor at which the next call yields nothing as well, unless an unterminated `"` or `//` was skipped. |
| LexerProperties.NoneAfterOpenQuote | src/lexer.rs:187-191 | For the buffer `"a b`, the first call yields nothing with the cursor past the quote, and the second yields the identifier `a`. |
| LexerProperties.Operators | src/lexer.rs:130-186 | `==` and `->` are single tokens of length 2. `=` before another byte is an error consuming one byte. `-` alone is `Minus` and `/` alone is `Devide`. |
| LexerProperties.OtherPunctuation | src/lexer.rs:192-212 | Any other punctuation byte, other than `"`, is a one-byte token exactly when it is a one-byte spelling, and an `Unexpected character.` error otherwise. Either way it is consumed alone. |
| LexerProperties.LastPunctuationDropped | src/lexer.rs:129-131 | A punctuation byte that is the last byte of the buffer yields nothing, and the cursor stops at it. This includes `_`, which starts an identifier run that reaches the end. |
| LexerProperties.IdentifierToken | src/lexer.rs:216-233 | An identifier token is a maximal run of letters, digits and `_` that starts with a letter or `_`. The run is closed by another byte and is no keyword spelling. Its payload is exactly the run's bytes, which are valid UTF-8. |
| LexerProperties.IdentifierRun | src/lexer.rs:216-233 | Conversely, such a closed run at the lexeme is one token, the keyword it spells or else an identifier, and the cursor ends up at its end. |
| LexerProperties.KeywordToken | src/lexer.rs:192-233 | A token without payload spells its own table entry at the lexeme. One that starts with a letter is a whole identifier run. |
| LexerProperties.KeywordFromIdentifier | src/lexer.rs:219-224 | A keyword from an identifier run is the entry the whole closed run spells. |
| LexerProperties.IdentifierKindKeyword | src/lexer.rs:220-224 | An identifier run gives a kind without payload only through a successful lookup. |
| LexerProperties.KeywordFromPunctuation | src/lexer.rs:129-213 | A keyword from a punctuation byte is a table entry of one or two bytes, at that byte. |
| LexerProperties.OneByteKeyword | src/lexer.rs:192-203 | The one-byte lookup's token is the entry that its byte spells. |
| LexerProperties.LookaheadKeyword | src/lexer.rs:130-186 | The tokens of the lookahead branches spell the entries `==`, `->`, `-` and `/`. |
| TokenKinds.UIntToken | src/lexer.rs:235-253 | A `UInt` is a maximal digit run at the lexeme, closed by a byte that is neither a digit nor `.`. Its value is the decimal value of the run, and that value fits a 64-bit `usize` when there are at most 19 digits. |
| TokenKinds.IntegerRun | src/lexer.rs:235-253 | Conversely, such a closed digit run is one `UInt` of its decimal value. |
| TokenKinds.UIntRoundTrip | src/lexer.rs:241-245 | The decimal digits of any number, followed by any byte that ends the run, lex back to a `UInt` of that number spanning the digits. |
| TokenKinds.RealToken | src/lexer.rs:254-270 | A `Real` is digits, one `.` and, possibly empty, digits again, at the lexeme and closed by a non-digit. It carries exactly those bytes. |
| TokenKinds.RealRun | src/lexer.rs:254-270 | Conversely, such a closed lexeme is one `Real` token. |
| TokenKinds.StringToken | src/lexer.rs:271-285 | A `StringLiteral` is the body after a `"` at the lexeme. The body holds no `"`, is closed by the next `"` (which is consumed), and is valid UTF-8. The token carries exactly the body's bytes. |
| TokenKinds.StringRun | src/lexer.rs:271-294 | Conversely, for the next `"` after an opening one, the result is the literal when the body is valid UTF-8. Otherwise it is an `invalid utf-8` error at the body, where the cursor then stays. |
| TokenKinds.UnterminatedString | src/lexer.rs:187-191 | A `"` with no `"` after it yields nothing, and the cursor stops just past it. |
| TokenKinds.StringErrorUnreachable | src/lexer.rs:275-291 | In a buffer that is valid UTF-8, as a Rust `&str` always is, every error is `Unexpected character.` at the lexeme. |
| TokenKinds.ValidBufferValidBodies | src/lexer.rs:275-291 | In a valid UTF-8 buffer, the bytes between two `"` are valid UTF-8. |
| TokenKinds.CommentToken | src/lexer.rs:295-308 | A `Comment` is the text after a `//` at the lexeme, up to the next line feed, which is consumed. It carries exactly those bytes. |
| TokenKinds.CommentRun | src/lexer.rs:170-176 | Conversely, a `//` whose next line feed is at `eol` is one comment of the bytes in between, and the cursor ends past the line feed. |
| TokenKinds.UnterminatedComment | src/lexer.rs:172-176 | A `//` with no line feed after it yields nothing, and the cursor stops just past the `//`. |
| TokenKinds.ErrorItem | src/lexer.rs:120-127 | Every error is one of two kinds. It is either `Unexpected character.` at an unlexable lexeme, which is consumed, or `invalid utf-8` at the body of a closed, ill-formed string literal. |
| TokenKinds.QuoteError | src/lexer.rs:286-291 | The only error a `"` gives is `invalid utf-8` for a closed literal whose body is not valid UTF-8. |
| TokenKinds.OtherPunctuationError | src/lexer.rs:129-212 | Any other punctuation byte that gives an error is `=` not before `=`, or a byte that is no one-byte spelling. |
| TokenKinds.UnlexableGivesError | src/lexer.rs:204-211 | Conversely, an unlexable lexeme gives `Unexpected character.` at that byte and is consumed. |
| CommentFilter.FilterCommentAppend | src/lexer.rs:63-65 | Filtering works item by item: it distributes over concatenation and keeps order. |
| CommentFilter.FilterCommentCount | src/lexer.rs:63-65 | Each error and each non-comment token occurs in the output exactly as often as in the input. Comment tokens do not occur at all. |
| CommentFilter.FilterCommentIdentity | src/lexer.rs:63-65 | The stream comes back unchanged exactly when it holds no comment token. |
| CommentFilter.FilterCommentIdempotent | src/lexer.rs:63-65 | Filtering twice is the same as filtering once. |
| Bytes.DecimalValue | src/lexer.rs:242-245 | The decimal value of a digit run, which is what `parse::<usize>` gives when the value fits. The contract: the value is below ten to the power of the run's length. |
| Bytes.DecimalValueOfDigits | src/lexer.rs:242-245 | Reading back the decimal rendering of a number gives the number. |
| Bytes.DecimalValueFitsUsize | src/lexer.rs:242-245 | A run of at most 19 digits has a value below 2^64, so the `unwrap` of its parse cannot fail on a 64-bit target. |
| Bytes.RunEndUnique | src/lexer.rs:216-217 | A position that closes a run of bytes of one class is the end of the maximal run. |
| Utf8.AsciiIsValidUtf8 | src/lexer.rs:221-224 | Identifier bytes are ASCII, so the `String::from_utf8(..).unwrap()` of an identifier cannot fail. |
| Utf8.BetweenAsciiBytes | src/lexer.rs:275 | The bytes strictly between two ASCII bytes of valid UTF-8 are valid UTF-8. |
| Utf8.SplitAtAscii | src/lexer.rs:275 | Valid UTF-8 split at an ASCII byte leaves two valid halves. |

## Left out

- The one loop of `get_token`, with its state variable, is written as one
  method per state: `GetToken` is the `Whitespace` state and hands over to
  `ScanIdentifier`, `ScanInteger`, `ScanReal`, `ScanPunctuation`,
  `ScanComment` and `ScanString`. `ScanIdentifier`, `ScanInteger` and
  `ScanPunctuation` go on scanning from the byte after the one that chose
  the state, and `ScanReal` from the byte after the `.`. `ScanComment` and
  `ScanString` start at the first byte of the body, as the source's
  `continue` does. The state value itself is not kept.
- `TokenIterator::filter_comment` (src/lexer.rs:80-82) is `FilterComment`
  applied to `Items`. The filter is modelled on a finite sequence, not as a
  lazy iterator.
- `RecursiveTokenizer` (src/lexer.rs:13-46) is not modelled: it reads
  included files and caches them, which is file I/O.
- The file name is an opaque `Tokens.Path` value. Its borrowing and
  lifetimes are not modelled.
- `Real` tokens carry the lexeme's bytes rather than the `f64` that
  `parse` gives. Floating point is not modelled.
- `ScanInteger` models the value as an unbounded natural number. The
  source's `parse::<usize>().unwrap()` panics on a run whose value is 2^64
  or more; the model does not reproduce that panic. `UIntToken` and
  `Bytes.DecimalValueFitsUsize` show that runs of at most 19 digits always
  fit.
- UTF-8 decoding is modelled as a well-formedness predicate
  (`Utf8.IsValidUtf8`, following section 3.9 of the Unicode Standard). The
  decoded `String` is not modelled; the literal carries the body's bytes.
- `Lex` takes any byte buffer, not only valid UTF-8. `StringErrorUnreachable`
  states what the validity of a `&str` buffer adds.
- `match_keyword_exact` and `Token::is_comment` are called by the lexer but
  their source is not part of this model. The lookup is an exact,
  case-sensitive table from the spellings of src/keyword.rs to the token
  kind of the same name. `is_comment` is the `Comment` kind.
- src/tokens.rs is a stale draft. It served as a guide for `TokenType`;
  the model uses `Identifier`, adds `Arrow`, and uses `pos`/`len` instead of
  a position tuple, as src/lexer.rs does.
- `Display` and `Error` for `TokenizeError` (src/errors.rs), src/parser.rs
  and the command-line program src/bin/tokenizer.rs are not part of this
  model.
- After an unterminated string literal or comment, `None` is not final. A
  natural reading of the iterator contract would have every call after a
  `None` yield `None` too. The code instead moves the cursor past the
  opening `"` or `//` before it gives up, so the next call lexes what
  follows. The model follows the code: `NoneIsSticky` holds only outside
  that case, and `NoneAfterOpenQuote`, `UnterminatedString` and
  `UnterminatedComment` show the case itself.
- A lexeme that reaches the end of the buffer is dropped, as the code does.
  This covers an identifier, a number, or a punctuation byte with no byte
  after it.
