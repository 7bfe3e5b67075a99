/**
 * The keyword table: every reserved spelling, in the order the table lists
 * them, with the token kind it stands for, and the exact lookup into it.
 */
module Keyword {
  import opened Wrappers
  import opened Bytes
  import opened Tokens

  const KeywordTable: seq<(string, TokenType)> := [
    ("OPENQASM", OpenQasm), ("include", Include), ("qreg", QReg), ("creg", CReg),
    ("barrier", Barrier), ("gate", Gate), ("if", If), ("measure", Measure),
    ("opaque", Opaque), ("reset", Reset),
    // builtin constant
    ("pi", Pi),
    // builtin gates
    ("U", U), ("CX", CX),
    // builtin unary functions
    ("sin", Sin), ("cos", Cos), ("tan", Tan), ("exp", Exp), ("ln", Ln), ("sqrt", Sqrt),
    // punctuation
    ("+", Plus), ("-", Minus), ("*", Times), ("/", Devide), ("^", Power),
    (",", Comma), (";", Semicolon), ("==", DoubleEqual), ("->", Arrow),
    // brackets
    ("(", LParen), (")", RParen), ("{", LBrace), ("}", RBrace), ("[", LSqBracket), ("]", RSqBracket)
  ]

  /** The number of table entries that are words (reserved words, constant, gates, functions). */
  const WordEntries := 19

  /** First-match linear lookup of a spelling in a table. */
  function Lookup(table: seq<(string, TokenType)>, s: seq<Byte>): (r: Option<TokenType>)
    ensures r.Some? <==> exists i :: 0 <= i < |table| && table[i].0 == s
    ensures r.Some? ==> exists i :: 0 <= i < |table| && table[i] == (s, r.value)
  {
    if table == [] then None
    else if table[0].0 == s then Some(table[0].1)
    else
      var r := Lookup(table[1..], s);
      assert forall i :: 0 < i < |table| ==> table[i] == table[1..][i - 1];
      r
  }

  /** No spelling occurs twice in the table. */
  lemma SpellingsDistinct(i: nat, j: nat)
    requires i < j < |KeywordTable|
    ensures KeywordTable[i].0 != KeywordTable[j].0
  {
    if j < WordEntries {
      WordSpellingsDistinct(i, j);
    } else if WordEntries <= i {
      SymbolSpellingsDistinct(i, j);
    } else {
      // a word starts with a letter, a symbol with punctuation
      assert IsAsciiAlphabetic(KeywordTable[i].0[0]) && !IsAsciiAlphabetic(KeywordTable[j].0[0]);
    }
  }

  /** No word spelling occurs twice. */
  lemma WordSpellingsDistinct(i: nat, j: nat)
    requires i < j < WordEntries
    ensures KeywordTable[i].0 != KeywordTable[j].0
  {
  }

  /** No punctuation spelling occurs twice. */
  lemma SymbolSpellingsDistinct(i: nat, j: nat)
    requires WordEntries <= i < j < |KeywordTable|
    ensures KeywordTable[i].0 != KeywordTable[j].0
  {
  }

  /** Every kind the table names is a kind without payload. */
  lemma TableKindsAreKeywords()
    ensures forall i :: 0 <= i < |KeywordTable| ==> KeywordTable[i].1.IsKeyword()
  {
  }

  /**
   * `match_keyword_exact`: exact, case-sensitive lookup of the whole slice
   * (`MatchKeywordExactIsExact` states what it finds).
   */
  function MatchKeywordExact(s: seq<Byte>): (r: Option<TokenType>)
    ensures r.Some? ==> r.value.IsKeyword()
  {
    TableKindsAreKeywords();
    Lookup(KeywordTable, s)
  }

  /**
   * Because the spellings are distinct, the lookup is a partial function: it
   * gives `k` exactly when the table pairs the slice with `k`.
   */
  lemma MatchKeywordExactIsExact(s: seq<Byte>)
    ensures forall k :: MatchKeywordExact(s) == Some(k) <==> (s, k) in KeywordTable
  {
    var r := MatchKeywordExact(s);
    forall k | (s, k) in KeywordTable
      ensures r == Some(k)
    {
      var j :| 0 <= j < |KeywordTable| && KeywordTable[j] == (s, k);
      var i :| 0 <= i < |KeywordTable| && KeywordTable[i] == (s, r.value);
      if i < j {
        SpellingsDistinct(i, j);
      } else if j < i {
        SpellingsDistinct(j, i);
      }
    }
  }
}
