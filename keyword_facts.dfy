/**
 * What the keyword table guarantees the lexer: which slices find an entry,
 * and which kinds a one-byte slice can produce.
 */
module KeywordFacts {
  import opened Wrappers
  import opened Bytes
  import opened Tokens
  import opened Keyword

  /** Every spelling finds its own entry. */
  lemma EntryFound(i: nat)
    requires i < |KeywordTable|
    ensures MatchKeywordExact(KeywordTable[i].0) == Some(KeywordTable[i].1)
  {
    MatchKeywordExactIsExact(KeywordTable[i].0);
  }

  /** A slice that is no spelling finds nothing. */
  lemma NoEntryFound(s: seq<Byte>)
    requires forall i :: 0 <= i < |KeywordTable| ==> KeywordTable[i].0 != s
    ensures MatchKeywordExact(s) == None
  {
  }

  /**
   * The word entries are made of ASCII letters only, so only an identifier
   * run can spell one.
   */
  lemma WordSpellingsAreLetters()
    ensures forall i, j :: 0 <= i < WordEntries && 0 <= j < |KeywordTable[i].0| ==> IsAsciiAlphabetic(KeywordTable[i].0[j])
  {
  }

  /** The other entries are one or two ASCII punctuation bytes. */
  lemma SymbolSpellingsArePunctuation()
    ensures forall i :: WordEntries <= i < |KeywordTable| ==> 1 <= |KeywordTable[i].0| <= 2
    ensures forall i, j :: WordEntries <= i < |KeywordTable| && 0 <= j < |KeywordTable[i].0| ==> IsAsciiPunctuation(KeywordTable[i].0[j])
  {
  }

  /** The spellings of the one-byte punctuation entries. */
  const OneByteSpellings: seq<Byte> := "+-*/^,;(){}[]"

  /**
   * Looked up as a one-byte slice, a punctuation byte is found exactly when
   * it is one of the one-byte entries.
   */
  lemma OneByteLookup(c: Byte)
    requires IsAsciiPunctuation(c)
    ensures MatchKeywordExact([c]).Some? <==> c in OneByteSpellings
  {
    if c in OneByteSpellings {
      var j :| 0 <= j < |OneByteSpellings| && OneByteSpellings[j] == c;
      // the one-byte entries are the table's from `WordEntries` on, but for `==` and `->`
      var i := if j < 7 then WordEntries + j else WordEntries + j + 2;
      assert KeywordTable[i].0 == [c];
    } else {
      assert forall i :: 0 <= i < |KeywordTable| ==> KeywordTable[i].0 != [c];
      NoEntryFound([c]);
    }
  }

  /** A one-byte slice never finds the two-byte entries `==` and `->`. */
  lemma NoTwoByteKindFromOneByte(c: Byte)
    ensures MatchKeywordExact([c]) != Some(DoubleEqual) && MatchKeywordExact([c]) != Some(Arrow)
  {
    var r := MatchKeywordExact([c]);
    if r.Some? {
      var i :| 0 <= i < |KeywordTable| && KeywordTable[i] == ([c], r.value);
      OneByteEntries(i);
    }
  }

  /** The entries spelled with one byte: `U` and the one-byte punctuation entries. */
  lemma OneByteEntries(i: nat)
    requires i < |KeywordTable| && |KeywordTable[i].0| == 1
    ensures KeywordTable[i].1 != DoubleEqual && KeywordTable[i].1 != Arrow
  {
  }

  /** Lower-case gate names and extended keywords are no keywords. */
  lemma NearKeywordsAreNone(s: seq<Byte>)
    requires s == "openqasm" || s == "u" || s == "cx" || s == "pie" || s == "gates"
    ensures MatchKeywordExact(s) == None
  {
    NoEntryFound(s);
  }
}
