/**
 * Well-formed UTF-8 (the table of well-formed byte sequences in section 3.9
 * of the Unicode Standard), as `String::from_utf8` checks it.
 */
module Utf8 {
  import opened Bytes

  predicate InRange(b: Byte, lo: int, hi: int) {
    lo <= b as int <= hi
  }

  /** A continuation byte, 0x80 through 0xBF. */
  predicate IsContinuation(b: Byte) {
    InRange(b, 0x80, 0xBF)
  }

  /**
   * The length of the well-formed sequence that encodes one scalar value at
   * the start of `s`, or 0 when `s` does not start with one.
   */
  function LeadingScalarLength(s: seq<Byte>): (n: nat)
    ensures n <= 4 && n <= |s|
    ensures n == 1 <==> |s| > 0 && IsAscii(s[0])
    ensures forall i :: 1 <= i < n ==> IsContinuation(s[i])
  {
    if |s| == 0 then 0
    else
      var b := s[0];
      if IsAscii(b) then 1
      else if |s| >= 2 && InRange(b, 0xC2, 0xDF) && IsContinuation(s[1]) then 2
      else if |s| >= 3 && IsContinuation(s[2]) &&
              ((b as int == 0xE0 && InRange(s[1], 0xA0, 0xBF)) ||
               (InRange(b, 0xE1, 0xEC) && IsContinuation(s[1])) ||
               (b as int == 0xED && InRange(s[1], 0x80, 0x9F)) ||
               (InRange(b, 0xEE, 0xEF) && IsContinuation(s[1])))
      then 3
      else if |s| >= 4 && IsContinuation(s[2]) && IsContinuation(s[3]) &&
              ((b as int == 0xF0 && InRange(s[1], 0x90, 0xBF)) ||
               (InRange(b, 0xF1, 0xF3) && IsContinuation(s[1])) ||
               (b as int == 0xF4 && InRange(s[1], 0x80, 0x8F)))
      then 4
      else 0
  }

  /** `s` is a concatenation of well-formed scalar encodings. */
  predicate IsValidUtf8(s: seq<Byte>)
    decreases |s|
  {
    s == [] || (var n := LeadingScalarLength(s); n > 0 && IsValidUtf8(s[n..]))
  }

  /** Every all-ASCII sequence is valid UTF-8 (identifier and number bytes decode without error). */
  lemma {:induction false} AsciiIsValidUtf8(s: seq<Byte>)
    requires forall i :: 0 <= i < |s| ==> IsAscii(s[i])
    ensures IsValidUtf8(s)
    decreases |s|
  {
    if s != [] {
      AsciiIsValidUtf8(s[1..]);
    }
  }

  /** The leading scalar's length depends only on its own bytes. */
  lemma LeadingScalarLengthOfPrefix(s: seq<Byte>, k: nat)
    requires LeadingScalarLength(s) <= k <= |s|
    ensures LeadingScalarLength(s[..k]) == LeadingScalarLength(s)
  {
    var n := LeadingScalarLength(s);
    if n > 0 {
      assert forall i :: 0 <= i < n ==> s[..k][i] == s[i];
    }
  }

  /**
   * In valid UTF-8 an ASCII byte always starts a scalar, so splitting there
   * leaves two valid halves.
   */
  lemma {:induction false} SplitAtAscii(s: seq<Byte>, k: nat)
    requires IsValidUtf8(s)
    requires k < |s| && IsAscii(s[k])
    ensures IsValidUtf8(s[..k]) && IsValidUtf8(s[k..])
    decreases |s|
  {
    if k > 0 {
      var n := LeadingScalarLength(s);
      assert n > 0;
      assert k >= n;
      var rest := s[n..];
      assert rest[k - n] == s[k];
      SplitAtAscii(rest, k - n);
      assert s[k..] == rest[k - n..];
      LeadingScalarLengthOfPrefix(s, k);
      assert s[..k][n..] == rest[..k - n];
    }
  }

  /** The bytes strictly between two ASCII bytes of valid UTF-8 are valid UTF-8. */
  lemma BetweenAsciiBytes(s: seq<Byte>, open: nat, close: nat)
    requires IsValidUtf8(s)
    requires open < close < |s| && IsAscii(s[open]) && IsAscii(s[close])
    ensures IsValidUtf8(s[open + 1..close])
  {
    ValidAfterAscii(s, open);
    var inner := s[open + 1..];
    DropThenTake(s, open + 1, close);
    ValidBeforeAscii(inner, close - (open + 1));
  }

  /** What follows an ASCII byte of valid UTF-8 is valid UTF-8. */
  lemma ValidAfterAscii(s: seq<Byte>, k: nat)
    requires IsValidUtf8(s) && k < |s| && IsAscii(s[k])
    ensures IsValidUtf8(s[k + 1..])
  {
    SplitAtAscii(s, k);
    AfterAscii(s, k);
  }

  /** What precedes an ASCII byte of valid UTF-8 is valid UTF-8. */
  lemma ValidBeforeAscii(s: seq<Byte>, k: nat)
    requires IsValidUtf8(s) && k < |s| && IsAscii(s[k])
    ensures IsValidUtf8(s[..k])
  {
    SplitAtAscii(s, k);
  }

  /** Valid UTF-8 that starts with an ASCII byte stays valid without it. */
  lemma AfterAscii(s: seq<Byte>, k: nat)
    requires k < |s| && IsAscii(s[k]) && IsValidUtf8(s[k..])
    ensures IsValidUtf8(s[k + 1..])
  {
    var tail := s[k..];
    assert LeadingScalarLength(tail) == 1;
    assert tail[1..] == s[k + 1..];
  }

  /** Indexing and taking a prefix after dropping the first `i` bytes. */
  lemma DropThenTake(s: seq<Byte>, i: nat, j: nat)
    requires i <= j <= |s|
    ensures j < |s| ==> s[i..][j - i] == s[j]
    ensures s[i..][..j - i] == s[i..j]
  {
  }
}
