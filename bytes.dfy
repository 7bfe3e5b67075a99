/**
 * The bytes of a source buffer and the ASCII byte classes the lexer uses
 * (Rust's `u8::is_ascii_*` predicates), plus the decimal value of a digit run.
 */
module Bytes {

  /**
   * One byte of the buffer. A byte is written as the character with the same
   * code point, so Rust's byte literal `b'='` reads `'='` here and keyword
   * spellings can be written as string literals.
   */
  type Byte = c: char | c as int < 0x100

  /** `u8::is_ascii_whitespace`: space, tab, line feed, form feed, carriage return (not vertical tab). */
  predicate IsAsciiWhitespace(b: Byte) {
    b as int == 0x20 || b as int == 0x09 || b as int == 0x0A || b as int == 0x0C || b as int == 0x0D
  }

  /** `u8::is_ascii_digit`: `0` through `9`. */
  predicate IsAsciiDigit(b: Byte) {
    '0' <= b <= '9'
  }

  /** `u8::is_ascii_alphabetic`: `A` through `Z` and `a` through `z`. */
  predicate IsAsciiAlphabetic(b: Byte) {
    ('A' <= b <= 'Z') || ('a' <= b <= 'z')
  }

  /** `u8::is_ascii_punctuation`: the four ranges 0x21-0x2F, 0x3A-0x40, 0x5B-0x60, 0x7B-0x7E. */
  predicate IsAsciiPunctuation(b: Byte) {
    (0x21 <= b as int <= 0x2F) || (0x3A <= b as int <= 0x40) ||
    (0x5B <= b as int <= 0x60) || (0x7B <= b as int <= 0x7E)
  }

  /** A byte below 0x80. */
  predicate IsAscii(b: Byte) {
    b as int < 0x80
  }

  /** A byte that may start an identifier: a letter or `_`. */
  predicate IsIdentifierStart(b: Byte) {
    IsAsciiAlphabetic(b) || b == '_'
  }

  /** A byte that may continue an identifier: a digit, a letter or `_`. */
  predicate IsIdentifierByte(b: Byte) {
    IsAsciiDigit(b) || IsAsciiAlphabetic(b) || b == '_'
  }

  /**
   * The end of the maximal run of bytes satisfying `inRun` that begins at
   * `from`: the first index at or after `from` whose byte is outside the run,
   * or the end of the buffer (`RunEndSpec` states this).
   */
  function RunEnd(s: seq<Byte>, from: nat, inRun: Byte -> bool): (e: nat)
    requires from <= |s|
    ensures from <= e <= |s|
    decreases |s| - from
  {
    if from == |s| || !inRun(s[from]) then from else RunEnd(s, from + 1, inRun)
  }

  /** The first index at or after `from` that holds no whitespace (or `|s|`). */
  function SkipWhitespace(s: seq<Byte>, from: nat): (e: nat)
    requires from <= |s|
  {
    RunEnd(s, from, IsAsciiWhitespace)
  }

  /** Every byte before the run end is in the run, and the byte at the run end (if any) is not. */
  lemma {:induction false} RunEndSpec(s: seq<Byte>, from: nat, inRun: Byte -> bool)
    requires from <= |s|
    ensures forall i :: from <= i < RunEnd(s, from, inRun) ==> inRun(s[i])
    ensures RunEnd(s, from, inRun) < |s| ==> !inRun(s[RunEnd(s, from, inRun)])
    decreases |s| - from
  {
    if from < |s| && inRun(s[from]) {
      RunEndSpec(s, from + 1, inRun);
    }
  }

  /** The run end is determined by the run: any index that closes the run from `from` is it. */
  lemma {:induction false} RunEndUnique(s: seq<Byte>, from: nat, inRun: Byte -> bool, e: nat)
    requires from <= e <= |s|
    requires forall i :: from <= i < e ==> inRun(s[i])
    requires e < |s| ==> !inRun(s[e])
    ensures RunEnd(s, from, inRun) == e
    decreases e - from
  {
    if from < e {
      RunEndUnique(s, from + 1, inRun, e);
    }
  }

  /** A run known to reach `k` reaches past it when the byte at `k` is in the run. */
  lemma RunEndPast(s: seq<Byte>, from: nat, k: nat, inRun: Byte -> bool)
    requires from <= k < |s| && RunEnd(s, from, inRun) >= k && inRun(s[k])
    ensures RunEnd(s, from, inRun) > k
  {
    RunEndSpec(s, from, inRun);
  }

  /** A run known to reach `k` ends there when `k` is the end of the buffer or its byte is outside the run. */
  lemma RunEndAt(s: seq<Byte>, from: nat, k: nat, inRun: Byte -> bool)
    requires from <= k <= |s| && RunEnd(s, from, inRun) >= k
    requires k < |s| ==> !inRun(s[k])
    ensures RunEnd(s, from, inRun) == k
  {
    RunEndSpec(s, from, inRun);
  }

  /** A slice of length one holds the byte at its start. */
  lemma SingletonSlice(s: seq<Byte>, i: nat)
    requires i < |s|
    ensures s[i..i + 1] == [s[i]]
  {
  }

  /** Ten to the power `n`. */
  function Pow10(n: nat): (p: nat)
    ensures p >= 1
  {
    if n == 0 then 1 else 10 * Pow10(n - 1)
  }

  /** Every byte of `s` is a decimal digit. */
  predicate AllDigits(s: seq<Byte>) {
    forall i :: 0 <= i < |s| ==> IsAsciiDigit(s[i])
  }

  /** The value of one digit byte. */
  function DigitValue(b: Byte): (d: nat)
    requires IsAsciiDigit(b)
    ensures d < 10
  {
    b as int - '0' as int
  }

  /**
   * The value `str::parse::<usize>` gives a run of decimal digits, as an
   * unbounded natural number; it is below 10 to the power of the run's length.
   */
  function DecimalValue(s: seq<Byte>): (v: nat)
    requires AllDigits(s)
    ensures v < Pow10(|s|)
  {
    if s == [] then 0 else 10 * DecimalValue(s[..|s| - 1]) + DigitValue(s[|s| - 1])
  }

  /** The digit byte whose value is `d`. */
  function DigitByte(d: nat): (b: Byte)
    requires d < 10
    ensures IsAsciiDigit(b) && DigitValue(b) == d
  {
    ('0' as int + d) as char
  }

  /** The decimal rendering of `n`, without leading zeros. */
  function DecimalDigits(n: nat): (s: seq<Byte>)
    ensures AllDigits(s) && |s| >= 1
    ensures |s| > 1 ==> s[0] != '0'
  {
    if n < 10 then [DigitByte(n)] else DecimalDigits(n / 10) + [DigitByte(n % 10)]
  }

  /** Reading back a rendering gives the number: the digit run determines the value decimally. */
  lemma {:induction false} DecimalValueOfDigits(n: nat)
    ensures DecimalValue(DecimalDigits(n)) == n
  {
    var s := DecimalDigits(n);
    if n >= 10 {
      DecimalValueOfDigits(n / 10);
      assert s[..|s| - 1] == DecimalDigits(n / 10);
    }
  }

  /** Powers of ten grow with the exponent. */
  lemma {:induction false} Pow10Monotone(m: nat, n: nat)
    requires m <= n
    ensures Pow10(m) <= Pow10(n)
    decreases n
  {
    if m < n {
      Pow10Monotone(m, n - 1);
    }
  }

  /**
   * A run of at most 19 digits always fits a 64-bit `usize`, so the
   * `parse().unwrap()` of such a run cannot panic.
   */
  lemma DecimalValueFitsUsize(s: seq<Byte>)
    requires AllDigits(s) && |s| <= 19
    ensures DecimalValue(s) < 0x1_0000_0000_0000_0000
  {
    Pow10Monotone(|s|, 19);
    assert Pow10(10) == 10000000000;
    assert Pow10(19) == 10000000000000000000;
  }
}
