/** Texts: how they start and end, and the numbers in them. */
module Texts {
  predicate StartsWith(text: string, prefix: string) { |prefix| <= |text| && text[..|prefix|] == prefix }

  predicate EndsWith(text: string, suffix: string) { |suffix| <= |text| && text[|text| - |suffix|..] == suffix }

  /** Whether `\s` matches. */
  predicate IsSpace(c: char) {
    || '\t' <= c <= '\r' || '\U{1c}' <= c <= ' ' || c == '\U{85}' || c == '\U{a0}' || c == '\U{1680}'
    || '\U{2000}' <= c <= '\U{200a}' || c == '\U{2028}' || c == '\U{2029}' || c == '\U{202f}' || c == '\U{205f}'
       || c == '\U{3000}'
  }

  predicate IsDigit(c: char) { '0' <= c <= '9' }

  const DIGITS := "0123456789"

  lemma DigitExactly(c: char)
    ensures IsDigit(c) <==> c in DIGITS
  {
    if IsDigit(c) {
      var i := c as int - '0' as int;
      assert DIGITS[i] == c;
    }
  }

  function DigitValue(c: char): nat { if IsDigit(c) then c as int - '0' as int else 0 }

  /** The number that a text of decimal digits writes. */
  function Number(text: string): nat {
    if text == "" then 0 else 10 * Number(text[..|text| - 1]) + DigitValue(text[|text| - 1])
  }
}
