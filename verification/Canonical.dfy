/** Of the spellings the grammar allows, the one the encoder writes. */
module Canonical {
  import opened Common
  import opened Text
  import opened Frames
  import opened Wire
  import opened Grammar

  /** A number is written in the shortest way, and that way is the only one of its length. */
  lemma FormatI64IsShortest(text: bytes, n: i64)
    requires Numeral(text, n)
    ensures |FormatI64(n)| <= |text| && (|FormatI64(n)| == |text| ==> FormatI64(n) == text)
  {
    hide Value, Decimal, FormatNat;
    var digits := if text[0] == 45 || text[0] == 43 then text[1..] else text;
    assert text == (if text[0] == 45 || text[0] == 43 then [text[0]] else []) + digits;
    DecimalIsValue(digits);
    DigitsAreShortest(digits);
  }

  lemma {:induction false} DigitsAreShortest(s: bytes)
    requires s != [] && AllDigits(s)
    ensures var best := FormatNat(Decimal(s)); |best| <= |s| && (|best| == |s| ==> best == s)
  {
    var front, last := s[..|s| - 1], s[|s| - 1];
    assert s == front + [last];
    assert Decimal(s) == 10 * Decimal(front) + (last - 48);
    if front != [] {
      DigitsAreShortest(front);
    }
  }

  /** What is no number is written without a sign to spare; a null as the version calls for. */
  lemma ConstantsWritten(ft: FloatText, version: RespVersion)
    ensures Encoded(Null, V2, ft) == [36, 45, 49, 13, 10] && Encoded(Null, V3, ft) == [95, 13, 10]
    ensures Encoded(Double(NaN), version, ft) == [44, 110, 97, 110, 13, 10]
    ensures Encoded(Double(Infinity(false)), version, ft) == [44, 105, 110, 102, 13, 10]
    ensures Encoded(Double(Infinity(true)), version, ft) == [44, 45, 105, 110, 102, 13, 10]
    ensures Encoded(Boolean(true), version, ft) == [35, 116, 13, 10]
    ensures Encoded(Boolean(false), version, ft) == [35, 102, 13, 10]
  {
  }
}
