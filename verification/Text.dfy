/** The texts of the wire format: UTF-8 strings, decimal numbers, lines ending in CR LF. */
module Text {
  import opened Common

  const CR: byte := 13
  const LF: byte := 10
  const CRLF: bytes := [CR, LF]
  const MINUS: byte := '-' as int
  const PLUS: byte := '+' as int

  // ---- UTF-8 --------------------------------------------------------------------------

  predicate Within(b: byte, low: int, high: int) {
    low <= b <= high
  }

  predicate Continues(s: bytes, from: nat, n: nat) {
    n <= |s| && forall i :: from <= i < n ==> Within(s[i], 0x80, 0xBF)
  }

  /** The length of the character a text starts with (the table of section 4 of RFC 3629); 0 for none. */
  function CharLength(s: bytes): (n: nat)
    ensures n <= |s|
  {
    if s == [] then 0
    else if s[0] < 0x80 then 1
    else if Within(s[0], 0xC2, 0xDF) && Continues(s, 1, 2) then 2
    else if Within(s[0], 0xE0, 0xEF) && Continues(s, 1, 3)
            && (s[0] == 0xE0 ==> 0xA0 <= s[1]) && (s[0] == 0xED ==> s[1] <= 0x9F) then 3
    else if Within(s[0], 0xF0, 0xF4) && Continues(s, 1, 4)
            && (s[0] == 0xF0 ==> 0x90 <= s[1]) && (s[0] == 0xF4 ==> s[1] <= 0x8F) then 4
    else 0
  }

  predicate ValidUtf8(s: bytes) {
    s != [] ==> CharLength(s) > 0 && ValidUtf8(s[CharLength(s)..])
  }

  lemma {:induction false} AsciiIsValid(s: bytes)
    requires forall i :: 0 <= i < |s| ==> s[i] < 0x80
    ensures ValidUtf8(s)
  {
    if s != [] {
      AsciiIsValid(s[1..]);
    }
  }

  // ---- Decimal numbers ------------------------------------------------------------------

  predicate IsDigit(b: byte) {
    Within(b, 48, 57)
  }

  predicate AllDigits(s: bytes) {
    forall i :: 0 <= i < |s| ==> IsDigit(s[i])
  }

  function Decimal(s: bytes): nat
    requires AllDigits(s)
  {
    if s == [] then 0 else Decimal(s[..|s| - 1]) * 10 + (s[|s| - 1] - 48)
  }

  /** A signed 64-bit integer: an optional sign and at least one digit, in range. */
  function FromStr(s: bytes): Option<i64> {
    if s == [] then None
    else
      var digits := if s[0] == MINUS || s[0] == PLUS then s[1..] else s;
      if digits == [] || !AllDigits(digits) then None
      else
        var size: int := Decimal(digits);
        var n := if s[0] == MINUS then -size else size;
        if -U63 <= n < U63 then Some(n) else None
  }

  function ParseI64(line: bytes): Option<i64> {
    if ValidUtf8(line) then FromStr(line) else None
  }

  function FormatNat(n: nat): bytes {
    (if n < 10 then [] else FormatNat(n / 10)) + [48 + n % 10]
  }

  function Size(n: int): nat {
    if n < 0 then -n else n
  }

  function FormatI64(n: i64): bytes {
    (if n < 0 then [MINUS] else []) + FormatNat(Size(n))
  }

  lemma {:induction false} FormatNatParses(n: nat)
    ensures FormatNat(n) != [] && AllDigits(FormatNat(n)) && Decimal(FormatNat(n)) == n
  {
    if n >= 10 {
      FormatNatParses(n / 10);
      assert FormatNat(n)[..|FormatNat(n)| - 1] == FormatNat(n / 10);
    }
  }

  /** Every integer survives being written and read back; its text is safe inside a line. */
  lemma FormatI64Parses(n: i64)
    ensures ParseI64(FormatI64(n)) == Some(n)
    ensures CrlfFree(FormatI64(n))
  {
    hide FormatNat, Decimal, ValidUtf8;
    var s, digits := FormatI64(n), FormatNat(Size(n));
    FormatNatParses(Size(n));
    assert s == if n < 0 then [MINUS] + digits else digits;
    assert n < 0 ==> s[1..] == digits;
    assert forall i :: 0 <= i < |s| ==> IsDigit(s[i]) || s[i] == MINUS;
    AsciiIsValid(s);
    assert IsDigit(digits[0]);
  }

  function Pow10(k: nat): nat {
    if k == 0 then 1 else 10 * Pow10(k - 1)
  }

  lemma {:induction false} FormatNatLength(n: nat, k: nat)
    requires 0 < k && n < Pow10(k)
    ensures |FormatNat(n)| <= k
  {
    if n >= 10 {
      assert k > 1;
      FormatNatLength(n / 10, k - 1);
    }
  }

  /** Twenty bytes hold any 64-bit integer. */
  lemma FormatI64Fits(n: i64)
    ensures |FormatI64(n)| <= 20
  {
    assert Pow10(5) == 100_000;
    assert Pow10(10) == 100_000 * Pow10(5);
    assert Pow10(15) == 100_000 * Pow10(10);
    assert Pow10(19) == 10_000 * Pow10(15);
    FormatNatLength(Size(n), 19);
  }

  // ---- Lines -----------------------------------------------------------------------------

  predicate CrlfAt(s: bytes, i: nat) {
    i + 1 < |s| && s[i] == CR && s[i + 1] == LF
  }

  predicate CrlfFree(s: bytes) {
    forall i: nat :: i < |s| ==> !CrlfAt(s, i)
  }

  /** Where the first CR LF at or after `from` is. */
  function FindCrlf(s: bytes, from: nat): (r: Option<nat>)
    ensures r.Some? ==> from <= r.value && CrlfAt(s, r.value)
    decreases |s| - from
  {
    if from + 1 >= |s| then None
    else if CrlfAt(s, from) then Some(from)
    else FindCrlf(s, from + 1)
  }

  lemma {:induction false} FindCrlfIsFirst(s: bytes, from: nat, i: nat)
    requires from <= i && (FindCrlf(s, from).Some? ==> i < FindCrlf(s, from).value)
    ensures !CrlfAt(s, i)
    decreases |s| - from
  {
    if from + 1 < |s| && from < i {
      FindCrlfIsFirst(s, from + 1, i);
    }
  }

  lemma {:induction false} FindCrlfFinds(s: bytes, from: nat, at: nat)
    requires from <= at && CrlfAt(s, at)
    requires forall i :: from <= i < at ==> !CrlfAt(s, i)
    ensures FindCrlf(s, from) == Some(at)
    decreases at - from
  {
    if from < at {
      FindCrlfFinds(s, from + 1, at);
    }
  }

  lemma {:induction false} NoLineFound(s: bytes, from: nat)
    requires forall i: nat :: from <= i < |s| ==> !CrlfAt(s, i)
    ensures FindCrlf(s, from) == None
    decreases |s| - from
  {
    if from + 1 < |s| {
      NoLineFound(s, from + 1);
    }
  }

  /** A line end already there is not moved by further bytes. */
  lemma FindCrlfStable(s: bytes, t: bytes, from: nat)
    requires s <= t && FindCrlf(s, from).Some?
    ensures FindCrlf(t, from) == FindCrlf(s, from)
  {
    var at := FindCrlf(s, from).value;
    forall i | from <= i < at ensures !CrlfAt(t, i) {
      FindCrlfIsFirst(s, from, i);
    }
    FindCrlfFinds(t, from, at);
  }

  // ---- Pieces of a buffer ---------------------------------------------------------------

  /** `piece` stands in `input` at position `from`. */
  predicate At(input: bytes, from: nat, piece: bytes) {
    from + |piece| <= |input| && input[from..from + |piece|] == piece
  }

  lemma AtSplits(input: bytes, from: nat, a: bytes, b: bytes)
    ensures At(input, from, a + b) <==> At(input, from, a) && At(input, from + |a|, b)
  {
    if At(input, from, a + b) {
      assert input[from..from + |a|] == (a + b)[..|a|] == a;
      assert input[from + |a|..from + |a| + |b|] == (a + b)[|a|..] == b;
    }
    if At(input, from, a) && At(input, from + |a|, b) {
      assert input[from..from + |a + b|] == input[from..from + |a|] + input[from + |a|..from + |a| + |b|];
    }
  }

  lemma ByteAt(input: bytes, from: nat, piece: bytes, k: nat)
    requires At(input, from, piece) && k < |piece|
    ensures input[from + k] == piece[k]
  {
    assert input[from + k] == input[from..from + |piece|][k];
  }
}
