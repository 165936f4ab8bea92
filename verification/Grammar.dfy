/** The RESP grammar, byte by byte: which bytes stand for a frame, and that decoding accepts exactly those. */
module Grammar {
  import opened Common
  import opened Text
  import opened Frames
  import opened Parsing

  // ---- Numerals ------------------------------------------------------------------------------

  predicate Digits(s: bytes) {
    s != [] && forall i :: 0 <= i < |s| ==> 48 <= s[i] <= 57
  }

  /** The first digit of n weighs ten to the power n - 1. */
  function Value(s: bytes): (v: int)
    requires forall i :: 0 <= i < |s| ==> 48 <= s[i]
    ensures 0 <= v
  {
    if s == [] then 0 else (s[0] - 48) * Pow10(|s| - 1) + Value(s[1..])
  }

  /** `text` reads as `n`: digits behind at most one sign, leading zeros allowed, in the signed 64-bit range. */
  predicate Numeral(text: bytes, n: int) {
    && -0x8000_0000_0000_0000 <= n < 0x8000_0000_0000_0000
    && text != []
    && if text[0] == 45 then Digits(text[1..]) && n == -Value(text[1..])
       else if text[0] == 43 then Digits(text[1..]) && n == Value(text[1..])
       else Digits(text) && n == Value(text)
  }

  lemma {:induction false} ValueGrows(s: bytes, last: byte)
    requires (forall i :: 0 <= i < |s| ==> 48 <= s[i]) && 48 <= last
    ensures Value(s + [last]) == Value(s) * 10 + (last - 48)
  {
    if s == [] {
      assert Value([last][1..]) == 0;
    } else {
      ValueGrows(s[1..], last);
      assert (s + [last])[1..] == s[1..] + [last];
      TenTimes(s[0] - 48, Pow10(|s| - 1));
    }
  }

  lemma TenTimes(a: int, b: int)
    ensures a * (10 * b) == a * b * 10
  {
  }

  lemma {:induction false} DecimalIsValue(s: bytes)
    requires AllDigits(s)
    ensures Decimal(s) == Value(s)
  {
    hide Value;
    if s != [] {
      DecimalIsValue(s[..|s| - 1]);
      ValueGrows(s[..|s| - 1], s[|s| - 1]);
      assert s[..|s| - 1] + [s[|s| - 1]] == s;
    } else {
      assert s == [];
      ValueOfNothing();
    }
  }

  lemma ValueOfNothing()
    ensures Value([]) == 0
  {
  }

  lemma NumeralIff(text: bytes, n: i64)
    ensures ParseI64(text) == Some(n) <==> Numeral(text, n)
  {
    hide Decimal, Value, ValidUtf8;
    if text != [] {
      var digits := if text[0] == MINUS || text[0] == PLUS then text[1..] else text;
      if AllDigits(digits) {
        DecimalIsValue(digits);
        assert forall i :: 1 <= i < |text| ==> text[i] == text[1..][i - 1];
        AsciiIsValid(text);
      }
      assert Digits(digits) <==> digits != [] && AllDigits(digits);
    }
  }

  // ---- Lines and payloads ------------------------------------------------------------------------

  predicate NoLineEnd(text: bytes) {
    forall i :: 0 <= i < |text| - 1 ==> !(text[i] == 13 && text[i + 1] == 10)
  }

  /** From `from` to `next` stand `text` and a line end, the first there is. */
  predicate OneLine(input: bytes, from: nat, text: bytes, next: nat) {
    At(input, from, text + [13, 10]) && NoLineEnd(text) && next == from + |text| + 2
  }

  /** A line that begins with the byte `kind`. */
  predicate OnLine(input: bytes, from: nat, kind: byte, text: bytes, next: nat) {
    from < |input| && input[from] == kind && OneLine(input, from + 1, text, next)
  }

  ghost predicate OnCountLine(input: bytes, from: nat, kind: byte, n: int, next: nat) {
    exists text :: OnLine(input, from, kind, text, next) && Numeral(text, n)
  }

  lemma LineIff(input: bytes, from: nat, text: bytes, next: nat)
    ensures LineAt(input, from) == Done(text, next) <==> OneLine(input, from, text, next)
  {
    hide FindCrlf;
    if OneLine(input, from, text, next) {
      LineThere(input, from, text);
    }
    if LineAt(input, from) == Done(text, next) {
      LineFound(input, from, text, next);
    }
  }

  lemma LineThere(input: bytes, from: nat, text: bytes)
    requires At(input, from, text + [13, 10]) && NoLineEnd(text)
    ensures LineAt(input, from) == Done(text, from + |text| + 2)
  {
    hide FindCrlf;
    var end := from + |text|;
    AtSplits(input, from, text, [13, 10]);
    ByteAt(input, end, [13, 10], 0);
    ByteAt(input, end, [13, 10], 1);
    forall i | from <= i < end ensures !CrlfAt(input, i) {
      ByteAt(input, from, text, i - from);
      if i + 1 < end {
        ByteAt(input, from, text, i + 1 - from);
      }
    }
    FindCrlfFinds(input, from, end);
  }

  lemma LineFound(input: bytes, from: nat, text: bytes, next: nat)
    requires LineAt(input, from) == Done(text, next)
    ensures OneLine(input, from, text, next)
  {
    hide FindCrlf;
    var end := FindCrlf(input, from).value;
    assert input[from..end + 2] == text + [13, 10];
    forall i | 0 <= i < |text| - 1 ensures !(text[i] == 13 && text[i + 1] == 10) {
      FindCrlfIsFirst(input, from, from + i);
    }
  }

  lemma NumberIff(input: bytes, from: nat, kind: byte, n: i64, next: nat)
    ensures OnCountLine(input, from, kind, n, next)
        <==> from < |input| && input[from] == kind && NumberAt(input, from + 1) == Done(n, next)
  {
    hide LineAt, ParseI64, Numeral, OneLine;
    forall text | OnLine(input, from, kind, text, next) && Numeral(text, n)
      ensures NumberAt(input, from + 1) == Done(n, next)
    {
      LineIff(input, from + 1, text, next);
      NumeralIff(text, n);
    }
    if from < |input| && input[from] == kind && NumberAt(input, from + 1) == Done(n, next) {
      var text := LineAt(input, from + 1).value;
      LineIff(input, from + 1, text, next);
      NumeralIff(text, n);
      assert OnLine(input, from, kind, text, next);
    }
  }

  /** From `from` to `next` stand any bytes and a line end. */
  predicate OnPayload(input: bytes, from: nat, payload: bytes, next: nat) {
    At(input, from, payload + [13, 10]) && next == from + |payload| + 2
  }

  lemma PayloadIff(input: bytes, from: nat, payload: bytes, next: nat)
    ensures PayloadAt(input, from, |payload|) == Done(payload, next) <==> OnPayload(input, from, payload, next)
  {
    var end := from + |payload|;
    AtSplits(input, from, payload, [13, 10]);
    if end + 2 <= |input| {
      assert CrlfAt(input, end) <==> input[end..end + 2] == [13, 10];
    }
  }

  // ---- Frames ---------------------------------------------------------------------------------------

  /** The five spellings of what is no number, and beside them whatever the library reads as a double. */
  ghost predicate ReadsAs(text: bytes, d: Float, ft: FloatText) {
    if text in {[105, 110, 102], [43, 105, 110, 102]} then d == Infinity(false)
    else if text == [45, 105, 110, 102] then d == Infinity(true)
    else if text in {[110, 97, 110], [45, 110, 97, 110]} then d == NaN
    else ft.parse(text) == Some(d)
  }

  /** A count line within the limit, and as many bytes. */
  ghost predicate Sized(input: bytes, from: nat, kind: byte, payload: bytes, next: nat, limit: nat) {
    && |payload| <= limit
    && exists body :: OnCountLine(input, from, kind, |payload|, body) && OnPayload(input, body, payload, next)
  }

  /** The bytes from `from` to `next` stand for `f`, at a depth of nesting. */
  ghost predicate Spells(input: bytes, from: nat, f: Frame, next: nat, lim: Limits, depth: nat, ft: FloatText)
    decreases f
  {
    && depth <= lim.maxDepth
    && match f
       case Simple(text) => OnLine(input, from, 43, text, next) && ValidUtf8(text)
       case Error(text) => OnLine(input, from, 45, text, next) && ValidUtf8(text)
       case BigNumber(text) => OnLine(input, from, 40, text, next) && ValidUtf8(text)
       case Integer(n) => OnCountLine(input, from, 58, n, next)
       case Boolean(on) => OnLine(input, from, 35, if on then [116] else [102], next)
       case Double(d) => exists text :: OnLine(input, from, 44, text, next) && ValidUtf8(text) && ReadsAs(text, d, ft)
       case Null =>
         || OnLine(input, from, 95, [], next)
         || OnCountLine(input, from, 36, -1, next)
         || OnCountLine(input, from, 42, -1, next)
       case Bulk(data) => Sized(input, from, 36, data, next, lim.maxBulkLen)
       case BulkError(text) => Sized(input, from, 33, text, next, lim.maxBulkLen) && ValidUtf8(text)
       case Verbatim(format, data) => Sized(input, from, 61, format + [58] + data, next, lim.maxBulkLen)
       case Array(items) => |items| <= lim.maxArrayLen && exists pos ::
         OnCountLine(input, from, 42, |items|, pos) && SpellsAll(input, pos, items, next, lim, depth + 1, ft)
       case Set(items) => |items| <= lim.maxArrayLen && exists pos ::
         OnCountLine(input, from, 126, |items|, pos) && SpellsAll(input, pos, items, next, lim, depth + 1, ft)
       case Push(items) => |items| <= lim.maxArrayLen && exists pos ::
         OnCountLine(input, from, 62, |items|, pos) && SpellsAll(input, pos, items, next, lim, depth + 1, ft)
       case Map(pairs) => |pairs| <= lim.maxArrayLen && exists pos ::
         OnCountLine(input, from, 37, |pairs|, pos) && SpellsPairs(input, pos, pairs, next, lim, depth + 1, ft)
  }

  /** One frame right behind the other. */
  ghost predicate SpellsAll(input: bytes, from: nat, items: seq<Frame>, next: nat, lim: Limits, depth: nat,
      ft: FloatText)
    decreases items
  {
    if items == [] then from == next
    else exists mid ::
      Spells(input, from, items[0], mid, lim, depth, ft) && SpellsAll(input, mid, items[1..], next, lim, depth, ft)
  }

  ghost predicate SpellsPairs(input: bytes, from: nat, pairs: seq<(Frame, Frame)>, next: nat, lim: Limits, depth: nat,
      ft: FloatText)
    decreases pairs
  {
    if pairs == [] then from == next
    else exists mid ::
      SpellsPair(input, from, pairs[0], mid, lim, depth, ft)
      && SpellsPairs(input, mid, pairs[1..], next, lim, depth, ft)
  }

  ghost predicate SpellsPair(input: bytes, from: nat, pair: (Frame, Frame), next: nat, lim: Limits, depth: nat,
      ft: FloatText)
    decreases pair
  {
    exists mid ::
      Spells(input, from, pair.0, mid, lim, depth, ft) && Spells(input, mid, pair.1, next, lim, depth, ft)
  }

  // ---- Refusals -----------------------------------------------------------------------------------

  /** The least number that may follow the byte `kind`: a null is written -1, a verbatim text has a tag. */
  function Least(kind: byte): int {
    if kind == 58 then -0x8000_0000_0000_0000 else if kind == 36 || kind == 42 then -1 else if kind == 61 then 4 else 0
  }

  /** A complete line that stands for nothing. */
  ghost predicate Unreadable(kind: byte, text: bytes, ft: FloatText) {
    if kind in {43, 45, 40} then !ValidUtf8(text)
    else if kind == 44 then !ValidUtf8(text) || forall d :: !ReadsAs(text, d, ft)
    else if kind == 95 then text != []
    else if kind == 35 then text != [116] && text != [102]
    else forall n :: Numeral(text, n) ==> n < Least(kind)
  }

  /** `n` bytes have arrived and what follows is no line end, or they are not what their kind calls for. */
  predicate Unfit(input: bytes, body: nat, kind: byte, n: nat) {
    && body + n + 2 <= |input|
    && (|| input[body + n..body + n + 2] != [13, 10]
        || (kind == 33 && !ValidUtf8(input[body..body + n]))
        || (kind == 61 && n >= 4 && input[body + 3] != 58))
  }

  ghost predicate Misspelt(input: bytes, from: nat, kind: byte, lim: Limits, ft: FloatText) {
    || kind !in {43, 45, 40, 58, 95, 35, 44, 36, 33, 61, 42, 126, 62, 37}
    || (exists text, next :: OnLine(input, from, kind, text, next) && Unreadable(kind, text, ft))
    || (kind in {36, 33, 61} && exists n: nat, body ::
          OnCountLine(input, from, kind, n, body) && Least(kind) <= n <= lim.maxBulkLen && Unfit(input, body, kind, n))
  }

  ghost predicate TooLong(input: bytes, from: nat, kind: byte, lim: Limits) {
    exists n, next :: OnCountLine(input, from, kind, n, next) && Least(kind) <= n &&
      ((kind in {36, 33, 61} && lim.maxBulkLen < n) || (kind in {42, 126, 62, 37} && lim.maxArrayLen < n))
  }

  /** Decoding fails with `e`: nested too deep, or the first part that is at fault is misspelt or too long. */
  ghost predicate Refused(input: bytes, from: nat, e: ProtocolError, lim: Limits, depth: nat, ft: FloatText)
    decreases if depth <= lim.maxDepth then lim.maxDepth + 1 - depth else 0, 0
  {
    if depth > lim.maxDepth then e == Malformed
    else
      && from < |input|
      && var kind := input[from];
      || (e == Malformed && Misspelt(input, from, kind, lim, ft))
      || (e == LimitExceeded && TooLong(input, from, kind, lim))
      || (kind in {42, 126, 62, 37} && exists n: nat, pos ::
            OnCountLine(input, from, kind, n, pos) && n <= lim.maxArrayLen &&
            ItemRefused(input, pos, e, if kind == 37 then 2 * n else n, lim, depth + 1, ft))
  }

  /** One of `count` frames is refused, and all before it are spelled. */
  ghost predicate ItemRefused(input: bytes, from: nat, e: ProtocolError, count: nat, lim: Limits, depth: nat,
      ft: FloatText)
    decreases if depth <= lim.maxDepth then lim.maxDepth + 1 - depth else 0, 1
  {
    exists items, at ::
      |items| < count && SpellsAll(input, from, items, at, lim, depth, ft) && Refused(input, at, e, lim, depth, ft)
  }
}
