/** Decoding refuses exactly the bytes the grammar calls misspelt or too long, with that error. */
module Refusals {
  import opened Common
  import opened Text
  import opened Frames
  import opened Parsing
  import opened Grammar
  import opened Acceptance
  import opened RoundTrip

  // ---- Lines ---------------------------------------------------------------------------------------

  lemma NumeralsIff(text: bytes)
    ensures forall n :: Numeral(text, n) <==> ParseI64(text).Some? && ParseI64(text).value == n
  {
    hide ParseI64, Digits, Value;
    forall n ensures Numeral(text, n) <==> ParseI64(text).Some? && ParseI64(text).value == n {
      if -U63 <= n < U63 {
        NumeralIff(text, n);
      }
    }
  }

  /** What a complete line reads as, for the kinds of line that hold a number. */
  lemma CountsIff(input: bytes, from: nat, n: int, next: nat)
    requires from < |input|
    ensures OnCountLine(input, from, input[from], n, next) <==>
              && NumberAt(input, from + 1).Done?
              && NumberAt(input, from + 1).value == n
              && NumberAt(input, from + 1).next == next
  {
    hide NumberAt, OnLine;
    if -U63 <= n < U63 {
      NumberIff(input, from, input[from], n, next);
    }
  }

  /** A complete line that stands for nothing. */
  ghost predicate BadLine(input: bytes, from: nat, kind: byte, ft: FloatText) {
    exists text, next :: OnLine(input, from, kind, text, next) && Unreadable(kind, text, ft)
  }

  lemma BadLineIff(input: bytes, from: nat, ft: FloatText)
    requires from < |input|
    ensures var line := LineAt(input, from + 1);
            BadLine(input, from, input[from], ft) <==> line.Done? && Unreadable(input[from], line.value, ft)
  {
    hide LineAt, OneLine, Unreadable;
    var line, kind := LineAt(input, from + 1), input[from];
    forall text, next ensures OnLine(input, from, kind, text, next) <==> line == Done(text, next) {
      LineIff(input, from + 1, text, next);
    }
    if line.Done? {
      assert OnLine(input, from, kind, line.value, line.next);
    }
  }

  lemma LinesAreNotWrong(input: bytes, from: nat)
    ensures !LineAt(input, from).Err?
  {
  }

  predicate Numbered(kind: byte) {
    kind in {58, 36, 33, 61, 42, 126, 62, 37}
  }

  lemma BadNumberIff(input: bytes, from: nat, ft: FloatText)
    requires from < |input| && Numbered(input[from])
    ensures var r := NumberAt(input, from + 1);
            && (r.Err? ==> r == Err(Malformed))
            && (BadLine(input, from, input[from], ft) <==> r.Err? || (r.Done? && r.value < Least(input[from])))
  {
    hide LineAt, ParseI64, Numeral, BadLine;
    BadLineIff(input, from, ft);
    LinesAreNotWrong(input, from + 1);
    var line := LineAt(input, from + 1);
    if line.Done? {
      NumeralsIff(line.value);
      var n := ParseI64(line.value);
      assert n.Some? ==> Numeral(line.value, n.value);
    }
  }

  lemma {:induction false} ScalarRefusedIff(input: bytes, from: nat, e: ProtocolError, lim: Limits, depth: nat,
      ft: FloatText)
    requires depth <= lim.maxDepth && from < |input| && IsScalar(input[from]) && input[from] != 58
    ensures FrameAt(input, from, lim, depth, ft) == Err(e)
        <==> e == Malformed && BadLine(input, from, input[from], ft)
  {
    hide LineAt, ParseI64, ParseFloat, ReadsAs, BadLine;
    BadLineIff(input, from, ft);
    LinesAreNotWrong(input, from + 1);
    var line := LineAt(input, from + 1);
    if line.Done? {
      FloatsIff(line.value, ft);
    }
  }

  lemma FloatsIff(s: bytes, ft: FloatText)
    ensures ParseFloat(s, ft) == None <==> forall d :: !ReadsAs(s, d, ft)
  {
    hide ParseFloat, ReadsAs;
    forall d ensures ReadsAs(s, d, ft) <==> ParseFloat(s, ft) == Some(d) {
      FloatIff(s, d, ft);
    }
  }

  lemma IntegerRefusedIff(input: bytes, from: nat, e: ProtocolError, lim: Limits, depth: nat, ft: FloatText)
    requires depth <= lim.maxDepth && from < |input| && input[from] == 58
    ensures FrameAt(input, from, lim, depth, ft) == Err(e) <==> e == Malformed && BadLine(input, from, 58, ft)
  {
    hide LineAt, ParseI64, BadLine;
    BadNumberIff(input, from, ft);
  }

  // ---- Payloads --------------------------------------------------------------------------------------

  ghost predicate BadBody(input: bytes, from: nat, kind: byte, lim: Limits) {
    exists n: nat, body ::
      OnCountLine(input, from, kind, n, body) && Least(kind) <= n <= lim.maxBulkLen && Unfit(input, body, kind, n)
  }

  lemma BadBodyIff(input: bytes, from: nat, lim: Limits)
    requires from < |input|
    ensures var kind, r := input[from], NumberAt(input, from + 1);
            BadBody(input, from, kind, lim) <==>
              r.Done? && 0 <= r.value && Least(kind) <= r.value <= lim.maxBulkLen && Unfit(input, r.next, kind, r.value)
  {
    hide NumberAt, OnCountLine, Unfit;
    var kind, r := input[from], NumberAt(input, from + 1);
    forall n: nat, body ensures OnCountLine(input, from, kind, n, body) <==> r.Done? && r.value == n && r.next == body {
      CountsIff(input, from, n, body);
    }
    if r.Done? && 0 <= r.value {
      var n: nat := r.value;
      assert OnCountLine(input, from, kind, n, r.next);
    }
  }

  lemma TooLongIff(input: bytes, from: nat, lim: Limits)
    requires from < |input|
    ensures var kind, r := input[from], NumberAt(input, from + 1);
            TooLong(input, from, kind, lim) <==>
              && r.Done? && Least(kind) <= r.value
              && (|| (kind in {36, 33, 61} && lim.maxBulkLen < r.value)
                  || (kind in {42, 126, 62, 37} && lim.maxArrayLen < r.value))
  {
    hide NumberAt, OnCountLine;
    var kind, r := input[from], NumberAt(input, from + 1);
    forall n, body ensures OnCountLine(input, from, kind, n, body) <==> r.Done? && r.value == n && r.next == body {
      CountsIff(input, from, n, body);
    }
    if r.Done? {
      assert OnCountLine(input, from, kind, r.value, r.next);
    }
  }

  lemma PayloadUnfit(input: bytes, body: nat, len: nat)
    ensures PayloadAt(input, body, len).Err?
        <==> body + len + 2 <= |input| && input[body + len..body + len + 2] != [13, 10]
    ensures PayloadAt(input, body, len).Err? ==> PayloadAt(input, body, len) == Err(Malformed)
    ensures PayloadAt(input, body, len).NeedMore? <==> |input| < body + len + 2
    ensures PayloadAt(input, body, len).Done? ==> PayloadAt(input, body, len).value == input[body..body + len]
  {
    var end := body + len;
    if end + 2 <= |input| {
      assert input[end..end + 2] == [input[end], input[end + 1]];
    }
  }

  lemma SizedRefusedIff(input: bytes, from: nat, e: ProtocolError, lim: Limits, depth: nat, ft: FloatText)
    requires depth <= lim.maxDepth && from < |input| && input[from] in {36, 33, 61}
    ensures FrameAt(input, from, lim, depth, ft) == Err(e) <==>
              || (e == Malformed && (BadLine(input, from, input[from], ft) || BadBody(input, from, input[from], lim)))
              || (e == LimitExceeded && TooLong(input, from, input[from], lim))
  {
    hide NumberAt, PayloadAt, BadLine, BadBody, TooLong, ValidUtf8;
    BadNumberIff(input, from, ft);
    BadBodyIff(input, from, lim);
    TooLongIff(input, from, lim);
    var r := NumberAt(input, from + 1);
    if r.Done? && 0 <= r.value {
      PayloadUnfit(input, r.next, r.value);
    }
  }

  // ---- Aggregates ------------------------------------------------------------------------------------

  lemma {:induction false} RefusedIff(input: bytes, from: nat, e: ProtocolError, lim: Limits, depth: nat, ft: FloatText)
    ensures FrameAt(input, from, lim, depth, ft) == Err(e) <==> Refused(input, from, e, lim, depth, ft)
    decreases Room(lim, depth), 1, 0
  {
    hide FrameAt, Misspelt, TooLong;
    if depth > lim.maxDepth || from >= |input| {
      NothingRefused(input, from, e, lim, depth, ft);
    } else {
      var kind := input[from];
      MisspeltIs(input, from, kind, lim, ft);
      if kind in {36, 33, 61} {
        SizedRefusedIff(input, from, e, lim, depth, ft);
      } else if kind in {42, 126, 62, 37} {
        AggregateRefusedIff(input, from, e, lim, depth, ft);
      } else {
        TooLongIff(input, from, lim);
        if kind == 58 {
          IntegerRefusedIff(input, from, e, lim, depth, ft);
        } else if IsScalar(kind) {
          ScalarRefusedIff(input, from, e, lim, depth, ft);
        } else {
          UnknownRefused(input, from, lim, depth, ft);
        }
      }
    }
  }

  lemma NothingRefused(input: bytes, from: nat, e: ProtocolError, lim: Limits, depth: nat, ft: FloatText)
    requires depth > lim.maxDepth || from >= |input|
    ensures FrameAt(input, from, lim, depth, ft) == Err(e) <==> Refused(input, from, e, lim, depth, ft)
  {
  }

  lemma UnknownRefused(input: bytes, from: nat, lim: Limits, depth: nat, ft: FloatText)
    requires depth <= lim.maxDepth && from < |input|
    requires input[from] !in {43, 45, 40, 58, 95, 35, 44, 36, 33, 61, 42, 126, 62, 37}
    ensures FrameAt(input, from, lim, depth, ft) == Err(Malformed)
  {
  }

  lemma MisspeltIs(input: bytes, from: nat, kind: byte, lim: Limits, ft: FloatText)
    ensures Misspelt(input, from, kind, lim, ft) <==>
              || kind !in {43, 45, 40, 58, 95, 35, 44, 36, 33, 61, 42, 126, 62, 37}
              || BadLine(input, from, kind, ft)
              || (kind in {36, 33, 61} && BadBody(input, from, kind, lim))
  {
    hide OnLine, OnCountLine, Unreadable, Unfit;
  }

  lemma {:induction false} AggregateRefusedIff(input: bytes, from: nat, e: ProtocolError, lim: Limits, depth: nat,
      ft: FloatText)
    requires depth <= lim.maxDepth && from < |input| && input[from] in {42, 126, 62, 37}
    ensures FrameAt(input, from, lim, depth, ft) == Err(e) <==> Refused(input, from, e, lim, depth, ft)
    decreases Room(lim, depth), 0, 0
  {
    hide NumberAt, ItemsAt, BadLine, BadBody, TooLong, Misspelt, ItemRefused, OnCountLine;
    var kind, r := input[from], NumberAt(input, from + 1);
    BadNumberIff(input, from, ft);
    TooLongIff(input, from, lim);
    MisspeltIs(input, from, kind, lim, ft);
    forall n: nat, body ensures OnCountLine(input, from, kind, n, body) <==> r.Done? && r.value == n && r.next == body {
      CountsIff(input, from, n, body);
    }
    if r.Done? && 0 <= r.value {
      var n: nat := r.value;
      assert OnCountLine(input, from, kind, n, r.next);
      ItemRefusedIff(input, r.next, e, if kind == 37 then 2 * n else n, lim, depth + 1, ft);
    }
  }

  lemma {:induction false} ItemRefusedIff(input: bytes, from: nat, e: ProtocolError, count: nat, lim: Limits,
      depth: nat, ft: FloatText)
    ensures ItemsAt(input, from, lim, depth, ft, count) == Err(e)
        <==> ItemRefused(input, from, e, count, lim, depth, ft)
    decreases Room(lim, depth), 2, count
  {
    hide FrameAt, Spells, Refused;
    if count > 0 {
      var item := FrameAt(input, from, lim, depth, ft);
      RefusedIff(input, from, e, lim, depth, ft);
      ItemRefusedStep(input, from, e, count, lim, depth, ft);
      if item.Done? {
        ItemRefusedIff(input, item.next, e, count - 1, lim, depth, ft);
      }
    }
  }

  /** The frame at fault is the first, or among those behind the first. */
  lemma ItemRefusedStep(input: bytes, from: nat, e: ProtocolError, count: nat, lim: Limits, depth: nat, ft: FloatText)
    requires count > 0
    ensures ItemRefused(input, from, e, count, lim, depth, ft) <==>
              var item := FrameAt(input, from, lim, depth, ft);
              || Refused(input, from, e, lim, depth, ft)
              || (item.Done? && ItemRefused(input, item.next, e, count - 1, lim, depth, ft))
  {
    hide FrameAt, Spells, Refused;
    var item := FrameAt(input, from, lim, depth, ft);
    forall f, next ensures Spells(input, from, f, next, lim, depth, ft) <==> item == Done(f, next) {
      FrameIff(input, from, f, next, lim, depth, ft);
    }
    if Refused(input, from, e, lim, depth, ft) {
      assert SpellsAll(input, from, [], from, lim, depth, ft);
    }
    if item.Done? && ItemRefused(input, item.next, e, count - 1, lim, depth, ft) {
      var items, at :| |items| < count - 1 && SpellsAll(input, item.next, items, at, lim, depth, ft)
          && Refused(input, at, e, lim, depth, ft);
      var more := [item.value] + items;
      assert more[0] == item.value && more[1..] == items;
      assert SpellsAll(input, from, more, at, lim, depth, ft);
    }
    if ItemRefused(input, from, e, count, lim, depth, ft) {
      var items, at :| |items| < count && SpellsAll(input, from, items, at, lim, depth, ft)
          && Refused(input, at, e, lim, depth, ft);
      if items != [] {
        var mid := SpellsFirst(input, from, items, at, lim, depth, ft);
        assert item == Done(items[0], mid);
      }
    }
  }

  lemma SpellsFirst(input: bytes, from: nat, items: seq<Frame>, next: nat, lim: Limits, depth: nat, ft: FloatText)
      returns (mid: nat)
    requires items != [] && SpellsAll(input, from, items, next, lim, depth, ft)
    ensures Spells(input, from, items[0], mid, lim, depth, ft)
    ensures SpellsAll(input, mid, items[1..], next, lim, depth, ft)
  {
    mid :| Spells(input, from, items[0], mid, lim, depth, ft)
        && SpellsAll(input, mid, items[1..], next, lim, depth, ft);
  }

  // ---- Cut frames --------------------------------------------------------------------------------------

  /** Of any frame, however it is spelled, a part is neither read nor refused. */
  lemma CutFrameNeedsMore(input: bytes, from: nat, f: Frame, next: nat, lim: Limits, depth: nat, ft: FloatText,
      cut: nat)
    requires Spells(input, from, f, next, lim, depth, ft) && cut < next
    ensures next <= |input| && FrameAt(input[..cut], from, lim, depth, ft) == NeedMore
  {
    hide FrameAt, Spells;
    FrameIff(input, from, f, next, lim, depth, ft);
    DecodedFits(input, from, lim, depth, ft);
    FrameStable(input[..cut], input, from, lim, depth, ft);
    if FrameAt(input[..cut], from, lim, depth, ft).Done? {
      DecodedFits(input[..cut], from, lim, depth, ft);
    }
  }
}
