/** Decoding accepts exactly the bytes the grammar calls a frame, and refuses exactly the bytes it names. */
module Acceptance {
  import opened Common
  import opened Text
  import opened Frames
  import opened Parsing
  import opened Grammar

  lemma LinesIff(input: bytes, from: nat, next: nat)
    ensures forall text :: OneLine(input, from, text, next) <==> LineAt(input, from) == Done(text, next)
  {
    forall text ensures OneLine(input, from, text, next) <==> LineAt(input, from) == Done(text, next) {
      LineIff(input, from, text, next);
    }
  }

  predicate IsText(f: Frame) {
    f.Simple? || f.Error? || f.BigNumber? || f.Boolean?
  }

  lemma TextIff(input: bytes, from: nat, f: Frame, next: nat, lim: Limits, depth: nat, ft: FloatText)
    requires depth <= lim.maxDepth && from < |input| && IsText(f)
    ensures FrameAt(input, from, lim, depth, ft) == Done(f, next) <==> Spells(input, from, f, next, lim, depth, ft)
  {
    hide LineAt, OneLine, NumberAt, PayloadAt, ItemsAt, ValidUtf8, ParseI64, Paired;
    LinesIff(input, from + 1, next);
  }

  lemma IntegerIff(input: bytes, from: nat, f: Frame, next: nat, lim: Limits, depth: nat, ft: FloatText)
    requires depth <= lim.maxDepth && from < |input| && f.Integer?
    ensures FrameAt(input, from, lim, depth, ft) == Done(f, next) <==> Spells(input, from, f, next, lim, depth, ft)
  {
    hide LineAt, OnCountLine, PayloadAt, ItemsAt, ValidUtf8, ParseI64, Paired, ParseFloat;
    NumberIff(input, from, 58, f.n, next);
  }

  lemma NullIff(input: bytes, from: nat, next: nat, lim: Limits, depth: nat, ft: FloatText)
    requires depth <= lim.maxDepth
    ensures FrameAt(input, from, lim, depth, ft) == Done(Null, next) <==>
              || OnLine(input, from, 95, [], next)
              || OnCountLine(input, from, 36, -1, next)
              || OnCountLine(input, from, 42, -1, next)
  {
    hide LineAt, OnCountLine, OneLine, NumberAt, PayloadAt, ItemsAt, ValidUtf8, ParseI64, Paired, ParseFloat;
    LineIff(input, from + 1, [], next);
    NumberIff(input, from, 36, -1, next);
    NumberIff(input, from, 42, -1, next);
  }

  lemma FloatIff(s: bytes, d: Float, ft: FloatText)
    ensures ParseFloat(s, ft) == Some(d) <==> ReadsAs(s, d, ft)
  {
    assert [PLUS] + INF == [43, 105, 110, 102] && [MINUS] + INF == [45, 105, 110, 102];
    assert [MINUS] + NAN == [45, 110, 97, 110];
  }

  /** Which byte a value of a kind begins with. */
  lemma FirstByte(input: bytes, from: nat, lim: Limits, depth: nat, ft: FloatText)
    requires FrameAt(input, from, lim, depth, ft).Done?
    ensures var f := FrameAt(input, from, lim, depth, ft).value;
            && (f.Double? ==> input[from] == 44)
            && (f.Map? ==> input[from] == 37)
            && (f.Array? ==> input[from] == 42)
            && (f.Set? ==> input[from] == 126)
            && (f.Push? ==> input[from] == 62)
            && (f.Bulk? ==> input[from] == 36)
            && (f.BulkError? ==> input[from] == 33)
            && (f.Verbatim? ==> input[from] == 61)
  {
    hide LineAt, NumberAt, PayloadAt, ItemsAt, ValidUtf8, ParseI64, Paired;
  }

  lemma DoubleIff(input: bytes, from: nat, f: Frame, next: nat, lim: Limits, depth: nat, ft: FloatText)
    requires depth <= lim.maxDepth && from < |input| && f.Double?
    ensures FrameAt(input, from, lim, depth, ft) == Done(f, next) <==> Spells(input, from, f, next, lim, depth, ft)
  {
    hide LineAt, OneLine, NumberAt, PayloadAt, ItemsAt, ValidUtf8, ParseI64, Paired, ParseFloat, ReadsAs;
    LinesIff(input, from + 1, next);
    if FrameAt(input, from, lim, depth, ft).Done? {
      FirstByte(input, from, lim, depth, ft);
    }
    var line := LineAt(input, from + 1);
    if line.Done? {
      FloatIff(line.value, f.d, ft);
      assert OneLine(input, from + 1, line.value, next) <==> line.next == next;
    }
  }

  lemma SizedIff(input: bytes, from: nat, kind: byte, payload: bytes, next: nat, limit: nat)
    ensures Sized(input, from, kind, payload, next, limit) <==>
              && from < |input| && input[from] == kind && |payload| <= limit
              && NumberAt(input, from + 1).Done? && NumberAt(input, from + 1).value == |payload|
              && PayloadAt(input, NumberAt(input, from + 1).next, |payload|) == Done(payload, next)
  {
    hide NumberAt, PayloadAt, OnPayload, OnCountLine, Numeral;
    CountLinesIff(input, from, kind, |payload|);
    forall body
      ensures PayloadAt(input, body, |payload|) == Done(payload, next) <==> OnPayload(input, body, payload, next)
    {
      PayloadIff(input, body, payload, next);
    }
    if from < |input| && NumberAt(input, from + 1).Done? {
      var body := NumberAt(input, from + 1).next;
      assert OnPayload(input, body, payload, next) <==> PayloadAt(input, body, |payload|) == Done(payload, next);
    }
  }

  lemma CountLinesIff(input: bytes, from: nat, kind: byte, n: nat)
    ensures forall next :: OnCountLine(input, from, kind, n, next) <==>
              && from < |input| && input[from] == kind
              && NumberAt(input, from + 1).Done?
              && NumberAt(input, from + 1).value == n
              && NumberAt(input, from + 1).next == next
  {
    hide NumberAt, OnLine;
    if n < U63 {
      forall next ensures OnCountLine(input, from, kind, n, next) <==>
          from < |input| && input[from] == kind && NumberAt(input, from + 1) == Done(n as int, next)
      {
        NumberIff(input, from, kind, n, next);
      }
    } else {
      forall next ensures !OnCountLine(input, from, kind, n, next) {
      }
    }
  }

  lemma BulkIff(input: bytes, from: nat, f: Frame, next: nat, lim: Limits, depth: nat, ft: FloatText)
    requires depth <= lim.maxDepth && from < |input| && (f.Bulk? || f.BulkError?)
    ensures FrameAt(input, from, lim, depth, ft) == Done(f, next) <==> Spells(input, from, f, next, lim, depth, ft)
  {
    hide ScalarAt, NumberAt, PayloadAt, ListAt, MapAt, VerbatimAt, ValidUtf8, Sized;
    if FrameAt(input, from, lim, depth, ft).Done? {
      FirstByte(input, from, lim, depth, ft);
    }
    match f
    case Bulk(data) => SizedIff(input, from, 36, data, next, lim.maxBulkLen);
    case BulkError(text) => SizedIff(input, from, 33, text, next, lim.maxBulkLen);
  }

  lemma VerbatimIff(input: bytes, from: nat, f: Frame, next: nat, lim: Limits, depth: nat, ft: FloatText)
    requires depth <= lim.maxDepth && from < |input| && f.Verbatim?
    ensures FrameAt(input, from, lim, depth, ft) == Done(f, next) <==> Spells(input, from, f, next, lim, depth, ft)
  {
    hide ScalarAt, NumberAt, PayloadAt, ListAt, MapAt, BulkAt, Sized;
    if FrameAt(input, from, lim, depth, ft).Done? {
      FirstByte(input, from, lim, depth, ft);
    }
    var payload := f.format + [58] + f.data;
    assert payload[..3] == f.format && payload[4..] == f.data && payload[3] == 58;
    SizedIff(input, from, 61, payload, next, lim.maxBulkLen);
    PayloadParts(f.format, f.data);
  }

  lemma PayloadParts(format: Tag, data: bytes)
    ensures forall payload: bytes ::
              |payload| >= 4 && payload[..3] == format && payload[3] == 58 && payload[4..] == data ==>
                payload == format + [58] + data
  {
  }

  lemma {:induction false} FrameIff(input: bytes, from: nat, f: Frame, next: nat, lim: Limits, depth: nat,
      ft: FloatText)
    ensures FrameAt(input, from, lim, depth, ft) == Done(f, next) <==> Spells(input, from, f, next, lim, depth, ft)
    decreases f
  {
    hide FrameAt, Spells;
    if depth > lim.maxDepth || from >= |input| {
      Nothing(input, from, f, next, lim, depth, ft);
    } else if f.Null? {
      NullIff(input, from, next, lim, depth, ft);
      NullSpelled(input, from, next, lim, depth, ft);
    } else {
      match f
      case Integer(n) => IntegerIff(input, from, f, next, lim, depth, ft);
      case Double(d) => DoubleIff(input, from, f, next, lim, depth, ft);
      case Verbatim(format, data) => VerbatimIff(input, from, f, next, lim, depth, ft);
      case Array(items) => ListIff(input, from, 42, items, next, lim, depth, ft);
      case Set(items) => ListIff(input, from, 126, items, next, lim, depth, ft);
      case Push(items) => ListIff(input, from, 62, items, next, lim, depth, ft);
      case Map(pairs) => MapIff(input, from, pairs, next, lim, depth, ft);
      case _ =>
        if IsText(f) {
          TextIff(input, from, f, next, lim, depth, ft);
        } else {
          BulkIff(input, from, f, next, lim, depth, ft);
        }
    }
  }

  lemma Nothing(input: bytes, from: nat, f: Frame, next: nat, lim: Limits, depth: nat, ft: FloatText)
    requires depth > lim.maxDepth || from >= |input|
    ensures !FrameAt(input, from, lim, depth, ft).Done? && !Spells(input, from, f, next, lim, depth, ft)
  {
  }

  lemma NullSpelled(input: bytes, from: nat, next: nat, lim: Limits, depth: nat, ft: FloatText)
    requires depth <= lim.maxDepth
    ensures Spells(input, from, Null, next, lim, depth, ft) <==>
              || OnLine(input, from, 95, [], next)
              || OnCountLine(input, from, 36, -1, next)
              || OnCountLine(input, from, 42, -1, next)
  {
    hide OnLine, OnCountLine;
  }

  lemma {:induction false} ListIff(input: bytes, from: nat, kind: byte, items: seq<Frame>, next: nat, lim: Limits,
      depth: nat, ft: FloatText)
    requires depth <= lim.maxDepth && from < |input| && IsList(kind)
    ensures var f := ListOf(kind, items);
            FrameAt(input, from, lim, depth, ft) == Done(f, next) <==> Spells(input, from, f, next, lim, depth, ft)
    decreases items, 1
  {
    hide NumberAt, ScalarAt, BulkAt, VerbatimAt, Paired, OnCountLine, ItemsAt, SpellsAll;
    CountLinesIff(input, from, kind, |items|);
    if FrameAt(input, from, lim, depth, ft).Done? {
      FirstByte(input, from, lim, depth, ft);
    }
    if NumberAt(input, from + 1).Done? {
      var count, pos := NumberAt(input, from + 1).value, NumberAt(input, from + 1).next;
      assert count == |items| ==> (OnCountLine(input, from, kind, |items|, pos) <==> input[from] == kind);
      ItemsIff(input, pos, items, next, lim, depth + 1, ft);
    }
  }

  lemma {:induction false} ItemsIff(input: bytes, from: nat, items: seq<Frame>, next: nat, lim: Limits, depth: nat,
      ft: FloatText)
    ensures ItemsAt(input, from, lim, depth, ft, |items|) == Done(items, next)
        <==> SpellsAll(input, from, items, next, lim, depth, ft)
    decreases items, 0
  {
    hide FrameAt, Spells;
    if items != [] {
      var item := FrameAt(input, from, lim, depth, ft);
      forall mid ensures Spells(input, from, items[0], mid, lim, depth, ft) <==> item == Done(items[0], mid) {
        FrameIff(input, from, items[0], mid, lim, depth, ft);
      }
      if item.Done? {
        ItemsIff(input, item.next, items[1..], next, lim, depth, ft);
        var more := ItemsAt(input, item.next, lim, depth, ft, |items| - 1);
        assert items == [items[0]] + items[1..];
        if more.Done? {
          ConsParts(item.value, more.value);
        }
      }
    }
  }

  lemma {:induction false} MapIff(input: bytes, from: nat, pairs: seq<(Frame, Frame)>, next: nat, lim: Limits,
      depth: nat, ft: FloatText)
    requires depth <= lim.maxDepth && from < |input|
    ensures FrameAt(input, from, lim, depth, ft) == Done(Map(pairs), next)
        <==> Spells(input, from, Map(pairs), next, lim, depth, ft)
    decreases pairs, 1
  {
    hide NumberAt, ScalarAt, BulkAt, VerbatimAt, ListAt, OnCountLine, ItemsAt, SpellsPairs, Paired;
    CountLinesIff(input, from, 37, |pairs|);
    if NumberAt(input, from + 1).Done? {
      var count, pos := NumberAt(input, from + 1).value, NumberAt(input, from + 1).next;
      assert count == |pairs| ==> (OnCountLine(input, from, 37, |pairs|, pos) <==> input[from] == 37);
      PairsIff(input, pos, pairs, next, lim, depth + 1, ft);
    }
    if FrameAt(input, from, lim, depth, ft).Done? {
      FirstByte(input, from, lim, depth, ft);
    }
  }

  /** The pairs among `2 * count` values. */
  function PairsAt(input: bytes, from: nat, lim: Limits, depth: nat, ft: FloatText, count: nat):
      Parsed<seq<(Frame, Frame)>>
  {
    match ItemsAt(input, from, lim, depth, ft, 2 * count)
    case NeedMore => NeedMore
    case Err(e) => Err(e)
    case Done(items, next) => Done(Paired(items), next)
  }

  lemma {:induction false} PairsIff(input: bytes, from: nat, pairs: seq<(Frame, Frame)>, next: nat, lim: Limits,
      depth: nat, ft: FloatText)
    ensures PairsAt(input, from, lim, depth, ft, |pairs|) == Done(pairs, next)
        <==> SpellsPairs(input, from, pairs, next, lim, depth, ft)
    decreases pairs, 0
  {
    hide FrameAt, SpellsPair, PairsAt, PairAt;
    PairsAtStep(input, from, lim, depth, ft, |pairs|);
    if pairs != [] {
      var first := PairAt(input, from, lim, depth, ft);
      forall mid ensures SpellsPair(input, from, pairs[0], mid, lim, depth, ft) <==> first == Done(pairs[0], mid) {
        PairIff(input, from, pairs[0], mid, lim, depth, ft);
      }
      if first.Done? {
        PairsIff(input, first.next, pairs[1..], next, lim, depth, ft);
        var more := PairsAt(input, first.next, lim, depth, ft, |pairs| - 1);
        assert pairs == [pairs[0]] + pairs[1..];
        if more.Done? {
          ConsParts(first.value, more.value);
        }
      }
    }
  }

  /** A key and a value. */
  function PairAt(input: bytes, from: nat, lim: Limits, depth: nat, ft: FloatText): Parsed<(Frame, Frame)> {
    match FrameAt(input, from, lim, depth, ft)
    case NeedMore => NeedMore
    case Err(e) => Err(e)
    case Done(k, mid) =>
      match FrameAt(input, mid, lim, depth, ft)
      case NeedMore => NeedMore
      case Err(e) => Err(e)
      case Done(v, next) => Done((k, v), next)
  }

  lemma {:induction false} PairIff(input: bytes, from: nat, pair: (Frame, Frame), next: nat, lim: Limits, depth: nat,
      ft: FloatText)
    ensures PairAt(input, from, lim, depth, ft) == Done(pair, next)
        <==> SpellsPair(input, from, pair, next, lim, depth, ft)
    decreases pair
  {
    hide FrameAt, Spells;
    var key := FrameAt(input, from, lim, depth, ft);
    forall mid ensures Spells(input, from, pair.0, mid, lim, depth, ft) <==> key == Done(pair.0, mid) {
      FrameIff(input, from, pair.0, mid, lim, depth, ft);
    }
    if key.Done? {
      FrameIff(input, key.next, pair.1, next, lim, depth, ft);
    }
  }

  lemma PairsAtStep(input: bytes, from: nat, lim: Limits, depth: nat, ft: FloatText, count: nat)
    ensures count == 0 ==> PairsAt(input, from, lim, depth, ft, count) == Done([], from)
    ensures count > 0 ==> PairsAt(input, from, lim, depth, ft, count) ==
                            match PairAt(input, from, lim, depth, ft)
                            case NeedMore => NeedMore
                            case Err(e) => Err(e)
                            case Done(pair, pos) =>
                              match PairsAt(input, pos, lim, depth, ft, count - 1)
                              case NeedMore => NeedMore
                              case Err(e) => Err(e)
                              case Done(pairs, next) => Done([pair] + pairs, next)
  {
    hide FrameAt;
    if count > 0 {
      var items := ItemsAt(input, from, lim, depth, ft, 2 * count);
      var first := PairAt(input, from, lim, depth, ft);
      if first.Done? {
        var rest := ItemsAt(input, first.next, lim, depth, ft, 2 * count - 2);
        ItemsAtTwice(input, from, lim, depth, ft, 2 * count);
        if rest.Done? {
          assert items.value[2..] == rest.value;
        }
      } else {
        var key := FrameAt(input, from, lim, depth, ft);
        assert key.Done? ==> !ItemsAt(input, key.next, lim, depth, ft, 2 * count - 1).Done?;
      }
    }
  }

  lemma ItemsAtTwice(input: bytes, from: nat, lim: Limits, depth: nat, ft: FloatText, count: nat)
    requires count >= 2 && PairAt(input, from, lim, depth, ft).Done?
    ensures var (k, v) := PairAt(input, from, lim, depth, ft).value;
            ItemsAt(input, from, lim, depth, ft, count) ==
              match ItemsAt(input, PairAt(input, from, lim, depth, ft).next, lim, depth, ft, count - 2)
              case NeedMore => NeedMore
              case Err(e) => Err(e)
              case Done(items, next) => Done([k] + ([v] + items), next)
  {
    hide FrameAt;
    var mid := FrameAt(input, from, lim, depth, ft).next;
    assert ItemsAt(input, mid, lim, depth, ft, count - 1) ==
      match ItemsAt(input, PairAt(input, from, lim, depth, ft).next, lim, depth, ft, count - 2)
      case NeedMore => NeedMore
      case Err(e) => Err(e)
      case Done(items, next) => Done([FrameAt(input, mid, lim, depth, ft).value] + items, next);
  }
}