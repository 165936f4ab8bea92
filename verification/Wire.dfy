/** Writing frames, and that reading inverts it. */
module Wire {
  import opened Common
  import opened Text
  import opened Frames
  import opened Parsing

  // ---- What a frame looks like on the wire ------------------------------------------------

  /** A length cast to a signed 64-bit integer, wrapping as the cast does. */
  function Cast(n: nat): i64 {
    if n % U64 < U63 then n % U64 else n % U64 - U64
  }

  function Line(kind: byte, text: bytes): bytes {
    [kind] + text + CRLF
  }

  function Header(kind: byte, n: nat): bytes {
    Line(kind, FormatI64(Cast(n)))
  }

  function FormatFloat(d: Float, ft: FloatText): bytes {
    match d
    case NaN => NAN
    case Infinity(negative) => (if negative then [MINUS] else []) + INF
    case Finite(bits) => ft.format(bits)
  }

  function Encoded(f: Frame, version: RespVersion, ft: FloatText): bytes {
    match f
    case Simple(text) => Line('+' as int, text)
    case Error(text) => Line('-' as int, text)
    case Integer(n) => Line(':' as int, FormatI64(n))
    case Bulk(data) => Header('$' as int, |data|) + (data + CRLF)
    case Null => if version.V2? then Line('$' as int, [MINUS, 49]) else Line('_' as int, [])
    case Array(items) => Header('*' as int, |items|) + EncodedAll(items, version, ft)
    case Boolean(on) => Line('#' as int, if on then TRUE else FALSE)
    case Double(d) => Line(',' as int, FormatFloat(d, ft))
    case BigNumber(text) => Line('(' as int, text)
    case BulkError(text) => Header('!' as int, |text|) + (text + CRLF)
    case Verbatim(format, data) => Header('=' as int, 4 + |data|) + (format + [':' as int] + data + CRLF)
    case Map(pairs) => Header('%' as int, |pairs|) + EncodedPairs(pairs, version, ft)
    case Set(items) => Header('~' as int, |items|) + EncodedAll(items, version, ft)
    case Push(items) => Header('>' as int, |items|) + EncodedAll(items, version, ft)
  }

  function EncodedAll(items: seq<Frame>, version: RespVersion, ft: FloatText): bytes {
    if items == [] then [] else Encoded(items[0], version, ft) + EncodedAll(items[1..], version, ft)
  }

  function EncodedPairs(pairs: seq<(Frame, Frame)>, version: RespVersion, ft: FloatText): bytes {
    if pairs == [] then [] else EncodedPair(pairs[0], version, ft) + EncodedPairs(pairs[1..], version, ft)
  }

  function EncodedPair(pair: (Frame, Frame), version: RespVersion, ft: FloatText): bytes {
    Encoded(pair.0, version, ft) + Encoded(pair.1, version, ft)
  }

  // ---- Where the versions differ ------------------------------------------------------------

  function Nulls(f: Frame): nat {
    match f
    case Null => 1
    case Array(items) => NullsIn(items)
    case Set(items) => NullsIn(items)
    case Push(items) => NullsIn(items)
    case Map(pairs) => NullsInPairs(pairs)
    case _ => 0
  }

  function NullsIn(items: seq<Frame>): nat {
    if items == [] then 0 else Nulls(items[0]) + NullsIn(items[1..])
  }

  function NullsInPairs(pairs: seq<(Frame, Frame)>): nat {
    if pairs == [] then 0 else NullsInPair(pairs[0]) + NullsInPairs(pairs[1..])
  }

  function NullsInPair(pair: (Frame, Frame)): nat {
    Nulls(pair.0) + Nulls(pair.1)
  }

  /** The version a codec is set to matters exactly to frames that hold a null: each costs RESP2 two bytes more. */
  lemma {:induction false} VersionsDifferIff(f: Frame, ft: FloatText)
    ensures |Encoded(f, V2, ft)| == |Encoded(f, V3, ft)| + 2 * Nulls(f)
    ensures Encoded(f, V2, ft) == Encoded(f, V3, ft) <==> Nulls(f) == 0
    decreases f
  {
    hide Header, FormatI64, FormatFloat;
    match f
    case Array(items) => ListsDiffer(items, ft);
    case Set(items) => ListsDiffer(items, ft);
    case Push(items) => ListsDiffer(items, ft);
    case Map(pairs) => PairsDiffer(pairs, ft);
    case _ =>
  }

  lemma {:induction false} ListsDiffer(items: seq<Frame>, ft: FloatText)
    ensures |EncodedAll(items, V2, ft)| == |EncodedAll(items, V3, ft)| + 2 * NullsIn(items)
    ensures NullsIn(items) == 0 ==> EncodedAll(items, V2, ft) == EncodedAll(items, V3, ft)
    decreases items
  {
    hide Encoded, Nulls;
    if items != [] {
      VersionsDifferIff(items[0], ft);
      ListsDiffer(items[1..], ft);
    }
  }

  lemma {:induction false} PairsDiffer(pairs: seq<(Frame, Frame)>, ft: FloatText)
    ensures |EncodedPairs(pairs, V2, ft)| == |EncodedPairs(pairs, V3, ft)| + 2 * NullsInPairs(pairs)
    ensures NullsInPairs(pairs) == 0 ==> EncodedPairs(pairs, V2, ft) == EncodedPairs(pairs, V3, ft)
    decreases pairs
  {
    hide EncodedPair, NullsInPair;
    if pairs != [] {
      EntriesDiffer(pairs[0], ft);
      PairsDiffer(pairs[1..], ft);
    }
  }

  lemma {:induction false} EntriesDiffer(pair: (Frame, Frame), ft: FloatText)
    ensures |EncodedPair(pair, V2, ft)| == |EncodedPair(pair, V3, ft)| + 2 * NullsInPair(pair)
    ensures NullsInPair(pair) == 0 ==> EncodedPair(pair, V2, ft) == EncodedPair(pair, V3, ft)
    decreases pair
  {
    hide Encoded, Nulls;
    VersionsDifferIff(pair.0, ft);
    VersionsDifferIff(pair.1, ft);
  }

  // ---- Which frames survive ---------------------------------------------------------------

  /** Rust reads back the double it wrote, from a text that is one plain line. */
  ghost predicate Faithful(ft: FloatText, bits: finite) {
    var s := ft.format(bits);
    && ValidUtf8(s) && CrlfFree(s)
    && ParseFloat(s, ft) == Some(Finite(bits))
  }

  ghost predicate Lossless(ft: FloatText) {
    forall bits: finite :: Faithful(ft, bits)
  }

  predicate LineSafe(text: bytes) {
    ValidUtf8(text) && CrlfFree(text)
  }

  predicate LengthFits(n: nat, limit: nat) {
    n <= limit && n < U63
  }

  /** Texts on a line free of CR LF, lengths and nesting within the limits. */
  ghost predicate Decodable(f: Frame, lim: Limits, depth: nat) {
    && depth <= lim.maxDepth
    && match f
       case Simple(text) => LineSafe(text)
       case Error(text) => LineSafe(text)
       case BigNumber(text) => LineSafe(text)
       case Bulk(data) => LengthFits(|data|, lim.maxBulkLen)
       case BulkError(text) => LengthFits(|text|, lim.maxBulkLen) && ValidUtf8(text)
       case Verbatim(_, data) => LengthFits(4 + |data|, lim.maxBulkLen)
       case Array(items) => LengthFits(|items|, lim.maxArrayLen)
           && forall i :: 0 <= i < |items| ==> Decodable(items[i], lim, depth + 1)
       case Set(items) => LengthFits(|items|, lim.maxArrayLen)
           && forall i :: 0 <= i < |items| ==> Decodable(items[i], lim, depth + 1)
       case Push(items) => LengthFits(|items|, lim.maxArrayLen)
           && forall i :: 0 <= i < |items| ==> Decodable(items[i], lim, depth + 1)
       case Map(pairs) =>
         && LengthFits(|pairs|, lim.maxArrayLen)
         && forall i :: 0 <= i < |pairs| ==>
              Decodable(pairs[i].0, lim, depth + 1) && Decodable(pairs[i].1, lim, depth + 1)
       case _ => true
  }

  ghost predicate AllDecodable(items: seq<Frame>, lim: Limits, depth: nat) {
    forall i :: 0 <= i < |items| ==> Decodable(items[i], lim, depth)
  }

  // ---- Maps as alternating lists ------------------------------------------------------------

  function Flat(pairs: seq<(Frame, Frame)>): (items: seq<Frame>)
    ensures |items| == 2 * |pairs|
  {
    if pairs == [] then [] else [pairs[0].0, pairs[0].1] + Flat(pairs[1..])
  }

  lemma {:induction false} PairedFlat(pairs: seq<(Frame, Frame)>)
    ensures Paired(Flat(pairs)) == pairs
  {
    if pairs != [] {
      PairedFlat(pairs[1..]);
      assert Flat(pairs)[2..] == Flat(pairs[1..]);
    }
  }

  lemma {:induction false} PairedDecodable(items: seq<Frame>, lim: Limits, depth: nat)
    requires |items| % 2 == 0 && AllDecodable(items, lim, depth)
    ensures forall i :: 0 <= i < |Paired(items)| ==>
              Decodable(Paired(items)[i].0, lim, depth) && Decodable(Paired(items)[i].1, lim, depth)
  {
    hide Decodable;
    if items != [] {
      PairedDecodable(items[2..], lim, depth);
    }
  }

  // ---- Reading back the pieces ---------------------------------------------------------------

  lemma LineReads(input: bytes, from: nat, text: bytes)
    requires At(input, from, text + CRLF) && CrlfFree(text)
    ensures LineAt(input, from) == Done(text, from + |text| + 2)
  {
    AtSplits(input, from, text, CRLF);
    var end := from + |text|;
    assert input[end] == input[end..end + 2][0] && input[end + 1] == input[end..end + 2][1];
    forall i | from <= i < end ensures !CrlfAt(input, i) {
      assert !CrlfAt(text, i - from);
      assert input[i] == text[i - from];
      assert i + 1 < end ==> input[i + 1] == text[i + 1 - from];
    }
    FindCrlfFinds(input, from, end);
  }

  lemma NumberReads(input: bytes, from: nat, n: i64)
    requires At(input, from, FormatI64(n) + CRLF)
    ensures NumberAt(input, from) == Done(n, from + |FormatI64(n)| + 2)
  {
    FormatI64Parses(n);
    LineReads(input, from, FormatI64(n));
  }

  lemma LineStarts(input: bytes, from: nat, kind: byte, text: bytes)
    requires At(input, from, Line(kind, text))
    ensures from < |input| && input[from] == kind
    ensures At(input, from + 1, text + CRLF)
  {
    assert Line(kind, text) == [kind] + (text + CRLF);
    AtSplits(input, from, [kind], text + CRLF);
    assert input[from] == input[from..from + 1][0];
  }

  lemma HeaderReads(input: bytes, from: nat, kind: byte, n: nat)
    requires At(input, from, Header(kind, n)) && n < U63
    ensures from < |input| && input[from] == kind
    ensures NumberAt(input, from + 1) == Done(n, from + |Header(kind, n)|)
  {
    hide FormatI64, ParseI64, At;
    LineStarts(input, from, kind, FormatI64(n));
    NumberReads(input, from + 1, n);
  }

  lemma PayloadReads(input: bytes, from: nat, data: bytes)
    requires At(input, from, data + CRLF)
    ensures PayloadAt(input, from, |data|) == Done(data, from + |data| + 2)
  {
    AtSplits(input, from, data, CRLF);
    var end := from + |data|;
    assert input[end] == input[end..end + 2][0] && input[end + 1] == input[end..end + 2][1];
  }

  // ---- The round trip ------------------------------------------------------------------------

  lemma LineScalarReads(input: bytes, from: nat, kind: byte, text: bytes, f: Frame, lim: Limits, depth: nat,
      ft: FloatText)
    requires At(input, from, Line(kind, text)) && CrlfFree(text) && depth <= lim.maxDepth
    requires IsScalar(kind) && Scalar(kind, text, ft) == Some(f)
    ensures FrameAt(input, from, lim, depth, ft) == Done(f, from + |Line(kind, text)|)
  {
    hide FindCrlf, ValidUtf8, CrlfFree, At, Scalar;
    LineStarts(input, from, kind, text);
    LineReads(input, from + 1, text);
  }

  lemma ScalarReads(input: bytes, from: nat, f: Frame, version: RespVersion, lim: Limits, depth: nat, ft: FloatText)
    requires f.Simple? || f.Error? || f.BigNumber? || f.Integer? || f.Boolean? || f.Double?
    requires At(input, from, Encoded(f, version, ft)) && Decodable(f, lim, depth) && Lossless(ft)
    ensures FrameAt(input, from, lim, depth, ft) == Done(f, from + |Encoded(f, version, ft)|)
  {
    hide FrameAt, FindCrlf, ValidUtf8, At, FormatI64, FromStr, LineAt;
    match f
    case Simple(text) => LineScalarReads(input, from, '+' as int, text, f, lim, depth, ft);
    case Error(text) => LineScalarReads(input, from, '-' as int, text, f, lim, depth, ft);
    case BigNumber(text) => LineScalarReads(input, from, '(' as int, text, f, lim, depth, ft);
    case Integer(n) =>
      FormatI64Parses(n);
      LineScalarReads(input, from, ':' as int, FormatI64(n), f, lim, depth, ft);
    case Boolean(on) => LineScalarReads(input, from, '#' as int, if on then TRUE else FALSE, f, lim, depth, ft);
    case Double(d) =>
      FloatReads(d, ft);
      LineScalarReads(input, from, ',' as int, FormatFloat(d, ft), f, lim, depth, ft);
  }

  lemma FloatReads(d: Float, ft: FloatText)
    requires Lossless(ft)
    ensures var s := FormatFloat(d, ft); LineSafe(s) && ParseFloat(s, ft) == Some(d)
  {
    if d.Finite? {
      assert Faithful(ft, d.bits);
    } else {
      AsciiIsValid(FormatFloat(d, ft));
    }
  }

  lemma NullReads(input: bytes, from: nat, version: RespVersion, lim: Limits, depth: nat, ft: FloatText)
    requires At(input, from, Encoded(Null, version, ft)) && Decodable(Null, lim, depth)
    ensures FrameAt(input, from, lim, depth, ft) == Done(Null, from + |Encoded(Null, version, ft)|)
  {
    hide FindCrlf, ValidUtf8, At;
    if version.V2? {
      assert FormatNat(1) == [49];
      assert FormatI64(-1) == [MINUS, 49];
      LineStarts(input, from, '$' as int, FormatI64(-1));
      NumberReads(input, from + 1, -1);
    } else {
      LineScalarReads(input, from, '_' as int, [], Null, lim, depth, ft);
    }
  }

  lemma BulkReads(input: bytes, from: nat, f: Frame, payload: bytes, kind: byte, version: RespVersion, lim: Limits,
      depth: nat, ft: FloatText)
    requires (f == Bulk(payload) && kind == '$' as int) || (f == BulkError(payload) && kind == '!' as int)
          || (f.Verbatim? && payload == f.format + [':' as int] + f.data && kind == '=' as int)
    requires At(input, from, Encoded(f, version, ft)) && Decodable(f, lim, depth)
    ensures FrameAt(input, from, lim, depth, ft) == Done(f, from + |Encoded(f, version, ft)|)
  {
    hide ValidUtf8, At, NumberAt, PayloadAt, Header;
    var header := Header(kind, |payload|);
    assert Encoded(f, version, ft) == header + (payload + CRLF);
    AtSplits(input, from, header, payload + CRLF);
    HeaderReads(input, from, kind, |payload|);
    PayloadReads(input, from + |header|, payload);
    if f.Verbatim? {
      assert payload[..3] == f.format && payload[4..] == f.data;
    }
  }

  /** Whatever stands around it, the wire form of a frame within the limits reads back as that frame. */
  lemma {:induction false} FrameReads(input: bytes, from: nat, f: Frame, version: RespVersion, lim: Limits,
      depth: nat, ft: FloatText)
    requires At(input, from, Encoded(f, version, ft)) && Decodable(f, lim, depth) && Lossless(ft)
    ensures FrameAt(input, from, lim, depth, ft) == Done(f, from + |Encoded(f, version, ft)|)
    decreases f, 1
  {
    hide *;
    match f
    case Null => NullReads(input, from, version, lim, depth, ft);
    case Bulk(data) => BulkReads(input, from, f, data, '$' as int, version, lim, depth, ft);
    case BulkError(text) => BulkReads(input, from, f, text, '!' as int, version, lim, depth, ft);
    case Verbatim(format, data) => BulkReads(input, from, f, format + [':' as int] + data, '=' as int, version, lim,
        depth, ft);
    case Array(items) => ListReads(input, from, f, '*' as int, items, version, lim, depth, ft);
    case Set(items) => ListReads(input, from, f, '~' as int, items, version, lim, depth, ft);
    case Push(items) => ListReads(input, from, f, '>' as int, items, version, lim, depth, ft);
    case Map(pairs) => MapReads(input, from, f, version, lim, depth, ft);
    case _ => ScalarReads(input, from, f, version, lim, depth, ft);
  }

  lemma {:induction false} ListReads(input: bytes, from: nat, f: Frame, kind: byte, items: seq<Frame>,
      version: RespVersion, lim: Limits, depth: nat, ft: FloatText)
    requires (f == Array(items) && kind == '*' as int) || (f == Set(items)
        && kind == '~' as int) || (f == Push(items) && kind == '>' as int)
    requires At(input, from, Encoded(f, version, ft)) && Decodable(f, lim, depth) && Lossless(ft)
    ensures FrameAt(input, from, lim, depth, ft) == Done(f, from + |Encoded(f, version, ft)|)
    decreases f, 0
  {
    hide At, NumberAt, Header, ItemsAt, EncodedAll, Lossless;
    var header := Header(kind, |items|);
    AtSplits(input, from, header, EncodedAll(items, version, ft));
    HeaderReads(input, from, kind, |items|);
    ItemsRead(input, from + |header|, items, version, lim, depth + 1, ft);
  }

  lemma {:induction false} ItemsRead(input: bytes, from: nat, items: seq<Frame>, version: RespVersion, lim: Limits,
      depth: nat, ft: FloatText)
    requires At(input, from, EncodedAll(items, version, ft)) && AllDecodable(items, lim, depth) && Lossless(ft)
    ensures ItemsAt(input, from, lim, depth, ft, |items|) == Done(items, from + |EncodedAll(items, version, ft)|)
    decreases items
  {
    hide At, FrameAt, Encoded, Decodable, Lossless;
    if items != [] {
      var first := Encoded(items[0], version, ft);
      AtSplits(input, from, first, EncodedAll(items[1..], version, ft));
      FrameReads(input, from, items[0], version, lim, depth, ft);
      ItemsRead(input, from + |first|, items[1..], version, lim, depth, ft);
      assert items == [items[0]] + items[1..];
    }
  }

  lemma {:induction false} MapReads(input: bytes, from: nat, f: Frame, version: RespVersion, lim: Limits, depth: nat,
      ft: FloatText)
    requires f.Map? && At(input, from, Encoded(f, version, ft)) && Decodable(f, lim, depth) && Lossless(ft)
    ensures FrameAt(input, from, lim, depth, ft) == Done(f, from + |Encoded(f, version, ft)|)
    decreases f, 0
  {
    hide At, NumberAt, Header, ItemsAt, EncodedPairs, Lossless, Paired;
    var header := Header('%' as int, |f.pairs|);
    AtSplits(input, from, header, EncodedPairs(f.pairs, version, ft));
    HeaderReads(input, from, '%' as int, |f.pairs|);
    PairsRead(input, from + |header|, f.pairs, version, lim, depth + 1, ft);
    PairedFlat(f.pairs);
  }

  lemma {:induction false} PairsRead(input: bytes, from: nat, pairs: seq<(Frame, Frame)>, version: RespVersion,
      lim: Limits, depth: nat, ft: FloatText)
    requires At(input, from, EncodedPairs(pairs, version, ft)) && Lossless(ft)
    requires forall i :: 0 <= i < |pairs| ==> Decodable(pairs[i].0, lim, depth) && Decodable(pairs[i].1, lim, depth)
    ensures ItemsAt(input, from, lim, depth, ft, 2 * |pairs|)
        == Done(Flat(pairs), from + |EncodedPairs(pairs, version, ft)|)
    decreases pairs
  {
    hide At, FrameAt, Encoded, Decodable, Lossless;
    if pairs != [] {
      var pair := pairs[0];
      AtSplits(input, from, EncodedPair(pair, version, ft), EncodedPairs(pairs[1..], version, ft));
      PairReads(input, from, pair, version, lim, depth, ft);
      PairsRead(input, from + |EncodedPair(pair, version, ft)|, pairs[1..], version, lim, depth, ft);
      var middle := from + |Encoded(pair.0, version, ft)|;
      assert ItemsAt(input, middle, lim, depth, ft, 2 * |pairs| - 1).value == [pair.1] + Flat(pairs[1..]);
      assert Flat(pairs) == [pair.0] + ([pair.1] + Flat(pairs[1..]));
    }
  }

  lemma {:induction false} PairReads(input: bytes, from: nat, pair: (Frame, Frame), version: RespVersion, lim: Limits,
      depth: nat, ft: FloatText)
    requires At(input, from, EncodedPair(pair, version, ft)) && Lossless(ft)
    requires Decodable(pair.0, lim, depth) && Decodable(pair.1, lim, depth)
    ensures var middle := from + |Encoded(pair.0, version, ft)|;
            && FrameAt(input, from, lim, depth, ft) == Done(pair.0, middle)
            && FrameAt(input, middle, lim, depth, ft) == Done(pair.1, from + |EncodedPair(pair, version, ft)|)
    decreases pair
  {
    hide At, FrameAt, Encoded, Decodable, Lossless;
    var key := Encoded(pair.0, version, ft);
    AtSplits(input, from, key, Encoded(pair.1, version, ft));
    FrameReads(input, from, pair.0, version, lim, depth, ft);
    FrameReads(input, from + |key|, pair.1, version, lim, depth, ft);
  }
}
