/** Decoding inverts encoding exactly on the frames decoding can produce, and no encoding begins another. */
module RoundTrip {
  import opened Common
  import opened Text
  import opened Frames
  import opened Parsing
  import opened Wire

  // ---- What decoding can produce ---------------------------------------------------------------

  lemma LineIsCrlfFree(input: bytes, from: nat)
    requires LineAt(input, from).Done?
    ensures CrlfFree(LineAt(input, from).value)
  {
    var line := LineAt(input, from).value;
    forall i: nat | i < |line| ensures !CrlfAt(line, i) {
      FindCrlfIsFirst(input, from, from + i);
    }
  }

  lemma ScalarFits(kind: byte, input: bytes, from: nat, lim: Limits, depth: nat, ft: FloatText)
    requires IsScalar(kind) && ScalarAt(kind, input, from, ft).Done? && depth <= lim.maxDepth
    ensures var r := ScalarAt(kind, input, from, ft); Decodable(r.value, lim, depth) && from + 2 <= r.next <= |input|
  {
    hide LineAt, ValidUtf8, CrlfFree, ParseFloat, ParseI64;
    LineIsCrlfFree(input, from);
  }

  lemma BulkFits(input: bytes, from: nat, lim: Limits, isError: bool, depth: nat)
    requires BulkAt(input, from, lim, isError).Done? && depth <= lim.maxDepth
    ensures var r := BulkAt(input, from, lim, isError); Decodable(r.value, lim, depth) && from + 2 <= r.next <= |input|
  {
    hide NumberAt, PayloadAt, ValidUtf8;
  }

  lemma VerbatimFits(input: bytes, from: nat, lim: Limits, depth: nat)
    requires VerbatimAt(input, from, lim).Done? && depth <= lim.maxDepth
    ensures var r := VerbatimAt(input, from, lim); Decodable(r.value, lim, depth) && from + 2 <= r.next <= |input|
  {
    hide NumberAt, PayloadAt;
  }

  /**
   * A decoded frame took at least three bytes, none outside the buffer; it and everything in it
   * obeys the limits, and its texts hold no line end.
   */
  lemma {:induction false} DecodedFits(input: bytes, from: nat, lim: Limits, depth: nat, ft: FloatText)
    requires FrameAt(input, from, lim, depth, ft).Done?
    ensures var r := FrameAt(input, from, lim, depth, ft);
            Decodable(r.value, lim, depth) && from + 3 <= r.next <= |input|
    decreases Room(lim, depth), 0, 1
  {
    hide NumberAt, ScalarAt, BulkAt, VerbatimAt, ItemsAt, Paired, Decodable;
    var kind, body := input[from], from + 1;
    if IsScalar(kind) {
      ScalarFits(kind, input, body, lim, depth, ft);
    } else if kind == '$' as int || kind == '!' as int {
      BulkFits(input, body, lim, kind == '!' as int, depth);
    } else if kind == '=' as int {
      VerbatimFits(input, body, lim, depth);
    } else {
      AggregateFits(input, from, lim, depth, ft);
    }
  }

  lemma {:induction false} AggregateFits(input: bytes, from: nat, lim: Limits, depth: nat, ft: FloatText)
    requires FrameAt(input, from, lim, depth, ft).Done? && (IsList(input[from]) || input[from] == '%' as int)
    ensures var r := FrameAt(input, from, lim, depth, ft);
            Decodable(r.value, lim, depth) && from + 3 <= r.next <= |input|
    decreases Room(lim, depth), 0, 0
  {
    hide NumberAt, ScalarAt, BulkAt, VerbatimAt, ItemsAt, Paired;
    var kind, body := input[from], from + 1;
    var count, pos := NumberAt(input, body).value, NumberAt(input, body).next;
    if count >= 0 {
      var total: nat := if kind == '%' as int then 2 * (count as int) else count;
      ItemsFit(input, pos, lim, depth + 1, ft, total);
      if kind == '%' as int {
        PairedDecodable(ItemsAt(input, pos, lim, depth + 1, ft, total).value, lim, depth + 1);
      }
    }
  }

  lemma {:induction false} ItemsFit(input: bytes, from: nat, lim: Limits, depth: nat, ft: FloatText, count: nat)
    requires ItemsAt(input, from, lim, depth, ft, count).Done? && from <= |input|
    ensures var r := ItemsAt(input, from, lim, depth, ft, count);
            AllDecodable(r.value, lim, depth) && from + 3 * count <= r.next <= |input|
    decreases Room(lim, depth), 1, count
  {
    hide FrameAt, Decodable;
    if count > 0 {
      DecodedFits(input, from, lim, depth, ft);
      ItemsFit(input, FrameAt(input, from, lim, depth, ft).next, lim, depth, ft, count - 1);
    }
  }

  // ---- The round trip, exactly --------------------------------------------------------------------

  /**
   * An encoded frame followed by anything decodes to itself and leaves exactly what followed if and
   * only if its line texts are free of CR LF and its lengths and nesting are within the limits.
   */
  lemma RoundTripIff(f: Frame, version: RespVersion, lim: Limits, ft: FloatText, rest: bytes)
    requires Lossless(ft)
    ensures FrameAt(Encoded(f, version, ft) + rest, 0, lim, 0, ft) == Done(f, |Encoded(f, version, ft)|)
        <==> Decodable(f, lim, 0)
  {
    hide FrameAt, Encoded, Decodable, Lossless;
    var input := Encoded(f, version, ft) + rest;
    if Decodable(f, lim, 0) {
      assert At(input, 0, Encoded(f, version, ft));
      FrameReads(input, 0, f, version, lim, 0, ft);
    } else if FrameAt(input, 0, lim, 0, ft).Done? {
      DecodedFits(input, 0, lim, 0, ft);
    }
  }

  /** What was decoded from any bytes can be sent on, in either version, and is read the same there. */
  lemma DecodedReencodes(input: bytes, version: RespVersion, lim: Limits, ft: FloatText, rest: bytes)
    requires Lossless(ft) && FrameAt(input, 0, lim, 0, ft).Done?
    ensures var f := FrameAt(input, 0, lim, 0, ft).value;
            FrameAt(Encoded(f, version, ft) + rest, 0, lim, 0, ft) == Done(f, |Encoded(f, version, ft)|)
  {
    hide FrameAt, Encoded, Decodable, Lossless;
    DecodedFits(input, 0, lim, 0, ft);
    RoundTripIff(FrameAt(input, 0, lim, 0, ft).value, version, lim, ft, rest);
  }

  /** Every proper part of an encoding, cut at any byte, asks for more. */
  lemma PartNeedsMore(f: Frame, version: RespVersion, lim: Limits, ft: FloatText, k: nat)
    requires Lossless(ft) && Decodable(f, lim, 0) && k < |Encoded(f, version, ft)|
    ensures FrameAt(Encoded(f, version, ft)[..k], 0, lim, 0, ft) == NeedMore
  {
    hide FrameAt, Encoded, Decodable, Lossless;
    var whole := Encoded(f, version, ft);
    var part := whole[..k];
    RoundTripIff(f, version, lim, ft, []);
    assert whole + [] == whole;
    FrameStable(part, whole, 0, lim, 0, ft);
    if FrameAt(part, 0, lim, 0, ft).Done? {
      DecodedFits(part, 0, lim, 0, ft);
    }
  }

  /** No encoding begins another one, whichever versions the two are written in. */
  lemma EncodingsArePrefixFree(f: Frame, g: Frame, v: RespVersion, w: RespVersion, lim: Limits, ft: FloatText)
    requires Lossless(ft) && Decodable(f, lim, 0) && Decodable(g, lim, 0)
    requires Encoded(f, v, ft) <= Encoded(g, w, ft)
    ensures f == g && Encoded(f, v, ft) == Encoded(g, w, ft)
  {
    hide FrameAt, Encoded, Decodable, Lossless;
    var a, b := Encoded(f, v, ft), Encoded(g, w, ft);
    RoundTripIff(f, v, lim, ft, b[|a|..]);
    RoundTripIff(g, w, lim, ft, []);
    assert a + b[|a|..] == b && b + [] == b;
  }

  // ---- Where the documentation differs -------------------------------------------------------------

  /** The array limit bounds the pairs of a map, so a map may hold twice as many values as any list. */
  lemma MapsHoldTwiceTheLimit(pairs: seq<(Frame, Frame)>, lim: Limits, ft: FloatText)
    requires Lossless(ft) && 1 <= lim.maxDepth && |pairs| == lim.maxArrayLen < U63
    requires forall i :: 0 <= i < |pairs| ==> pairs[i] == (Null, Null)
    ensures var r := FrameAt(Encoded(Map(pairs), V3, ft), 0, lim, 0, ft);
            r.Done? && r.value == Map(pairs) && |Flat(pairs)| == 2 * lim.maxArrayLen
  {
    hide FrameAt, Encoded, Lossless;
    RoundTripIff(Map(pairs), V3, lim, ft, []);
    assert Encoded(Map(pairs), V3, ft) + [] == Encoded(Map(pairs), V3, ft);
  }
}
