/** Decoding a stream that arrives in chunks: append, decode until nothing more comes, repeat. */
module Streams {
  import opened Common
  import opened Frames
  import opened Parsing
  import opened Wire
  import opened RoundTrip
  import opened Requests

  /** What came out of a stream so far, the bytes not yet used, and the error that ended it. */
  datatype Stream<+T> = Stream(out: seq<T>, pending: bytes, error: Option<ProtocolError>)

  /** A parser that uses up bytes it was given, and never takes a value back. */
  ghost predicate Incremental<T(!new)>(parse: bytes -> Parsed<T>) {
    && (forall s: bytes :: parse(s).Done? ==> 0 < parse(s).next <= |s|)
    && (forall a: bytes, b: bytes :: parse(a).Done? ==> parse(a + b) == parse(a))
  }

  function Ahead<T>(out: seq<T>, s: Stream<T>): Stream<T> {
    s.(out := out + s.out)
  }

  ghost function Drain<T(!new)>(parse: bytes -> Parsed<T>, buf: bytes): Stream<T>
    requires Incremental(parse)
    decreases |buf|
  {
    match parse(buf)
    case NeedMore => Stream([], buf, None)
    case Err(e) => Stream([], buf, Some(e))
    case Done(value, next) => Ahead([value], Drain(parse, buf[next..]))
  }

  /** After an error the bytes only pile up. */
  ghost function Feed<T(!new)>(parse: bytes -> Parsed<T>, s: Stream<T>, chunk: bytes): Stream<T>
    requires Incremental(parse)
  {
    if s.error.Some? then s.(pending := s.pending + chunk) else Ahead(s.out, Drain(parse, s.pending + chunk))
  }

  ghost function FeedAll<T(!new)>(parse: bytes -> Parsed<T>, chunks: seq<bytes>): Stream<T>
    requires Incremental(parse)
  {
    if chunks == [] then Drain(parse, [])
    else Feed(parse, FeedAll(parse, chunks[..|chunks| - 1]), chunks[|chunks| - 1])
  }

  function Concat(chunks: seq<bytes>): bytes {
    if chunks == [] then [] else Concat(chunks[..|chunks| - 1]) + chunks[|chunks| - 1]
  }

  lemma AheadTwice<T>(a: seq<T>, b: seq<T>, s: Stream<T>)
    ensures Ahead(a, Ahead(b, s)) == Ahead(a + b, s)
    ensures Ahead([], s) == s
  {
    assert a + (b + s.out) == a + b + s.out;
    assert [] + s.out == s.out;
  }

  /** Draining goes on where draining a part of the bytes has stopped. */
  lemma {:induction false} DrainGoesOn<T(!new)>(parse: bytes -> Parsed<T>, a: bytes, b: bytes)
    requires Incremental(parse)
    ensures var d := Drain(parse, a); Drain(parse, a + b) == Ahead(d.out, Drain(parse, d.pending + b))
    decreases |a|
  {
    hide Ahead;
    match parse(a)
    case Done(value, next) =>
      var d := Drain(parse, a[next..]);
      DrainGoesOn(parse, a[next..], b);
      assert parse(a + b) == parse(a);
      assert (a + b)[next..] == a[next..] + b;
      AheadTwice([value], d.out, Drain(parse, d.pending + b));
      assert Drain(parse, a).out == [value] + d.out && Drain(parse, a).pending == d.pending by { DrainStep(parse, a); }
    case _ => AheadTwice([], [], Drain(parse, a + b));
  }

  lemma DrainStep<T(!new)>(parse: bytes -> Parsed<T>, a: bytes)
    requires Incremental(parse) && parse(a).Done?
    ensures var d := Drain(parse, a[parse(a).next..]);
            Drain(parse, a) == Stream([parse(a).value] + d.out, d.pending, d.error)
  {
  }

  lemma {:induction false} DrainStops<T(!new)>(parse: bytes -> Parsed<T>, a: bytes)
    requires Incremental(parse)
    ensures var d := Drain(parse, a); parse(d.pending) == if d.error.Some? then Err(d.error.value) else NeedMore
    decreases |a|
  {
    if parse(a).Done? {
      DrainStops(parse, a[parse(a).next..]);
    }
  }

  /** An error that further bytes would have averted. */
  ghost predicate Hasty<T(!new)>(parse: bytes -> Parsed<T>, pending: bytes, more: bytes) {
    parse(pending).Err? && parse(pending + more) != parse(pending)
  }

  lemma FeedIsDrain<T(!new)>(parse: bytes -> Parsed<T>, a: bytes, b: bytes)
    requires Incremental(parse) && !Hasty(parse, Drain(parse, a).pending, b)
    ensures Feed(parse, Drain(parse, a), b) == Drain(parse, a + b)
  {
    DrainGoesOn(parse, a, b);
    DrainStops(parse, a);
  }

  // ---- Frames: chunks do not matter -----------------------------------------------------------------

  ghost function FrameParser(lim: Limits, ft: FloatText): (parse: bytes -> Parsed<Frame>)
    ensures Incremental(parse)
  {
    FramesAreIncremental(lim, ft);
    (s: bytes) => FrameAt(s, 0, lim, 0, ft)
  }

  lemma FramesAreIncremental(lim: Limits, ft: FloatText)
    ensures Incremental((s: bytes) => FrameAt(s, 0, lim, 0, ft))
  {
    hide FrameAt;
    forall s: bytes | FrameAt(s, 0, lim, 0, ft).Done? ensures 0 < FrameAt(s, 0, lim, 0, ft).next <= |s| {
      DecodedFits(s, 0, lim, 0, ft);
    }
    forall a: bytes, b: bytes ensures Settles(FrameAt(a, 0, lim, 0, ft), FrameAt(a + b, 0, lim, 0, ft)) {
      FrameStable(a, a + b, 0, lim, 0, ft);
    }
  }

  lemma FramesAreNeverHasty(lim: Limits, ft: FloatText, pending: bytes, more: bytes)
    ensures !Hasty(FrameParser(lim, ft), pending, more)
  {
    hide FrameAt;
    FrameStable(pending, pending + more, 0, lim, 0, ft);
  }

  /** However a stream is cut into chunks, the same frames, rest and error come out of it. */
  lemma {:induction false} FrameChunksDoNotMatter(chunks: seq<bytes>, lim: Limits, ft: FloatText)
    ensures FeedAll(FrameParser(lim, ft), chunks) == Drain(FrameParser(lim, ft), Concat(chunks))
  {
    hide FrameParser, Drain, Incremental, Hasty;
    if chunks != [] {
      var init, last := chunks[..|chunks| - 1], chunks[|chunks| - 1];
      FrameChunksDoNotMatter(init, lim, ft);
      FramesAreNeverHasty(lim, ft, Drain(FrameParser(lim, ft), Concat(init)).pending, last);
      FeedIsDrain(FrameParser(lim, ft), Concat(init), last);
    }
  }

  lemma {:induction false} DrainOfEncoded(frames: seq<Frame>, version: RespVersion, lim: Limits, ft: FloatText)
    requires Lossless(ft) && AllDecodable(frames, lim, 0)
    ensures Drain(FrameParser(lim, ft), EncodedAll(frames, version, ft)) == Stream(frames, [], None)
    decreases |frames|
  {
    hide FrameAt, Encoded, Decodable, Lossless, Incremental;
    var wire := EncodedAll(frames, version, ft);
    if frames == [] {
      assert FrameAt([], 0, lim, 0, ft) == NeedMore by { EmptyNeedsMore(lim, ft); }
    } else {
      var first, rest := Encoded(frames[0], version, ft), EncodedAll(frames[1..], version, ft);
      RoundTripIff(frames[0], version, lim, ft, rest);
      DrainOfEncoded(frames[1..], version, lim, ft);
      assert wire[|first|..] == rest;
      assert [frames[0]] + frames[1..] == frames;
    }
  }

  lemma EmptyNeedsMore(lim: Limits, ft: FloatText)
    ensures FrameAt([], 0, lim, 0, ft) == NeedMore
  {
  }

  /**
   * Frames sent one after the other arrive as sent: whatever part of their bytes has come, in
   * whatever chunks, there is no error and the frames received are the first ones sent; once all
   * bytes have come, they are all of them, with nothing left over.
   */
  lemma FramesArrive(frames: seq<Frame>, version: RespVersion, chunks: seq<bytes>, lim: Limits, ft: FloatText)
    requires Lossless(ft) && AllDecodable(frames, lim, 0)
    requires Concat(chunks) <= EncodedAll(frames, version, ft)
    ensures var s := FeedAll(FrameParser(lim, ft), chunks);
            && s.error == None && s.out <= frames
            && (Concat(chunks) == EncodedAll(frames, version, ft) ==> s == Stream(frames, [], None))
  {
    hide FrameParser, FeedAll, Incremental, Lossless, AllDecodable, EncodedAll;
    var parse := FrameParser(lim, ft);
    var part, whole := Concat(chunks), EncodedAll(frames, version, ft);
    var rest := whole[|part|..];
    assert whole == part + rest;
    FrameChunksDoNotMatter(chunks, lim, ft);
    DrainOfEncoded(frames, version, lim, ft);
    DrainGoesOn(parse, part, rest);
    DrainStops(parse, part);
    FramesAreNeverHasty(lim, ft, Drain(parse, part).pending, rest);
    DrainStops(parse, whole);
  }

  // ---- Commands: one kind of cut matters --------------------------------------------------------------

  ghost function CommandParser(lim: Limits): (parse: bytes -> Parsed<seq<bytes>>)
    ensures Incremental(parse)
  {
    CommandsAreIncremental(lim);
    (s: bytes) => CommandAt(s, lim)
  }

  lemma CommandsAreIncremental(lim: Limits)
    ensures Incremental((s: bytes) => CommandAt(s, lim))
  {
    hide CommandAt, BadCut;
    forall a: bytes, b: bytes ensures CommandAt(a, lim).Done? ==> CommandAt(a + b, lim) == CommandAt(a, lim) {
      CommandStableIff(a, b, lim);
    }
  }

  lemma HastyIsBadCut(lim: Limits, pending: bytes, more: bytes)
    ensures Hasty(CommandParser(lim), pending, more) <==> BadCut(pending, more, lim)
  {
    hide CommandAt, BadCut;
    CommandStableIff(pending, more, lim);
  }

  /** No chunk begins between the CR and LF of an unfinished inline line of the maximal length. */
  ghost predicate CutsWell(chunks: seq<bytes>, lim: Limits)
  {
    forall k :: 0 <= k < |chunks| ==> !BadCut(Drain(CommandParser(lim), Concat(chunks[..k])).pending, chunks[k], lim)
  }

  /** The chunked stream has given up where the whole stream goes on. */
  ghost predicate Behind(chunked: Stream<seq<bytes>>, whole: Stream<seq<bytes>>) {
    && chunked.error == Some(LimitExceeded)
    && (|chunked.out| < |whole.out| || (|chunked.out| == |whole.out| && whole.error == Some(InlineSyntax)))
  }

  /** Requests come out of a chunked stream as out of the whole one if and only if its cuts are well placed. */
  lemma CommandChunksDoNotMatterIff(chunks: seq<bytes>, lim: Limits)
    ensures FeedAll(CommandParser(lim), chunks) == Drain(CommandParser(lim), Concat(chunks)) <==> CutsWell(chunks, lim)
  {
    CommandChunks(chunks, lim);
  }

  lemma {:induction false} CommandChunks(chunks: seq<bytes>, lim: Limits)
    ensures var chunked, whole := FeedAll(CommandParser(lim), chunks), Drain(CommandParser(lim), Concat(chunks));
            if CutsWell(chunks, lim) then chunked == whole else Behind(chunked, whole)
  {
    hide CommandParser, Drain, BadCut, Incremental, Hasty, CutsWell, Behind, Ahead;
    var parse := CommandParser(lim);
    if chunks == [] {
      NoCuts(lim);
    } else {
      var init, last := chunks[..|chunks| - 1], chunks[|chunks| - 1];
      CommandChunks(init, lim);
      LastCut(chunks, lim);
      DrainGoesOn(parse, Concat(init), last);
      DrainStops(parse, Concat(init));
      var chunked, before := FeedAll(parse, init), Drain(parse, Concat(init));
      var next := Drain(parse, before.pending + last);
      HastyIsBadCut(lim, before.pending, last);
      NextCommand(before.pending, last, lim);
      if !CutsWell(init, lim) {
        StaysBehind(chunked, before, next, last);
      } else if BadCut(before.pending, last, lim) {
        FallsBehind(before, next, last);
      } else {
        FeedIsDrain(parse, Concat(init), last);
      }
    }
  }

  lemma NoCuts(lim: Limits)
    ensures CutsWell([], lim)
  {
  }

  lemma LastCut(chunks: seq<bytes>, lim: Limits)
    requires chunks != []
    ensures var (init, last) := (chunks[..|chunks| - 1], chunks[|chunks| - 1]);
            CutsWell(chunks, lim) <==>
              CutsWell(init, lim) && !BadCut(Drain(CommandParser(lim), Concat(init)).pending, last, lim)
  {
    hide BadCut, Drain, Incremental, CommandParser, Concat;
    var init := chunks[..|chunks| - 1];
    assert forall k :: 0 <= k < |init| ==> init[..k] == chunks[..k] && init[k] == chunks[k];
  }

  /** What has given up stays given up, and the whole stream never takes back what it is ahead. */
  lemma StaysBehind(chunked: Stream<seq<bytes>>, whole: Stream<seq<bytes>>, next: Stream<seq<bytes>>, chunk: bytes)
    requires Behind(chunked, whole)
    requires whole.error == Some(InlineSyntax) ==> next.error == Some(InlineSyntax)
    ensures Behind(chunked.(pending := chunked.pending + chunk), Ahead(whole.out, next))
  {
  }

  lemma FallsBehind(before: Stream<seq<bytes>>, next: Stream<seq<bytes>>, chunk: bytes)
    requires before.error == Some(LimitExceeded) && Behind(Stream([], before.pending, before.error), next)
    ensures Behind(before.(pending := before.pending + chunk), Ahead(before.out, next))
  {
  }

  lemma NextCommand(pending: bytes, more: bytes, lim: Limits)
    ensures BadCut(pending, more, lim) ==>
              CommandAt(pending, lim) == Err(LimitExceeded)
                  && Behind(Stream([], pending, Some(LimitExceeded)), Drain(CommandParser(lim), pending + more))
    ensures CommandAt(pending, lim) == Err(InlineSyntax) ==>
        Drain(CommandParser(lim), pending + more) == Stream([], pending + more, Some(InlineSyntax))
    ensures CommandParser(lim)(pending) == CommandAt(pending, lim)
  {
    hide CommandAt, BadCut;
    CommandStableIff(pending, more, lim);
  }

  // ---- Requests sent as arrays arrive whatever the cuts -------------------------------------------------

  function Request(args: seq<bytes>): Frame {
    Array(Bulks(args))
  }

  function Sent(requests: seq<seq<bytes>>, version: RespVersion, ft: FloatText): bytes {
    if requests == [] then [] else Encoded(Request(requests[0]), version, ft) + Sent(requests[1..], version, ft)
  }

  ghost predicate RequestFits(args: seq<bytes>, lim: Limits) {
    args != [] && LengthFits(|args|, lim.maxArrayLen)
        && forall i :: 0 <= i < |args| ==> LengthFits(|args[i]|, lim.maxBulkLen)
  }

  lemma SentStartsWithStar(args: seq<bytes>, version: RespVersion, ft: FloatText)
    ensures var wire := Encoded(Request(args), version, ft); wire != [] && wire[0] == STAR
  {
  }

  /** What is left of a part of well-formed requests is itself the start of one. */
  lemma {:induction false} PartOfSent(requests: seq<seq<bytes>>, version: RespVersion, part: bytes, lim: Limits,
      ft: FloatText)
    requires Lossless(ft) && 1 <= lim.maxDepth
    requires forall i :: 0 <= i < |requests| ==> RequestFits(requests[i], lim)
    requires part <= Sent(requests, version, ft)
    ensures var s := Drain(CommandParser(lim), part);
            && (s.pending != [] ==> s.pending[0] == STAR)
            && s.out <= requests
            && (part == Sent(requests, version, ft) ==> s == Stream(requests, [], None))
    decreases |requests|
  {
    hide CommandAt, Encoded, Lossless, Incremental, RequestFits, Request;
    var parse := CommandParser(lim);
    if requests == [] || part == [] {
      assert CommandAt([], lim) == NeedMore by { NothingNeedsMore(lim); }
      if requests != [] {
        SentStartsWithStar(requests[0], version, ft);
      }
    } else {
      var wire, more := Encoded(Request(requests[0]), version, ft), Sent(requests[1..], version, ft);
      SentStartsWithStar(requests[0], version, ft);
      if wire <= part {
        var rest := part[|wire|..];
        assert wire + rest == part && rest <= more;
        RequestArrives(requests[0], version, lim, ft, rest);
        PartOfSent(requests[1..], version, rest, lim, ft);
        DrainStep(parse, part);
        assert requests == [requests[0]] + requests[1..];
      } else {
        assert part <= wire && part[0] == STAR;
        RequestPart(requests[0], version, part, lim, ft);
      }
    }
  }

  lemma NothingNeedsMore(lim: Limits)
    ensures CommandAt([], lim) == NeedMore
  {
  }

  lemma RequestArrives(args: seq<bytes>, version: RespVersion, lim: Limits, ft: FloatText, rest: bytes)
    requires Lossless(ft) && 1 <= lim.maxDepth && RequestFits(args, lim)
    ensures var wire := Encoded(Request(args), version, ft); CommandAt(wire + rest, lim) == Done(args, |wire|)
  {
    hide CommandAt, Encoded, Lossless;
    RequestRoundTripIff(args, version, lim, ft, rest);
  }

  lemma RequestPart(args: seq<bytes>, version: RespVersion, part: bytes, lim: Limits, ft: FloatText)
    requires Lossless(ft) && 1 <= lim.maxDepth && RequestFits(args, lim)
    requires part < Encoded(Request(args), version, ft) && part != []
    ensures CommandAt(part, lim) == NeedMore
  {
    hide CommandAt, Encoded, Lossless;
    var wire := Encoded(Request(args), version, ft);
    SentStartsWithStar(args, version, ft);
    RequestArrives(args, version, lim, ft, []);
    assert wire + [] == wire && part + wire[|part|..] == wire;
    CommandStableIff(part, wire[|part|..], lim);
  }

  /** Requests sent as arrays, of any bytes, arrive as sent however their bytes are cut into chunks. */
  lemma RequestsArrive(requests: seq<seq<bytes>>, version: RespVersion, chunks: seq<bytes>, lim: Limits, ft: FloatText)
    requires Lossless(ft) && 1 <= lim.maxDepth
    requires forall i :: 0 <= i < |requests| ==> RequestFits(requests[i], lim)
    requires Concat(chunks) == Sent(requests, version, ft)
    ensures FeedAll(CommandParser(lim), chunks) == Stream(requests, [], None)
  {
    hide CommandParser, FeedAll, Incremental, Lossless, RequestFits, Sent;
    forall k | 0 <= k < |chunks| ensures !BadCut(Drain(CommandParser(lim), Concat(chunks[..k])).pending, chunks[k],
        lim) {
      ConcatBegins(chunks, k);
      PartOfSent(requests, version, Concat(chunks[..k]), lim, ft);
    }
    CommandChunksDoNotMatterIff(chunks, lim);
    PartOfSent(requests, version, Concat(chunks), lim, ft);
  }

  lemma {:induction false} ConcatBegins(chunks: seq<bytes>, k: nat)
    requires k <= |chunks|
    ensures Concat(chunks[..k]) <= Concat(chunks)
  {
    if k < |chunks| {
      ConcatBegins(chunks[..|chunks| - 1], k);
      assert chunks[..|chunks| - 1][..k] == chunks[..k];
    } else {
      assert chunks[..k] == chunks;
    }
  }
}
