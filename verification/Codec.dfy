/** The codecs a connection uses: they cut what they decode off the front of a buffer, and append what they encode. */
module Codec {
  import opened Common
  import opened Text
  import opened Frames
  import opened Parsing
  import opened Wire
  import Decoding
  import opened Inline
  import opened Requests
  import opened Streams

  /** A growing byte buffer. */
  class BytesMut {
    var data: bytes

    constructor ()
      ensures data == []
    {
      data := [];
    }

    method Extend(more: bytes)
      modifies this
      ensures data == old(data) + more
    {
      data := data + more;
    }

    method Put(b: byte)
      modifies this
      ensures data == old(data) + [b]
    {
      data := data + [b];
    }

    method SplitTo(n: nat) returns (head: bytes)
      requires n <= |data|
      modifies this
      ensures head == old(data)[..n] && data == old(data)[n..]
    {
      head, data := data[..n], data[n..];
    }
  }

  // ---- Decoding from the front of a buffer --------------------------------------------------------

  datatype Decoded<+T> = Item(value: T) | Incomplete | Failed(error: ProtocolError)

  /** What decoding answers and leaves, given what stands at the front of the buffer. */
  ghost function Cut<T>(r: Parsed<T>, data: bytes): (Decoded<T>, bytes)
    requires r.Done? ==> r.next <= |data|
  {
    match r
    case Done(value, next) => (Item(value), data[next..])
    case NeedMore => (Incomplete, data)
    case Err(e) => (Failed(e), data)
  }

  method DecodeFrame(buf: BytesMut, lim: Limits, ft: FloatText) returns (r: Decoded<Frame>)
    modifies buf
    ensures (r, buf.data) == Cut(FrameParser(lim, ft)(old(buf.data)), old(buf.data))
  {
    hide FrameAt;
    assert Incremental(FrameParser(lim, ft));
    var parsed := Decoding.ParseFrame(buf.data, 0, lim, 0, ft);
    assert parsed == FrameParser(lim, ft)(buf.data);
    match parsed {
      case Done(f, consumed) =>
        var _ := buf.SplitTo(consumed);
        r := Item(f);
      case NeedMore => r := Incomplete;
      case Err(e) => r := Failed(e);
    }
  }

  method DecodeCommand(buf: BytesMut, lim: Limits) returns (r: Decoded<seq<bytes>>)
    modifies buf
    ensures (r, buf.data) == Cut(CommandAt(old(buf.data), lim), old(buf.data))
  {
    hide MultibulkAt, SplitAt, LineAt;
    if |buf.data| == 0 {
      return Incomplete;
    }
    if buf.data[0] == STAR {
      var parsed := ParseMultibulk(buf.data, lim);
      match parsed {
        case Done(args, consumed) =>
          var _ := buf.SplitTo(consumed);
          r := Item(args);
        case NeedMore => r := Incomplete;
        case Err(e) => r := Failed(e);
      }
    } else {
      var read := Decoding.ReadLine(buf.data, 0);
      match read {
        case Done(line, consumed) =>
          if |line| > lim.maxInlineLen {
            return Failed(LimitExceeded);
          }
          var args := SplitInline(line);
          if args == None {
            return Failed(InlineSyntax);
          }
          var _ := buf.SplitTo(consumed);
          r := Item(args.value);
        case NeedMore =>
          if |buf.data| > lim.maxInlineLen {
            return Failed(LimitExceeded);
          }
          r := Incomplete;
        case Err(e) => r := Failed(e);
      }
    }
  }

  // ---- Encoding to the end of a buffer ---------------------------------------------------------------

  method PutLine(kind: byte, text: bytes, out: BytesMut)
    modifies out
    ensures out.data == old(out.data) + Line(kind, text)
  {
    out.Put(kind);
    out.Extend(text);
    out.Extend(CRLF);
    assert old(out.data) + [kind] + text + CRLF == old(out.data) + ([kind] + text + CRLF);
  }

  method PutHeader(kind: byte, n: nat, out: BytesMut)
    modifies out
    ensures out.data == old(out.data) + Header(kind, n)
  {
    PutLine(kind, FormatI64(Cast(n)), out);
  }

  method PutBulk(kind: byte, payload: bytes, out: BytesMut)
    modifies out
    ensures out.data == old(out.data) + (Header(kind, |payload|) + (payload + CRLF))
  {
    hide Header;
    PutHeader(kind, |payload|, out);
    out.Extend(payload);
    out.Extend(CRLF);
    assert old(out.data) + Header(kind, |payload|) + payload + CRLF
        == old(out.data) + (Header(kind, |payload|) + (payload + CRLF));
  }

  method PutVerbatim(format: Tag, text: bytes, out: BytesMut)
    modifies out
    ensures out.data == old(out.data) + Header('=' as int, 4 + |text|) + (format + [':' as int] + text + CRLF)
  {
    hide Header;
    PutHeader('=' as int, 3 + 1 + |text|, out);
    ghost var start := out.data;
    out.Extend(format);
    out.Put(':' as int);
    out.Extend(text);
    out.Extend(CRLF);
    assert out.data == start + (format + [':' as int] + text + CRLF);
  }

  method EncodeFrame(f: Frame, version: RespVersion, out: BytesMut, ft: FloatText)
    modifies out
    ensures out.data == old(out.data) + Encoded(f, version, ft)
    decreases f, 1
  {
    hide EncodedAll, EncodedPairs, Line, Header, FormatI64;
    match f {
      case Simple(text) => PutLine('+' as int, text, out);
      case Error(text) => PutLine('-' as int, text, out);
      case Integer(n) => PutLine(':' as int, FormatI64(n), out);
      case Bulk(payload) => PutBulk('$' as int, payload, out);
      case Null =>
        if version.V2? {
          PutLine('$' as int, [MINUS, 49], out);
        } else {
          PutLine('_' as int, [], out);
        }
      case Array(items) => EncodeList('*' as int, items, version, out, ft);
      case Boolean(on) => PutLine('#' as int, if on then TRUE else FALSE, out);
      case Double(d) => PutLine(',' as int, FormatFloat(d, ft), out);
      case BigNumber(text) => PutLine('(' as int, text, out);
      case BulkError(text) => PutBulk('!' as int, text, out);
      case Verbatim(format, text) =>
        PutVerbatim(format, text, out);
        Regroup(old(out.data), Header('=' as int, 4 + |text|), format + [':' as int] + text + CRLF);
      case Map(pairs) => EncodeMap(pairs, version, out, ft);
      case Set(items) => EncodeList('~' as int, items, version, out, ft);
      case Push(items) => EncodeList('>' as int, items, version, out, ft);
    }
  }

  lemma Regroup(a: bytes, b: bytes, c: bytes)
    ensures a + b + c == a + (b + c)
  {
  }

  method EncodeList(kind: byte, items: seq<Frame>, version: RespVersion, out: BytesMut, ft: FloatText)
    modifies out
    ensures out.data == old(out.data) + (Header(kind, |items|) + EncodedAll(items, version, ft))
    decreases items, 0
  {
    hide Header, Encoded;
    PutHeader(kind, |items|, out);
    var i := 0;
    Regroup(old(out.data), Header(kind, |items|), EncodedAll(items, version, ft));
    while i < |items|
      invariant 0 <= i <= |items|
      invariant out.data + EncodedAll(items[i..], version, ft)
          == old(out.data) + (Header(kind, |items|) + EncodedAll(items, version, ft))
    {
      Regroup(out.data, Encoded(items[i], version, ft), EncodedAll(items[i + 1..], version, ft));
      EncodeFrame(items[i], version, out, ft);
      assert items[i..][1..] == items[i + 1..];
      i := i + 1;
    }
    assert out.data + [] == out.data;
  }

  method EncodeMap(pairs: seq<(Frame, Frame)>, version: RespVersion, out: BytesMut, ft: FloatText)
    modifies out
    ensures out.data == old(out.data) + (Header('%' as int, |pairs|) + EncodedPairs(pairs, version, ft))
    decreases pairs, 0
  {
    hide Header, EncodedPair;
    PutHeader('%' as int, |pairs|, out);
    var i := 0;
    Regroup(old(out.data), Header('%' as int, |pairs|), EncodedPairs(pairs, version, ft));
    while i < |pairs|
      invariant 0 <= i <= |pairs|
      invariant out.data + EncodedPairs(pairs[i..], version, ft)
          == old(out.data) + (Header('%' as int, |pairs|) + EncodedPairs(pairs, version, ft))
    {
      Regroup(out.data, EncodedPair(pairs[i], version, ft), EncodedPairs(pairs[i + 1..], version, ft));
      EncodeEntry(pairs[i], version, out, ft);
      assert pairs[i..][1..] == pairs[i + 1..];
      i := i + 1;
    }
    assert out.data + [] == out.data;
  }

  method EncodeEntry(pair: (Frame, Frame), version: RespVersion, out: BytesMut, ft: FloatText)
    modifies out
    ensures out.data == old(out.data) + EncodedPair(pair, version, ft)
    decreases pair, 0
  {
    hide Encoded;
    EncodeFrame(pair.0, version, out, ft);
    EncodeFrame(pair.1, version, out, ft);
    Regroup(old(out.data), Encoded(pair.0, version, ft), Encoded(pair.1, version, ft));
  }

  // ---- The two codecs -----------------------------------------------------------------------------------

  /** Frames both ways. */
  class RespCodec {
    var version: RespVersion
    const limits: Limits
    const ft: FloatText

    constructor (limits: Limits, ft: FloatText)
      ensures version == V2 && this.limits == limits && this.ft == ft
    {
      version, this.limits, this.ft := V2, limits, ft;
    }

    constructor Default(ft: FloatText)
      ensures version == V2 && limits == DEFAULT_LIMITS && this.ft == ft
    {
      version, limits, this.ft := V2, DEFAULT_LIMITS, ft;
    }

    method SetVersion(version: RespVersion)
      modifies this
      ensures this.version == version
    {
      this.version := version;
    }

    method Decode(src: BytesMut) returns (r: Decoded<Frame>)
      modifies src
      ensures (r, src.data) == Cut(FrameParser(limits, ft)(old(src.data)), old(src.data))
    {
      r := DecodeFrame(src, limits, ft);
    }

    method Encode(item: Frame, dst: BytesMut)
      modifies dst
      ensures dst.data == old(dst.data) + Encoded(item, version, ft)
    {
      EncodeFrame(item, version, dst, ft);
    }

    /** Appends a chunk and decodes until nothing more comes or an error does. */
    method Receive(src: BytesMut, chunk: bytes) returns (out: seq<Frame>, error: Option<ProtocolError>)
      modifies src
      ensures Stream(out, src.data, error) == Drain(FrameParser(limits, ft), old(src.data) + chunk)
    {
      src.Extend(chunk);
      ghost var parse, all := FrameParser(limits, ft), src.data;
      out, error := [], None;
      AheadTwice([], [], Drain(parse, all));
      while true
        invariant error == None && Drain(parse, all) == Ahead(out, Drain(parse, src.data))
        decreases |src.data|
      {
        hide FrameParser, Ahead;
        assert Incremental(parse);
        ghost var before := src.data;
        var r := Decode(src);
        match r {
          case Item(f) =>
            AheadTwice(out, [f], Drain(parse, src.data));
            out := out + [f];
          case Incomplete =>
            AheadNothing(out, before, None);
            return;
          case Failed(e) =>
            AheadNothing(out, before, Some(e));
            return out, Some(e);
        }
      }
    }

    /** A connection's whole input, chunk by chunk, until an error. */
    method ReceiveAll(chunks: seq<bytes>) returns (out: seq<Frame>, pending: bytes, error: Option<ProtocolError>)
      ensures Stream(out, pending, error) == Drain(FrameParser(limits, ft), Concat(chunks))
    {
      hide FrameParser, Drain, Ahead;
      var src := new BytesMut();
      ghost var parse := FrameParser(limits, ft);
      ghost var nothing: bytes := [];
      out, error := Receive(src, []);
      assert nothing + nothing == nothing && chunks[..0] == [];
      var i := 0;
      while i < |chunks|
        invariant 0 <= i <= |chunks| && fresh(src)
        invariant Stream(out, src.data, error) == FeedAll(parse, chunks[..i])
      {
        assert chunks[..i + 1][..i] == chunks[..i];
        if error == None {
          var more;
          more, error := Receive(src, chunks[i]);
          AheadIs(out, more, src.data, error);
          out := out + more;
        } else {
          src.Extend(chunks[i]);
        }
        i := i + 1;
      }
      assert chunks[..i] == chunks;
      FrameChunksDoNotMatter(chunks, limits, ft);
      pending := src.data;
    }
  }

  lemma AheadNothing<T>(out: seq<T>, pending: bytes, error: Option<ProtocolError>)
    ensures Ahead(out, Stream([], pending, error)) == Stream(out, pending, error)
  {
    assert out + [] == out;
  }

  lemma AheadIs<T>(out: seq<T>, more: seq<T>, pending: bytes, error: Option<ProtocolError>)
    ensures Ahead(out, Stream(more, pending, error)) == Stream(out + more, pending, error)
  {
  }

  /** Requests in, frames out. */
  class CommandCodec {
    var version: RespVersion
    const limits: Limits
    const ft: FloatText

    constructor (limits: Limits, ft: FloatText)
      ensures version == V2 && this.limits == limits && this.ft == ft
    {
      version, this.limits, this.ft := V2, limits, ft;
    }

    constructor Default(ft: FloatText)
      ensures version == V2 && limits == DEFAULT_LIMITS && this.ft == ft
    {
      version, limits, this.ft := V2, DEFAULT_LIMITS, ft;
    }

    method SetVersion(version: RespVersion)
      modifies this
      ensures this.version == version
    {
      this.version := version;
    }

    method Decode(src: BytesMut) returns (r: Decoded<seq<bytes>>)
      modifies src
      ensures (r, src.data) == Cut(CommandAt(old(src.data), limits), old(src.data))
    {
      r := DecodeCommand(src, limits);
    }

    method Encode(item: Frame, dst: BytesMut)
      modifies dst
      ensures dst.data == old(dst.data) + Encoded(item, version, ft)
    {
      EncodeFrame(item, version, dst, ft);
    }

    method Receive(src: BytesMut, chunk: bytes) returns (out: seq<seq<bytes>>, error: Option<ProtocolError>)
      modifies src
      ensures Stream(out, src.data, error) == Drain(CommandParser(limits), old(src.data) + chunk)
    {
      src.Extend(chunk);
      ghost var parse, all := CommandParser(limits), src.data;
      out, error := [], None;
      AheadTwice([], [], Drain(parse, all));
      while true
        invariant error == None && Drain(parse, all) == Ahead(out, Drain(parse, src.data))
        decreases |src.data|
      {
        hide Ahead, CommandAt;
        assert parse(src.data) == CommandAt(src.data, limits);
        ghost var before := src.data;
        var r := Decode(src);
        match r {
          case Item(args) =>
            AheadTwice(out, [args], Drain(parse, src.data));
            out := out + [args];
          case Incomplete =>
            AheadNothing(out, before, None);
            return;
          case Failed(e) =>
            AheadNothing(out, before, Some(e));
            return out, Some(e);
        }
      }
    }

    method ReceiveAll(chunks: seq<bytes>) returns (out: seq<seq<bytes>>, pending: bytes, error: Option<ProtocolError>)
      ensures Stream(out, pending, error) == FeedAll(CommandParser(limits), chunks)
      ensures Stream(out, pending, error) == Drain(CommandParser(limits), Concat(chunks)) <==> CutsWell(chunks, limits)
    {
      hide CommandParser, Drain, Ahead, CutsWell;
      var src := new BytesMut();
      ghost var parse := CommandParser(limits);
      ghost var nothing: bytes := [];
      out, error := Receive(src, []);
      assert nothing + nothing == nothing && chunks[..0] == [];
      var i := 0;
      while i < |chunks|
        invariant 0 <= i <= |chunks| && fresh(src)
        invariant Stream(out, src.data, error) == FeedAll(parse, chunks[..i])
      {
        assert chunks[..i + 1][..i] == chunks[..i];
        if error == None {
          var more;
          more, error := Receive(src, chunks[i]);
          AheadIs(out, more, src.data, error);
          out := out + more;
        } else {
          src.Extend(chunks[i]);
        }
        i := i + 1;
      }
      assert chunks[..i] == chunks;
      CommandChunksDoNotMatterIff(chunks, limits);
      pending := src.data;
    }
  }
}
