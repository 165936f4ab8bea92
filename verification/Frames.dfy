/** The values RESP2 and RESP3 carry, and what decoding them can answer. */
module Frames {
  import opened Common

  datatype RespVersion = V2 | V3

  /** The bits of a finite IEEE 754 double. */
  type finite = b: u64 | b / 0x10_0000_0000_0000 % 2048 != 2047 witness 0

  /** A double; all NaNs are one value. */
  datatype Float = NaN | Infinity(negative: bool) | Finite(bits: finite)

  /** The standard library's reading and writing of doubles. */
  datatype FloatText = FloatText(parse: bytes -> Option<Float>, format: finite -> bytes)

  /** The three bytes that say how a verbatim string is formatted. */
  type Tag = s: seq<byte> | |s| == 3 witness [0, 0, 0]

  datatype Frame =
    | Simple(text: bytes)
    | Error(text: bytes)
    | Integer(n: i64)
    | Bulk(data: bytes)
    | Array(items: seq<Frame>)
    | Null
    | Boolean(on: bool)
    | Double(d: Float)
    | BigNumber(text: bytes)
    | BulkError(text: bytes)
    | Verbatim(format: Tag, data: bytes)
    | Map(pairs: seq<(Frame, Frame)>)
    | Set(items: seq<Frame>)
    | Push(items: seq<Frame>)

  datatype ProtocolError = Malformed | LimitExceeded | InlineSyntax

  datatype Limits = Limits(maxBulkLen: nat, maxArrayLen: nat, maxInlineLen: nat, maxDepth: nat)

  const DEFAULT_LIMITS := Limits(512 * 1024 * 1024, 1024 * 1024, 64 * 1024, 128)

  /** A value and the position just past it, or an error, or a wish for more bytes. */
  datatype Parsed<+T> = Done(value: T, next: nat) | NeedMore | Err(error: ProtocolError)
}
