/** What the RESP grammar makes of the bytes at a position. */
module Parsing {
  import opened Common
  import opened Text
  import opened Frames

  // ---- Lines and lengths -----------------------------------------------------------------

  function LineAt(input: bytes, from: nat): (r: Parsed<bytes>)
    ensures r.Done? ==> from + 2 <= r.next <= |input|
  {
    match FindCrlf(input, from)
    case None => NeedMore
    case Some(i) => Done(input[from..i], i + 2)
  }

  /** A line holding a number: every length, count and integer. */
  function NumberAt(input: bytes, from: nat): (r: Parsed<i64>)
    ensures r.Done? ==> from + 2 <= r.next <= |input|
  {
    match LineAt(input, from)
    case NeedMore => NeedMore
    case Err(e) => Err(e)
    case Done(line, next) =>
      match ParseI64(line)
      case None => Err(Malformed)
      case Some(n) => Done(n, next)
  }

  /** `len` bytes of any kind, and the CR LF after them. */
  function PayloadAt(input: bytes, from: nat, len: nat): (r: Parsed<bytes>)
    ensures r.Done? ==> |r.value| == len && r.next == from + len + 2 <= |input|
  {
    if |input| < from + len + 2 then NeedMore
    else if !CrlfAt(input, from + len) then Err(Malformed)
    else Done(input[from..from + len], from + len + 2)
  }

  // ---- Values on one line ------------------------------------------------------------------

  const INF: bytes := ['i' as int, 'n' as int, 'f' as int]
  const NAN: bytes := ['n' as int, 'a' as int, 'n' as int]
  const TRUE: bytes := ['t' as int]
  const FALSE: bytes := ['f' as int]

  function ParseFloat(s: bytes, ft: FloatText): Option<Float> {
    if s == INF || s == [PLUS] + INF then Some(Infinity(false))
    else if s == [MINUS] + INF then Some(Infinity(true))
    else if s == NAN || s == [MINUS] + NAN then Some(NaN)
    else ft.parse(s)
  }

  predicate IsScalar(kind: byte) {
    kind in ['+' as int, '-' as int, '(' as int, ':' as int, '_' as int, '#' as int, ',' as int]
  }

  /** The value a complete line stands for. */
  function Scalar(kind: byte, line: bytes, ft: FloatText): Option<Frame>
    requires IsScalar(kind)
  {
    if kind == '+' as int then (if ValidUtf8(line) then Some(Simple(line)) else None)
    else if kind == '-' as int then (if ValidUtf8(line) then Some(Error(line)) else None)
    else if kind == '(' as int then (if ValidUtf8(line) then Some(BigNumber(line)) else None)
    else if kind == ':' as int then (match ParseI64(line) case None => None case Some(n) => Some(Integer(n)))
    else if kind == '_' as int then (if line == [] then Some(Null) else None)
    else if kind == '#' as int then
      (if line == TRUE then Some(Boolean(true)) else if line == FALSE then Some(Boolean(false)) else None)
    else if !ValidUtf8(line) then None
    else (match ParseFloat(line, ft) case None => None case Some(d) => Some(Double(d)))
  }

  function ScalarAt(kind: byte, input: bytes, from: nat, ft: FloatText): Parsed<Frame>
    requires IsScalar(kind)
  {
    match LineAt(input, from)
    case NeedMore => NeedMore
    case Err(e) => Err(e)
    case Done(line, next) =>
      match Scalar(kind, line, ft)
      case None => Err(Malformed)
      case Some(f) => Done(f, next)
  }

  // ---- Length-prefixed values --------------------------------------------------------------

  function BulkAt(input: bytes, from: nat, lim: Limits, isError: bool): Parsed<Frame> {
    match NumberAt(input, from)
    case NeedMore => NeedMore
    case Err(e) => Err(e)
    case Done(len, body) =>
      if len == -1 && !isError then Done(Null, body)
      else if len < 0 then Err(Malformed)
      else if len > lim.maxBulkLen then Err(LimitExceeded)
      else
        match PayloadAt(input, body, len)
        case NeedMore => NeedMore
        case Err(e) => Err(e)
        case Done(payload, next) =>
          if !isError then Done(Bulk(payload), next)
          else if ValidUtf8(payload) then Done(BulkError(payload), next)
          else Err(Malformed)
  }

  function VerbatimAt(input: bytes, from: nat, lim: Limits): Parsed<Frame> {
    match NumberAt(input, from)
    case NeedMore => NeedMore
    case Err(e) => Err(e)
    case Done(len, body) =>
      if len < 4 then Err(Malformed)
      else if len > lim.maxBulkLen then Err(LimitExceeded)
      else
        match PayloadAt(input, body, len)
        case NeedMore => NeedMore
        case Err(e) => Err(e)
        case Done(payload, next) =>
          if payload[3] != ':' as int then Err(Malformed)
          else Done(Verbatim(payload[..3], payload[4..]), next)
  }

  // ---- Aggregates --------------------------------------------------------------------------

  predicate IsList(kind: byte) {
    kind in ['*' as int, '~' as int, '>' as int]
  }

  function ListOf(kind: byte, items: seq<Frame>): Frame
    requires IsList(kind)
  {
    if kind == '*' as int then Array(items) else if kind == '~' as int then Set(items) else Push(items)
  }

  /** Keys and values in the order in which they alternate on the wire. */
  function Paired(items: seq<Frame>): (pairs: seq<(Frame, Frame)>)
    ensures 2 * |pairs| <= |items| < 2 * |pairs| + 2
  {
    if |items| < 2 then [] else [(items[0], items[1])] + Paired(items[2..])
  }

  /** How many levels may still open at `depth`. */
  function Room(lim: Limits, depth: nat): nat {
    if depth <= lim.maxDepth then lim.maxDepth + 1 - depth else 0
  }

  function FrameAt(input: bytes, from: nat, lim: Limits, depth: nat, ft: FloatText): Parsed<Frame>
    decreases Room(lim, depth), 0, 0
  {
    if depth > lim.maxDepth then Err(Malformed)
    else if from >= |input| then NeedMore
    else
      var kind, body := input[from], from + 1;
      if IsScalar(kind) then ScalarAt(kind, input, body, ft)
      else if kind == '$' as int then BulkAt(input, body, lim, false)
      else if kind == '!' as int then BulkAt(input, body, lim, true)
      else if kind == '=' as int then VerbatimAt(input, body, lim)
      else if IsList(kind) then ListAt(kind, input, body, lim, depth, ft)
      else if kind == '%' as int then MapAt(input, body, lim, depth, ft)
      else Err(Malformed)
  }

  function ListAt(kind: byte, input: bytes, from: nat, lim: Limits, depth: nat, ft: FloatText): Parsed<Frame>
    requires IsList(kind) && depth <= lim.maxDepth
    decreases Room(lim, depth + 1), 2, 0
  {
    match NumberAt(input, from)
    case NeedMore => NeedMore
    case Err(e) => Err(e)
    case Done(count, pos) =>
      if count == -1 && kind == '*' as int then Done(Null, pos)
      else if count < 0 then Err(Malformed)
      else if count > lim.maxArrayLen then Err(LimitExceeded)
      else
        match ItemsAt(input, pos, lim, depth + 1, ft, count)
        case NeedMore => NeedMore
        case Err(e) => Err(e)
        case Done(items, next) => Done(ListOf(kind, items), next)
  }

  function MapAt(input: bytes, from: nat, lim: Limits, depth: nat, ft: FloatText): Parsed<Frame>
    requires depth <= lim.maxDepth
    decreases Room(lim, depth + 1), 2, 0
  {
    match NumberAt(input, from)
    case NeedMore => NeedMore
    case Err(e) => Err(e)
    case Done(count, pos) =>
      if count < 0 then Err(Malformed)
      else if count > lim.maxArrayLen then Err(LimitExceeded)
      else
        match ItemsAt(input, pos, lim, depth + 1, ft, 2 * count)
        case NeedMore => NeedMore
        case Err(e) => Err(e)
        case Done(items, next) => Done(Map(Paired(items)), next)
  }

  /** `count` values one after the other. */
  function ItemsAt(input: bytes, from: nat, lim: Limits, depth: nat, ft: FloatText, count: nat): (r: Parsed<seq<Frame>>)
    ensures r.Done? ==> |r.value| == count
    decreases Room(lim, depth), 1, count
  {
    if count == 0 then Done([], from)
    else
      match FrameAt(input, from, lim, depth, ft)
      case NeedMore => NeedMore
      case Err(e) => Err(e)
      case Done(f, pos) =>
        match ItemsAt(input, pos, lim, depth, ft, count - 1)
        case NeedMore => NeedMore
        case Err(e) => Err(e)
        case Done(items, next) => Done([f] + items, next)
  }

  // ---- Stability: further bytes change nothing but "need more" ---------------------------------

  predicate Settles<T(==)>(before: Parsed<T>, after: Parsed<T>) {
    before.NeedMore? || after == before
  }

  lemma LineStable(a: bytes, b: bytes, from: nat)
    requires a <= b
    ensures Settles(LineAt(a, from), LineAt(b, from))
  {
    if FindCrlf(a, from).Some? {
      FindCrlfStable(a, b, from);
      var i := FindCrlf(a, from).value;
      assert a[from..i] == b[from..i];
    }
  }

  lemma NumberStable(a: bytes, b: bytes, from: nat)
    requires a <= b
    ensures Settles(NumberAt(a, from), NumberAt(b, from))
  {
    LineStable(a, b, from);
  }

  lemma PayloadStable(a: bytes, b: bytes, from: nat, len: nat)
    requires a <= b
    ensures Settles(PayloadAt(a, from, len), PayloadAt(b, from, len))
  {
    if |a| >= from + len + 2 {
      assert a[from..from + len] == b[from..from + len];
    }
  }

  lemma BulkStable(a: bytes, b: bytes, from: nat, lim: Limits, isError: bool)
    requires a <= b
    ensures Settles(BulkAt(a, from, lim, isError), BulkAt(b, from, lim, isError))
  {
    hide NumberAt, PayloadAt, ValidUtf8;
    NumberStable(a, b, from);
    match NumberAt(a, from)
    case Done(len, body) => if len >= 0 { PayloadStable(a, b, body, len); }
    case _ =>
  }

  lemma VerbatimStable(a: bytes, b: bytes, from: nat, lim: Limits)
    requires a <= b
    ensures Settles(VerbatimAt(a, from, lim), VerbatimAt(b, from, lim))
  {
    hide NumberAt, PayloadAt;
    NumberStable(a, b, from);
    match NumberAt(a, from)
    case Done(len, body) => if len >= 0 { PayloadStable(a, b, body, len); }
    case _ =>
  }

  /** A value or an error found in a buffer is found there however the buffer grows. */
  lemma {:induction false} FrameStable(a: bytes, b: bytes, from: nat, lim: Limits, depth: nat, ft: FloatText)
    requires a <= b
    ensures Settles(FrameAt(a, from, lim, depth, ft), FrameAt(b, from, lim, depth, ft))
    decreases Room(lim, depth), 0, 0
  {
    hide NumberAt, LineAt, BulkAt, VerbatimAt, Scalar, ListOf, ItemsAt, Paired;
    if depth <= lim.maxDepth && from < |a| {
      var kind, body := a[from], from + 1;
      LineStable(a, b, body);
      BulkStable(a, b, body, lim, kind == '!' as int);
      VerbatimStable(a, b, body, lim);
      NumberStable(a, b, body);
      if NumberAt(a, body).Done? && NumberAt(a, body).value >= 0 {
        var count: nat := NumberAt(a, body).value;
        ItemsStable(a, b, NumberAt(a, body).next, lim, depth + 1, ft, if kind == '%' as int then 2 * count else count);
      }
    }
  }

  lemma {:induction false} ItemsStable(a: bytes, b: bytes, from: nat, lim: Limits, depth: nat, ft: FloatText,
      count: nat)
    requires a <= b
    ensures Settles(ItemsAt(a, from, lim, depth, ft, count), ItemsAt(b, from, lim, depth, ft, count))
    decreases Room(lim, depth), 1, count
  {
    hide FrameAt;
    if count > 0 {
      FrameStable(a, b, from, lim, depth, ft);
      match FrameAt(a, from, lim, depth, ft)
      case Done(f, pos) => ItemsStable(a, b, pos, lim, depth, ft, count - 1);
      case _ =>
    }
  }
}
