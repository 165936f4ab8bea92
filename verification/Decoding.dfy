/** The decoder as written: loops over the buffer, one method per production of the grammar. */
module Decoding {
  import opened Common
  import opened Text
  import opened Frames
  import opened Parsing

  /** Finds the next line end, byte by byte. */
  method ReadLine(input: bytes, from: nat) returns (r: Parsed<bytes>)
    ensures r == LineAt(input, from)
  {
    if from > |input| {
      return NeedMore;
    }
    var i := from;
    while i + 1 < |input|
      invariant from <= i && FindCrlf(input, from) == FindCrlf(input, i)
    {
      if input[i] == CR && input[i + 1] == LF {
        return Done(input[from..i], i + 2);
      }
      i := i + 1;
    }
    return NeedMore;
  }

  method ReadNumber(input: bytes, from: nat) returns (r: Parsed<i64>)
    ensures r == NumberAt(input, from)
  {
    var line := ReadLine(input, from);
    match line {
      case NeedMore => r := NeedMore;
      case Err(e) => r := Err(e);
      case Done(text, next) =>
        var n := ParseI64(text);
        r := if n.Some? then Done(n.value, next) else Err(Malformed);
    }
  }

  method ParseScalar(kind: byte, input: bytes, from: nat, ft: FloatText) returns (r: Parsed<Frame>)
    requires IsScalar(kind)
    ensures r == ScalarAt(kind, input, from, ft)
  {
    var line := ReadLine(input, from);
    match line {
      case NeedMore => r := NeedMore;
      case Err(e) => r := Err(e);
      case Done(text, next) =>
        var f := Scalar(kind, text, ft);
        r := if f.Some? then Done(f.value, next) else Err(Malformed);
    }
  }

  method ParseBulk(input: bytes, from: nat, lim: Limits, isError: bool) returns (r: Parsed<Frame>)
    ensures r == BulkAt(input, from, lim, isError)
  {
    hide NumberAt, ValidUtf8;
    var header := ReadNumber(input, from);
    match header {
      case NeedMore => return NeedMore;
      case Err(e) => return Err(e);
      case Done(len, body) =>
        if len == -1 && !isError {
          return Done(Null, body);
        }
        if len < 0 {
          return Err(Malformed);
        }
        if len > lim.maxBulkLen {
          return Err(LimitExceeded);
        }
        var end := body + len;
        if |input| < end + 2 {
          return NeedMore;
        }
        if !(input[end] == CR && input[end + 1] == LF) {
          return Err(Malformed);
        }
        var payload := input[body..end];
        if !isError {
          return Done(Bulk(payload), end + 2);
        }
        if !ValidUtf8(payload) {
          return Err(Malformed);
        }
        return Done(BulkError(payload), end + 2);
    }
  }

  method ParseVerbatim(input: bytes, from: nat, lim: Limits) returns (r: Parsed<Frame>)
    ensures r == VerbatimAt(input, from, lim)
  {
    hide NumberAt, ValidUtf8;
    var header := ReadNumber(input, from);
    match header {
      case NeedMore => return NeedMore;
      case Err(e) => return Err(e);
      case Done(len, at) =>
        if len < 4 {
          return Err(Malformed);
        }
        if len > lim.maxBulkLen {
          return Err(LimitExceeded);
        }
        var end := at + len;
        if |input| < end + 2 {
          return NeedMore;
        }
        if !(input[end] == CR && input[end + 1] == LF) {
          return Err(Malformed);
        }
        var body := input[at..end];
        if body[3] != ':' as int {
          return Err(Malformed);
        }
        return Done(Verbatim(body[..3], body[4..]), end + 2);
    }
  }

  method ParseFrame(input: bytes, from: nat, lim: Limits, depth: nat, ft: FloatText) returns (r: Parsed<Frame>)
    ensures r == FrameAt(input, from, lim, depth, ft)
    decreases Room(lim, depth), 1
  {
    if depth > lim.maxDepth {
      return Err(Malformed);
    }
    if from >= |input| {
      return NeedMore;
    }
    var kind, body := input[from], from + 1;
    if IsScalar(kind) {
      r := ParseScalar(kind, input, body, ft);
    } else if kind == '$' as int {
      r := ParseBulk(input, body, lim, false);
    } else if kind == '!' as int {
      r := ParseBulk(input, body, lim, true);
    } else if kind == '=' as int {
      r := ParseVerbatim(input, body, lim);
    } else if IsList(kind) {
      r := ParseAggregate(kind, input, body, lim, depth, ft);
    } else if kind == '%' as int {
      r := ParseMap(input, body, lim, depth, ft);
    } else {
      r := Err(Malformed);
    }
  }

  /** The items already read in front of those still to come. */
  ghost function After(items: seq<Frame>, r: Parsed<seq<Frame>>): Parsed<seq<Frame>> {
    if r.Done? then Done(items + r.value, r.next) else r
  }

  method ParseAggregate(kind: byte, input: bytes, from: nat, lim: Limits, depth: nat, ft: FloatText)
      returns (r: Parsed<Frame>)
    requires IsList(kind) && depth <= lim.maxDepth
    ensures r == ListAt(kind, input, from, lim, depth, ft)
    decreases Room(lim, depth), 0
  {
    hide FrameAt, NumberAt;
    var header := ReadNumber(input, from);
    match header {
      case NeedMore => return NeedMore;
      case Err(e) => return Err(e);
      case Done(count, start) =>
        if count == -1 && kind == '*' as int {
          return Done(Null, start);
        }
        if count < 0 {
          return Err(Malformed);
        }
        if count > lim.maxArrayLen {
          return Err(LimitExceeded);
        }
        var items: seq<Frame>, pos, i := [], start, 0;
        AfterNothing(ItemsAt(input, start, lim, depth + 1, ft, count));
        while i < count
          invariant 0 <= i <= count
          invariant ItemsAt(input, start, lim, depth + 1, ft, count)
              == After(items, ItemsAt(input, pos, lim, depth + 1, ft, count - i))
        {
          var item := ParseFrame(input, pos, lim, depth + 1, ft);
          match item {
            case NeedMore => return NeedMore;
            case Err(e) => return Err(e);
            case Done(f, next) =>
              AfterOne(items, f, ItemsAt(input, next, lim, depth + 1, ft, count - i - 1));
              items, pos := items + [f], next;
          }
          i := i + 1;
        }
        assert items + [] == items;
        return Done(ListOf(kind, items), pos);
    }
  }

  lemma AfterNothing(r: Parsed<seq<Frame>>)
    ensures After([], r) == r
  {
    if r.Done? {
      assert [] + r.value == r.value;
    }
  }

  lemma AfterOne(items: seq<Frame>, f: Frame, r: Parsed<seq<Frame>>)
    ensures After(items, After([f], r)) == After(items + [f], r)
  {
    if r.Done? {
      assert items + ([f] + r.value) == items + [f] + r.value;
    }
  }

  method ParseMap(input: bytes, from: nat, lim: Limits, depth: nat, ft: FloatText) returns (r: Parsed<Frame>)
    requires depth <= lim.maxDepth
    ensures r == MapAt(input, from, lim, depth, ft)
    decreases Room(lim, depth), 0
  {
    hide FrameAt, NumberAt;
    var header := ReadNumber(input, from);
    match header {
      case NeedMore => return NeedMore;
      case Err(e) => return Err(e);
      case Done(count, start) =>
        if count < 0 {
          return Err(Malformed);
        }
        if count > lim.maxArrayLen {
          return Err(LimitExceeded);
        }
        var pairs: seq<(Frame, Frame)>, pos, i := [], start, 0;
        ghost var items: seq<Frame> := [];
        AfterNothing(ItemsAt(input, start, lim, depth + 1, ft, 2 * count));
        while i < count
          invariant 0 <= i <= count && |items| == 2 * i && Paired(items) == pairs
          invariant ItemsAt(input, start, lim, depth + 1, ft, 2 * count)
              == After(items, ItemsAt(input, pos, lim, depth + 1, ft, 2 * (count - i)))
        {
          var key := ParseFrame(input, pos, lim, depth + 1, ft);
          match key {
            case NeedMore => return NeedMore;
            case Err(e) => return Err(e);
            case Done(k, middle) =>
              var value := ParseFrame(input, middle, lim, depth + 1, ft);
              AfterOne(items, k, ItemsAt(input, middle, lim, depth + 1, ft, 2 * (count - i) - 1));
              match value {
                case NeedMore => return NeedMore;
                case Err(e) => return Err(e);
                case Done(v, next) =>
                  AfterOne(items + [k], v, ItemsAt(input, next, lim, depth + 1, ft, 2 * (count - i - 1)));
                  PairedMore(items, k, v);
                  items, pairs, pos := items + [k] + [v], pairs + [(k, v)], next;
              }
          }
          i := i + 1;
        }
        assert items + [] == items;
        return Done(Map(pairs), pos);
    }
  }

  lemma {:induction false} PairedMore(items: seq<Frame>, k: Frame, v: Frame)
    requires |items| % 2 == 0
    ensures Paired(items + [k] + [v]) == Paired(items) + [(k, v)]
  {
    var more := items + [k] + [v];
    if items != [] {
      PairedMore(items[2..], k, v);
      assert more[2..] == items[2..] + [k] + [v];
    }
  }
}
