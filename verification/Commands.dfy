/** The command layer where it computes: deadlines, remaining time, range options. */
module Commands {
  import opened Common
  import opened Text
  import opened Encoding
  import opened Dictionary
  import opened Representation
  import opened Store

  datatype CommandError = Syntax | NotInteger | InvalidExpire | BadBound

  datatype Answer<+T> = Given(value: T) | Refused(error: CommandError)

  // ---- Machine arithmetic ---------------------------------------------------------------------

  function Checked(n: int): Option<i64> {
    if -U63 <= n < U63 then Some(n) else None
  }

  function SaturatingAdd(a: i64, b: i64): i64 {
    Max(-U63, Min(a + b, U63 - 1))
  }

  function Lower(b: byte): byte {
    if Within(b, 'A' as int, 'Z' as int) then b + 32 else b
  }

  predicate SameWord(a: bytes, b: bytes) {
    |a| == |b| && forall i :: 0 <= i < |a| ==> Lower(a[i]) == Lower(b[i])
  }

  const EX: bytes := ['E' as int, 'X' as int]
  const PX: bytes := ['P' as int, 'X' as int]

  /** The milliseconds in the unit of a SET option. */
  function UnitOf(option: bytes): Option<int> {
    if SameWord(option, EX) then Some(1000) else if SameWord(option, PX) then Some(1) else None
  }

  // ---- Deadlines --------------------------------------------------------------------------------

  /** The deadline an amount of time from now gives, for SET: positive, and in range. */
  function Deadline(raw: bytes, unit: int, clock: u64): Answer<u64>
    requires clock < U63
  {
    match ParseI64(raw)
    case None => Refused(NotInteger)
    case Some(n) =>
      if 0 < n && n * unit < U63 && n * unit + clock < U63 && 0 < unit then Given(n * unit + clock)
      else Refused(InvalidExpire)
  }

  /** SET takes no option, or one option and its amount, and nothing after it. */
  function SetDeadline(options: seq<bytes>, clock: u64): Answer<u64>
    requires clock < U63
  {
    if options == [] then Given(0)
    else if UnitOf(options[0]) == None || |options| == 1 then Refused(Syntax)
    else
      var deadline := Deadline(options[1], UnitOf(options[0]).value, clock);
      if deadline.Refused? || |options| == 2 then deadline else Refused(Syntax)
  }

  method ReadSetOptions(args: seq<bytes>, clock: u64) returns (r: Answer<u64>)
    requires |args| >= 3 && clock < U63
    ensures r == SetDeadline(args[3..], clock)
  {
    hide ParseI64, SameWord;
    var expireMs: u64, i := 0, 3;
    while i < |args|
      invariant (i == 3 && expireMs == 0) || (i == 5 <= |args| && expireMs != 0
          && SetDeadline(args[3..5], clock) == Given(expireMs))
      decreases |args| - i
    {
      var unit := UnitOf(args[i]);
      if unit == None {
        return Refused(Syntax);
      }
      if expireMs != 0 {
        return Refused(Syntax);
      }
      if i + 1 >= |args| {
        return Refused(Syntax);
      }
      var n := ParseI64(args[i + 1]);
      if n == None {
        return Refused(NotInteger);
      }
      if n.value <= 0 {
        return Refused(InvalidExpire);
      }
      var delta := Checked(n.value * unit.value);
      if delta == None {
        return Refused(InvalidExpire);
      }
      var deadline := Checked(delta.value + AsI64(clock));
      if deadline == None {
        return Refused(InvalidExpire);
      }
      expireMs := deadline.value;
      i := i + 2;
    }
    assert i == 5 ==> args[3..] == args[3..5];
    return Given(expireMs);
  }

  /** `SET key value [EX seconds | PX milliseconds]`: a refused command stores nothing. */
  method Set(store: Store, args: seq<bytes>, clock: u64, micros: u64) returns (r: Answer<bool>)
    requires store.Valid() && |args| >= 3 && |args[1]| < U32 && store.Fresh(micros) && clock < U63
    modifies store.engine`data, store.versions, store.clock, store`issued
    ensures store.Valid() && store.Ticked(micros)
    ensures match SetDeadline(args[3..], clock)
            case Refused(e) => r == Refused(e) && store.Contents() == old(store.Contents())
            case Given(deadline) =>
              r == Given(true) && store.Contents()
                  == Place(old(store.Contents()), args[1], Some(Entry(Str(args[2]), deadline)))
  {
    hide SetDeadline, Place, Abs, Inv;
    var deadline := ReadSetOptions(args, clock);
    match deadline {
      case Refused(e) => r := Refused(e);
      case Given(expireMs) =>
        store.Set(args[1], args[2], expireMs, micros);
        r := Given(true);
    }
  }

  /** The deadline EXPIRE and PEXPIRE set: never 0, which would mean none, and never beyond the signed range. */
  function ExpireDeadline(raw: bytes, unit: int, clock: u64): Answer<u64> {
    match ParseI64(raw)
    case None => Refused(NotInteger)
    case Some(n) =>
      match Checked(n * unit)
      case None => Refused(InvalidExpire)
      case Some(delta) => Given(Max(SaturatingAdd(AsI64(clock), delta), 1))
  }

  method Expire(store: Store, key: bytes, raw: bytes, unit: int, clock: u64, now: u64) returns (r: Answer<bool>)
    requires store.Valid()
    modifies store.engine`data, store.versions
    ensures store.Valid()
    ensures match ExpireDeadline(raw, unit, clock)
            case Refused(e) => r == Refused(e) && store.Contents() == old(store.Contents())
            case Given(deadline) =>
              var (slot, existed) := Dictionary.ExpireAt(old(store.SlotAt(key, now)), deadline);
              r == Given(existed) && store.Contents() == Place(old(store.Contents()), key, slot)
  {
    hide Place, Abs, Inv, ParseI64;
    var n := ParseI64(raw);
    if n == None {
      return Refused(NotInteger);
    }
    var delta := Checked(n.value * unit);
    if delta == None {
      return Refused(InvalidExpire);
    }
    var deadline := Max(SaturatingAdd(AsI64(clock), delta.value), 1);
    var existed := store.ExpireAt(key, deadline, now);
    r := Given(existed.value);
  }

  // ---- Remaining time ------------------------------------------------------------------------------

  /** Whole seconds from milliseconds, as the 64-bit sum and the truncating division compute them. */
  function Seconds(ms: i64): i64 {
    if ms < 0 then ms
    else if ms + 999 < U63 then (ms + 999) / 1000
    else -((U64 - ms - 999) / 1000)
  }

  /** The result is the number of seconds rounded up if and only if the sum stays in range. */
  lemma SecondsRoundUpIff(ms: i64)
    requires 0 <= ms
    ensures 1000 * Seconds(ms) - 999 <= ms <= 1000 * Seconds(ms) <==> ms + 999 < U63
  {
  }

  method Ttl(store: Store, key: bytes, now: u64, later: u64) returns (r: i64)
    requires store.Valid()
    modifies store.engine`data, store.versions
    ensures store.Valid() && store.Contents() == Place(old(store.Contents()), key, old(store.SlotAt(key, now)))
    ensures r == Seconds(Dictionary.PTtl(old(store.SlotAt(key, now)), later))
  {
    hide Place, Abs, Inv;
    var left := store.PTtl(key, now, later);
    var ms: i64 := left.value;
    if ms < 0 {
      r := ms;
    } else {
      var sum := if ms + 999 < U63 then ms + 999 else ms + 999 - U64;
      r := if sum < 0 then -(-sum / 1000) else sum / 1000;
    }
  }

  /** What TTL says of a key at one instant. */
  function TtlAt(d: Dict, key: bytes, now: u64): i64 {
    Seconds(Dictionary.PTtl(Live(d, key, now), now))
  }

  /** A key due at `clock + 1000 * n` shows `n` minus the whole seconds gone, and then is gone itself. */
  lemma TtlCountsDown(d: Dict, key: bytes, n: int, clock: u64, e: nat)
    requires key in d && 0 < n && d[key].expireMs == clock + 1000 * n < U63 && 999 <= clock && clock + e < U64
    ensures TtlAt(d, key, clock + e) == if e < 1000 * n then n - e / 1000 else -2
  {
    if e < 1000 * n {
      var ms := 1000 * n - e;
      assert (ms + 999) / 1000 == n - e / 1000;
    }
  }

  /** EXPIRE n, then TTL after `e` milliseconds. */
  lemma ExpireThenTtl(d: Dict, key: bytes, raw: bytes, n: i64, clock: u64, e: nat)
    requires ParseI64(raw) == Some(n) && 0 < n && clock + 1000 * n < U63 && 999 <= clock && clock + e < U64
    requires Live(d, key, clock).Some?
    ensures var deadline := ExpireDeadline(raw, 1000, clock);
            && deadline.Given?
            && var after := Place(d, key, Dictionary.ExpireAt(Live(d, key, clock), deadline.value).0);
               TtlAt(after, key, clock + e) == if e < 1000 * n then n - e / 1000 else -2
  {
    hide ParseI64, TtlAt;
    var deadline := ExpireDeadline(raw, 1000, clock).value;
    TtlCountsDown(Place(d, key, Dictionary.ExpireAt(Live(d, key, clock), deadline).0), key, n, clock, e);
  }

  /** SET with EX n, then TTL after `e` milliseconds. */
  lemma SetThenTtl(d: Dict, key: bytes, text: bytes, raw: bytes, n: i64, clock: u64, e: nat)
    requires ParseI64(raw) == Some(n) && 0 < n && clock + 1000 * n < U63 && 999 <= clock && clock + e < U64
    ensures var deadline := SetDeadline([EX, raw], clock);
            && deadline.Given?
            && var after := Place(d, key, Some(Entry(Str(text), deadline.value)));
               TtlAt(after, key, clock + e) == if e < 1000 * n then n - e / 1000 else -2
  {
    hide ParseI64, TtlAt;
    assert [EX, raw][1] == raw;
    var deadline := SetDeadline([EX, raw], clock).value;
    TtlCountsDown(Place(d, key, Some(Entry(Str(text), deadline))), key, n, clock, e);
  }

  /**
   * A non-positive amount kills the key at once, at every clock past the epoch; a positive one in
   * range never does.
   */
  lemma ExpireKillsIff(d: Dict, key: bytes, raw: bytes, unit: int, clock: u64)
    requires Live(d, key, clock).Some? && ExpireDeadline(raw, unit, clock).Given?
    requires 0 < unit && 0 < clock < U63 - 1
    ensures var deadline := ExpireDeadline(raw, unit, clock).value;
            var after := Place(d, key, Dictionary.ExpireAt(Live(d, key, clock), deadline).0);
            Live(after, key, clock) == None <==> ParseI64(raw).value <= 0
  {
    hide ParseI64, ExpireDeadline;
    ExpireReaches(raw, unit, clock);
  }

  lemma ExpireReaches(raw: bytes, unit: int, clock: u64)
    requires ExpireDeadline(raw, unit, clock).Given? && 0 < unit && 0 < clock < U63 - 1
    ensures var deadline := ExpireDeadline(raw, unit, clock).value;
            0 < deadline && (deadline <= clock <==> ParseI64(raw).value <= 0)
  {
    hide ParseI64;
    ScaledSign(ParseI64(raw).value, unit);
  }

  lemma ScaledSign(n: int, unit: int)
    requires 0 < unit
    ensures n * unit <= 0 <==> n <= 0
  {
  }

  /** Deadlines set by commands never make TTL's sum overflow once the clock is past its first second. */
  lemma CommandDeadlinesFitTtl(options: seq<bytes>, raw: bytes, unit: int, clock: u64, later: u64, e: Entry)
    requires clock < U63 && 999 <= later
    requires SetDeadline(options, clock) == Given(e.expireMs) || ExpireDeadline(raw, unit, clock) == Given(e.expireMs)
    ensures Dictionary.PTtl(Some(e), later) + 999 < U63
  {
    hide ParseI64, UnitOf;
  }

  // ---- ZRANGEBYSCORE ----------------------------------------------------------------------------------

  const WITHSCORES: bytes := ['W' as int, 'I' as int, 'T' as int, 'H' as int, 'S' as int, 'C' as int, 'O' as int,
      'R' as int, 'E' as int, 'S' as int]
  const LIMIT: bytes := ['L' as int, 'I' as int, 'M' as int, 'I' as int, 'T' as int]

  datatype RangeOptions = RangeOptions(withScores: bool, limit: Option<(i64, i64)>)

  function ParseOptions(words: seq<bytes>, sofar: RangeOptions): Answer<RangeOptions> {
    if words == [] then Given(sofar)
    else if SameWord(words[0], WITHSCORES) then ParseOptions(words[1..], sofar.(withScores := true))
    else if SameWord(words[0], LIMIT) && |words| >= 3 && ParseI64(words[1]).Some? && ParseI64(words[2]).Some? then
      ParseOptions(words[3..], sofar.(limit := Some((ParseI64(words[1]).value, ParseI64(words[2]).value))))
    else Refused(Syntax)
  }

  /** Options are read from left to right. */
  lemma {:induction false} OptionsGoOn(words: seq<bytes>, more: seq<bytes>, sofar: RangeOptions)
    requires ParseOptions(words, sofar).Given?
    ensures ParseOptions(words + more, sofar) == ParseOptions(more, ParseOptions(words, sofar).value)
    decreases |words|
  {
    hide SameWord, ParseI64;
    if words == [] {
      assert words + more == more;
    } else if SameWord(words[0], WITHSCORES) {
      assert (words + more)[1..] == words[1..] + more;
      OptionsGoOn(words[1..], more, sofar.(withScores := true));
    } else {
      assert (words + more)[3..] == words[3..] + more;
      OptionsGoOn(words[3..], more, sofar.(limit := Some((ParseI64(words[1]).value, ParseI64(words[2]).value))));
    }
  }

  /** A LIMIT replaces any LIMIT before it, and WITHSCORES is not undone. */
  lemma LastLimitCounts(words: seq<bytes>, off: bytes, count: bytes)
    requires ParseOptions(words, RangeOptions(false, None)).Given?
    requires ParseI64(off).Some? && ParseI64(count).Some?
    ensures ParseOptions(words + [LIMIT, off, count], RangeOptions(false, None)) ==
            Given(RangeOptions(ParseOptions(words, RangeOptions(false, None)).value.withScores,
                               Some((ParseI64(off).value, ParseI64(count).value))))
  {
    hide ParseI64;
    var sofar := ParseOptions(words, RangeOptions(false, None)).value;
    var last := [LIMIT, off, count];
    OptionsGoOn(words, last, RangeOptions(false, None));
    assert |LIMIT| != |WITHSCORES|;
    assert last[3..] == [];
  }

  method ReadRangeOptions(args: seq<bytes>) returns (r: Answer<RangeOptions>)
    requires |args| >= 4
    ensures r == ParseOptions(args[4..], RangeOptions(false, None))
  {
    hide ParseI64, SameWord;
    var withScores, limit: Option<(i64, i64)>, i := false, None, 4;
    while i < |args|
      invariant 4 <= i <= |args|
      invariant ParseOptions(args[4..], RangeOptions(false, None))
          == ParseOptions(args[i..], RangeOptions(withScores, limit))
    {
      ghost var words := args[i..];
      if SameWord(args[i], WITHSCORES) {
        assert words[1..] == args[i + 1..];
        withScores := true;
        i := i + 1;
      } else if SameWord(args[i], LIMIT) {
        if i + 2 >= |args| {
          return Refused(Syntax);
        }
        var off, count := ParseI64(args[i + 1]), ParseI64(args[i + 2]);
        if off == None || count == None {
          return Refused(Syntax);
        }
        assert words[3..] == args[i + 3..];
        limit := Some((off.value, count.value));
        i := i + 3;
      } else {
        return Refused(Syntax);
      }
    }
    return Given(RangeOptions(withScores, limit));
  }

  /** The part of a listing a LIMIT selects. */
  function Limited<T>(listing: seq<T>, limit: Option<(i64, i64)>): seq<T> {
    match limit
    case None => listing
    case Some((off, count)) =>
      if off < 0 || off >= |listing| then []
      else if count < 0 || off + count >= |listing| then listing[off..]
      else listing[off..off + count]
  }

  /** Paging: a page and the page that starts where it ends make one page; the pages from 0 on make the listing. */
  lemma PagesTile<T>(listing: seq<T>, off: i64, count: i64, more: i64)
    requires 0 <= off && 0 <= count && off + count < U63
    requires more < 0 || count + more < U63
    ensures Limited(listing, Some((off, count))) + Limited(listing, Some((off + count, more)))
         == Limited(listing, Some((off, if more < 0 then more else count + more)))
    ensures Limited(listing, Some((0, -1))) == listing
  {
    hide *;
    TilesFrom(listing, off, count, more);
  }

  lemma TilesFrom<T>(listing: seq<T>, off: i64, count: i64, more: i64)
    requires 0 <= off && 0 <= count && off + count < U63
    requires more < 0 || count + more < U63
    ensures Limited(listing, Some((off, count))) + Limited(listing, Some((off + count, more)))
         == Limited(listing, Some((off, if more < 0 then more else count + more)))
    ensures Limited(listing, Some((0, -1))) == listing
  {
  }

  /** The score a text stands for to the standard library's `parse`, NaN refused. */
  function ParseScore(raw: bytes, parse: bytes -> Option<u64>): (score: Option<u64>)
    ensures score.Some? ==> !IsNaN(score.value)
  {
    match parse(raw)
    case None => None
    case Some(score) => if IsNaN(score) then None else Some(score)
  }

  /** A bound: a score, exclusive behind an opening parenthesis. */
  function ParseBound(raw: bytes, parse: bytes -> Option<u64>): Option<(u64, bool)> {
    var exclusive := raw != [] && raw[0] == '(' as int;
    match ParseScore(if exclusive then raw[1..] else raw, parse)
    case None => None
    case Some(score) => Some((score, exclusive))
  }

  /** `ZRANGEBYSCORE key min max [WITHSCORES] [LIMIT offset count]`, up to the shape of the reply. */
  ghost function RangeAnswer(slot: Slot, args: seq<bytes>,
      parse: bytes -> Option<u64>): Answer<Result<seq<(bytes, u64)>>>
    requires |args| >= 4
  {
    match ParseBound(args[2], parse)
    case None => Refused(BadBound)
    case Some((min, minExclusive)) =>
      match ParseBound(args[3], parse)
      case None => Refused(BadBound)
      case Some((max, maxExclusive)) =>
        match ParseOptions(args[4..], RangeOptions(false, None))
        case Refused(e) => Refused(e)
        case Given(options) =>
          match Dictionary.ZRangeByScore(slot, min, minExclusive, max, maxExclusive)
          case Ok(listing) => Given(Ok(Limited(listing, options.limit)))
          case WrongType => Given(WrongType)
          case Corruption => Given(Corruption)
  }

  method ZRangeByScore(store: Store, args: seq<bytes>, parse: bytes -> Option<u64>, now: u64)
      returns (r: Answer<Result<seq<(bytes, u64)>>>)
    requires store.Valid() && |args| >= 4
    modifies store.engine`data, store.versions
    ensures store.Valid()
    ensures r == RangeAnswer(old(store.SlotAt(args[1], now)), args, parse)
    ensures store.Contents() == if r.Refused? then old(store.Contents())
                               else Place(old(store.Contents()), args[1], old(store.SlotAt(args[1], now)))
  {
    hide Place, Abs, Inv, Live, ParseOptions;
    var min := ParseBound(args[2], parse);
    if min == None {
      return Refused(BadBound);
    }
    var max := ParseBound(args[3], parse);
    if max == None {
      return Refused(BadBound);
    }
    var options := ReadRangeOptions(args);
    match options {
      case Refused(e) => return Refused(e);
      case Given(chosen) =>
        var found := store.ZRangeByScore(args[1], min.value.0, min.value.1, max.value.0, max.value.1, now);
        match found {
          case WrongType => return Given(WrongType);
          case Corruption => return Given(Corruption);
          case Ok(listing) =>
            var page := Slice(listing, chosen.limit);
            return Given(Ok(page));
        }
    }
  }

  /** Skips and takes, as the listing is passed through. */
  method Slice<T>(listing: seq<T>, limit: Option<(i64, i64)>) returns (page: seq<T>)
    ensures page == Limited(listing, limit)
  {
    match limit {
      case None => page := listing;
      case Some((off, count)) =>
        if off < 0 {
          return [];
        }
        var rest := if off < |listing| then listing[off..] else [];
        page := if count < 0 || count >= |rest| then rest else rest[..count];
    }
  }
}
