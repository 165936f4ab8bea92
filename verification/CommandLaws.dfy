/** What the command layer promises of the words clients write, spelled byte by byte. */
module CommandLaws {
  import opened Common
  import opened Text
  import opened Grammar
  import opened Encoding
  import opened Dictionary
  import opened Script
  import opened ReadLaws
  import opened ScoreLaws
  import opened Commands
  import opened Refusals

  // ---- SET with a deadline ----------------------------------------------------------------------

  /** EX in any case. */
  predicate IsEx(word: bytes) {
    |word| == 2 && (word[0] == 69 || word[0] == 101) && (word[1] == 88 || word[1] == 120)
  }

  /** PX in any case. */
  predicate IsPx(word: bytes) {
    |word| == 2 && (word[0] == 80 || word[0] == 112) && (word[1] == 88 || word[1] == 120)
  }

  lemma UnitIs(option: bytes)
    ensures UnitOf(option) == if IsEx(option) then Some(1000) else if IsPx(option) then Some(1) else None
  {
    assert |EX| == 2 && EX[0] == 69 && EX[1] == 88 && |PX| == 2 && PX[0] == 80 && PX[1] == 88;
    if |option| == 2 {
      assert SameWord(option, EX) <==> Lower(option[0]) == 101 && Lower(option[1]) == 120;
      assert SameWord(option, PX) <==> Lower(option[0]) == 112 && Lower(option[1]) == 120;
    }
  }

  /** The milliseconds a word and a number after it stand for. */
  predicate Means(word: bytes, n: int, ms: int) {
    (IsEx(word) && ms == 1000 * n) || (IsPx(word) && ms == n)
  }

  /** SET takes a deadline if and only if it reads EX or PX and one positive number in range, and nothing more. */
  lemma SetDeadlineIff(options: seq<bytes>, clock: u64, deadline: u64)
    requires clock < 0x8000_0000_0000_0000
    ensures SetDeadline(options, clock) == Given(deadline) <==>
              || (options == [] && deadline == 0)
              || (|options| == 2 && deadline < 0x8000_0000_0000_0000 && exists n ::
                    Numeral(options[1], n) && 0 < n && Means(options[0], n, deadline - clock))
  {
    hide ParseI64, UnitOf, Numeral;
    if |options| == 2 {
      UnitIs(options[0]);
      NumeralsIff(options[1]);
      if ParseI64(options[1]).Some? {
        assert Numeral(options[1], ParseI64(options[1]).value);
      }
    }
  }

  /** And what else it meets first decides how it refuses the rest. */
  lemma SetRefusedIff(options: seq<bytes>, clock: u64, e: CommandError)
    requires clock < 0x8000_0000_0000_0000
    ensures SetDeadline(options, clock) == Refused(e) <==>
              if options == [] then false
              else if |options| == 1 || !(IsEx(options[0]) || IsPx(options[0])) then e == Syntax
              else if forall n :: !Numeral(options[1], n) then e == NotInteger
              else if !InReach(options, clock) then e == InvalidExpire
              else |options| > 2 && e == Syntax
  {
    hide ParseI64, UnitOf, Numeral;
    if options != [] {
      UnitIs(options[0]);
      if |options| >= 2 {
        NumeralsIff(options[1]);
        if ParseI64(options[1]).Some? {
          var n: int := ParseI64(options[1]).value;
          assert Numeral(options[1], n);
          assert IsEx(options[0]) ==> Means(options[0], n, 1000 * n);
          assert IsPx(options[0]) ==> Means(options[0], n, n);
        }
      }
    }
  }

  ghost predicate InReach(options: seq<bytes>, clock: u64)
    requires |options| >= 2
  {
    exists n, ms :: Numeral(options[1], n) && 0 < n && Means(options[0], n, ms) && clock + ms < 0x8000_0000_0000_0000
  }

  /** SET key text PX n: the key holds the text for n milliseconds, counts them down, and is gone. */
  lemma SetPx(dict: Dict, key: bytes, text: bytes, option: bytes, raw: bytes, n: i64, clock: u64, e: nat)
    requires |key| < U32 && IsPx(option) && Numeral(raw, n) && 0 < n && clock + n < 0x8000_0000_0000_0000
    requires clock + e < U64
    ensures SetDeadline([option, raw], clock) == Given(clock + n)
    ensures Can(dict, key, Store(text, clock + n), clock)
    ensures var after, later := After(dict, key, Store(text, clock + n), clock), clock + e;
            && Ask(after, key, PTtl(later), later) == Number(if e < n then n - e else -2)
            && Ask(after, key, Load, later) == Maybe(if e < n then Some(text) else None)
  {
    hide ParseI64, Numeral, SetDeadline;
    assert [option, raw][0] == option && [option, raw][1] == raw;
    assert Means(option, n, n);
    SetDeadlineIff([option, raw], clock, clock + n);
  }

  /** SET key text EX n: the same in seconds, and TTL counts those. */
  lemma SetEx(dict: Dict, key: bytes, text: bytes, option: bytes, raw: bytes, n: i64, clock: u64, e: nat)
    requires |key| < U32 && IsEx(option) && Numeral(raw, n) && 0 < n && clock + 1000 * n < 0x8000_0000_0000_0000
    requires clock + e < U64
    ensures SetDeadline([option, raw], clock) == Given(clock + 1000 * n)
    ensures Can(dict, key, Store(text, clock + 1000 * n), clock)
    ensures var after, later := After(dict, key, Store(text, clock + 1000 * n), clock), clock + e;
            && Ask(after, key, PTtl(later), later) == Number(if e < 1000 * n then 1000 * n - e else -2)
            && Ask(after, key, Load, later) == Maybe(if e < 1000 * n then Some(text) else None)
            && (999 <= clock ==> TtlAt(after, key, later) == if e < 1000 * n then n - e / 1000 else -2)
  {
    hide ParseI64, Numeral, SetDeadline, TtlAt;
    assert [option, raw][0] == option && [option, raw][1] == raw;
    assert Means(option, n, 1000 * n);
    SetDeadlineIff([option, raw], clock, clock + 1000 * n);
    if 999 <= clock {
      TtlCountsDown(After(dict, key, Store(text, clock + 1000 * n), clock), key, n, clock, e);
    }
  }

  // ---- EXPIRE and PEXPIRE ----------------------------------------------------------------------------

  /** The amount, in the unit of the command, must be a number whose milliseconds are in range. */
  ghost predicate Amount(raw: bytes, unit: int, ms: int) {
    exists n :: Numeral(raw, n) && ms == n * unit && -0x8000_0000_0000_0000 <= ms < 0x8000_0000_0000_0000
  }

  /** The deadline is the amount from now, kept between the first millisecond of the epoch and the last in range. */
  lemma ExpireDeadlineIff(raw: bytes, unit: int, clock: u64, deadline: u64)
    requires clock < 0x8000_0000_0000_0000
    ensures ExpireDeadline(raw, unit, clock) == Given(deadline) <==> exists ms ::
              Amount(raw, unit, ms) && deadline == if clock + ms < 1 then 1
                                                   else if clock + ms < 0x8000_0000_0000_0000 then clock + ms
                                                   else 0x7FFF_FFFF_FFFF_FFFF
    ensures ExpireDeadline(raw, unit, clock) == Refused(NotInteger) <==> forall n :: !Numeral(raw, n)
    ensures ExpireDeadline(raw, unit, clock) == Refused(InvalidExpire)
        <==> (exists n :: Numeral(raw, n)) && forall ms :: !Amount(raw, unit, ms)
  {
    hide ParseI64, Numeral;
    NumeralsIff(raw);
    if ParseI64(raw).Some? {
      var n := ParseI64(raw).value;
      assert Numeral(raw, n);
      if Checked(n * unit).Some? {
        assert Amount(raw, unit, n * unit);
      }
    }
  }

  /** PEXPIRE n on a live key: it counts n milliseconds down, and the key is gone. */
  lemma PexpireThenPttl(dict: Dict, key: bytes, raw: bytes, n: i64, clock: u64, e: nat)
    requires |key| < U32 && Numeral(raw, n) && 0 < n && clock + n < 0x8000_0000_0000_0000
    requires clock + e < U64 && Ask(dict, key, Exists, clock) == Flag(true)
    ensures ExpireDeadline(raw, 1, clock) == Given(clock + n)
    ensures Can(dict, key, ExpireAt(clock + n), clock) && Ask(dict, key, ExpireAt(clock + n), clock) == Flag(true)
    ensures var after, later := After(dict, key, ExpireAt(clock + n), clock), clock + e;
            Ask(after, key, PTtl(later), later) == Number(if e < n then n - e else -2)
  {
    hide ParseI64, Numeral, ExpireDeadline;
    ExpireDeadlineIff(raw, 1, clock, clock + n);
    assert Amount(raw, 1, n);
  }

  /** TTL: -2 where there is no key, -1 where it has no deadline, else the seconds left, a started one in full. */
  lemma TtlIs(dict: Dict, key: bytes, now: u64)
    requires |key| < U32 && now >= 999
    requires key in dict ==> dict[key].expireMs < 0x8000_0000_0000_0000
    ensures var ttl := TtlAt(dict, key, now);
            if Ask(dict, key, Exists, now) == Flag(false) then ttl == -2
            else if dict[key].expireMs == 0 then ttl == -1
            else 1000 * (ttl - 1) < dict[key].expireMs - now <= 1000 * ttl
  {
  }

  /** Where the sum passes the signed range, TTL shows the wrapped sum over 1000, rounded towards zero. */
  lemma SecondsWrap(ms: i64)
    requires 0x8000_0000_0000_0000 <= ms + 999
    ensures var sum := ms + 999 - 0x1_0000_0000_0000_0000;
            Seconds(ms) <= 0 && 1000 * Seconds(ms) - 1000 < sum <= 1000 * Seconds(ms)
  {
  }

  // ---- Bounds and pages -------------------------------------------------------------------------------

  /** A bound is exclusive exactly behind an opening parenthesis, and NaN is none. */
  predicate IsBound(raw: bytes, parse: bytes -> Option<u64>, score: u64, exclusive: bool) {
    && score % 0x8000_0000_0000_0000 <= 0x7FF0_0000_0000_0000
    && if exclusive then raw != [] && raw[0] == 40 && parse(raw[1..]) == Some(score)
       else (raw == [] || raw[0] != 40) && parse(raw) == Some(score)
  }

  lemma BoundIff(raw: bytes, parse: bytes -> Option<u64>, score: u64, exclusive: bool)
    ensures ParseBound(raw, parse) == Some((score, exclusive)) <==> IsBound(raw, parse, score, exclusive)
    ensures ParseBound(raw, parse) == None <==> forall s, x :: !IsBound(raw, parse, s, x)
  {
    var bound := ParseBound(raw, parse);
    assert bound.Some? ==> IsBound(raw, parse, bound.value.0, bound.value.1);
  }

  lemma BoundIsNumber(raw: bytes, parse: bytes -> Option<u64>, score: u64, exclusive: bool)
    requires IsBound(raw, parse, score, exclusive)
    ensures !IsNaN(score)
  {
  }

  /** Without a LIMIT the whole listing; with one, the elements from the offset on, as many as asked for or are left. */
  lemma PageIs<T>(listing: seq<T>, off: i64, count: i64)
    ensures Limited(listing, None) == listing
    ensures var page, rest := Limited(listing, Some((off, count))), |listing| - off;
            && |page| == (if off < 0 || rest < 0 then 0 else if 0 <= count < rest then count else rest)
            && forall i :: 0 <= i < |page| ==> page[i] == listing[off + i]
  {
  }

  // ---- The options of ZRANGEBYSCORE ---------------------------------------------------------------------

  /** One option as a client writes it. */
  datatype Written = Scores(word: bytes) | Page(word: bytes, off: bytes, count: bytes)

  /** WITHSCORES in any case. */
  predicate IsWithScores(word: bytes) {
    IsWord(word, [87, 73, 84, 72, 83, 67, 79, 82, 69, 83])
  }

  /** LIMIT in any case. */
  predicate IsLimit(word: bytes) {
    IsWord(word, [76, 73, 77, 73, 84])
  }

  /** Every letter of the capitals `name`, or the small one, 32 above it. */
  predicate IsWord(word: bytes, name: bytes) {
    |word| == |name| && forall i :: 0 <= i < |word| ==> word[i] as int - name[i] as int in {0, 32}
  }

  ghost predicate WellWritten(option: Written) {
    match option
    case Scores(word) => IsWithScores(word)
    case Page(word, off, count) => IsLimit(word) && (exists n :: Numeral(off, n)) && exists n :: Numeral(count, n)
  }

  function Laid(options: seq<Written>): (words: seq<bytes>)
    ensures options != [] ==> words != []
  {
    if options == [] then []
    else (match options[0]
          case Scores(word) => [word]
          case Page(word, off, count) => [word, off, count]) + Laid(options[1..])
  }

  predicate LastPage(options: seq<Written>, i: int) {
    0 <= i < |options| && options[i].Page? && forall j :: i < j < |options| ==> options[j].Scores?
  }

  /** WITHSCORES anywhere asks for the scores; of several LIMITs the last counts. */
  ghost predicate Chosen(options: seq<Written>, r: RangeOptions) {
    && (r.withScores <==> exists i :: 0 <= i < |options| && options[i].Scores?)
    && match r.limit
       case None => forall i :: 0 <= i < |options| ==> options[i].Scores?
       case Some((off, count)) => exists i :: LastPage(options, i)
                                              && Numeral(options[i].off, off) && Numeral(options[i].count, count)
  }

  lemma CapitalsMatch(word: bytes, name: bytes)
    requires forall i :: 0 <= i < |name| ==> 65 <= name[i] <= 90
    ensures SameWord(word, name) <==> IsWord(word, name)
  {
    if |word| == |name| {
      forall i | 0 <= i < |word|
        ensures Lower(word[i]) == Lower(name[i]) <==> word[i] as int - name[i] as int in {0, 32}
      {
      }
    }
  }

  lemma OptionWords(word: bytes)
    ensures SameWord(word, WITHSCORES) <==> IsWithScores(word)
    ensures SameWord(word, LIMIT) <==> IsLimit(word)
    ensures !(IsWithScores(word) && IsLimit(word))
  {
    assert WITHSCORES == [87, 73, 84, 72, 83, 67, 79, 82, 69, 83] && LIMIT == [76, 73, 77, 73, 84];
    CapitalsMatch(word, WITHSCORES);
    CapitalsMatch(word, LIMIT);
  }

  /** The options are accepted, with a meaning, if and only if they are well written and mean that. */
  lemma OptionsIff(words: seq<bytes>, r: RangeOptions)
    ensures ParseOptions(words, RangeOptions(false, None)) == Given(r) <==>
              exists options :: Laid(options) == words && Chosen(options, r)
                                && forall option :: option in options ==> WellWritten(option)
    ensures ParseOptions(words, RangeOptions(false, None)).Refused? ==>
              ParseOptions(words, RangeOptions(false, None)) == Refused(Syntax)
  {
    hide Chosen, WellWritten, Laid, ParseOptions, Outcome;
    var none := RangeOptions(false, None);
    forall options | Laid(options) == words && forall option :: option in options ==> WellWritten(option)
      ensures Chosen(options, r) <==> ParseOptions(words, none) == Given(r)
    {
      LaidReads(options, none);
      OutcomeChosen(options, r);
    }
    if ParseOptions(words, none) == Given(r) {
      var options := ReadLaid(words, none);
    }
    OnlySyntax(words, none);
  }

  lemma {:induction false} OnlySyntax(words: seq<bytes>, sofar: RangeOptions)
    ensures ParseOptions(words, sofar).Refused? ==> ParseOptions(words, sofar) == Refused(Syntax)
    decreases |words|
  {
    hide SameWord, ParseI64;
    if words != [] {
      OnlySyntax(words[1..], sofar.(withScores := true));
      if |words| >= 3 && ParseI64(words[1]).Some? && ParseI64(words[2]).Some? {
        OnlySyntax(words[3..], sofar.(limit := Some((ParseI64(words[1]).value, ParseI64(words[2]).value))));
      }
    }
  }

  /** What well written options amount to, added to those before them. */
  function Outcome(options: seq<Written>, sofar: RangeOptions): RangeOptions {
    if options == [] then sofar
    else match options[0]
         case Scores(_) => Outcome(options[1..], sofar.(withScores := true))
         case Page(_, off, count) =>
           Outcome(options[1..], sofar.(limit := Some((ParseI64(off).GetOr(0), ParseI64(count).GetOr(0)))))
  }

  lemma {:induction false} LaidReads(options: seq<Written>, sofar: RangeOptions)
    requires forall option :: option in options ==> WellWritten(option)
    ensures ParseOptions(Laid(options), sofar) == Given(Outcome(options, sofar))
    decreases |options|
  {
    hide SameWord, ParseI64, Numeral, IsWithScores, IsLimit;
    if options != [] {
      var words, more := Laid(options), Laid(options[1..]);
      OptionWords(words[0]);
      assert WellWritten(options[0]);
      match options[0] {
        case Scores(word) =>
          assert words[1..] == more;
          LaidReads(options[1..], sofar.(withScores := true));
        case Page(word, off, count) =>
          assert words[1] == off && words[2] == count && words[3..] == more;
          NumeralsIff(off);
          NumeralsIff(count);
          LaidReads(options[1..], sofar.(limit := Some((ParseI64(off).value, ParseI64(count).value))));
      }
    }
  }

  lemma {:induction false} ReadLaid(words: seq<bytes>, sofar: RangeOptions) returns (options: seq<Written>)
    requires ParseOptions(words, sofar).Given?
    ensures Laid(options) == words && forall option :: option in options ==> WellWritten(option)
    decreases |words|
  {
    hide SameWord, ParseI64, Numeral, IsWithScores, IsLimit;
    options := [];
    if words != [] {
      OptionWords(words[0]);
      if SameWord(words[0], WITHSCORES) {
        var more := ReadLaid(words[1..], sofar.(withScores := true));
        options := [Scores(words[0])] + more;
        assert options[1..] == more;
      } else {
        var off, count := words[1], words[2];
        NumeralsIff(off);
        NumeralsIff(count);
        var more := ReadLaid(words[3..], sofar.(limit := Some((ParseI64(off).value, ParseI64(count).value))));
        assert Numeral(off, ParseI64(off).value) && Numeral(count, ParseI64(count).value);
        options := [Page(words[0], off, count)] + more;
        assert options[1..] == more;
      }
    }
  }

  lemma {:induction false} OutcomeIs(options: seq<Written>, sofar: RangeOptions)
    ensures var r := Outcome(options, sofar);
            && (r.withScores <==> sofar.withScores || exists i :: 0 <= i < |options| && options[i].Scores?)
            && ((forall i :: 0 <= i < |options| ==> options[i].Scores?) ==> r.limit == sofar.limit)
            && forall i :: LastPage(options, i) ==>
                 r.limit == Some((ParseI64(options[i].off).GetOr(0), ParseI64(options[i].count).GetOr(0)))
    decreases |options|
  {
    hide ParseI64;
    if options != [] {
      var rest, r := options[1..], Outcome(options, sofar);
      var next := match options[0]
                  case Scores(_) => sofar.(withScores := true)
                  case Page(_, off, count) => sofar.(limit := Some((ParseI64(off).GetOr(0), ParseI64(count).GetOr(0))));
      OutcomeIs(rest, next);
      assert forall i :: 0 < i < |options| ==> options[i] == rest[i - 1];
      assert forall i :: 0 <= i < |rest| ==> rest[i] == options[i + 1];
      forall i | LastPage(options, i)
        ensures r.limit == Some((ParseI64(options[i].off).GetOr(0), ParseI64(options[i].count).GetOr(0)))
      {
        if i > 0 {
          assert LastPage(rest, i - 1);
        }
      }
    }
  }

  lemma {:induction false} HasLastPage(options: seq<Written>) returns (i: int)
    ensures LastPage(options, i) || forall j :: 0 <= j < |options| ==> options[j].Scores?
  {
    i := |options| - 1;
    while i >= 0 && options[i].Scores?
      invariant -1 <= i < |options| && forall j :: i < j < |options| ==> options[j].Scores?
    {
      i := i - 1;
    }
  }

  lemma OutcomeChosen(options: seq<Written>, r: RangeOptions)
    requires forall option :: option in options ==> WellWritten(option)
    ensures Chosen(options, r) <==> Outcome(options, RangeOptions(false, None)) == r
  {
    hide ParseI64, Numeral, Outcome, IsWithScores, IsLimit;
    OutcomeIs(options, RangeOptions(false, None));
    var last := HasLastPage(options);
    forall i | LastPage(options, i)
      ensures forall n :: Numeral(options[i].off, n) <==> n == ParseI64(options[i].off).GetOr(0)
      ensures forall n :: Numeral(options[i].count, n) <==> n == ParseI64(options[i].count).GetOr(0)
    {
      assert WellWritten(options[i]);
      NumeralsIff(options[i].off);
      NumeralsIff(options[i].count);
    }
  }

  /**
   * ZRANGEBYSCORE refuses a bound that is none before it looks at the options; what it accepts is the page
   * the last LIMIT asks for, of the members between the two bounds.
   */
  lemma RangeAnswerIs(dict: Dict, args: seq<bytes>, parse: bytes -> Option<u64>, now: u64)
    requires |args| >= 4 && |args[1]| < U32
    ensures var answer := RangeAnswer(Live(dict, args[1], now), args, parse);
            && (answer == Refused(BadBound) <==>
                  || (forall s, x :: !IsBound(args[2], parse, s, x))
                  || (forall s, x :: !IsBound(args[3], parse, s, x)))
            && forall min, minOut, max, maxOut ::
                 IsBound(args[2], parse, min, minOut) && IsBound(args[3], parse, max, maxOut) ==>
                   RangeReply(dict, args[1], ZRangeByScore(min, minOut, max, maxOut), now,
                              ParseOptions(args[4..], RangeOptions(false, None)), answer)
  {
    hide Apply, ParseBound, IsBound, ParseOptions, Limited;
    forall s: u64, x: bool ensures ParseBound(args[2], parse) == Some((s, x)) <==> IsBound(args[2], parse, s, x) {
      BoundIff(args[2], parse, s, x);
    }
    forall s: u64, x: bool ensures ParseBound(args[3], parse) == Some((s, x)) <==> IsBound(args[3], parse, s, x) {
      BoundIff(args[3], parse, s, x);
    }
    BoundIff(args[2], parse, 0, false);
    BoundIff(args[3], parse, 0, false);
    forall min, minOut, max, maxOut |
      IsBound(args[2], parse, min, minOut) && IsBound(args[3], parse, max, maxOut)
      ensures RangeReply(dict, args[1], ZRangeByScore(min, minOut, max, maxOut), now,
          ParseOptions(args[4..], RangeOptions(false, None)),
          RangeAnswer(Live(dict, args[1], now), args, parse))
    {
      RangeAnswered(dict, args, parse, now, min, minOut, max, maxOut);
    }
  }

  /** How the answer of the command follows from the options and the answer of the range. */
  ghost predicate RangeReply(dict: Dict, key: bytes, range: Op, now: u64, options: Answer<RangeOptions>,
      answer: Answer<Result<seq<(bytes, u64)>>>)
  {
    && Can(dict, key, range, now)
    && match options
       case Refused(_) => answer == Refused(Syntax)
       case Given(chosen) =>
         match Ask(dict, key, range, now)
         case Ranked(found) => answer == Given(Ok(Limited(found, chosen.limit)))
         case reply => reply == Wrong && answer == Given(WrongType)
  }

  lemma RangeAnswered(dict: Dict, args: seq<bytes>, parse: bytes -> Option<u64>, now: u64, min: u64, minOut: bool,
      max: u64, maxOut: bool)
    requires |args| >= 4 && |args[1]| < U32
    requires IsBound(args[2], parse, min, minOut) && IsBound(args[3], parse, max, maxOut)
    ensures RangeReply(dict, args[1], ZRangeByScore(min, minOut, max, maxOut), now,
                       ParseOptions(args[4..], RangeOptions(false, None)),
                       RangeAnswer(Live(dict, args[1], now), args, parse))
  {
    hide Can, Ask, Live, ParseBound, IsBound, ParseOptions, Limited, WithinScores, Ranking;
    BoundIff(args[2], parse, min, minOut);
    BoundIff(args[3], parse, max, maxOut);
    BoundIsNumber(args[2], parse, min, minOut);
    BoundIsNumber(args[3], parse, max, maxOut);
    RangeAsked(dict, args[1], min, minOut, max, maxOut, now);
    OnlySyntax(args[4..], RangeOptions(false, None));
  }

  lemma RangeAsked(dict: Dict, key: bytes, min: u64, minOut: bool, max: u64, maxOut: bool, now: u64)
    requires |key| < U32 && !IsNaN(min) && !IsNaN(max)
    ensures var op := ZRangeByScore(min, minOut, max, maxOut);
            && Can(dict, key, op, now)
            && match Dictionary.ZRangeByScore(Live(dict, key, now), min, minOut, max, maxOut)
               case Ok(found) => Ask(dict, key, op, now) == Ranked(found)
               case WrongType => Ask(dict, key, op, now) == Wrong
               case Corruption => false
  {
  }
}
