/** What callers may rely on for sorted sets, and that scores compare as the numbers they stand for. */
module ScoreLaws {
  import opened Common
  import opened Sorting
  import opened ByteOrder
  import opened Encoding
  import opened Records
  import opened Dictionary
  import opened Representation
  import opened SortedSets
  import opened Script
  import opened ReadLaws
  import opened TypeLaws

  // ---- Scores as numbers -----------------------------------------------------------------------

  const FRACTIONS := 0x10_0000_0000_0000

  function Pow2(k: nat): (p: nat)
    ensures p > 0
  {
    if k == 0 then 1 else 2 * Pow2(k - 1)
  }

  /**
   * The number a binary64 pattern stands for, in units of 2^-1074 (section 3.4 of IEEE 754-2019):
   * 52 bits of fraction, 11 of exponent, a hidden leading bit unless the exponent is 0, and the sign.
   * An infinity comes out beyond all finite numbers.
   */
  function NumberOf(score: u64): int {
    var size := SizeOf(score % U63);
    if score < U63 then size else -(size as int)
  }

  function SizeOf(m: nat): nat {
    var (exponent, fraction) := (m / FRACTIONS, m % FRACTIONS);
    if exponent == 0 then fraction else (FRACTIONS + fraction) * Pow2(exponent - 1)
  }

  lemma {:induction false} Pow2Grows(a: nat, b: nat)
    requires a <= b
    ensures Pow2(a) <= Pow2(b)
    decreases b
  {
    if a < b {
      Pow2Grows(a, b - 1);
    }
  }

  lemma SizeGrows(m: nat, n: nat)
    requires m < n
    ensures SizeOf(m) < SizeOf(n)
  {
    var (e1, f1, e2, f2) := (m / FRACTIONS, m % FRACTIONS, n / FRACTIONS, n % FRACTIONS);
    assert e1 <= e2 && (e1 == e2 ==> f1 < f2);
    if e1 == e2 && e1 > 0 {
      Scales(FRACTIONS + f1, FRACTIONS + f2, Pow2(e1 - 1));
    } else if e1 < e2 {
      Pow2Grows(e1, e2 - 1);
      var top := FRACTIONS * Pow2(e1);
      assert SizeOf(m) < top by {
        if e1 > 0 {
          Scales(FRACTIONS + f1, 2 * FRACTIONS, Pow2(e1 - 1));
          assert 2 * FRACTIONS * Pow2(e1 - 1) == FRACTIONS * Pow2(e1);
        }
      }
      ScalesUp(FRACTIONS, Pow2(e1), FRACTIONS + f2, Pow2(e2 - 1));
    }
  }

  lemma Scales(a: nat, b: nat, p: nat)
    requires a < b && p > 0
    ensures a * p < b * p
  {
  }

  lemma ScalesUp(a: nat, p: nat, b: nat, q: nat)
    requires a <= b && p <= q
    ensures a * p <= b * q
  {
    assert a * p <= a * q <= b * q;
  }

  /** The comparisons of scores are those of the numbers they stand for; both zeros are 0. */
  lemma ScoresCompareAsNumbers(a: u64, b: u64)
    ensures Magnitude(a) < Magnitude(b) <==> NumberOf(a) < NumberOf(b)
    ensures Magnitude(a) == Magnitude(b) <==> NumberOf(a) == NumberOf(b)
  {
    hide SizeOf;
    var m, n := a % U63, b % U63;
    ZeroSize();
    if m < n { SizeGrows(m, n); }
    if n < m { SizeGrows(n, m); }
    if 0 < m { SizeGrows(0, m); }
    if 0 < n { SizeGrows(0, n); }
  }

  lemma ZeroSize()
    ensures SizeOf(0) == 0
  {
  }

  // ---- No NaN is stored ----------------------------------------------------------------------------

  function ScoresOf(slot: Slot): map<bytes, u64> {
    if slot.Some? && slot.value.value.ZSet? then slot.value.value.scores else map[]
  }

  predicate AllNumbers(scores: map<bytes, u64>) {
    forall m :: m in scores ==> !IsNaN(scores[m])
  }

  predicate Numeric(slot: Slot) {
    AllNumbers(ScoresOf(slot))
  }

  /** In a consistent store no score is NaN ... */
  lemma StoredScoresAreNumeric(d: Db, versions: map<bytes, u64>, issued: u64, key: bytes)
    requires Inv(d, versions, issued)
    ensures Numeric(At(Abs(d), key))
  {
    hide Inv, Abs, Elements, Meta.FieldCount, Meta.ListBounds, IsNaN, DecodeScore;
    AbsAt(d, key);
    assert KeyOk(d, versions, issued, key) by { KeyIsOk(d, versions, issued, key); }
  }

  lemma KeyIsOk(d: Db, versions: map<bytes, u64>, issued: u64, key: bytes)
    requires Inv(d, versions, issued)
    ensures KeyOk(d, versions, issued, key)
  {
  }

  /** ... and no command stores one. */
  lemma StepKeepsNumeric(dict: Dict, t: Timed, key: bytes)
    requires CommandFits(dict, t) && Numeric(At(dict, key))
    ensures Numeric(At(Step(dict, t).0, key))
  {
    hide Apply, OpFits, Numeric;
    NothingIsNumeric();
    if t.command.OnKey? && t.command.key == key {
      ApplyKeepsNumeric(t.command.op, Live(dict, key, t.now));
    }
  }

  /** So over any run from an empty store, no score is NaN. */
  lemma {:induction false} RunsStayNumeric(script: seq<Timed>, key: bytes)
    requires RunFits(map[], script)
    ensures Numeric(At(Run(map[], script).0, key))
    decreases |script|
  {
    hide Numeric, Step, At;
    if script == [] {
      EmptyIsNumeric(key);
    } else {
      RunsStayNumeric(script[..|script| - 1], key);
      StepKeepsNumeric(Run(map[], script[..|script| - 1]).0, script[|script| - 1], key);
    }
  }

  lemma EmptyIsNumeric(key: bytes)
    ensures Numeric(At(map[], key))
  {
  }

  lemma NothingIsNumeric()
    ensures Numeric(None)
  {
  }

  lemma ApplyKeepsNumeric(op: Op, slot: Slot)
    requires OpFits(op, slot) && Numeric(slot)
    ensures Numeric(Apply(op, slot).0)
  {
    hide Apply, IsNaN, OpFits, Numeric;
    if !Changes(op) {
      OthersKeepValue(op, slot);
      NumericByValue(slot, Apply(op, slot).0);
    } else {
      ChangeIs(op, slot);
      match op {
        case ZAdd(scored) =>
          FitsNoNaN(scored, slot);
          ZAddKeepsNumeric(slot, scored);
        case ZRem(members) => ZRemKeepsNumeric(slot, members);
        case _ => OtherChangesKeepNumeric(op, slot);
      }
    }
  }

  lemma NumericByValue(slot: Slot, after: Slot)
    requires Numeric(slot)
    requires after == None || after.value.value.Str? || (slot.Some? && after.value.value == slot.value.value)
    ensures Numeric(after)
  {
    hide IsNaN;
  }

  lemma ZAddKeepsNumeric(slot: Slot, scored: seq<(u64, bytes)>)
    requires Numeric(slot) && NoNaN(scored)
    ensures Numeric(Dictionary.ZAdd(slot, scored).0)
  {
    hide LastScores, Rescore, NoNaN, AllNumbers;
    LastScoresOk(scored);
    LastScoresNumbers(scored);
    RescoredNumbers(ScoresOf(slot), LastScores(scored));
    NoNumbers();
  }

  lemma NoNumbers()
    ensures AllNumbers(map[])
  {
  }

  lemma LastScoresNumbers(scored: seq<(u64, bytes)>)
    requires NoNaN(scored)
    ensures AllNumbers(LastScores(scored))
  {
    hide IsNaN, LastScores;
    LastScoresOk(scored);
  }

  lemma RescoredNumbers(have: map<bytes, u64>, updates: map<bytes, u64>)
    requires AllNumbers(have) && AllNumbers(updates)
    ensures AllNumbers(Rescore(have, updates))
  {
    hide IsNaN, ScoreEq;
  }

  lemma ZRemKeepsNumeric(slot: Slot, members: seq<bytes>)
    requires Numeric(slot)
    ensures Numeric(Dictionary.ZRem(slot, members).0)
  {
    hide ToSet, AllNumbers;
    RemovedNumbers(ScoresOf(slot), ToSet(members));
    NoNumbers();
  }

  lemma RemovedNumbers(have: map<bytes, u64>, gone: set<bytes>)
    requires AllNumbers(have)
    ensures AllNumbers(have - gone)
  {
    hide IsNaN;
  }

  lemma OtherChangesKeepNumeric(op: Op, slot: Slot)
    requires Changes(op) && !op.ZAdd? && !op.ZRem? && OpFits(op, slot) && Numeric(slot)
    ensures Numeric(Apply(op, slot).0)
  {
    hide Assign, Mentions, Names, ToSet, Reverse, IsNaN;
  }

  // ---- Readers and writers ---------------------------------------------------------------------------

  predicate MayBeZSet(slot: Slot) {
    slot.Some? ==> slot.value.value.ZSet?
  }

  lemma RightZSet(op: Op, slot: Slot)
    requires OpFits(op, slot) && (op.ZAdd? || op.ZRem? || op.ZRange? || op.ZRangeByScore?) && Apply(op, slot).1 != Wrong
    ensures MayBeZSet(slot)
  {
    hide ToSet, LastScores, Rescore, Ranking, Dictionary.Slice, WithinScores;
  }

  lemma ZSetAnswers(slot: Slot, member: bytes, start: i64, stop: i64)
    requires MayBeZSet(slot)
    ensures var scores := ScoresOf(slot);
            && Apply(ZScore(member), slot).1 == MaybeScore(if member in scores then Some(scores[member]) else None)
            && Apply(ZCard, slot).1 == Number(|scores|)
            && Apply(ZRange(start, stop), slot).1 == Ranked(Dictionary.Slice(Ranking(scores), start, stop))
  {
    hide Ranking, Dictionary.Slice;
    NothingRanked();
    NothingSliced(start, stop);
  }

  lemma NothingSliced(start: i64, stop: i64)
    ensures Dictionary.Slice<(bytes, u64)>([], start, stop) == []
  {
  }

  lemma NothingRanked()
    ensures Ranking(map[]) == []
  {
    RankingIs(map[]);
  }

  lemma RankingIs(scores: map<bytes, u64>)
    ensures forall member: bytes, score: u64 ::
              (member, score) in Ranking(scores) <==> member in scores && scores[member] == score
    ensures |Ranking(scores)| == |scores|
    ensures Ascending(RankLess, Ranking(scores))
  {
    ItemsSize(scores);
    assert forall item: (bytes, u64) :: item in scores.Items <==> item.0 in scores && scores[item.0] == item.1;
  }

  lemma ZAddChanges(slot: Slot, scored: seq<(u64, bytes)>)
    requires MayBeZSet(slot) && OpFits(ZAdd(scored), slot)
    ensures var (after, reply) := Apply(ZAdd(scored), slot);
            && MayBeZSet(after) && ScoresOf(after) == Rescore(ScoresOf(slot), LastScores(scored))
            && reply == Number(|ScoresOf(after)| - |ScoresOf(slot)|)
  {
    hide LastScores, Rescore, NoNaN;
    RescoredSize(ScoresOf(slot), LastScores(scored));
  }

  lemma ZRemChanges(slot: Slot, members: seq<bytes>)
    requires MayBeZSet(slot)
    ensures var (after, reply) := Apply(ZRem(members), slot);
            && MayBeZSet(after) && ScoresOf(after) == ScoresOf(slot) - ToSet(members)
            && reply == Number(|ScoresOf(slot)| - |ScoresOf(after)|)
  {
    hide ToSet;
    RemovedSize(ScoresOf(slot), ToSet(members));
  }

  /** What a member's score becomes. */
  lemma RescoredAt(have: map<bytes, u64>, updates: map<bytes, u64>, member: bytes)
    requires AllNumbers(have) && AllNumbers(updates)
    ensures var after := Rescore(have, updates);
            if member in updates then
              && member in after
              && after[member] == if member in have && NumberOf(have[member]) == NumberOf(updates[member]) then have[member]
                                  else updates[member]
            else (member in after <==> member in have) && (member in have ==> after[member] == have[member])
  {
    hide NumberOf, Magnitude, IsNaN;
    if member in have && member in updates {
      ScoresCompareAsNumbers(have[member], updates[member]);
    }
  }

  predicate IsLastScore(scored: seq<(u64, bytes)>, i: nat, member: bytes)
    requires i < |scored|
  {
    scored[i].1 == member && forall j :: i < j < |scored| ==> scored[j].1 != member
  }

  /**
   * ZSCORE after ZADD answers the last score given to the member, or the one it had if that is the
   * same number, and what it answered before for any other member.
   */
  lemma ZAddThenZScore(dict: Dict, key: bytes, scored: seq<(u64, bytes)>, member: bytes, now: u64)
    requires Can(dict, key, ZAdd(scored), now) && Ask(dict, key, ZAdd(scored), now) != Wrong
    requires Numeric(Live(dict, key, now))
    ensures Can(dict, key, ZScore(member), now) && Can(After(dict, key, ZAdd(scored), now), key, ZScore(member), now)
    ensures Ask(dict, key, ZScore(member), now).MaybeScore?
    ensures var had := Ask(dict, key, ZScore(member), now).score;
            var answer := Ask(After(dict, key, ZAdd(scored), now), key, ZScore(member), now);
            && (forall i :: 0 <= i < |scored| && IsLastScore(scored, i, member) ==>
                  answer == MaybeScore(if had.Some? && NumberOf(had.value) == NumberOf(scored[i].0) then had
                                       else Some(scored[i].0)))
            && ((forall i :: 0 <= i < |scored| ==> scored[i].1 != member) ==> answer == MaybeScore(had))
  {
    hide Apply, OpFits, Ask, After, IsLastScore, LastScores, Rescore, AllNumbers, NumberOf;
    var slot := Live(dict, key, now);
    ReadAfter(dict, key, ZAdd(scored), ZScore(member), now);
    RightZSet(ZAdd(scored), slot);
    ZAddChanges(slot, scored);
    ZSetAnswers(slot, member, 0, -1);
    ZSetAnswers(Apply(ZAdd(scored), slot).0, member, 0, -1);
    FitsNoNaN(scored, slot);
    LastScoresNumbers(scored);
    RescoredAt(ScoresOf(slot), LastScores(scored), member);
    forall i | 0 <= i < |scored| && IsLastScore(scored, i, member)
      ensures member in LastScores(scored) && LastScores(scored)[member] == scored[i].0
    {
      LastScoreIs(scored, i, member);
    }
    if forall i :: 0 <= i < |scored| ==> scored[i].1 != member {
      NoScoreGiven(scored, member);
    }
  }

  lemma FitsNoNaN(scored: seq<(u64, bytes)>, slot: Slot)
    requires OpFits(ZAdd(scored), slot)
    ensures NoNaN(scored)
  {
  }

  lemma {:induction false} LastScoreIs(scored: seq<(u64, bytes)>, i: nat, member: bytes)
    requires i < |scored| && IsLastScore(scored, i, member)
    ensures member in LastScores(scored) && LastScores(scored)[member] == scored[i].0
    decreases |scored|
  {
    var init := scored[..|scored| - 1];
    if i < |init| {
      assert scored[|init|].1 != member;
      LastScoreIs(init, i, member);
    }
  }

  lemma {:induction false} NoScoreGiven(scored: seq<(u64, bytes)>, member: bytes)
    requires forall i :: 0 <= i < |scored| ==> scored[i].1 != member
    ensures member !in LastScores(scored)
    decreases |scored|
  {
    if scored != [] {
      NoScoreGiven(scored[..|scored| - 1], member);
    }
  }

  lemma ZRemThenZScore(dict: Dict, key: bytes, members: seq<bytes>, member: bytes, now: u64)
    requires Can(dict, key, ZRem(members), now) && Ask(dict, key, ZRem(members), now) != Wrong
    ensures Can(dict, key, ZScore(member), now) && Can(After(dict, key, ZRem(members), now), key, ZScore(member), now)
    ensures Ask(After(dict, key, ZRem(members), now), key, ZScore(member), now) ==
            if member in members then MaybeScore(None) else Ask(dict, key, ZScore(member), now)
  {
    hide Apply, OpFits, Ask, After;
    var slot := Live(dict, key, now);
    ReadAfter(dict, key, ZRem(members), ZScore(member), now);
    RightZSet(ZRem(members), slot);
    ZRemChanges(slot, members);
    ZSetAnswers(slot, member, 0, -1);
    ZSetAnswers(Apply(ZRem(members), slot).0, member, 0, -1);
    var rest := ScoresOf(slot) - ToSet(members);
    assert member in rest <==> member in ScoresOf(slot) && member !in members;
  }

  /** ZADD answers by how many members the set has grown, ZREM by how many it has shrunk. */
  lemma ZAddCounts(dict: Dict, key: bytes, scored: seq<(u64, bytes)>, now: u64)
    requires Can(dict, key, ZAdd(scored), now) && Ask(dict, key, ZAdd(scored), now) != Wrong
    ensures Can(dict, key, ZCard, now) && Can(After(dict, key, ZAdd(scored), now), key, ZCard, now)
    ensures Ask(dict, key, ZCard, now).Number? && Ask(After(dict, key, ZAdd(scored), now), key, ZCard, now).Number?
    ensures Ask(dict, key, ZAdd(scored), now) ==
            Number(Ask(After(dict, key, ZAdd(scored), now), key, ZCard, now).n - Ask(dict, key, ZCard, now).n)
  {
    hide Apply, OpFits, Ask, After, LastScores, Rescore;
    var slot := Live(dict, key, now);
    ReadAfter(dict, key, ZAdd(scored), ZCard, now);
    RightZSet(ZAdd(scored), slot);
    ZAddChanges(slot, scored);
    ZSetAnswers(slot, [], 0, -1);
    ZSetAnswers(Apply(ZAdd(scored), slot).0, [], 0, -1);
  }

  lemma RescoredSize(have: map<bytes, u64>, updates: map<bytes, u64>)
    ensures |Rescore(have, updates)| == |have| + |updates.Keys - have.Keys|
  {
    var after := Rescore(have, updates);
    assert after.Keys == have.Keys + updates.Keys;
    assert |after| == |after.Keys| && |have| == |have.Keys|;
    GrownBy(have.Keys, updates.Keys);
  }

  lemma ZRemCounts(dict: Dict, key: bytes, members: seq<bytes>, now: u64)
    requires Can(dict, key, ZRem(members), now) && Ask(dict, key, ZRem(members), now) != Wrong
    ensures Can(dict, key, ZCard, now) && Can(After(dict, key, ZRem(members), now), key, ZCard, now)
    ensures Ask(dict, key, ZCard, now).Number? && Ask(After(dict, key, ZRem(members), now), key, ZCard, now).Number?
    ensures Ask(dict, key, ZRem(members), now) ==
            Number(Ask(dict, key, ZCard, now).n - Ask(After(dict, key, ZRem(members), now), key, ZCard, now).n)
  {
    hide Apply, OpFits, Ask, After, ToSet;
    var slot := Live(dict, key, now);
    ReadAfter(dict, key, ZRem(members), ZCard, now);
    RightZSet(ZRem(members), slot);
    ZRemChanges(slot, members);
    ZSetAnswers(slot, [], 0, -1);
    ZSetAnswers(Apply(ZRem(members), slot).0, [], 0, -1);
  }

  lemma RemovedSize(have: map<bytes, u64>, gone: set<bytes>)
    ensures |have - gone| == |have| - |have.Keys * gone|
  {
    var rest := have - gone;
    assert rest.Keys == have.Keys - gone;
    assert |rest| == |rest.Keys| && |have| == |have.Keys|;
    GrownBy(have.Keys, gone);
  }

  // ---- Ranges -------------------------------------------------------------------------------------------

  /** By score, -0 before +0, and members of the very same score by their bytes. */
  ghost predicate InRankOrder(items: seq<(bytes, u64)>) {
    forall i, j :: 0 <= i < j < |items| ==>
      || NumberOf(items[i].1) < NumberOf(items[j].1)
      || (NumberOf(items[i].1) == NumberOf(items[j].1) && items[i].1 == U63 && items[j].1 == 0)
      || (items[i].1 == items[j].1 && LexLess(items[i].0, items[j].0))
  }

  lemma AscendingIsRankOrder(items: seq<(bytes, u64)>)
    requires Ascending(RankLess, items)
    ensures InRankOrder(items)
  {
    hide NumberOf, LexLess;
    forall i, j | 0 <= i < j < |items|
      ensures || NumberOf(items[i].1) < NumberOf(items[j].1)
              || (NumberOf(items[i].1) == NumberOf(items[j].1) && items[i].1 == U63 && items[j].1 == 0)
              || (items[i].1 == items[j].1 && LexLess(items[i].0, items[j].0))
    {
      assert RankLess(items[i], items[j]);
      ScoresCompareAsNumbers(items[i].1, items[j].1);
    }
  }

  /** ZRANGE 0 -1 lists exactly the members that ZSCORE finds, with their scores, in rank order. */
  lemma ZRangeLists(dict: Dict, key: bytes, now: u64)
    requires |key| < U32 && Ask(dict, key, ZRange(0, -1), now) != Wrong
    ensures Ask(dict, key, ZRange(0, -1), now).Ranked?
    ensures forall member: bytes :: Can(dict, key, ZScore(member), now)
    ensures var all := Ask(dict, key, ZRange(0, -1), now).members;
            && InRankOrder(all)
            && (forall member: bytes, score: u64 ::
                  (member, score) in all <==> Ask(dict, key, ZScore(member), now) == MaybeScore(Some(score)))
  {
    hide Apply, Ask, Can, Ranking, Dictionary.Slice, InRankOrder;
    var slot := Live(dict, key, now);
    ReadNow(dict, key, ZRange(0, -1), now);
    RightZSet(ZRange(0, -1), slot);
    ZSetAnswers(slot, [], 0, -1);
    WholeRanking(Ranking(ScoresOf(slot)));
    RankingIs(ScoresOf(slot));
    AscendingIsRankOrder(Ranking(ScoresOf(slot)));
    ScoresAnswered(dict, key, now);
  }

  lemma ScoresAnswered(dict: Dict, key: bytes, now: u64)
    requires |key| < U32 && MayBeZSet(Live(dict, key, now))
    ensures forall member: bytes :: Can(dict, key, ZScore(member), now)
    ensures forall member: bytes :: Ask(dict, key, ZScore(member), now) ==
              var scores := ScoresOf(Live(dict, key, now));
              MaybeScore(if member in scores then Some(scores[member]) else None)
  {
    hide Apply, Ask, Can, Dictionary.Slice;
    var slot := Live(dict, key, now);
    forall member: bytes
      ensures Can(dict, key, ZScore(member), now)
      ensures Ask(dict, key, ZScore(member), now) ==
              MaybeScore(if member in ScoresOf(slot) then Some(ScoresOf(slot)[member]) else None)
    {
      ReadNow(dict, key, ZScore(member), now);
      ZSetAnswers(slot, member, 0, -1);
    }
  }

  /** ZCARD counts what ZRANGE 0 -1 lists, and any other ZRANGE is the part of it that its two ranks enclose. */
  lemma ZRangeEncloses(dict: Dict, key: bytes, start: i64, stop: i64, now: u64)
    requires |key| < U32 && Ask(dict, key, ZRange(0, -1), now) != Wrong
    ensures Ask(dict, key, ZRange(0, -1), now).Ranked?
    ensures Can(dict, key, ZRange(start, stop), now) && Can(dict, key, ZCard, now)
    ensures var all := Ask(dict, key, ZRange(0, -1), now).members;
            var n := |all|;
            var lo := if start < 0 then (if start + n < 0 then 0 else start + n) else start;
            var hi := if stop < 0 then stop + n else if stop < n then stop else n - 1;
            && Ask(dict, key, ZCard, now) == Number(n)
            && Ask(dict, key, ZRange(start, stop), now) == Ranked(if lo <= hi then all[lo..hi + 1] else [])
  {
    hide Ask, Can, Live, ScoresOf, MayBeZSet, Ranking, Dictionary.Slice;
    var scores := ScoresOf(Live(dict, key, now));
    RangeNotWrong(dict, key, now);
    RangeAnswered(dict, key, 0, -1, now);
    RangeAnswered(dict, key, start, stop, now);
    RankingIs(scores);
    WholeRanking(Ranking(scores));
    SliceEncloses(Ranking(scores), start, stop);
  }

  lemma RangeNotWrong(dict: Dict, key: bytes, now: u64)
    requires |key| < U32
    ensures Can(dict, key, ZRange(0, -1), now)
    ensures Ask(dict, key, ZRange(0, -1), now) != Wrong ==> MayBeZSet(Live(dict, key, now))
  {
    hide Apply, Ask, Live;
    ReadNow(dict, key, ZRange(0, -1), now);
    if Ask(dict, key, ZRange(0, -1), now) != Wrong {
      RightZSet(ZRange(0, -1), Live(dict, key, now));
    }
  }

  lemma RangeAnswered(dict: Dict, key: bytes, start: i64, stop: i64, now: u64)
    requires |key| < U32 && MayBeZSet(Live(dict, key, now))
    ensures Can(dict, key, ZRange(start, stop), now) && Can(dict, key, ZCard, now)
    ensures var scores := ScoresOf(Live(dict, key, now));
            && Ask(dict, key, ZRange(start, stop), now) == Ranked(Dictionary.Slice(Ranking(scores), start, stop))
            && Ask(dict, key, ZCard, now) == Number(|scores|)
  {
    hide Apply, Ask, Can, Live, ScoresOf, MayBeZSet, Ranking, Dictionary.Slice;
    ReadNow(dict, key, ZRange(start, stop), now);
    ReadNow(dict, key, ZCard, now);
    ZSetAnswers(Live(dict, key, now), [], start, stop);
  }

  lemma WholeRanking(ranking: seq<(bytes, u64)>)
    ensures Dictionary.Slice(ranking, 0, -1) == ranking
  {
  }

  /**
   * ZRANGEBYSCORE answers, in rank order, exactly the members whose score lies between the two bounds,
   * each of which belongs to the range unless its flag excludes it.
   */
  lemma ZRangeByScoreSelects(dict: Dict, key: bytes, min: u64, minExclusive: bool, max: u64, maxExclusive: bool,
      now: u64)
    requires |key| < U32 && !IsNaN(min) && !IsNaN(max) && Numeric(Live(dict, key, now))
    requires Ask(dict, key, ZRangeByScore(min, minExclusive, max, maxExclusive), now) != Wrong
    ensures Ask(dict, key, ZRangeByScore(min, minExclusive, max, maxExclusive), now).Ranked?
    ensures forall member: bytes :: Can(dict, key, ZScore(member), now)
    ensures var found := Ask(dict, key, ZRangeByScore(min, minExclusive, max, maxExclusive), now).members;
            && InRankOrder(found)
            && (forall member: bytes, score: u64 :: (member, score) in found <==>
                  && Ask(dict, key, ZScore(member), now) == MaybeScore(Some(score))
                  && (if minExclusive then NumberOf(min) < NumberOf(score) else NumberOf(min) <= NumberOf(score))
                  && (if maxExclusive then NumberOf(score) < NumberOf(max) else NumberOf(score) <= NumberOf(max)))
  {
    hide Apply, Ask, Can, Ranking, WithinScores, InScoreRange, InRankOrder, NumberOf, IsNaN;
    var slot := Live(dict, key, now);
    var scores := ScoresOf(slot);
    var op := ZRangeByScore(min, minExclusive, max, maxExclusive);
    ReadNow(dict, key, op, now);
    RightZSet(op, slot);
    ByScoreAnswers(slot, min, minExclusive, max, maxExclusive);
    RankingIs(scores);
    WithinScoresIs(Ranking(scores), min, minExclusive, max, maxExclusive);
    AscendingIsRankOrder(WithinScores(Ranking(scores), min, minExclusive, max, maxExclusive));
    ScoresAnswered(dict, key, now);
    forall member | member in scores
      ensures InScoreRange(scores[member], min, minExclusive, max, maxExclusive) <==>
              var number := NumberOf(scores[member]);
              && (if minExclusive then NumberOf(min) < number else NumberOf(min) <= number)
              && (if maxExclusive then number < NumberOf(max) else number <= NumberOf(max))
    {
      RangeIsNumeric(scores[member], min, minExclusive, max, maxExclusive);
    }
  }

  lemma RangeIsNumeric(score: u64, min: u64, minExclusive: bool, max: u64, maxExclusive: bool)
    requires !IsNaN(score) && !IsNaN(min) && !IsNaN(max)
    ensures InScoreRange(score, min, minExclusive, max, maxExclusive) <==>
            && (if minExclusive then NumberOf(min) < NumberOf(score) else NumberOf(min) <= NumberOf(score))
            && (if maxExclusive then NumberOf(score) < NumberOf(max) else NumberOf(score) <= NumberOf(max))
  {
    hide NumberOf, IsNaN, Magnitude;
    ScoresCompareAsNumbers(score, min);
    ScoresCompareAsNumbers(min, score);
    ScoresCompareAsNumbers(score, max);
    ScoresCompareAsNumbers(max, score);
  }

  lemma ByScoreAnswers(slot: Slot, min: u64, minExclusive: bool, max: u64, maxExclusive: bool)
    requires MayBeZSet(slot)
    ensures Apply(ZRangeByScore(min, minExclusive, max, maxExclusive), slot).1
         == Ranked(WithinScores(Ranking(ScoresOf(slot)), min, minExclusive, max, maxExclusive))
  {
    hide Ranking, WithinScores;
    NothingRanked();
    NothingWithin(min, minExclusive, max, maxExclusive);
  }

  lemma NothingWithin(min: u64, minExclusive: bool, max: u64, maxExclusive: bool)
    ensures WithinScores([], min, minExclusive, max, maxExclusive) == []
  {
  }

  lemma {:induction false} WithinScoresIs(items: seq<(bytes, u64)>, min: u64, minExclusive: bool, max: u64,
      maxExclusive: bool)
    requires Ascending(RankLess, items)
    ensures var found := WithinScores(items, min, minExclusive, max, maxExclusive);
            && (forall item :: item in found <==>
                  item in items && InScoreRange(item.1, min, minExclusive, max, maxExclusive))
            && Ascending(RankLess, found)
    decreases |items|
  {
    hide InScoreRange, RankLess;
    if items != [] {
      var init, last := items[..|items| - 1], items[|items| - 1];
      WithinScoresIs(init, min, minExclusive, max, maxExclusive);
      assert forall item :: item in init ==> RankLess(item, last);
      assert forall item :: item in items <==> item in init || item == last;
    }
  }
}
