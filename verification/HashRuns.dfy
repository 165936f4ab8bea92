/** Whole runs and hashes: when the store's counting of arguments answers as a plain dictionary does. */
module HashRuns {
  import opened Common
  import opened Dictionary
  import opened Script
  import opened HashCounts
  import opened RunProperties

  /** Every hash in the dictionary has an exact count. */
  ghost predicate AllExact(dict: Dict) {
    forall key :: key in dict ==> Exact(Some(dict[key]))
  }

  function FieldsOf(slot: Slot): map<bytes, bytes> {
    if slot.Some? && slot.value.value.Hash? then slot.value.value.fields else map[]
  }

  predicate HoldsOtherType(slot: Slot) {
    slot.Some? && !slot.value.value.Hash?
  }

  // ---- What arguments do to replies and counts --------------------------------------------

  /** HSET names no new field twice, HDEL no stored one. */
  ghost predicate Once(op: Op, slot: Slot) {
    match op
    case HSet(pairs) => HoldsOtherType(slot) || Distinct(FieldsOf(slot).Keys, Names(pairs), false)
    case HDel(names) => Distinct(FieldsOf(slot).Keys, names, true)
    case _ => true
  }

  /** An HDEL that mentions stored fields as often as there are any removes the hash, and its count with it. */
  ghost predicate KeepsCount(op: Op, slot: Slot) {
    Once(op, slot) || (op.HDel? && |FieldsOf(slot)| <= Mentions(FieldsOf(slot).Keys, op.fields, true))
  }

  lemma ApplyExactIff(op: Op, slot: Slot)
    requires OpFits(op, slot) && Exact(slot)
    ensures Exact(Apply(op, slot).0) <==> KeepsCount(op, slot)
  {
    hide Apply, OpFits, Exact, KeepsCount;
    if !Changes(op) {
      OthersKeepValue(op, slot);
      ExactDependsOnValue(slot, Apply(op, slot).0);
      OthersKeepCount(op, slot);
    } else {
      ChangeIs(op, slot);
      match op {
        case HSet(pairs) => HSetExact(slot, pairs);
        case HDel(names) => HDelExact(slot, names);
        case _ =>
          OtherTypesStay(op, slot);
          OthersKeepCount(op, slot);
      }
    }
  }

  lemma OthersKeepCount(op: Op, slot: Slot)
    requires !op.HSet? && !op.HDel?
    ensures KeepsCount(op, slot)
  {
  }

  lemma ExactDependsOnValue(slot: Slot, after: Slot)
    requires Exact(slot)
    requires after == None || after.value.value.Str? || (slot.Some? && after.value.value == slot.value.value)
    ensures Exact(after)
  {
  }

  lemma HSetExact(slot: Slot, pairs: seq<(bytes, bytes)>)
    requires Exact(slot) && OpFits(HSet(pairs), slot)
    ensures Exact(Dictionary.HSet(slot, pairs).0) <==> KeepsCount(HSet(pairs), slot)
  {
    hide Assign, Mentions, Distinct, Names;
    if !HoldsOtherType(slot) {
      HSetExactIff(slot, pairs);
    }
  }

  lemma HDelExact(slot: Slot, names: seq<bytes>)
    requires Exact(slot)
    ensures Exact(Dictionary.HDel(slot, names).0) <==> KeepsCount(HDel(names), slot)
  {
    hide Mentions, Distinct, ToSet;
    if slot.Some? && slot.value.value.Hash? {
      HDelExactIff(slot, names);
    } else {
      NothingIsDistinct(slot, names);
    }
  }

  lemma NothingIsDistinct(slot: Slot, names: seq<bytes>)
    requires slot.None? || HoldsOtherType(slot)
    ensures Distinct(FieldsOf(slot).Keys, names, true)
  {
  }

  lemma OtherTypesStay(op: Op, slot: Slot)
    requires Changes(op) && !op.HSet? && !op.HDel? && OpFits(op, slot) && Exact(slot)
    ensures Exact(Apply(op, slot).0)
  {
    hide Reverse, ToSet, Rescore, LastScores;
  }

  // ---- Counts over whole runs ---------------------------------------------------------------

  ghost predicate StepKeepsCount(dict: Dict, t: Timed) {
    t.command.OnKey? ==> KeepsCount(t.command.op, Live(dict, t.command.key, t.now))
  }

  ghost predicate AlwaysKeepsCount(dict: Dict, script: seq<Timed>)
    requires RunFits(dict, script)
  {
    script != [] ==>
      && AlwaysKeepsCount(dict, script[..|script| - 1])
      && StepKeepsCount(Run(dict, script[..|script| - 1]).0, script[|script| - 1])
  }

  /** The counts of all hashes are exact before a run and after each of its commands. */
  ghost predicate ExactThroughout(dict: Dict, script: seq<Timed>)
    requires RunFits(dict, script)
  {
    && (script != [] ==> ExactThroughout(dict, script[..|script| - 1]))
    && AllExact(Run(dict, script).0)
  }

  /**
   * HLEN stays exact throughout a run if and only if no HSET names a new field twice and every HDEL
   * names stored fields once each, or so often that it removes the hash.
   */
  lemma {:induction false} CountsStayExactIff(dict: Dict, script: seq<Timed>)
    requires RunFits(dict, script) && AllExact(dict)
    ensures ExactThroughout(dict, script) <==> AlwaysKeepsCount(dict, script)
  {
    if script != [] {
      hide Step, CommandFits, AllExact, StepKeepsCount;
      var init := script[..|script| - 1];
      CountsStayExactIff(dict, init);
      if ExactThroughout(dict, init) {
        assert AllExact(Run(dict, init).0);
        StepExactIff(Run(dict, init).0, script[|script| - 1]);
      }
    }
  }

  lemma StepExactIff(dict: Dict, t: Timed)
    requires CommandFits(dict, t) && AllExact(dict)
    ensures AllExact(Step(dict, t).0) <==> StepKeepsCount(dict, t)
  {
    hide Exact, Apply, OpFits, KeepsCount;
    if t.command.OnKey? {
      var key, op := t.command.key, t.command.op;
      var slot := Live(dict, key, t.now);
      NothingIsExact();
      ApplyExactIff(op, slot);
      var after := Apply(op, slot).0;
      assert after.Some? ==> key in Place(dict, key, after) && Some(Place(dict, key, after)[key]) == after;
    }
  }

  lemma NothingIsExact()
    ensures Exact(None)
  {
  }

  // ---- The plain dictionary --------------------------------------------------------------------

  /** A hash as it should be: the fields assigned or removed, counted by their number. */
  ghost function PlainApply(op: Op, slot: Slot): (Slot, Reply)
    requires OpFits(op, slot) && Exact(slot)
  {
    match op
    case HSet(pairs) =>
      if HoldsOtherType(slot) then (slot, Wrong)
      else
        var e := slot.GetOr(Entry(Hash(map[], 0), 0));
        var after := Assign(e.value.fields, pairs);
        AssignSize(e.value.fields, pairs);
        (Some(e.(value := Hash(after, |after|))), Number(|after| - |e.value.fields|))
    case HDel(names) =>
      if slot.None? then (None, Number(0))
      else if HoldsOtherType(slot) then (slot, Wrong)
      else
        var fields := slot.value.value.fields;
        var rest := fields - ToSet(names);
        RestSize(fields, ToSet(names));
        (if rest == map[] then None else Some(slot.value.(value := Hash(rest, |rest|))), Number(|fields| - |rest|))
    case _ => Apply(op, slot)
  }

  lemma {:induction false} AssignSize(fields: map<bytes, bytes>, pairs: seq<(bytes, bytes)>)
    ensures |Assign(fields, pairs)| <= |fields| + |pairs|
    decreases |pairs|
  {
    if pairs != [] {
      var init, last := pairs[..|pairs| - 1], pairs[|pairs| - 1];
      AssignSize(fields, init);
      var before, after := Assign(fields, init), Assign(fields, pairs);
      assert after.Keys == before.Keys + {last.0};
      assert |before| == |before.Keys| && |after| == |after.Keys|;
    }
  }

  lemma RestSize(fields: map<bytes, bytes>, gone: set<bytes>)
    ensures |fields - gone| <= |fields|
  {
    var rest := fields - gone;
    assert fields.Keys == rest.Keys + (fields.Keys * gone);
    assert |fields| == |fields.Keys| && |rest| == |rest.Keys|;
  }

  ghost predicate PlainFits(dict: Dict, t: Timed) {
    CommandFits(dict, t) && (t.command.OnKey? ==> Exact(Live(dict, t.command.key, t.now)))
  }

  ghost function PlainStep(dict: Dict, t: Timed): (Dict, Reply)
    requires PlainFits(dict, t)
  {
    if t.command.OnKey? then
      var (slot, reply) := PlainApply(t.command.op, Live(dict, t.command.key, t.now));
      (Place(dict, t.command.key, slot), reply)
    else Step(dict, t)
  }

  /** A run of the plain dictionary; it stops at a command for which it has no room. */
  ghost function PlainRun(dict: Dict, script: seq<Timed>): (r: (Dict, seq<Reply>))
    ensures |r.1| <= |script|
  {
    if script == [] then (dict, [])
    else
      var (before, replies) := PlainRun(dict, script[..|script| - 1]);
      var t := script[|script| - 1];
      if |replies| == |script| - 1 && PlainFits(before, t) then
        var (after, reply) := PlainStep(before, t);
        (after, replies + [reply])
      else (before, replies)
  }

  lemma PlainApplyIff(op: Op, slot: Slot)
    requires OpFits(op, slot) && Exact(slot)
    ensures Apply(op, slot).1 == PlainApply(op, slot).1 <==> Once(op, slot)
    ensures Once(op, slot) ==> Apply(op, slot) == PlainApply(op, slot)
  {
    hide Apply, PlainApply, OpFits, Exact, Once;
    match op
    case HSet(pairs) => PlainHSetIff(slot, pairs);
    case HDel(names) => PlainHDelIff(slot, names);
    case _ => OthersArePlain(op, slot);
  }

  lemma OthersArePlain(op: Op, slot: Slot)
    requires OpFits(op, slot) && Exact(slot) && !op.HSet? && !op.HDel?
    ensures Apply(op, slot) == PlainApply(op, slot) && Once(op, slot)
  {
    hide Apply, OpFits, Exact, Assign, ToSet;
  }

  lemma PlainHSetIff(slot: Slot, pairs: seq<(bytes, bytes)>)
    requires OpFits(HSet(pairs), slot) && Exact(slot)
    ensures Apply(HSet(pairs), slot).1 == PlainApply(HSet(pairs), slot).1 <==> Once(HSet(pairs), slot)
    ensures Once(HSet(pairs), slot) ==> Apply(HSet(pairs), slot) == PlainApply(HSet(pairs), slot)
  {
    hide Assign, Mentions, Distinct, Names;
    if !HoldsOtherType(slot) {
      HSetExactIff(slot, pairs);
    }
  }

  lemma PlainHDelIff(slot: Slot, names: seq<bytes>)
    requires Exact(slot)
    ensures Apply(HDel(names), slot).1 == PlainApply(HDel(names), slot).1 <==> Once(HDel(names), slot)
    ensures Once(HDel(names), slot) ==> Apply(HDel(names), slot) == PlainApply(HDel(names), slot)
  {
    hide Mentions, Distinct, ToSet;
    if slot.Some? && slot.value.value.Hash? {
      HDelExactIff(slot, names);
    } else {
      NothingIsDistinct(slot, names);
    }
  }

  ghost predicate StepOnce(dict: Dict, t: Timed) {
    t.command.OnKey? ==> Once(t.command.op, Live(dict, t.command.key, t.now))
  }

  /** No HSET of a run names a new field twice, and no HDEL a stored one, as things stand when its turn comes. */
  ghost predicate AlwaysOnce(dict: Dict, script: seq<Timed>)
    requires RunFits(dict, script)
  {
    script != [] ==>
      && AlwaysOnce(dict, script[..|script| - 1])
      && StepOnce(Run(dict, script[..|script| - 1]).0, script[|script| - 1])
  }

  lemma PlainStepIff(dict: Dict, t: Timed)
    requires CommandFits(dict, t) && AllExact(dict)
    ensures PlainFits(dict, t)
    ensures Step(dict, t).1 == PlainStep(dict, t).1 <==> StepOnce(dict, t)
    ensures StepOnce(dict, t) ==> Step(dict, t) == PlainStep(dict, t) && AllExact(Step(dict, t).0)
  {
    hide Exact, Apply, PlainApply, OpFits, Once, Place;
    NothingIsExact();
    if t.command.OnKey? {
      PlainApplyIff(t.command.op, Live(dict, t.command.key, t.now));
    }
    StepExactIff(dict, t);
  }

  /**
   * A run answers as a plain dictionary does, hashes included, if and only if no HSET names a new
   * field twice and no HDEL a stored one; and then it ends with the same contents.
   */
  lemma {:induction false} RunIsPlainIff(dict: Dict, script: seq<Timed>)
    requires RunFits(dict, script) && AllExact(dict)
    ensures Run(dict, script).1 == PlainRun(dict, script).1 <==> AlwaysOnce(dict, script)
    ensures AlwaysOnce(dict, script) ==> Run(dict, script) == PlainRun(dict, script) && AllExact(Run(dict, script).0)
  {
    if script != [] {
      hide Step, PlainStep, CommandFits, PlainFits, AllExact, StepOnce;
      var init, t := script[..|script| - 1], script[|script| - 1];
      var actual, plain := Run(dict, init), PlainRun(dict, init);
      RunIsPlainIff(dict, init);
      if AlwaysOnce(dict, init) {
        PlainStepIff(actual.0, t);
        SameSnoc(actual.1, Step(actual.0, t).1, plain.1, PlainStep(actual.0, t).1);
      } else if |PlainRun(dict, script).1| == |script| {
        SameSnoc(actual.1, Step(actual.0, t).1, plain.1, PlainStep(plain.0, t).1);
      }
    }
  }

  // ---- A condition on the arguments alone --------------------------------------------------------

  /** No call names a field twice. */
  predicate DistinctFields(op: Op) {
    match op
    case HSet(pairs) => forall i, j :: 0 <= i < j < |pairs| ==> pairs[i].0 != pairs[j].0
    case HDel(fields) => forall i, j :: 0 <= i < j < |fields| ==> fields[i] != fields[j]
    case _ => true
  }

  /** In particular, calls that name each field once answer as a plain dictionary throughout. */
  lemma {:induction false} DistinctFieldsArePlain(dict: Dict, script: seq<Timed>)
    requires RunFits(dict, script) && AllExact(dict)
    requires forall t :: t in script ==> t.command.OnKey? ==> DistinctFields(t.command.op)
    ensures AlwaysOnce(dict, script)
    ensures Run(dict, script) == PlainRun(dict, script) && AllExact(Run(dict, script).0)
  {
    if script != [] {
      hide DistinctFields, Once, Step, CommandFits, AllExact;
      var init, t := script[..|script| - 1], script[|script| - 1];
      assert t in script && forall u :: u in init ==> u in script;
      DistinctFieldsArePlain(dict, init);
      if t.command.OnKey? {
        DistinctIsOnce(t.command.op, Live(Run(dict, init).0, t.command.key, t.now));
      }
    }
    RunIsPlainIff(dict, script);
  }

  lemma DistinctIsOnce(op: Op, slot: Slot)
    requires DistinctFields(op)
    ensures Once(op, slot)
  {
  }
}
