/** How far member counts and list indexes can get in a run, and when no machine integer runs over. */
module RunBounds {
  import opened Common
  import opened Dictionary
  import opened Script
  import opened SortedSets

  // ---- List indexes --------------------------------------------------------------------

  /** The number of elements one operation pushes on one side. */
  function PushedBy(op: Op, left: bool): nat {
    if op.Push? && op.left == left then |op.values| else 0
  }

  /** All elements a run pushes on one side of one key. */
  function PushedOn(script: seq<Timed>, key: bytes, left: bool): nat {
    if script == [] then 0
    else
      var c := script[|script| - 1].command;
      PushedOn(script[..|script| - 1], key, left) + if c.OnKey? && c.key == key then PushedBy(c.op, left) else 0
  }

  predicate ListWithin(slot: Slot, lefts: nat, rights: nat) {
    slot.Some? && slot.value.value.List? ==>
      var (items, head) := (slot.value.value.items, slot.value.value.head);
      U63 - lefts <= head && head + |items| <= U63 + rights && head + |items| < U64
  }

  lemma ApplyKeepsListWithin(op: Op, slot: Slot, lefts: nat, rights: nat)
    requires OpFits(op, slot) && ListWithin(slot, lefts, rights)
    ensures ListWithin(Apply(op, slot).0, lefts + PushedBy(op, true), rights + PushedBy(op, false))
  {
    hide Apply;
    if !Changes(op) {
      OthersKeepValue(op, slot);
    } else {
      ChangeIs(op, slot);
      match op {
        case Push(values, left) => PushKeepsListWithin(slot, values, left, lefts, rights);
        case Pop(count, left) => PopKeepsListWithin(slot, count, left, lefts, rights);
        case _ => ChangeKeepsType(op, slot);
      }
    }
  }

  lemma ChangeKeepsType(op: Op, slot: Slot)
    requires Changes(op) && !op.Push? && !op.Pop? && OpFits(op, slot)
    ensures var after := Apply(op, slot).0;
            after == None || !after.value.value.List? || after == slot
  {
    hide Assign, Mentions, Names, ToSet, Rescore, LastScores;
  }

  lemma PushKeepsListWithin(slot: Slot, values: seq<bytes>, left: bool, lefts: nat, rights: nat)
    requires PushFits(slot, |values|, left) && ListWithin(slot, lefts, rights)
    ensures ListWithin(Dictionary.Push(slot, values, left).0,
                       lefts + if left then |values| else 0, rights + if left then 0 else |values|)
  {
    hide Reverse;
  }

  lemma PopKeepsListWithin(slot: Slot, count: u64, left: bool, lefts: nat, rights: nat)
    requires ListWithin(slot, lefts, rights)
    ensures ListWithin(Dictionary.Pop(slot, count, left).0, lefts, rights)
  {
    hide Reverse;
  }

  lemma StepAt(dict: Dict, t: Timed, key: bytes)
    requires CommandFits(dict, t)
    ensures At(Step(dict, t).0, key) ==
            match t.command
            case OnKey(k, op) => if k == key then Apply(op, Live(dict, key, t.now)).0 else At(dict, key)
            case FlushAll => None
            case _ => At(dict, key)
  {
    hide Apply, OpFits;
  }

  /**
   * With L elements pushed on the left and R on the right of a key, its list lies within
   * [2^63 - L, 2^63 + R), whatever was popped, deleted or expired in between.
   */
  lemma {:induction false} ListIndexBounds(script: seq<Timed>, key: bytes)
    requires RunFits(map[], script)
    ensures ListWithin(At(Run(map[], script).0, key), PushedOn(script, key, true), PushedOn(script, key, false))
  {
    if script != [] {
      hide Apply, OpFits, Step;
      var init, t := script[..|script| - 1], script[|script| - 1];
      var dict := Run(map[], init).0;
      ListIndexBounds(init, key);
      StepAt(dict, t, key);
      if t.command.OnKey? && t.command.key == key {
        var slot := Live(dict, key, t.now);
        assert slot == None || slot == At(dict, key);
        FittingOperation(t, dict);
        ApplyKeepsListWithin(t.command.op, slot, PushedOn(init, key, true), PushedOn(init, key, false));
      }
    }
  }

  lemma FittingOperation(t: Timed, dict: Dict)
    requires CommandFits(dict, t) && t.command.OnKey?
    ensures |t.command.key| < U32 && OpFits(t.command.op, Live(dict, t.command.key, t.now))
  {
  }

  // ---- Runs that fit ---------------------------------------------------------------------

  /** How many counted members an operation names. */
  function Counted(op: Op): nat {
    match op
    case HSet(pairs) => |pairs|
    case SAdd(members) => |members|
    case ZAdd(scored) => |scored|
    case _ => 0
  }

  /** All counted members a run names on one key. */
  function CountedOn(script: seq<Timed>, key: bytes): nat {
    if script == [] then 0
    else
      var c := script[|script| - 1].command;
      CountedOn(script[..|script| - 1], key) + if c.OnKey? && c.key == key then Counted(c.op) else 0
  }

  /** Arguments as the command layer passes them: not empty, scores not NaN. */
  predicate WellFormed(c: Command) {
    c.OnKey? ==>
      && |c.key| < U32
      && match c.op
         case HSet(pairs) => pairs != []
         case SAdd(members) => members != []
         case ZAdd(scored) => scored != [] && NoNaN(scored)
         case Push(values, _) => values != []
         case _ => true
  }

  predicate CountWithin(slot: Slot, named: nat) {
    match slot
    case None => true
    case Some(e) =>
      match e.value
      case Hash(_, count) => count <= named
      case Set(members) => |members| <= named
      case ZSet(scores) => |scores| <= named
      case _ => true
  }

  /** Within its bounds, a key has room for the next operation. */
  lemma WithinFits(op: Op, slot: Slot, named: nat, lefts: nat, rights: nat)
    requires CountWithin(slot, named) && named + Counted(op) < U32
    requires ListWithin(slot, lefts, rights) && lefts + PushedBy(op, true) + rights + PushedBy(op, false) < U63
    requires WellFormed(OnKey([], op))
    ensures OpFits(op, slot)
  {
  }

  lemma ApplyKeepsCountWithin(op: Op, slot: Slot, named: nat)
    requires CountWithin(slot, named) && OpFits(op, slot)
    ensures CountWithin(Apply(op, slot).0, named + Counted(op))
  {
    hide Apply, CountWithin, Fits, PushFits, NoNaN, Dictionary.HSet, Dictionary.HDel, Dictionary.SAdd, Dictionary.SRem,
        Dictionary.ZAdd, Dictionary.ZRem, Dictionary.Push, Dictionary.Pop;
    if !Changes(op) {
      OthersKeepValue(op, slot);
      WithinDependsOnValue(slot, Apply(op, slot).0, named);
    } else {
      ChangeIs(op, slot);
      match op {
        case HSet(pairs) => HSetWithin(slot, pairs, named);
        case HDel(fields) => HDelWithin(slot, fields, named);
        case SAdd(members) => SAddWithin(slot, members, named);
        case SRem(members) => SRemWithin(slot, members, named);
        case ZAdd(scored) => ZAddWithin(slot, scored, named);
        case ZRem(members) => ZRemWithin(slot, members, named);
        case Push(values, left) => PushWithin(slot, values, left, named);
        case Pop(count, left) => PopWithin(slot, count, left, named);
      }
    }
  }

  lemma WithinDependsOnValue(slot: Slot, after: Slot, named: nat)
    requires CountWithin(slot, named)
    requires after == None || after.value.value.Str? || (slot.Some? && after.value.value == slot.value.value)
    ensures CountWithin(after, named)
  {
  }

  lemma HSetWithin(slot: Slot, pairs: seq<(bytes, bytes)>, named: nat)
    requires CountWithin(slot, named) && Fits(slot, |pairs|)
    ensures CountWithin(Dictionary.HSet(slot, pairs).0, named + |pairs|)
  {
    hide Assign, Mentions, Names;
  }

  lemma HDelWithin(slot: Slot, fields: seq<bytes>, named: nat)
    requires CountWithin(slot, named)
    ensures CountWithin(Dictionary.HDel(slot, fields).0, named)
  {
    hide Mentions, ToSet;
  }

  lemma SAddWithin(slot: Slot, members: seq<bytes>, named: nat)
    requires CountWithin(slot, named)
    ensures CountWithin(Dictionary.SAdd(slot, members).0, named + |members|)
  {
    hide ToSet;
    if slot.None? || slot.value.value.Set? {
      SetGrows(slot.GetOr(Entry(Value.Set({}), 0)).value.members, members);
    }
  }

  lemma SRemWithin(slot: Slot, members: seq<bytes>, named: nat)
    requires CountWithin(slot, named)
    ensures CountWithin(Dictionary.SRem(slot, members).0, named)
  {
    hide ToSet;
    if slot.Some? && slot.value.value.Set? {
      SetShrinks(slot.value.value.members, ToSet(members));
    }
  }

  lemma ZAddWithin(slot: Slot, scored: seq<(u64, bytes)>, named: nat)
    requires CountWithin(slot, named) && NoNaN(scored)
    ensures CountWithin(Dictionary.ZAdd(slot, scored).0, named + |scored|)
  {
    hide Rescore, LastScores, NoNaN;
    if slot.None? || slot.value.value.ZSet? {
      ScoresGrow(slot.GetOr(Entry(Value.ZSet(map[]), 0)).value.scores, scored);
    }
  }

  lemma ZRemWithin(slot: Slot, members: seq<bytes>, named: nat)
    requires CountWithin(slot, named)
    ensures CountWithin(Dictionary.ZRem(slot, members).0, named)
  {
    hide ToSet;
    if slot.Some? && slot.value.value.ZSet? {
      var have := slot.value.value.scores;
      SetShrinks(have.Keys, ToSet(members));
      assert (have - ToSet(members)).Keys == have.Keys - ToSet(members);
      assert |have| == |have.Keys| && |have - ToSet(members)| == |(have - ToSet(members)).Keys|;
    }
  }

  lemma PushWithin(slot: Slot, values: seq<bytes>, left: bool, named: nat)
    requires CountWithin(slot, named) && PushFits(slot, |values|, left)
    ensures CountWithin(Dictionary.Push(slot, values, left).0, named)
  {
    hide Reverse;
  }

  lemma PopWithin(slot: Slot, count: u64, left: bool, named: nat)
    requires CountWithin(slot, named)
    ensures CountWithin(Dictionary.Pop(slot, count, left).0, named)
  {
    hide Reverse;
  }

  lemma SetGrows(have: set<bytes>, members: seq<bytes>)
    ensures |have + ToSet(members)| <= |have| + |members|
    decreases |members|
  {
    if members == [] {
      assert have + ToSet(members) == have;
    } else {
      var init, last := members[..|members| - 1], members[|members| - 1];
      SetGrows(have, init);
      assert ToSet(members) == ToSet(init) + {last};
      assert have + ToSet(members) == (have + ToSet(init)) + {last};
    }
  }

  lemma SetShrinks(have: set<bytes>, gone: set<bytes>)
    ensures |have - gone| <= |have|
  {
    assert have == (have - gone) + (have * gone);
  }

  lemma ScoresGrow(have: map<bytes, u64>, scored: seq<(u64, bytes)>)
    requires NoNaN(scored)
    ensures |Rescore(have, LastScores(scored))| <= |have| + |scored|
  {
    hide Rescore, LastScores, NoNaN;
    LastScoresOk(scored);
    var updates := LastScores(scored);
    RescoreSize(have, updates);
    assert have.Keys + updates.Keys == have.Keys + (updates.Keys - have.Keys);
    SetShrinks(updates.Keys, have.Keys);
  }

  lemma RescoreSize(have: map<bytes, u64>, updates: map<bytes, u64>)
    ensures |Rescore(have, updates)| == |have.Keys + updates.Keys| && |have| == |have.Keys|
  {
    assert Rescore(have, updates).Keys == have.Keys + updates.Keys;
    assert |Rescore(have, updates)| == |Rescore(have, updates).Keys|;
  }

  /** Each key's count and list lie within what the run has named and pushed on that key. */
  ghost predicate AllWithin(dict: Dict, script: seq<Timed>) {
    forall key ::
      && CountWithin(At(dict, key), CountedOn(script, key))
      && ListWithin(At(dict, key), PushedOn(script, key, true), PushedOn(script, key, false))
  }

  /** Fewer than 2^32 members named on a key, and fewer than 2^63 elements pushed on it. */
  ghost predicate KeysBounded(script: seq<Timed>) {
    forall key :: CountedOn(script, key) < U32 && PushedOn(script, key, true) + PushedOn(script, key, false) < U63
  }

  /**
   * From an empty store, no count, index or length of a run ever leaves its machine integer, as long
   * as each key stays below 2^32 counted members and 2^63 list elements, however many keys there are.
   */
  lemma {:induction false} BoundedRunsFit(script: seq<Timed>)
    requires KeysBounded(script)
    requires forall t :: t in script ==> WellFormed(t.command)
    ensures RunFits(map[], script) && AllWithin(Run(map[], script).0, script)
  {
    if script == [] {
      assert AllWithin(map[], []);
    } else {
      hide Apply, OpFits, CountWithin, ListWithin, WellFormed, Step, AllWithin, CountedOn, PushedOn;
      var init, t := script[..|script| - 1], script[|script| - 1];
      assert t in script && forall u :: u in init ==> u in script;
      forall key ensures CountedOn(init, key) < U32 && PushedOn(init, key, true) + PushedOn(init, key, false) < U63 {
        NamedSofar(script, key);
      }
      BoundedRunsFit(init);
      BoundedStep(Run(map[], init).0, script);
    }
  }

  /** What the last command adds to the bounds. */
  lemma NamedSofar(script: seq<Timed>, key: bytes)
    requires script != []
    ensures var (init, c) := (script[..|script| - 1], script[|script| - 1].command);
            if c.OnKey? && c.key == key then
              && CountedOn(script, key) == CountedOn(init, key) + Counted(c.op)
              && PushedOn(script, key, true) == PushedOn(init, key, true) + PushedBy(c.op, true)
              && PushedOn(script, key, false) == PushedOn(init, key, false) + PushedBy(c.op, false)
            else
              && CountedOn(script, key) == CountedOn(init, key)
              && PushedOn(script, key, true) == PushedOn(init, key, true)
              && PushedOn(script, key, false) == PushedOn(init, key, false)
  {
  }

  lemma BoundedStep(dict: Dict, script: seq<Timed>)
    requires script != [] && AllWithin(dict, script[..|script| - 1])
    requires KeysBounded(script) && WellFormed(script[|script| - 1].command)
    ensures CommandFits(dict, script[|script| - 1])
    ensures AllWithin(Step(dict, script[|script| - 1]).0, script)
  {
    hide Apply, OpFits, CountWithin, ListWithin, WellFormed, CountedOn, PushedOn;
    var init, t := script[..|script| - 1], script[|script| - 1];
    if t.command.OnKey? {
      var key, op := t.command.key, t.command.op;
      var slot := Live(dict, key, t.now);
      NamedSofar(script, key);
      WellFormedArguments(t.command);
      assert CountWithin(At(dict, key), CountedOn(init, key));
      NothingWithin(CountedOn(init, key), PushedOn(init, key, true), PushedOn(init, key, false));
      WithinFits(op, slot, CountedOn(init, key), PushedOn(init, key, true), PushedOn(init, key, false));
      ApplyKeepsCountWithin(op, slot, CountedOn(init, key));
      ApplyKeepsListWithin(op, slot, PushedOn(init, key, true), PushedOn(init, key, false));
    }
    forall key ensures CountWithin(At(Step(dict, t).0, key), CountedOn(script, key))
                    && ListWithin(At(Step(dict, t).0, key), PushedOn(script, key, true), PushedOn(script, key, false)) {
      assert CountWithin(At(dict, key), CountedOn(init, key));
      StepAt(dict, t, key);
      NamedSofar(script, key);
      NothingWithin(CountedOn(script, key), PushedOn(script, key, true), PushedOn(script, key, false));
    }
  }

  lemma NothingWithin(named: nat, lefts: nat, rights: nat)
    ensures CountWithin(None, named) && ListWithin(None, lefts, rights)
  {
  }

  lemma WellFormedArguments(c: Command)
    requires WellFormed(c) && c.OnKey?
    ensures |c.key| < U32 && WellFormed(OnKey([], c.op))
  {
  }

  // ---- Small runs ------------------------------------------------------------------------

  function TotalWeight(script: seq<Timed>): nat {
    if script == [] then 0
    else
      var c := script[|script| - 1].command;
      TotalWeight(script[..|script| - 1]) +
      if c.OnKey? then Counted(c.op) + PushedBy(c.op, true) + PushedBy(c.op, false) else 0
  }

  lemma {:induction false} KeyBelowTotal(script: seq<Timed>, key: bytes)
    ensures CountedOn(script, key) + PushedOn(script, key, true) + PushedOn(script, key, false) <= TotalWeight(script)
  {
    if script != [] {
      KeyBelowTotal(script[..|script| - 1], key);
    }
  }

  /** In particular, fewer than 2^32 added members and elements over all keys never exhaust an integer. */
  lemma SmallRunsFit(script: seq<Timed>)
    requires TotalWeight(script) < U32
    requires forall t :: t in script ==> WellFormed(t.command)
    ensures RunFits(map[], script) && AllWithin(Run(map[], script).0, script)
  {
    forall key ensures CountedOn(script, key) < U32 && PushedOn(script, key, true) + PushedOn(script, key, false) < U63 {
      KeyBelowTotal(script, key);
    }
    BoundedRunsFit(script);
  }
}
