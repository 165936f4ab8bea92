/** What callers may rely on whatever the type of a key: what a reader answers after what was written. */
module ReadLaws {
  import opened Common
  import opened Dictionary
  import opened Script

  // ---- Asking and doing ---------------------------------------------------------------------

  ghost predicate Can(dict: Dict, key: bytes, op: Op, now: u64) {
    CommandFits(dict, Timed(now, 0, OnKey(key, op)))
  }

  /** What one command on a key answers ... */
  ghost function Ask(dict: Dict, key: bytes, op: Op, now: u64): Reply
    requires Can(dict, key, op, now)
  {
    Step(dict, Timed(now, 0, OnKey(key, op))).1
  }

  /** ... and what it leaves. */
  ghost function After(dict: Dict, key: bytes, op: Op, now: u64): Dict
    requires Can(dict, key, op, now)
  {
    Step(dict, Timed(now, 0, OnKey(key, op))).0
  }

  /** Both in terms of the key's slot. */
  lemma InSlots(dict: Dict, key: bytes, op: Op, now: u64)
    requires Can(dict, key, op, now)
    ensures OpFits(op, Live(dict, key, now))
    ensures Ask(dict, key, op, now) == Apply(op, Live(dict, key, now)).1
    ensures At(After(dict, key, op, now), key) == Apply(op, Live(dict, key, now)).0
  {
    hide Apply, OpFits;
  }

  lemma LiveIs(dict: Dict, key: bytes, now: u64)
    ensures var slot := At(dict, key);
            Live(dict, key, now) == if slot.Some? && !Expired(slot.value, now) then slot else None
  {
  }

  predicate Reads(op: Op) {
    || op.Load? || op.Exists? || op.Type? || op.PTtl?
    || op.HGet? || op.HGetAll? || op.HLen?
    || op.SIsMember? || op.SMembers? || op.SCard?
    || op.ZScore? || op.ZCard? || op.ZRange? || op.ZRangeByScore?
    || op.LRange? || op.LLen?
  }

  /** The name of the type an operation works on; none for those that work on any. */
  function Family(op: Op): string {
    match op
    case Load => "string"
    case HSet(_) => "hash"
    case HGet(_) => "hash"
    case HGetAll => "hash"
    case HDel(_) => "hash"
    case HLen => "hash"
    case SAdd(_) => "set"
    case SRem(_) => "set"
    case SIsMember(_) => "set"
    case SMembers => "set"
    case SCard => "set"
    case ZAdd(_) => "zset"
    case ZScore(_) => "zset"
    case ZRem(_) => "zset"
    case ZCard => "zset"
    case ZRange(_, _) => "zset"
    case ZRangeByScore(_, _, _, _) => "zset"
    case Push(_, _) => "list"
    case Pop(_, _) => "list"
    case LRange(_, _) => "list"
    case LLen => "list"
    case _ => ""
  }

  /** Reading changes nothing that can be read, at that time or later. */
  lemma ReadsLeave(dict: Dict, key: bytes, op: Op, now: u64)
    requires Reads(op) && |key| < U32
    ensures Can(dict, key, op, now)
    ensures Live(After(dict, key, op, now), key, now) == Live(dict, key, now)
  {
  }

  /** A command changes no other key. */
  lemma OtherKeysStay(dict: Dict, key: bytes, op: Op, now: u64, other: bytes)
    requires Can(dict, key, op, now) && other != key
    ensures At(After(dict, key, op, now), other) == At(dict, other)
  {
    hide Apply, OpFits;
  }

  /** A reader before and after a change, in terms of the key's slot. */
  lemma ReadAfter(dict: Dict, key: bytes, change: Op, read: Op, now: u64)
    requires Can(dict, key, change, now) && Changes(change) && Reads(read)
    ensures var (slot, after) := (Live(dict, key, now), After(dict, key, change, now));
            && OpFits(change, slot) && Ask(dict, key, change, now) == Apply(change, slot).1
            && Can(dict, key, read, now) && Ask(dict, key, read, now) == Apply(read, slot).1
            && Can(after, key, read, now) && Ask(after, key, read, now) == Apply(read, Apply(change, slot).0).1
  {
    hide Apply, OpFits, Ask, After, Changes;
    var slot, after := Live(dict, key, now), After(dict, key, change, now);
    ReadersFit(dict, key, read, now);
    ReadersFit(after, key, read, now);
    InSlots(dict, key, change, now);
    InSlots(dict, key, read, now);
    InSlots(after, key, read, now);
    LiveIs(dict, key, now);
    LiveIs(after, key, now);
    DeadlineStays(change, slot);
  }

  lemma DeadlineStays(op: Op, slot: Slot)
    requires OpFits(op, slot) && Changes(op)
    ensures var after := Apply(op, slot).0;
            after.Some? ==> after.value.expireMs == if slot.Some? then slot.value.expireMs else 0
  {
    hide Assign, Mentions, Names, ToSet, LastScores, Rescore, Reverse;
  }

  lemma ReadNow(dict: Dict, key: bytes, read: Op, now: u64)
    requires |key| < U32 && Reads(read)
    ensures Can(dict, key, read, now) && Ask(dict, key, read, now) == Apply(read, Live(dict, key, now)).1
  {
    hide Apply, Ask;
    ReadersFit(dict, key, read, now);
    InSlots(dict, key, read, now);
  }

  // ---- Types ------------------------------------------------------------------------------------

  /**
   * An operation answers wrong type exactly when the key lives and holds another type than the one
   * the operation works on; and then it changes nothing.
   */
  lemma WrongTypeIff(dict: Dict, key: bytes, op: Op, now: u64)
    requires Can(dict, key, op, now) && Family(op) != ""
    ensures Ask(dict, key, op, now) == Wrong <==>
            Ask(dict, key, Type, now) != Kind("none") && Ask(dict, key, Type, now) != Kind(Family(op))
    ensures Ask(dict, key, op, now) == Wrong ==> At(After(dict, key, op, now), key) == At(dict, key)
  {
    hide Apply, OpFits, Ask, After;
    ReadersFit(dict, key, Type, now);
    InSlots(dict, key, op, now);
    InSlots(dict, key, Type, now);
    LiveIs(dict, key, now);
    WrongSlotIff(op, Live(dict, key, now));
  }

  lemma WrongSlotIff(op: Op, slot: Slot)
    requires OpFits(op, slot) && Family(op) != ""
    ensures Apply(op, slot).1 == Wrong <==>
            Apply(Type, slot).1 != Kind("none") && Apply(Type, slot).1 != Kind(Family(op))
    ensures Apply(op, slot).1 == Wrong ==> Apply(op, slot).0 == slot && slot.Some?
  {
    if op.HSet? || op.HGet? || op.HGetAll? || op.HDel? || op.HLen? {
      WrongHashIff(op, slot);
    } else if op.SAdd? || op.SRem? || op.SIsMember? || op.SMembers? || op.SCard? {
      WrongSetIff(op, slot);
    } else {
      WrongOtherIff(op, slot);
    }
  }

  lemma WrongHashIff(op: Op, slot: Slot)
    requires OpFits(op, slot) && (op.HSet? || op.HGet? || op.HGetAll? || op.HDel? || op.HLen?)
    ensures Apply(op, slot).1 == Wrong <==> Apply(Type, slot).1 != Kind("none") && Apply(Type, slot).1 != Kind("hash")
    ensures Apply(op, slot).1 == Wrong ==> Apply(op, slot).0 == slot && slot.Some?
  {
    hide Assign, Mentions, Names, ByField, ToSet;
  }

  lemma WrongSetIff(op: Op, slot: Slot)
    requires OpFits(op, slot) && (op.SAdd? || op.SRem? || op.SIsMember? || op.SMembers? || op.SCard?)
    ensures Apply(op, slot).1 == Wrong <==> Apply(Type, slot).1 != Kind("none") && Apply(Type, slot).1 != Kind("set")
    ensures Apply(op, slot).1 == Wrong ==> Apply(op, slot).0 == slot && slot.Some?
  {
    hide ToSet;
  }

  lemma WrongOtherIff(op: Op, slot: Slot)
    requires OpFits(op, slot) && (op.Load? || Family(op) == "zset" || Family(op) == "list")
    ensures Apply(op, slot).1 == Wrong <==>
            Apply(Type, slot).1 != Kind("none") && Apply(Type, slot).1 != Kind(Family(op))
    ensures Apply(op, slot).1 == Wrong ==> Apply(op, slot).0 == slot && slot.Some?
  {
    hide ToSet, Ranking, LastScores, Rescore, Dictionary.Slice, Reverse, WithinScores;
  }

  /** TYPE answers none exactly when EXISTS says no. */
  lemma TypeNoneIff(dict: Dict, key: bytes, now: u64)
    requires |key| < U32
    ensures Ask(dict, key, Exists, now) == Flag(Ask(dict, key, Type, now) != Kind("none"))
  {
  }

  predicate Creates(op: Op) {
    op.HSet? || op.SAdd? || op.ZAdd? || op.Push?
  }

  /** An operation that creates a key gives it its type and no deadline. */
  lemma CreatedType(dict: Dict, key: bytes, op: Op, now: u64, later: u64)
    requires Can(dict, key, op, now) && Creates(op) && Ask(dict, key, Exists, now) == Flag(false)
    ensures var after := After(dict, key, op, now);
            && Ask(after, key, Type, later) == Kind(Family(op))
            && Ask(after, key, PTtl(later), later) == Number(-1)
  {
    hide Apply, OpFits, Ask, After;
    var after := After(dict, key, op, now);
    ReadersFit(dict, key, Exists, now);
    ReadersFit(after, key, Type, later);
    ReadersFit(after, key, PTtl(later), later);
    InSlots(dict, key, op, now);
    InSlots(dict, key, Exists, now);
    InSlots(after, key, Type, later);
    InSlots(after, key, PTtl(later), later);
    LiveIs(dict, key, now);
    LiveIs(after, key, later);
    ExistsIs(Live(dict, key, now));
    CreatedOne(op, Live(dict, key, now), later);
  }

  lemma CreatedOne(op: Op, slot: Slot, later: u64)
    requires OpFits(op, slot) && Creates(op) && slot == None
    ensures var after := Apply(op, slot).0;
            && after.Some? && !Expired(after.value, later)
            && Apply(Type, after).1 == Kind(Family(op)) && Apply(PTtl(later), after).1 == Number(-1)
  {
    hide Assign, Mentions, Names, ToSet, LastScores, Rescore, Reverse;
  }

  /** What a key holds changes its type only by SET, and its deadline only by SET and EXPIRE. */
  lemma TypeAndDeadlineStay(dict: Dict, key: bytes, op: Op, now: u64, later: u64)
    requires Can(dict, key, op, now) && !op.Store? && !op.ExpireAt?
    requires Ask(dict, key, Exists, now) == Flag(true)
    requires Ask(After(dict, key, op, now), key, Exists, now) == Flag(true)
    ensures var after := After(dict, key, op, now);
            && Ask(after, key, Type, now) == Ask(dict, key, Type, now)
            && Ask(after, key, PTtl(later), now) == Ask(dict, key, PTtl(later), now)
  {
    hide Apply, OpFits, Ask, After;
    var after := After(dict, key, op, now);
    InSlots(dict, key, op, now);
    ReadersFit(dict, key, Exists, now);
    ReadersFit(after, key, Exists, now);
    InSlots(dict, key, Exists, now);
    InSlots(after, key, Exists, now);
    LiveIs(dict, key, now);
    LiveIs(after, key, now);
    ExistsIs(Live(dict, key, now));
    ExistsIs(Live(after, key, now));
    TypeAndDeadlineAsked(dict, key, now, later);
    TypeAndDeadlineAsked(after, key, now, later);
    KeptOne(op, Live(dict, key, now), later);
  }

  lemma TypeAndDeadlineAsked(dict: Dict, key: bytes, now: u64, later: u64)
    requires |key| < U32
    ensures Can(dict, key, Type, now) && Ask(dict, key, Type, now) == Apply(Type, Live(dict, key, now)).1
    ensures Can(dict, key, PTtl(later), now)
    ensures Ask(dict, key, PTtl(later), now) == Apply(PTtl(later), Live(dict, key, now)).1
  {
    hide Apply, OpFits, Ask;
    ReadersFit(dict, key, Type, now);
    ReadersFit(dict, key, PTtl(later), now);
    InSlots(dict, key, Type, now);
    InSlots(dict, key, PTtl(later), now);
  }

  lemma KeptOne(op: Op, slot: Slot, later: u64)
    requires OpFits(op, slot) && !op.Store? && !op.ExpireAt? && slot.Some? && Apply(op, slot).0.Some?
    ensures var after := Apply(op, slot).0;
            && Apply(Type, after).1 == Apply(Type, slot).1
            && Apply(PTtl(later), after).1 == Apply(PTtl(later), slot).1
  {
    hide Assign, Mentions, Names, ToSet, LastScores, Rescore, Reverse;
  }

  // ---- Missing keys ---------------------------------------------------------------------------

  /** What is answered for a key that is missing or has expired. */
  lemma NothingIsThere(dict: Dict, key: bytes, op: Op, now: u64)
    requires Can(dict, key, op, now) && Ask(dict, key, Exists, now) == Flag(false)
    ensures match op
            case Load => Ask(dict, key, op, now) == Maybe(None)
            case Type => Ask(dict, key, op, now) == Kind("none")
            case Del => Ask(dict, key, op, now) == Flag(false)
            case ExpireAt(_) => Ask(dict, key, op, now) == Flag(false)
            case PTtl(_) => Ask(dict, key, op, now) == Number(-2)
            case HGet(_) => Ask(dict, key, op, now) == Maybe(None)
            case HGetAll => Ask(dict, key, op, now) == Fields([])
            case HDel(_) => Ask(dict, key, op, now) == Number(0)
            case HLen => Ask(dict, key, op, now) == Number(0)
            case SRem(_) => Ask(dict, key, op, now) == Number(0)
            case SIsMember(_) => Ask(dict, key, op, now) == Flag(false)
            case SMembers => Ask(dict, key, op, now) == Texts([])
            case SCard => Ask(dict, key, op, now) == Number(0)
            case ZScore(_) => Ask(dict, key, op, now) == MaybeScore(None)
            case ZRem(_) => Ask(dict, key, op, now) == Number(0)
            case ZCard => Ask(dict, key, op, now) == Number(0)
            case ZRange(_, _) => Ask(dict, key, op, now) == Ranked([])
            case ZRangeByScore(_, _, _, _) => Ask(dict, key, op, now) == Ranked([])
            case Pop(_, _) => Ask(dict, key, op, now) == Texts([])
            case LRange(_, _) => Ask(dict, key, op, now) == Texts([])
            case LLen => Ask(dict, key, op, now) == Number(0)
            case _ => true
    ensures !Creates(op) && !op.Store? ==> Ask(After(dict, key, op, now), key, Exists, now) == Flag(false)
  {
    hide Assign, Mentions, Names, ToSet, LastScores, Rescore, Reverse;
  }

  lemma NeverWritten(dict: Dict, key: bytes, now: u64)
    requires |key| < U32 && key !in dict
    ensures Ask(dict, key, Exists, now) == Flag(false)
  {
  }

  // ---- Strings, deadlines, deletion -----------------------------------------------------------------

  /** SET, then any of the readers of a string: they answer until the deadline and not from it on. */
  lemma SetThenRead(dict: Dict, key: bytes, text: bytes, expireMs: u64, now: u64, later: u64)
    requires |key| < U32
    ensures Can(dict, key, Store(text, expireMs), now) && Ask(dict, key, Store(text, expireMs), now) == Done
    ensures var after := After(dict, key, Store(text, expireMs), now);
            if expireMs == 0 || later < expireMs then
              && Ask(after, key, Load, later) == Maybe(Some(text))
              && Ask(after, key, Exists, later) == Flag(true)
              && Ask(after, key, Type, later) == Kind("string")
            else
              Ask(after, key, Exists, later) == Flag(false)
  {
  }

  /** PTTL after SET: no deadline, or what is left of it; a clock that has moved on meanwhile leaves nothing. */
  lemma SetThenPTtl(dict: Dict, key: bytes, text: bytes, expireMs: u64, now: u64, later: u64, read: u64)
    requires |key| < U32 && expireMs < U63 && (expireMs == 0 || later < expireMs)
    ensures var after := After(dict, key, Store(text, expireMs), now);
            Ask(after, key, PTtl(read), later) ==
            Number(if expireMs == 0 then -1 else if read < expireMs then expireMs - read else 0)
  {
  }

  /** EXPIRE answers whether the key lives; it then lives exactly until the deadline, with what it holds. */
  lemma ExpireThenRead(dict: Dict, key: bytes, deadline: u64, now: u64, later: u64, op: Op)
    requires |key| < U32 && Reads(op) && !op.PTtl?
    ensures Can(dict, key, ExpireAt(deadline), now) && Can(dict, key, op, now)
    ensures var after := After(dict, key, ExpireAt(deadline), now);
            && Can(after, key, op, later)
            && Ask(dict, key, ExpireAt(deadline), now) == Ask(dict, key, Exists, now)
            && Ask(after, key, Exists, later) ==
                 Flag(Ask(dict, key, Exists, now) == Flag(true) && (deadline == 0 || later < deadline))
            && (Ask(after, key, Exists, later) == Flag(true) ==> Ask(after, key, op, later) == Ask(dict, key, op, now))
  {
    hide Apply, Ask, After;
    ReadersFit(dict, key, op, now);
    var after := After(dict, key, ExpireAt(deadline), now);
    ReadersFit(after, key, op, later);
    ExistsIs(Live(dict, key, now));
    ExistsIs(Live(after, key, later));
    InSlots(dict, key, ExpireAt(deadline), now);
    InSlots(dict, key, Exists, now);
    InSlots(dict, key, op, now);
    InSlots(after, key, Exists, later);
    InSlots(after, key, op, later);
    LiveIs(dict, key, now);
    LiveIs(after, key, later);
    var slot := Live(dict, key, now);
    ExpireSlot(slot, deadline, later);
    if Live(after, key, later).Some? {
      ValueAnswers(op, slot, Live(after, key, later));
    }
  }

  lemma ReadersFit(dict: Dict, key: bytes, op: Op, now: u64)
    requires |key| < U32 && (Reads(op) || op.ExpireAt?)
    ensures Can(dict, key, op, now)
  {
  }

  lemma ExpireSlot(slot: Slot, deadline: u64, later: u64)
    ensures var (after, reply) := Apply(ExpireAt(deadline), slot);
            && reply == Apply(Exists, slot).1 && (after.Some? <==> slot.Some?)
            && (after.Some? ==> after.value.value == slot.value.value)
            && (after.Some? && Expired(after.value, later) <==> slot.Some? && deadline != 0 && deadline <= later)
  {
  }

  lemma ExistsIs(slot: Slot)
    ensures Apply(Exists, slot).1 == Flag(slot.Some?)
  {
  }

  /** Readers other than PTTL answer from the value alone. */
  lemma ValueAnswers(op: Op, a: Slot, b: Slot)
    requires Reads(op) && !op.PTtl? && a.Some? && b.Some? && a.value.value == b.value.value
    ensures Apply(op, a).1 == Apply(op, b).1
  {
    hide ByField, Ranking, Dictionary.Slice, WithinScores;
  }

  lemma ExpireThenPTtl(dict: Dict, key: bytes, deadline: u64, now: u64, later: u64, read: u64)
    requires |key| < U32 && Ask(dict, key, Exists, now) == Flag(true) && 0 < deadline < U63 && later < deadline
    ensures Ask(After(dict, key, ExpireAt(deadline), now), key, PTtl(read), later) ==
            Number(if read < deadline then deadline - read else 0)
  {
  }

  /** DEL answers whether the key lives, and it does not live any more. */
  lemma DelThenRead(dict: Dict, key: bytes, now: u64, later: u64)
    requires |key| < U32
    ensures Can(dict, key, Del, now) && Ask(dict, key, Del, now) == Ask(dict, key, Exists, now)
    ensures Ask(After(dict, key, Del, now), key, Exists, later) == Flag(false)
  {
  }

  /** As long as a key lives, time alone changes no answer but PTTL's. */
  lemma TimePasses(dict: Dict, key: bytes, op: Op, now: u64, later: u64)
    requires |key| < U32 && Reads(op) && !op.PTtl?
    requires Ask(dict, key, Exists, now) == Flag(true) && Ask(dict, key, Exists, later) == Flag(true)
    ensures Can(dict, key, op, now) && Can(dict, key, op, later)
    ensures Ask(dict, key, op, later) == Ask(dict, key, op, now)
  {
    hide ByField, Ranking, Slice, WithinScores;
  }

  // ---- Commands on no key ------------------------------------------------------------------------------

  lemma FlushThenRead(dict: Dict, t: Timed, key: bytes, later: u64)
    requires |key| < U32 && t.command.FlushAll?
    ensures Step(dict, t).1 == Done && Ask(Step(dict, t).0, key, Exists, later) == Flag(false)
    ensures Step(Step(dict, t).0, t.(command := DbSize)).1 == Number(0)
  {
  }

  /** DBSIZE counts one key more after a SET of a key not stored before, and as many otherwise. */
  lemma SetThenDbSize(dict: Dict, key: bytes, text: bytes, expireMs: u64, t: Timed)
    requires |key| < U32 && t.command.DbSize?
    ensures Step(After(dict, key, Store(text, expireMs), t.now), t).1
         == Number(Step(dict, t).1.n + if key in dict then 0 else 1)
  {
    SizeWith(dict, key, Entry(Str(text), expireMs));
  }

  lemma SizeWith(dict: Dict, key: bytes, e: Entry)
    ensures |dict[key := e]| == |dict| + if key in dict then 0 else 1
  {
    var after := dict[key := e];
    assert after.Keys == dict.Keys + {key};
    assert |after| == |after.Keys| && |dict| == |dict.Keys|;
  }

  // ---- Over whole runs ------------------------------------------------------------------------------------

  predicate Touches(c: Command, key: bytes) {
    (c.OnKey? && c.key == key) || c.FlushAll?
  }

  /** A key holds what it held as long as no command names it and none empties the store. */
  lemma {:induction false} Holds(dict: Dict, script: seq<Timed>, i: nat, j: nat, key: bytes)
    requires RunFits(dict, script) && i <= j <= |script|
    requires forall k :: i <= k < j ==> !Touches(script[k].command, key)
    ensures RunFits(dict, script[..i]) && RunFits(dict, script[..j])
    ensures At(Run(dict, script[..j]).0, key) == At(Run(dict, script[..i]).0, key)
    decreases j
  {
    hide Step, CommandFits, Run;
    FitsPrefix(dict, script, i);
    FitsPrefix(dict, script, j);
    if i < j {
      Holds(dict, script, i, j - 1, key);
      RunSnoc(dict, script, j - 1);
      StepLeaves(Run(dict, script[..j - 1]).0, script[j - 1], key);
    }
  }

  lemma StepLeaves(dict: Dict, t: Timed, key: bytes)
    requires CommandFits(dict, t) && !Touches(t.command, key)
    ensures At(Step(dict, t).0, key) == At(dict, key)
  {
    hide Apply, OpFits;
  }

  /** The `j`-th reply of a run is that of its `j`-th command, in the state the commands before it have left. */
  lemma {:induction false} ReplyOf(dict: Dict, script: seq<Timed>, j: nat)
    requires RunFits(dict, script) && j < |script|
    ensures RunFits(dict, script[..j]) && CommandFits(Run(dict, script[..j]).0, script[j])
    ensures Run(dict, script).1[j] == Step(Run(dict, script[..j]).0, script[j]).1
    decreases |script|
  {
    hide Step, CommandFits;
    RunSnoc(dict, script, j);
    var init := script[..|script| - 1];
    if j < |init| {
      ReplyOf(dict, init, j);
      assert init[..j] == script[..j];
    } else {
      assert script[..j] == init;
    }
  }

  /** What a reader answers in a run is settled by the last command before it that names its key. */
  lemma AnswersFrom(dict: Dict, script: seq<Timed>, i: nat, j: nat, key: bytes)
    requires RunFits(dict, script) && i < j < |script| && |key| < U32
    requires script[j].command.OnKey? && script[j].command.key == key && Reads(script[j].command.op)
    requires forall k :: i < k < j ==> !Touches(script[k].command, key)
    ensures RunFits(dict, script[..i]) && CommandFits(Run(dict, script[..i]).0, script[i])
    ensures var after := Step(Run(dict, script[..i]).0, script[i]).0;
            Can(after, key, script[j].command.op, script[j].now)
            && Run(dict, script).1[j] == Ask(after, key, script[j].command.op, script[j].now)
  {
    hide Apply;
    Holds(dict, script, i + 1, j, key);
    RunSnoc(dict, script, i);
    ReplyOf(dict, script, j);
    var before, after := Run(dict, script[..j]).0, Run(dict, script[..i + 1]).0;
    assert At(before, key) == At(after, key);
    assert Live(before, key, script[j].now) == Live(after, key, script[j].now);
  }

  /**
   * In any run, a GET answers the text of the last SET of its key while the deadline has not passed,
   * and nothing from then on, if no command has named the key in between and none emptied the store.
   */
  lemma GetAnswersSet(dict: Dict, script: seq<Timed>, i: nat, j: nat, key: bytes, text: bytes, expireMs: u64)
    requires RunFits(dict, script) && i < j < |script|
    requires script[i].command == OnKey(key, Store(text, expireMs)) && script[j].command == OnKey(key, Load)
    requires forall k :: i < k < j ==> !Touches(script[k].command, key)
    ensures Run(dict, script).1[j] == Maybe(if expireMs == 0 || script[j].now < expireMs then Some(text) else None)
  {
    hide Run, RunFits;
    ReplyOf(dict, script, i);
    AnswersFrom(dict, script, i, j, key);
    var before := Run(dict, script[..i]).0;
    SetThenRead(before, key, text, expireMs, script[i].now, script[j].now);
    var after := After(before, key, Store(text, expireMs), script[i].now);
    assert after == Step(before, script[i]).0;
    if Ask(after, key, Exists, script[j].now) == Flag(false) {
      NothingIsThere(after, key, Load, script[j].now);
    }
  }
}
