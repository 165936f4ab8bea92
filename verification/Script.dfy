/** Operations as data, and what whole runs of them mean on the dictionary. */
module Script {
  import opened Common
  import opened Dictionary
  import opened SortedSets

  datatype Op =
    | Store(text: bytes, expireMs: u64)
    | Load
    | Exists
    | Type
    | Del
    | ExpireAt(deadline: u64)
    | PTtl(later: u64)
    | HSet(pairs: seq<(bytes, bytes)>)
    | HGet(field: bytes)
    | HGetAll
    | HDel(fields: seq<bytes>)
    | HLen
    | SAdd(members: seq<bytes>)
    | SRem(members: seq<bytes>)
    | SIsMember(member: bytes)
    | SMembers
    | SCard
    | ZAdd(scored: seq<(u64, bytes)>)
    | ZScore(member: bytes)
    | ZRem(members: seq<bytes>)
    | ZCard
    | ZRange(start: i64, stop: i64)
    | ZRangeByScore(min: u64, minExclusive: bool, max: u64, maxExclusive: bool)
    | Push(values: seq<bytes>, left: bool)
    | Pop(count: u64, left: bool)
    | LRange(start: i64, stop: i64)
    | LLen

  datatype Command = OnKey(key: bytes, op: Op) | DbSize | Compact | FlushAll

  /** A command with the wall clock it reads: milliseconds for deadlines, microseconds for versions. */
  datatype Timed = Timed(now: u64, micros: u64, command: Command)

  datatype Reply =
    | Done
    | Flag(on: bool)
    | Number(n: int)
    | Kind(name: string)
    | Maybe(text: Option<bytes>)
    | MaybeScore(score: Option<u64>)
    | Texts(texts: seq<bytes>)
    | Fields(fields: seq<(bytes, bytes)>)
    | Ranked(members: seq<(bytes, u64)>)
    | Wrong
    | Broken

  function Wrap<T>(r: Result<T>, f: T -> Reply): Reply {
    match r
    case Ok(value) => f(value)
    case WrongType => Wrong
    case Corruption => Broken
  }

  /** What one operation makes of its key's slot, and what it answers. */
  ghost function Apply(op: Op, slot: Slot): (Slot, Reply)
    requires OpFits(op, slot)
  {
    match op
    case Store(text, expireMs) => (Some(Entry(Str(text), expireMs)), Done)
    case Load => (slot, Wrap(GetOf(slot), v => Maybe(v)))
    case Exists => (slot, Flag(slot.Some?))
    case Type => (slot, Kind(TypeOf(slot)))
    case Del => (None, Flag(slot.Some?))
    case ExpireAt(deadline) => var (after, existed) := Dictionary.ExpireAt(slot, deadline); (after, Flag(existed))
    case PTtl(later) => (slot, Number(Dictionary.PTtl(slot, later)))
    case HSet(pairs) => var (after, r) := Dictionary.HSet(slot, pairs); (after, Wrap(r, n => Number(n)))
    case HGet(field) => (slot, Wrap(Dictionary.HGet(slot, field), v => Maybe(v)))
    case HGetAll => (slot, Wrap(Dictionary.HGetAll(slot), v => Fields(v)))
    case HDel(fields) => var (after, r) := Dictionary.HDel(slot, fields); (after, Wrap(r, n => Number(n)))
    case HLen => (slot, Wrap(Dictionary.HLen(slot), n => Number(n)))
    case SAdd(members) => var (after, r) := Dictionary.SAdd(slot, members); (after, Wrap(r, n => Number(n)))
    case SRem(members) => var (after, r) := Dictionary.SRem(slot, members); (after, Wrap(r, n => Number(n)))
    case SIsMember(member) => (slot, Wrap(Dictionary.SIsMember(slot, member), b => Flag(b)))
    case SMembers => (slot, Wrap(Dictionary.SMembers(slot), v => Texts(v)))
    case SCard => (slot, Wrap(Dictionary.SCard(slot), n => Number(n)))
    case ZAdd(scored) => var (after, r) := Dictionary.ZAdd(slot, scored); (after, Wrap(r, n => Number(n)))
    case ZScore(member) => (slot, Wrap(Dictionary.ZScore(slot, member), v => MaybeScore(v)))
    case ZRem(members) => var (after, r) := Dictionary.ZRem(slot, members); (after, Wrap(r, n => Number(n)))
    case ZCard => (slot, Wrap(Dictionary.ZCard(slot), n => Number(n)))
    case ZRange(start, stop) => (slot, Wrap(Dictionary.ZRange(slot, start, stop), v => Ranked(v)))
    case ZRangeByScore(min, minExclusive, max, maxExclusive) =>
      (slot, Wrap(Dictionary.ZRangeByScore(slot, min, minExclusive, max, maxExclusive), v => Ranked(v)))
    case Push(values, left) => var (after, r) := Dictionary.Push(slot, values, left); (after, Wrap(r, n => Number(n)))
    case Pop(count, left) => var (after, r) := Dictionary.Pop(slot, count, left); (after, Wrap(r, v => Texts(v)))
    case LRange(start, stop) => (slot, Wrap(Dictionary.LRange(slot, start, stop), v => Texts(v)))
    case LLen => (slot, Wrap(Dictionary.LLen(slot), n => Number(n)))
  }

  /** What callers guarantee: arguments the command layer lets through, and room for the machine integers. */
  ghost predicate OpFits(op: Op, slot: Slot) {
    match op
    case HSet(pairs) => pairs != [] && Fits(slot, |pairs|)
    case SAdd(members) => members != [] && Fits(slot, |members|)
    case ZAdd(scored) => scored != [] && NoNaN(scored) && Fits(slot, |scored|)
    case Push(values, left) => values != [] && PushFits(slot, |values|, left)
    case _ => true
  }

  ghost predicate CommandFits(dict: Dict, t: Timed) {
    match t.command
    case OnKey(key, op) => |key| < U32 && OpFits(op, Live(dict, key, t.now))
    case _ => true
  }

  ghost function Step(dict: Dict, t: Timed): (Dict, Reply)
    requires CommandFits(dict, t)
  {
    match t.command
    case OnKey(key, op) =>
      var (slot, reply) := Apply(op, Live(dict, key, t.now));
      (Place(dict, key, slot), reply)
    case DbSize => (dict, Number(|dict|))
    case Compact => (dict, Done)
    case FlushAll => (map[], Done)
  }

  /** Every command of a run meets its requirements when its turn comes. */
  ghost predicate RunFits(dict: Dict, script: seq<Timed>)
    decreases |script|, 0
  {
    script != [] ==>
      && RunFits(dict, script[..|script| - 1])
      && CommandFits(Run(dict, script[..|script| - 1]).0, script[|script| - 1])
  }

  /** The dictionary after a run, and all replies in order. */
  ghost function Run(dict: Dict, script: seq<Timed>): (r: (Dict, seq<Reply>))
    requires RunFits(dict, script)
    ensures |r.1| == |script|
    decreases |script|, 1
  {
    if script == [] then (dict, [])
    else
      var (before, replies) := Run(dict, script[..|script| - 1]);
      var (after, reply) := Step(before, script[|script| - 1]);
      (after, replies + [reply])
  }

  lemma RunSnoc(dict: Dict, script: seq<Timed>, i: nat)
    requires RunFits(dict, script) && i < |script|
    ensures RunFits(dict, script[..i]) && CommandFits(Run(dict, script[..i]).0, script[i])
    ensures RunFits(dict, script[..i + 1])
    ensures Run(dict, script[..i + 1]) ==
            var (after, reply) := Step(Run(dict, script[..i]).0, script[i]);
            (after, Run(dict, script[..i]).1 + [reply])
  {
    FitsPrefix(dict, script, i + 1);
    assert script[..i + 1][..i] == script[..i];
  }

  lemma {:induction false} FitsPrefix(dict: Dict, script: seq<Timed>, i: nat)
    requires RunFits(dict, script) && i <= |script|
    ensures RunFits(dict, script[..i])
    decreases |script|
  {
    if i < |script| {
      FitsPrefix(dict, script[..|script| - 1], i);
      assert script[..|script| - 1][..i] == script[..i];
    } else {
      assert script[..i] == script;
    }
  }

  // ---- Which operations change a value -----------------------------------------------

  predicate Changes(op: Op) {
    op.HSet? || op.HDel? || op.SAdd? || op.SRem? || op.ZAdd? || op.ZRem? || op.Push? || op.Pop?
  }

  /** All other operations keep the value, remove the key or store a string. */
  lemma OthersKeepValue(op: Op, slot: Slot)
    requires !Changes(op)
    ensures var after := Apply(op, slot).0;
            after == None || after.value.value.Str? || (slot.Some? && after.value.value == slot.value.value)
  {
  }

  lemma ChangeIs(op: Op, slot: Slot)
    requires Changes(op) && OpFits(op, slot)
    ensures Apply(op, slot).0 ==
            match op
            case HSet(pairs) => Dictionary.HSet(slot, pairs).0
            case HDel(fields) => Dictionary.HDel(slot, fields).0
            case SAdd(members) => Dictionary.SAdd(slot, members).0
            case SRem(members) => Dictionary.SRem(slot, members).0
            case ZAdd(scored) => Dictionary.ZAdd(slot, scored).0
            case ZRem(members) => Dictionary.ZRem(slot, members).0
            case Push(values, left) => Dictionary.Push(slot, values, left).0
            case Pop(count, left) => Dictionary.Pop(slot, count, left).0
            case _ => slot
  {
    hide Fits, PushFits, NoNaN, Dictionary.HSet, Dictionary.HDel, Dictionary.SAdd, Dictionary.SRem, Dictionary.ZAdd,
        Dictionary.ZRem, Dictionary.Push, Dictionary.Pop;
  }
}
