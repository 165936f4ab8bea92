/** Whole runs of the store, with background compaction free to strike at any point of any operation. */
module Runs {
  import opened Common
  import opened Dictionary
  import opened Representation
  import opened SortedSets
  import opened Store
  import opened Script
  import opened HashRuns

  /** Dispatches one command on one key. */
  method ExecuteOnKey(store: Store, key: bytes, op: Op, now: u64, micros: u64) returns (reply: Reply)
    requires store.Valid() && |key| < U32 && store.Fresh(micros)
    requires OpFits(op, store.SlotAt(key, now))
    modifies store.engine`data, store.versions, store.clock, store`issued
    ensures store.Valid() && store.Ticked(micros)
    ensures var (slot, answer) := Apply(op, old(store.SlotAt(key, now)));
            reply == answer && store.Contents() == Place(old(store.Contents()), key, slot)
  {
    hide Place, Live, Inv, Abs;
    if op.HSet? || op.HGet? || op.HGetAll? || op.HDel? || op.HLen? {
      reply := ExecuteOnHash(store, key, op, now, micros);
    } else if op.SAdd? || op.SRem? || op.SIsMember? || op.SMembers? || op.SCard? {
      reply := ExecuteOnSet(store, key, op, now, micros);
    } else if op.ZAdd? || op.ZScore? || op.ZRem? || op.ZCard? || op.ZRange? || op.ZRangeByScore? {
      reply := ExecuteOnZSet(store, key, op, now, micros);
    } else if op.Push? || op.Pop? || op.LRange? || op.LLen? {
      reply := ExecuteOnList(store, key, op, now, micros);
    } else {
      reply := ExecuteOnAny(store, key, op, now, micros);
    }
  }

  method ExecuteOnAny(store: Store, key: bytes, op: Op, now: u64, micros: u64) returns (reply: Reply)
    requires store.Valid() && |key| < U32 && store.Fresh(micros)
    requires op.Store? || op.Load? || op.Exists? || op.Type? || op.Del? || op.ExpireAt? || op.PTtl?
    modifies store.engine`data, store.versions, store.clock, store`issued
    ensures store.Valid() && store.Ticked(micros)
    ensures var (slot, answer) := Apply(op, old(store.SlotAt(key, now)));
            reply == answer && store.Contents() == Place(old(store.Contents()), key, slot)
  {
    hide Place, Live, Inv, Abs;
    match op {
      case Store(text, expireMs) =>
        store.Set(key, text, expireMs, micros);
        reply := Done;
      case Load =>
        var r := store.Get(key, now);
        reply := Wrap(r, v => Maybe(v));
      case Exists =>
        var r := store.Exists(key, now);
        reply := Wrap(r, b => Flag(b));
      case Type =>
        var r := store.TypeOf(key, now);
        reply := Wrap(r, k => Kind(k));
      case Del =>
        var r := store.Del(key, now);
        reply := Wrap(r, b => Flag(b));
      case ExpireAt(deadline) =>
        var r := store.ExpireAt(key, deadline, now);
        reply := Wrap(r, b => Flag(b));
      case PTtl(later) =>
        var r := store.PTtl(key, now, later);
        reply := Wrap(r, (n: i64) => Number(n));
    }
  }

  method ExecuteOnHash(store: Store, key: bytes, op: Op, now: u64, micros: u64) returns (reply: Reply)
    requires store.Valid() && |key| < U32 && store.Fresh(micros)
    requires op.HSet? || op.HGet? || op.HGetAll? || op.HDel? || op.HLen?
    requires OpFits(op, store.SlotAt(key, now))
    modifies store.engine`data, store.versions, store.clock, store`issued
    ensures store.Valid() && store.Ticked(micros)
    ensures var (slot, answer) := Apply(op, old(store.SlotAt(key, now)));
            reply == answer && store.Contents() == Place(old(store.Contents()), key, slot)
  {
    hide Place, Live, Inv, Abs, Dictionary.HSet, Dictionary.HGet, Dictionary.HGetAll, Dictionary.HDel,
        Dictionary.HLen, Fits;
    match op {
      case HSet(pairs) =>
        var r := store.HSet(key, pairs, now, micros);
        reply := Wrap(r, n => Number(n));
      case HGet(field) =>
        var r := store.HGet(key, field, now);
        reply := Wrap(r, v => Maybe(v));
      case HGetAll =>
        var r := store.HGetAll(key, now);
        reply := Wrap(r, v => Fields(v));
      case HDel(fields) =>
        var r := store.HDel(key, fields, now);
        reply := Wrap(r, n => Number(n));
      case HLen =>
        var r := store.HLen(key, now);
        reply := Wrap(r, n => Number(n));
    }
  }

  method ExecuteOnSet(store: Store, key: bytes, op: Op, now: u64, micros: u64) returns (reply: Reply)
    requires store.Valid() && |key| < U32 && store.Fresh(micros)
    requires op.SAdd? || op.SRem? || op.SIsMember? || op.SMembers? || op.SCard?
    requires OpFits(op, store.SlotAt(key, now))
    modifies store.engine`data, store.versions, store.clock, store`issued
    ensures store.Valid() && store.Ticked(micros)
    ensures var (slot, answer) := Apply(op, old(store.SlotAt(key, now)));
            reply == answer && store.Contents() == Place(old(store.Contents()), key, slot)
  {
    hide Place, Live, Inv, Abs, Dictionary.SAdd, Dictionary.SRem, Dictionary.SIsMember, Dictionary.SMembers,
        Dictionary.SCard, Fits;
    match op {
      case SAdd(members) =>
        var r := store.SAdd(key, members, now, micros);
        reply := Wrap(r, n => Number(n));
      case SRem(members) =>
        var r := store.SRem(key, members, now);
        reply := Wrap(r, n => Number(n));
      case SIsMember(member) =>
        var r := store.SIsMember(key, member, now);
        reply := Wrap(r, b => Flag(b));
      case SMembers =>
        var r := store.SMembers(key, now);
        reply := Wrap(r, v => Texts(v));
      case SCard =>
        var r := store.SCard(key, now);
        reply := Wrap(r, n => Number(n));
    }
  }

  method ExecuteOnZSet(store: Store, key: bytes, op: Op, now: u64, micros: u64) returns (reply: Reply)
    requires store.Valid() && |key| < U32 && store.Fresh(micros)
    requires op.ZAdd? || op.ZScore? || op.ZRem? || op.ZCard? || op.ZRange? || op.ZRangeByScore?
    requires OpFits(op, store.SlotAt(key, now))
    modifies store.engine`data, store.versions, store.clock, store`issued
    ensures store.Valid() && store.Ticked(micros)
    ensures var (slot, answer) := Apply(op, old(store.SlotAt(key, now)));
            reply == answer && store.Contents() == Place(old(store.Contents()), key, slot)
  {
    hide Place, Live, Inv, Abs, Dictionary.ZAdd, Dictionary.ZScore, Dictionary.ZRem, Dictionary.ZCard,
        Dictionary.ZRange, Dictionary.ZRangeByScore, Fits, NoNaN;
    match op {
      case ZAdd(scored) =>
        var r := store.ZAdd(key, scored, now, micros);
        reply := Wrap(r, n => Number(n));
      case ZScore(member) =>
        var r := store.ZScore(key, member, now);
        reply := Wrap(r, v => MaybeScore(v));
      case ZRem(members) =>
        var r := store.ZRem(key, members, now);
        reply := Wrap(r, n => Number(n));
      case ZCard =>
        var r := store.ZCard(key, now);
        reply := Wrap(r, n => Number(n));
      case ZRange(start, stop) =>
        var r := store.ZRange(key, start, stop, now);
        reply := Wrap(r, v => Ranked(v));
      case ZRangeByScore(min, minExclusive, max, maxExclusive) =>
        var r := store.ZRangeByScore(key, min, minExclusive, max, maxExclusive, now);
        reply := Wrap(r, v => Ranked(v));
    }
  }

  method ExecuteOnList(store: Store, key: bytes, op: Op, now: u64, micros: u64) returns (reply: Reply)
    requires store.Valid() && |key| < U32 && store.Fresh(micros)
    requires op.Push? || op.Pop? || op.LRange? || op.LLen?
    requires OpFits(op, store.SlotAt(key, now))
    modifies store.engine`data, store.versions, store.clock, store`issued
    ensures store.Valid() && store.Ticked(micros)
    ensures var (slot, answer) := Apply(op, old(store.SlotAt(key, now)));
            reply == answer && store.Contents() == Place(old(store.Contents()), key, slot)
  {
    hide Place, Live, Inv, Abs, Dictionary.Push, Dictionary.Pop, Dictionary.LRange, Dictionary.LLen, PushFits;
    match op {
      case Push(values, left) =>
        var r := store.Push(key, values, left, now, micros);
        reply := Wrap(r, n => Number(n));
      case Pop(count, left) =>
        var r := store.Pop(key, count, left, now);
        reply := Wrap(r, v => Texts(v));
      case LRange(start, stop) =>
        var r := store.LRange(key, start, stop, now);
        reply := Wrap(r, v => Texts(v));
      case LLen =>
        var r := store.LLen(key, now);
        reply := Wrap(r, n => Number(n));
    }
  }

  method Execute(store: Store, t: Timed) returns (reply: Reply)
    requires store.Valid() && store.Fresh(t.micros) && CommandFits(store.Contents(), t)
    modifies store.engine`data, store.versions, store.clock, store`issued
    ensures store.Valid() && store.Ticked(t.micros)
    ensures (store.Contents(), reply) == Step(old(store.Contents()), t)
  {
    hide Place, Live, Inv, Abs, Apply, OpFits;
    match t.command {
      case OnKey(key, op) =>
        reply := ExecuteOnKey(store, key, op, t.now, t.micros);
      case DbSize =>
        var n := store.DbSize();
        reply := Number(n);
      case Compact =>
        store.Compact();
        reply := Done;
      case FlushAll =>
        store.FlushAll();
        reply := Done;
    }
  }

  /** The highest version a run can issue from a counter: one more, or the clock, for each command. */
  function Latest(value: nat, script: seq<Timed>): nat {
    if script == [] then value else Max(Latest(value, script[..|script| - 1]) + 1, script[|script| - 1].micros)
  }

  lemma {:induction false} LatestBounded(value: nat, script: seq<Timed>)
    requires value < U63 && forall t :: t in script ==> t.micros < U63
    ensures value <= Latest(value, script) < U63 + |script|
  {
    if script != [] {
      assert script[|script| - 1] in script;
      LatestBounded(value, script[..|script| - 1]);
    }
  }

  /**
   * Refinement for every run: whatever garbage earlier versions left and whatever compaction does
   * meanwhile, all replies and the final contents are those of the dictionary. Either the counter or
   * the clock is past the versions issued before.
   */
  method Replay(store: Store, script: seq<Timed>) returns (replies: seq<Reply>)
    requires store.Valid() && RunFits(store.Contents(), script)
    requires store.clock.value < U63 && |script| < U63
    requires forall t :: t in script ==> t.micros < U63
    requires store.issued <= store.clock.value || forall t :: t in script ==> store.issued < t.micros
    modifies store.engine`data, store.versions, store.clock, store`issued
    ensures store.Valid() && old(store.clock.value) <= store.clock.value <= Latest(old(store.clock.value), script)
    ensures store.issued <= store.clock.value || store.issued == old(store.issued)
    ensures (store.Contents(), replies) == Run(old(store.Contents()), script)
  {
    hide Inv, Abs, Step, CommandFits, RunFits;
    ghost var dict, start := store.Contents(), store.clock.value;
    RunFromNothing(dict, script);
    replies := [];
    for i := 0 to |script|
      invariant store.Valid() && start <= store.clock.value <= Latest(start, script[..i])
      invariant store.issued <= store.clock.value || store.issued == old(store.issued)
      invariant store.issued <= store.clock.value || forall t :: t in script ==> store.issued < t.micros
      invariant RunFits(dict, script[..i]) && (store.Contents(), replies) == Run(dict, script[..i])
    {
      RunSnoc(dict, script, i);
      LatestBounded(start, script[..i]);
      assert script[..i + 1][..i] == script[..i];
      var reply := Execute(store, script[i]);
      replies := replies + [reply];
    }
    assert script[..|script|] == script;
  }

  /**
   * Refinement of the plain dictionary, whose hashes count their fields: the replies are its replies
   * if and only if no HSET names a new field twice and no HDEL a stored one, and then so are the contents.
   */
  method ReplayPlainly(store: Store, script: seq<Timed>) returns (replies: seq<Reply>)
    requires store.Valid() && RunFits(store.Contents(), script) && AllExact(store.Contents())
    requires store.clock.value < U63 && |script| < U63
    requires forall t :: t in script ==> t.micros < U63
    requires store.issued <= store.clock.value || forall t :: t in script ==> store.issued < t.micros
    modifies store.engine`data, store.versions, store.clock, store`issued
    ensures store.Valid()
    ensures replies == PlainRun(old(store.Contents()), script).1 <==> AlwaysOnce(old(store.Contents()), script)
    ensures AlwaysOnce(old(store.Contents()), script) ==>
              (store.Contents(), replies) == PlainRun(old(store.Contents()), script) && AllExact(store.Contents())
  {
    hide Inv, Abs, RunFits, Run, PlainRun, AlwaysOnce, AllExact;
    RunIsPlainIff(store.Contents(), script);
    replies := Replay(store, script);
  }

  lemma RunFromNothing(dict: Dict, script: seq<Timed>)
    requires RunFits(dict, script)
    ensures RunFits(dict, script[..0]) && Run(dict, script[..0]) == (dict, [])
  {
  }

  /** A restart finds the dictionary it left, with the version map it had. */
  method Restart(store: Store, ticks: VersionClock) returns (reopened: Store)
    requires store.Valid()
    modifies store.engine`gc
    ensures fresh(reopened) && fresh(reopened.versions) && reopened.engine == store.engine && reopened.clock == ticks
    ensures reopened.Valid() && reopened.Contents() == old(store.Contents())
    ensures reopened.versions.inner == store.versions.inner && reopened.issued == store.issued
  {
    reopened := new Store(store.engine, ticks, store.versions.inner, store.issued);
  }

  /** The parts of a run one after the other. */
  function Joined(parts: seq<seq<Timed>>): seq<Timed> {
    if parts == [] then [] else parts[0] + Joined(parts[1..])
  }

  /** The highest version that can have been issued when all parts have been run. */
  function Highest(issued: nat, value: nat, parts: seq<seq<Timed>>): nat
    decreases |parts|
  {
    if parts == [] then issued else Highest(Max(issued, Latest(value, parts[0])), 0, parts[1..])
  }

  /** Whenever the counter may be behind the versions issued so far, as after a restart, the clock is past them. */
  predicate ClockIsPast(issued: nat, value: nat, parts: seq<seq<Timed>>)
    decreases |parts|
  {
    parts != [] ==>
      && (issued <= value || forall t :: t in parts[0] ==> issued < t.micros)
      && ClockIsPast(Max(issued, Latest(value, parts[0])), 0, parts[1..])
  }

  /**
   * A run cut into any number of parts by restarts of the process, each with its counter back at
   * zero, answers as the uncut run of the dictionary does, provided that the clock has passed by
   * then every version the earlier parts can have issued. `top` is such a version to begin with.
   */
  method AcrossRestarts(store: Store, parts: seq<seq<Timed>>, ghost top: nat) returns (last: Store, replies: seq<Reply>)
    requires store.Valid() && RunFits(store.Contents(), Joined(parts))
    requires store.clock.value < U63 && |Joined(parts)| < U63
    requires forall t :: t in Joined(parts) ==> t.micros < U63
    requires store.issued <= top && ClockIsPast(top, store.clock.value, parts)
    modifies store.engine, store.versions, store.clock, store`issued
    ensures last.Valid() && last.engine == store.engine
    ensures if |parts| < 2 then last == store else fresh(last) && fresh(last.versions) && fresh(last.clock)
    ensures last.issued <= Highest(top, old(store.clock.value), parts)
    ensures parts != [] ==> last.clock.value <= Highest(top, old(store.clock.value), parts)
    ensures (last.Contents(), replies) == Run(old(store.Contents()), Joined(parts))
    decreases |parts|
  {
    hide Inv, Abs, RunFits, Run, Latest;
    ghost var dict, value := store.Contents(), store.clock.value;
    if parts == [] {
      RunOfNothing(dict);
      return store, [];
    }
    RunSplits(dict, parts[0], Joined(parts[1..]));
    var first := Replay(store, parts[0]);
    if |parts| == 1 {
      assert Joined(parts) == parts[0];
      return store, first;
    }
    var ticks := new VersionClock();
    var reopened := Restart(store, ticks);
    var more;
    ghost var highest := Max(top, Latest(value, parts[0]));
    last, more := AcrossRestarts(reopened, parts[1..], highest);
    replies := first + more;
  }

  lemma RunOfNothing(dict: Dict)
    ensures RunFits(dict, []) && Run(dict, []) == (dict, [])
  {
  }

  lemma TwoParts(issued: nat, value: nat, before: seq<Timed>, after: seq<Timed>)
    requires issued <= value || forall t :: t in before + after ==> issued < t.micros
    requires forall t :: t in after ==> Latest(value, before) < t.micros
    ensures Joined([before, after]) == before + after
    ensures value <= Latest(value, before)
    ensures ClockIsPast(issued, value, [before, after])
  {
    hide Latest;
    LatestGrows(value, before);
    assert [before, after][1..] == [after] && [after][1..] == [];
    assert Joined([after]) == after + [] == after;
    assert forall t :: t in before ==> t in before + after;
    assert forall t :: t in after ==> t in before + after;
    assert ClockIsPast(Max(issued, Latest(value, before)), 0, [after]);
  }

  lemma {:induction false} LatestGrows(value: nat, script: seq<Timed>)
    ensures value <= Latest(value, script)
  {
    if script != [] {
      LatestGrows(value, script[..|script| - 1]);
    }
  }

  /** The same for one restart: the clock must have passed the versions of the first part. */
  method AcrossRestart(store: Store, before: seq<Timed>, after: seq<Timed>)
    returns (reopened: Store, replies: seq<Reply>)
    requires store.Valid() && RunFits(store.Contents(), before + after)
    requires store.clock.value < U63 && |before + after| < U63
    requires forall t :: t in before + after ==> t.micros < U63
    requires store.issued <= store.clock.value || forall t :: t in before + after ==> store.issued < t.micros
    requires forall t :: t in after ==> Latest(store.clock.value, before) < t.micros
    modifies store.engine, store.versions, store.clock, store`issued
    ensures reopened.Valid() && reopened.engine == store.engine
    ensures fresh(reopened) && fresh(reopened.versions) && fresh(reopened.clock)
    ensures (reopened.Contents(), replies) == Run(old(store.Contents()), before + after)
  {
    hide Inv, Abs, RunFits, Run, Latest;
    TwoParts(store.issued, store.clock.value, before, after);
    var last;
    last, replies := AcrossRestarts(store, [before, after], store.issued);
    reopened := last;
  }

  lemma {:induction false} RunSplits(dict: Dict, before: seq<Timed>, after: seq<Timed>)
    requires RunFits(dict, before + after)
    ensures RunFits(dict, before) && RunFits(Run(dict, before).0, after)
    ensures Run(dict, before + after) ==
            (Run(Run(dict, before).0, after).0, Run(dict, before).1 + Run(Run(dict, before).0, after).1)
    decreases |after|
  {
    hide Step, CommandFits;
    var whole := before + after;
    if after == [] {
      assert whole == before && Run(dict, before).1 + [] == Run(dict, before).1;
    } else {
      assert whole[..|whole| - 1] == before + after[..|after| - 1];
      var init, last := after[..|after| - 1], after[|after| - 1];
      RunSplits(dict, before, init);
      var middle := Run(dict, before);
      var more, reply := Run(middle.0, init), Step(Run(middle.0, init).0, last).1;
      assert (middle.1 + more.1) + [reply] == middle.1 + (more.1 + [reply]);
    }
  }
}
