/** Whole runs and expiry. */
module RunProperties {
  import opened Common
  import opened Dictionary
  import opened Script

  // ---- Lazy expiry is invisible ------------------------------------------------------

  /** The dictionary whose keys vanish the moment their deadline passes. */
  function Purge(dict: Dict, now: u64): Dict {
    map key | key in dict && !Expired(dict[key], now) :: dict[key]
  }

  ghost function EagerStep(dict: Dict, t: Timed): (Dict, Reply)
    requires CommandFits(Purge(dict, t.now), t)
  {
    Step(Purge(dict, t.now), t)
  }

  /** The clock never goes back. */
  predicate Monotone(script: seq<Timed>) {
    forall i, j :: 0 <= i < j < |script| ==> script[i].now <= script[j].now
  }

  /** The run of the eagerly expiring dictionary. */
  ghost function EagerRun(dict: Dict, script: seq<Timed>): (Dict, seq<Reply>) {
    if script == [] then (dict, [])
    else
      var (before, replies) := EagerRun(dict, script[..|script| - 1]);
      var t := script[|script| - 1];
      if CommandFits(Purge(before, t.now), t) then
        var (after, reply) := EagerStep(before, t);
        (after, replies + [reply])
      else (before, replies)
  }

  lemma PurgeLive(dict: Dict, key: bytes, now: u64)
    ensures Live(Purge(dict, now), key, now) == Live(dict, key, now)
  {
  }

  lemma PurgePlace(dict: Dict, key: bytes, slot: Slot, now: u64, later: u64)
    requires now <= later
    ensures Purge(Place(Purge(dict, now), key, slot), later) == Purge(Place(dict, key, slot), later)
  {
  }

  lemma PurgeTwice(dict: Dict, now: u64, later: u64)
    requires now <= later
    ensures Purge(Purge(dict, now), later) == Purge(dict, later)
  {
  }

  /** The keys a dictionary stores are all live. */
  ghost predicate NoneExpired(dict: Dict, now: u64) {
    forall key :: key in dict ==> !Expired(dict[key], now)
  }

  lemma PurgeSize(dict: Dict, now: u64)
    ensures |Purge(dict, now)| <= |dict|
    ensures |Purge(dict, now)| == |dict| <==> NoneExpired(dict, now)
  {
    var live := Purge(dict, now);
    assert |live| == |live.Keys| && |dict| == |dict.Keys|;
    assert dict.Keys == live.Keys + (dict.Keys - live.Keys);
    if NoneExpired(dict, now) {
      assert live == dict;
    } else {
      var key :| key in dict && Expired(dict[key], now);
      assert key in dict.Keys - live.Keys;
    }
  }

  /** DBSIZE counts stored keys, and so can tell that an expired one is still stored; it never counts too few. */
  lemma SizeTellsIff(physical: Dict, eager: Dict, t: Timed)
    requires Purge(physical, t.now) == Purge(eager, t.now) && t.command.DbSize?
    ensures Step(physical, t).1 == EagerStep(eager, t).1 <==> NoneExpired(physical, t.now)
    ensures Step(physical, t).1.n >= EagerStep(eager, t).1.n
  {
    hide Purge;
    PurgeSize(physical, t.now);
  }

  /** One step from dictionaries that agree up to expiry. */
  lemma LazyStep(physical: Dict, eager: Dict, t: Timed)
    requires Purge(physical, t.now) == Purge(eager, t.now)
    requires CommandFits(physical, t)
    ensures CommandFits(Purge(eager, t.now), t)
    ensures Step(physical, t).1 == EagerStep(eager, t).1 <==> (t.command.DbSize? ==> NoneExpired(physical, t.now))
    ensures forall later: u64 :: t.now <= later ==>
        Purge(Step(physical, t).0, later) == Purge(EagerStep(eager, t).0, later)
  {
    hide Purge, Live, Place, Apply, OpFits, NoneExpired;
    match t.command {
      case OnKey(key, op) =>
        PurgeLive(physical, key, t.now);
        PurgeLive(eager, key, t.now);
        var slot := Apply(op, Live(physical, key, t.now)).0;
        forall later: u64 | t.now <= later ensures Purge(Step(physical, t).0, later)
            == Purge(EagerStep(eager, t).0, later) {
          PurgePlace(physical, key, slot, t.now, later);
        }
      case DbSize =>
        SizeTellsIff(physical, eager, t);
        forall later: u64 | t.now <= later ensures Purge(physical, later) == Purge(Purge(eager, t.now), later) {
          PurgeTwice(physical, t.now, later);
        }
      case Compact =>
        forall later: u64 | t.now <= later ensures Purge(physical, later) == Purge(Purge(eager, t.now), later) {
          PurgeTwice(physical, t.now, later);
        }
      case FlushAll =>
    }
  }

  /** No expired key is stored at any DBSIZE of a run. */
  ghost predicate SizesHideNothing(dict: Dict, script: seq<Timed>)
    requires RunFits(dict, script)
  {
    script != [] ==>
      var init, t := script[..|script| - 1], script[|script| - 1];
      && SizesHideNothing(dict, init)
      && (t.command.DbSize? ==> NoneExpired(Run(dict, init).0, t.now))
  }

  /**
   * Over any run whose clock does not go back, deleting expired keys only when they are accessed
   * answers every command but DBSIZE as if keys vanished at their deadlines, and DBSIZE as well if
   * and only if no expired key is stored whenever it is asked.
   */
  lemma {:induction false} LazyExpiryIsInvisibleIff(dict: Dict, script: seq<Timed>)
    requires RunFits(dict, script) && Monotone(script)
    ensures |EagerRun(dict, script).1| == |script|
    ensures forall i :: 0 <= i < |script| && !script[i].command.DbSize? ==>
              Run(dict, script).1[i] == EagerRun(dict, script).1[i]
    ensures Run(dict, script).1 == EagerRun(dict, script).1 <==> SizesHideNothing(dict, script)
    ensures forall later: u64 :: (forall t :: t in script ==> t.now <= later) ==>
              Purge(Run(dict, script).0, later) == Purge(EagerRun(dict, script).0, later)
  {
    hide Purge, CommandFits, Step, EagerStep, NoneExpired;
    if script != [] {
      var init, t := script[..|script| - 1], script[|script| - 1];
      assert t in script && forall u :: u in init ==> u in script;
      LazyExpiryIsInvisibleIff(dict, init);
      forall u | u in init ensures u.now <= t.now {
        var i :| 0 <= i < |init| && init[i] == u;
        assert script[i].now <= script[|script| - 1].now;
      }
      var physical, eager := Run(dict, init), EagerRun(dict, init);
      assert Purge(physical.0, t.now) == Purge(eager.0, t.now);
      LazyStep(physical.0, eager.0, t);
      SameSnoc(physical.1, Step(physical.0, t).1, eager.1, EagerStep(eager.0, t).1);
    }
  }

  lemma SameSnoc<T>(a: seq<T>, x: T, b: seq<T>, y: T)
    requires |a| == |b|
    ensures a + [x] == b + [y] <==> a == b && x == y
  {
    assert (a + [x])[..|a|] == a && (b + [y])[..|b|] == b;
    assert (a + [x])[|a|] == x && (b + [y])[|b|] == y;
  }
}
