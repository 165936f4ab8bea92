/** The Redis data model over the general engine. */
module Store {
  import opened Common
  import opened Sorting
  import opened ByteOrder
  import opened Encoding
  import opened Records
  import opened Gc
  import opened Engine
  import opened Dictionary
  import opened Representation
  import opened Mutation
  import opened SortedSets
  import opened Lists
  import opened Conservation

  /** The process-wide source of structure versions. */
  class VersionClock {
    var value: u64

    constructor ()
      ensures value == 0
    {
      value := 0;
    }

    method CompareExchange(current: u64, replacement: u64) returns (swapped: bool)
      modifies this
      ensures swapped <==> old(value) == current
      ensures value == if swapped then replacement else old(value)
    {
      swapped := value == current;
      if swapped {
        value := replacement;
      }
    }

    /** A version above all earlier ones and not behind the wall clock. */
    method Next(micros: u64) returns (version: u64)
      requires value + 1 < U64
      modifies this
      ensures version == value == Max(old(value) + 1, micros)
    {
      var attempts;
      ghost var history;
      version, attempts, history := NextAmong([micros], [], value);
    }

    /**
     * The same among other threads. Any number of them issue versions of their own, for the clock
     * readings `rivals`, between a load of the counter and the exchange after it; every attempt reads
     * the clock anew. `history` is what all threads issued meanwhile, in order: no version is issued
     * twice or falls behind an earlier one.
     */
    method NextAmong(clocks: seq<u64>, rivals: seq<u64>, ghost top: u64)
      returns (version: u64, attempts: nat, ghost history: seq<u64>)
      requires |clocks| == |rivals| + 1
      requires value <= top && top + |rivals| + 1 < U64
      requires forall i :: 0 <= i < |rivals| ==> rivals[i] <= top
      modifies this
      ensures history != [] && version == value == history[|history| - 1] && old(value) < history[0]
      ensures forall i, j :: 0 <= i < j < |history| ==> history[i] < history[j]
      ensures 1 <= attempts <= |history| <= |clocks| && clocks[attempts - 1] <= version
      ensures rivals == [] ==> version == Max(old(value) + 1, clocks[0])
    {
      version, attempts, history := 0, 0, [];
      var struck, issued := 0, false;
      while !issued
        invariant struck <= |rivals| && |history| == struck + (if issued then 1 else 0)
        invariant attempts <= |history| && (issued ==> attempts > 0)
        invariant value == if history == [] then old(value) else history[|history| - 1]
        invariant history != [] ==> old(value) < history[0]
        invariant forall i, j :: 0 <= i < j < |history| ==> history[i] < history[j]
        invariant !issued ==> value <= top + struck
        invariant issued ==> version == value && clocks[attempts - 1] <= version
        invariant issued && rivals == [] ==> version == Max(old(value) + 1, clocks[0])
        decreases !issued, |rivals| - struck
      {
        var prev := value;
        version := Max(prev + 1, clocks[attempts]);
        ghost var before := struck;
        var until: nat :| struck <= until <= |rivals|;
        while struck < until
          invariant before <= struck <= until && |history| == struck
          invariant value == if history == [] then old(value) else history[|history| - 1]
          invariant history != [] ==> old(value) < history[0]
          invariant forall i, j :: 0 <= i < j < |history| ==> history[i] < history[j]
          invariant prev <= value <= top + struck && (struck == before <==> value == prev)
        {
          history := Strike(rivals[struck], history);
          struck := struck + 1;
        }
        issued := CompareExchange(prev, version);
        attempts := attempts + 1;
        if issued {
          history := history + [version];
        }
      }
    }

    /** Another thread issues a version. */
    method Strike(micros: u64, ghost history: seq<u64>) returns (ghost longer: seq<u64>)
      requires value + 1 < U64
      modifies this
      ensures value == Max(old(value) + 1, micros) && longer == history + [value]
    {
      value := Max(value + 1, micros);
      longer := history + [value];
    }
  }

  /** `versions` holds exactly the versions of the composite keys among the records. */
  ghost predicate Rebuilt(d: Db, versions: map<bytes, u64>) {
    && (forall key :: key in versions <==> MetaAt(d, key).Some? && MetaAt(d, key).value.Composite())
    && (forall key :: key in versions ==> versions[key] == MetaAt(d, key).value.version)
  }

  ghost predicate RebuiltFrom(d: Db, items: seq<(bytes, bytes)>, versions: map<bytes, u64>) {
    && (forall key :: key in versions <==>
          MetaAt(d, key).Some? && MetaAt(d, key).value.Composite() && (MetaKey(key), d[MetaKey(key)]) in items)
    && (forall key :: key in versions ==> versions[key] == MetaAt(d, key).value.version)
  }

  lemma RebuildStart(d: Db)
    ensures RebuiltFrom(d, [], map[])
  {
  }

  lemma RebuildEnd(d: Db, versions: map<bytes, u64>)
    requires RebuiltFrom(d, Listing(d, [META_PREFIX]), versions)
    ensures Rebuilt(d, versions)
  {
    forall key | MetaKey(key) in d ensures (MetaKey(key), d[MetaKey(key)]) in Listing(d, [META_PREFIX]) {
      ListingHas(d, [META_PREFIX], key);
    }
  }

  lemma RebuildStep(d: Db, items: seq<(bytes, bytes)>, versions: map<bytes, u64>, key: bytes)
    requires RebuiltFrom(d, items, versions) && MetaKey(key) in d
    ensures RebuiltFrom(d, items + [(MetaKey(key), d[MetaKey(key)])],
                        match MetaAt(d, key)
                        case None => versions
                        case Some(m) => if m.Composite() then versions[key := m.version] else versions)
  {
    forall other ensures MetaKey(other) == MetaKey(key) <==> other == key {
      assert MetaKey(other)[1..] == other && MetaKey(key)[1..] == key;
    }
  }

  /** The version map is a function of the stored metadata. */
  lemma RebuiltIsExact(d: Db, was: map<bytes, u64>, issued: u64, versions: map<bytes, u64>)
    requires Inv(d, was, issued) && Rebuilt(d, versions)
    ensures versions == was
  {
    forall key ensures key in versions <==> key in was {
      assert KeyOk(d, was, issued, key);
    }
    forall key | key in versions ensures versions[key] == was[key] {
      assert KeyOk(d, was, issued, key);
    }
  }

  class Store {
    const engine: Engine
    const versions: VersionMap
    const clock: VersionClock
    /** No record carries a version above this one. */
    ghost var issued: u64

    ghost predicate Valid()
      reads this, engine, versions
    {
      engine.gc == versions && Inv(engine.data, versions.inner, issued)
    }

    /** The dictionary the store holds, expired keys included until they are next accessed. */
    ghost function Contents(): Dict
      reads engine
    {
      Abs(engine.data)
    }

    ghost function SlotAt(key: bytes, now: u64): Slot
      reads engine
    {
      Live(Contents(), key, now)
    }

    /** The next version will exceed every version ever stored. */
    ghost predicate Fresh(micros: u64)
      reads this, clock
    {
      clock.value + 1 < U64 && issued < Max(clock.value + 1, micros)
    }

    twostate predicate Ticked(micros: u64)
      reads this, clock
    {
      || (clock.value == old(clock.value) && issued == old(issued))
      || (clock.value == Max(old(clock.value) + 1, micros) && issued == clock.value && old(issued) < issued)
    }

    /**
     * Wraps an opened engine whose records some version map `was` described, such as the one a
     * previous store had when it stopped. Compaction starts after this returns.
     */
    constructor (opened_: Engine, ticks: VersionClock, ghost was: map<bytes, u64>, ghost highest: u64)
      requires Inv(opened_.data, was, highest)
      modifies opened_`gc
      ensures engine == opened_ && clock == ticks && issued == highest && fresh(versions)
      ensures Valid() && versions.inner == was
    {
      engine := opened_;
      versions := new VersionMap();
      clock := ticks;
      issued := highest;
      new;
      engine.InstallGc(versions);
      RebuildVersionMap();
      RebuiltIsExact(engine.data, was, highest, versions.inner);
    }

    /** Collects the versions of all stored composite metadata. */
    method RebuildVersionMap()
      modifies versions
      ensures Rebuilt(engine.data, versions.inner)
    {
      hide Listing, RebuiltFrom, Meta.Decode;
      versions.Clear();
      var items := engine.Scan([META_PREFIX]);
      RebuildStart(engine.data);
      for i := 0 to |items|
        invariant RebuiltFrom(engine.data, items[..i], versions.inner)
      {
        var (k, v) := items[i];
        ListingItem(engine.data, [META_PREFIX], i);
        var meta := Meta.Decode(v);
        RebuildStep(engine.data, items[..i], versions.inner, k[1..]);
        assert items[..i + 1] == items[..i] + [(k, v)];
        if meta.Some? && meta.value.Composite() {
          versions.Set(k[1..], meta.value.version);
        }
      }
      assert items[..|items|] == items;
      RebuildEnd(engine.data, versions.inner);
    }

    // ---- Metadata -------------------------------------------------------------

    method LoadMeta(key: bytes) returns (meta: Result<Option<Meta>>)
      requires Valid()
      modifies engine`data
      ensures Valid() && Compacted(old(engine.data), engine.data, versions.inner)
      ensures Contents() == old(Contents())
      ensures meta == Ok(MetaAt(engine.data, key)) && EntryAt(engine.data, key) == old(EntryAt(engine.data, key))
    {
      ghost var before := engine.data;
      var raw := engine.Get(MetaKey(key));
      SweepKeeps(before, engine.data, versions.inner, issued);
      MetaSurvives(before, engine.data, versions.inner);
      SameEntry(before, engine.data, key);
      assert KeyOk(before, versions.inner, issued, key);
      assert ParseOwnerVersion(MetaKey(key)) == None;
      match raw {
        case None =>
          meta := Ok(None);
        case Some(r) =>
          var decoded := Meta.Decode(r);
          meta := if decoded.Some? then Ok(decoded) else Corruption;
      }
    }

    method LogicalDelete(key: bytes)
      requires engine.gc == versions
      modifies engine`data, versions
      ensures versions.inner == old(versions.inner) - {key}
      ensures Compacted(ApplyOps(old(engine.data), [WriteOp.Delete(MetaKey(key))]), engine.data, old(versions.inner))
    {
      var batch := new WriteBatch();
      batch.Delete(MetaKey(key));
      engine.Write(batch);
      versions.Remove(key);
    }

    /** Metadata of a key that has not expired; an expired key is deleted on the way. */
    method LoadLiveMeta(key: bytes, now: u64) returns (meta: Result<Option<Meta>>)
      requires Valid()
      modifies engine`data, versions
      ensures Valid()
      ensures Contents() == Place(old(Contents()), key, old(SlotAt(key, now)))
      ensures meta == Ok(MetaAt(engine.data, key)) && EntryAt(engine.data, key) == old(SlotAt(key, now))
    {
      hide Abs, EntryAt, Inv, Live, ApplyOps, Compacted;
      LiveMeta(engine.data, key, now);
      var result := LoadMeta(key);
      var loaded := result.value;
      ghost var before := engine.data;
      LiveMeta(before, key, now);
      if loaded.None? {
        return Ok(None);
      }
      var m := loaded.value;
      if m.expireMs != 0 && now >= m.expireMs {
        LogicalDelete(key);
        DeletionRemoves(before, old(versions.inner), issued, key, engine.data);
        return Ok(None);
      }
      meta := Ok(Some(m));
    }

    /** Live metadata of a key expected to hold one composite type. */
    method LoadTyped(key: bytes, typeId: byte, now: u64) returns (meta: Result<Option<Meta>>)
      requires Valid() && Meta(typeId, 0, 0, []).Composite()
      modifies engine`data, versions
      ensures Valid()
      ensures Contents() == Place(old(Contents()), key, old(SlotAt(key, now)))
      ensures !meta.Ok? <==> old(SlotAt(key, now)).Some? && TypeId(old(SlotAt(key, now)).value.value) != typeId
      ensures !meta.Ok? ==> meta == WrongType
      ensures meta.Ok? ==> (meta.value.None? <==> old(SlotAt(key, now)).None?)
      ensures EntryAt(engine.data, key) == old(SlotAt(key, now))
      ensures meta.Ok? && meta.value.Some? ==>
        meta.value.value.typeId == typeId
        && Opened(engine.data, versions.inner, issued, key, meta.value.value, old(SlotAt(key, now)))
    {
      hide Abs, Place, Inv, Live, Opened;
      var loaded := LoadLiveMeta(key, now);
      EntryType(engine.data, versions.inner, issued, key);
      match loaded.value {
        case None =>
          meta := Ok(None);
        case Some(m) =>
          meta := if m.typeId == typeId then Ok(Some(m)) else WrongType;
          if m.typeId == typeId {
            OpenExisting(engine.data, versions.inner, issued, key, m);
          }
      }
    }

    method NewCompositeMeta(key: bytes, typeId: byte, micros: u64) returns (meta: Meta)
      requires clock.value + 1 < U64
      modifies versions, clock
      ensures clock.value == Max(old(clock.value) + 1, micros)
      ensures meta == Meta(typeId, clock.value, 0, [])
      ensures versions.inner == old(versions.inner)[key := clock.value]
    {
      var version := clock.Next(micros);
      versions.Set(key, version);
      meta := Meta(typeId, version, 0, []);
    }

    method PutMeta(key: bytes, meta: Meta)
      requires engine.gc == versions
      modifies engine`data
      ensures Compacted(ApplyOps(old(engine.data), [WriteOp.Put(MetaKey(key), meta.Encode())]), engine.data,
          versions.inner)
    {
      var batch := new WriteBatch();
      batch.Put(MetaKey(key), meta.Encode());
      engine.Write(batch);
    }

    /** The common start of HSET, SADD, ZADD and the pushes: the key's metadata, created if missing. */
    method LoadOrCreate(key: bytes, typeId: byte, now: u64, micros: u64) returns (r: Result<Meta>)
      requires Valid() && |key| < U32 && Fresh(micros) && Meta(typeId, 0, 0, []).Composite()
      modifies engine`data, versions, clock, this`issued
      ensures Ticked(micros) && engine.gc == versions
      ensures Contents() == Place(old(Contents()), key, old(SlotAt(key, now)))
      ensures r.Ok? ==>
                && Opened(engine.data, versions.inner, issued, key, r.value, old(SlotAt(key, now)))
                && r.value.typeId == typeId
      ensures r.Ok? ==> old(SlotAt(key, now)).None? || TypeId(old(SlotAt(key, now)).value.value) == typeId
      ensures r.Ok? && old(SlotAt(key, now)).Some? ==> Valid()
      ensures !r.Ok? ==>
                && Valid() && r == WrongType && old(SlotAt(key, now)).Some?
                && TypeId(old(SlotAt(key, now)).value.value) != typeId
    {
      hide Abs, Place, Inv, Live, EntryAt, Opened, MetaAt;
      var loaded :- LoadTyped(key, typeId, now);
      match loaded {
        case Some(m) =>
          return Ok(m);
        case None =>
          ghost var was := versions.inner;
          var m := NewCompositeMeta(key, typeId, micros);
          OpenNew(engine.data, was, issued, key, typeId, m.version);
          issued := m.version;
          m := if typeId == TYPE_LIST then m.SetListBounds(LIST_INITIAL_INDEX, LIST_INITIAL_INDEX)
              else m.SetFieldCount(0);
          return Ok(m);
      }
    }

    /** A point read of one member record of an opened key, compaction since `base` notwithstanding. */
    method Fetch(key: bytes, version: u64, field: bytes, ghost base: Db) returns (value: Option<bytes>)
      requires engine.gc == versions && |key| < U32 && key in versions.inner && versions.inner[key] == version
      requires Compacted(base, engine.data, versions.inner)
      modifies engine`data
      ensures Compacted(base, engine.data, versions.inner)
      ensures var sub := SubAt(base, key, version); value == if field in sub then Some(sub[field]) else None
    {
      hide Keep;
      CurrentVersionKept(versions.inner, SUBKEY_PREFIX, key, version, Subkey(key, version, field));
      TableSurvives(base, engine.data, versions.inner, SUBKEY_PREFIX, key, version);
      value := engine.Get(Subkey(key, version, field));
    }

    /** A scan of the records of an opened key below one of its two prefixes. */
    method FetchAll(tag: byte, key: bytes, version: u64) returns (items: seq<(bytes, bytes)>)
      requires engine.gc == versions && |key| < U32 && key in versions.inner && versions.inner[key] == version
      modifies engine`data
      ensures Compacted(old(engine.data), engine.data, versions.inner)
      ensures var p := VersionedPrefix(tag, key, version);
              && |items| == |old(Under(engine.data, p))|
              && |items| == |SortedKeys(old(Under(engine.data, p)).Keys)|
              && forall i :: 0 <= i < |items| ==>
                   && |p| <= |items[i].0|
                   && items[i].0[|p|..] == SortedKeys(old(Under(engine.data, p)).Keys)[i]
                   && (items[i].0[|p|..], items[i].1) == ByField(old(Under(engine.data, p)))[i]
    {
      hide Keep, Under, ByField, Listing, SortedKeys;
      ghost var view;
      items, view := engine.ScanPrefix(VersionedPrefix(tag, key, version));
      TableSurvives(old(engine.data), view, versions.inner, tag, key, version);
      ScanOfTable(view, VersionedPrefix(tag, key, version));
    }

    /** The last step of an update: the batch, completed by the new metadata, is written atomically. */
    method CommitBatch(key: bytes, meta: Meta, batch: WriteBatch, ghost base: Db)
      requires engine.gc == versions && Compacted(base, engine.data, versions.inner)
      modifies engine`data, batch
      ensures Compacted(ApplyOps(base, old(batch.ops) + [WriteOp.Put(MetaKey(key), meta.Encode())]), engine.data,
          versions.inner)
    {
      hide Compacted, ApplyOps;
      ghost var swept := engine.data;
      batch.Put(MetaKey(key), meta.Encode());
      engine.Write(batch);
      WriteFrom(base, swept, batch.ops, engine.data, versions.inner);
    }

    /** The last step when the last member went: two writes, the members' deletions and the key's. */
    method WriteAndDelete(key: bytes, batch: WriteBatch, ghost base: Db)
      requires engine.gc == versions && Compacted(base, engine.data, versions.inner)
      requires Inv(base, versions.inner, issued) && OwnOps(key, batch.ops, issued)
      modifies engine`data, versions
      ensures Valid() && Contents() == Place(Abs(base), key, None)
    {
      hide Compacted, ApplyOps, Inv, Abs, Place, OwnOps;
      ghost var swept, was := engine.data, versions.inner;
      engine.Write(batch);
      WriteFrom(base, swept, batch.ops, engine.data, was);
      ghost var written := engine.data;
      LogicalDelete(key);
      Emptied(base, was, issued, key, batch.ops, written, engine.data);
    }

    // ---- Strings and keys -------------------------------------------------------

    method Set(key: bytes, value: bytes, expireMs: u64, micros: u64)
      requires Valid() && |key| < U32 && Fresh(micros)
      modifies engine`data, versions, clock, this`issued
      ensures Valid() && Ticked(micros)
      ensures Contents() == Place(old(Contents()), key, Some(Entry(Str(value), expireMs)))
    {
      hide Abs, Place, Inv, Compacted, ApplyOps;
      versions.Remove(key);
      var version := clock.Next(micros);
      var meta := Meta(TYPE_STRING, version, expireMs, value);
      PutMeta(key, meta);
      StoreString(old(engine.data), old(versions.inner), issued, key, meta, engine.data);
      issued := version;
    }

    method Get(key: bytes, now: u64) returns (r: Result<Option<bytes>>)
      requires Valid()
      modifies engine`data, versions
      ensures Valid() && Contents() == Place(old(Contents()), key, old(SlotAt(key, now)))
      ensures r == GetOf(old(SlotAt(key, now)))
    {
      hide Abs, Place, Inv, Live;
      var meta := LoadLiveMeta(key, now);
      EntryType(engine.data, versions.inner, issued, key);
      match meta.value {
        case None =>
          r := Ok(None);
        case Some(m) =>
          r := if m.typeId != TYPE_STRING then WrongType else Ok(Some(m.payload));
      }
    }

    method Exists(key: bytes, now: u64) returns (r: Result<bool>)
      requires Valid()
      modifies engine`data, versions
      ensures Valid() && Contents() == Place(old(Contents()), key, old(SlotAt(key, now)))
      ensures r == Ok(old(SlotAt(key, now)).Some?)
    {
      hide Abs, Place, Inv, Live;
      var meta := LoadLiveMeta(key, now);
      r := Ok(meta.value.Some?);
    }

    method TypeOf(key: bytes, now: u64) returns (r: Result<string>)
      requires Valid()
      modifies engine`data, versions
      ensures Valid() && Contents() == Place(old(Contents()), key, old(SlotAt(key, now)))
      ensures r == Ok(Dictionary.TypeOf(old(SlotAt(key, now))))
    {
      hide Abs, Place, Inv, Live;
      var meta := LoadLiveMeta(key, now);
      EntryType(engine.data, versions.inner, issued, key);
      match meta.value {
        case None =>
          r := Ok("none");
        case Some(m) =>
          r := Ok(
            if m.typeId == TYPE_STRING then "string"
            else if m.typeId == TYPE_HASH then "hash"
            else if m.typeId == TYPE_SET then "set"
            else if m.typeId == TYPE_ZSET then "zset"
            else if m.typeId == TYPE_LIST then "list"
            else "none");
      }
    }

    method Del(key: bytes, now: u64) returns (r: Result<bool>)
      requires Valid()
      modifies engine`data, versions
      ensures Valid() && Contents() == Place(old(Contents()), key, None)
      ensures r == Ok(old(SlotAt(key, now)).Some?)
    {
      hide Abs, Place, Inv, Live, Compacted, ApplyOps;
      var meta := LoadLiveMeta(key, now);
      if meta.value.None? {
        return Ok(false);
      }
      ghost var before, was := engine.data, versions.inner;
      LogicalDelete(key);
      DeletionRemoves(before, was, issued, key, engine.data);
      PlaceTwice(old(Contents()), key, old(SlotAt(key, now)), None);
      r := Ok(true);
    }

    method ExpireAt(key: bytes, deadline: u64, now: u64) returns (r: Result<bool>)
      requires Valid()
      modifies engine`data, versions
      ensures Valid()
      ensures var (slot, existed) := Dictionary.ExpireAt(old(SlotAt(key, now)), deadline);
              r == Ok(existed) && Contents() == Place(old(Contents()), key, slot)
    {
      hide Abs, Place, Inv, Live, Compacted, ApplyOps;
      var meta := LoadLiveMeta(key, now);
      match meta.value {
        case None =>
          r := Ok(false);
        case Some(m) =>
          ghost var before := engine.data;
          PutMeta(key, m.(expireMs := deadline));
          StoreDeadline(before, versions.inner, issued, key, m, deadline, engine.data);
          PlaceTwice(old(Contents()), key, old(SlotAt(key, now)),
              Dictionary.ExpireAt(old(SlotAt(key, now)), deadline).0);
          r := Ok(true);
      }
    }

    /** `later` is the clock when the remaining time is computed, after the liveness check at `now`. */
    method PTtl(key: bytes, now: u64, later: u64) returns (r: Result<i64>)
      requires Valid()
      modifies engine`data, versions
      ensures Valid() && Contents() == Place(old(Contents()), key, old(SlotAt(key, now)))
      ensures r == Ok(Dictionary.PTtl(old(SlotAt(key, now)), later))
    {
      hide Abs, Place, Inv, Live;
      var meta := LoadLiveMeta(key, now);
      match meta.value {
        case None =>
          r := Ok(-2);
        case Some(m) =>
          r := Ok(if m.expireMs == 0 then -1 else AsI64(if m.expireMs < later then 0 else m.expireMs - later));
      }
    }

    // ---- Hashes -------------------------------------------------------------------

    method HSet(key: bytes, pairs: seq<(bytes, bytes)>, now: u64, micros: u64) returns (r: Result<int>)
      requires Valid() && |key| < U32 && Fresh(micros)
      requires Fits(SlotAt(key, now), |pairs|)
      modifies engine`data, versions, clock, this`issued
      ensures Valid() && Ticked(micros)
      ensures var (slot, reply) := Dictionary.HSet(old(SlotAt(key, now)), pairs);
              r == reply && Contents() == Place(old(Contents()), key, slot)
    {
      hide Abs, Place, Inv, Live, EntryAt, Opened, Pending, Compacted, ApplyOps, SubAt, IndexAt, MetaAt,
          Dictionary.HSet, Fits, Assign, Mentions, Names;
      ghost var slot := SlotAt(key, now);
      HSetIs(slot, pairs);
      var meta :- LoadOrCreate(key, TYPE_HASH, now, micros);
      ghost var base := engine.data;
      HashOpened(base, versions.inner, issued, key, meta, slot);
      var batch, fieldCount, created := StageFields(key, meta, pairs, slot);
      ghost var ops, m := batch.ops, meta;
      meta := meta.SetFieldCount(fieldCount);
      CommitBatch(key, meta, batch, base);
      ghost var fields := Assign(SubAt(base, key, m.version), pairs);
      HashStored(base, versions.inner, issued, key, m, slot, ops, fields, fieldCount, engine.data);
      PlaceTwice(old(Contents()), key, slot, Some(Entry(Hash(fields, fieldCount), m.expireMs)));
      r := Ok(created);
    }

    /** The field loop of HSET: every pair is put, and counted when its field is not stored yet. */
    method StageFields(key: bytes, meta: Meta, pairs: seq<(bytes, bytes)>, ghost slot: Slot)
      returns (batch: WriteBatch, fieldCount: u32, created: nat)
      requires engine.gc == versions && Opened(engine.data, versions.inner, issued, key, meta, slot)
      requires meta.FieldCount() + |pairs| < U32
      modifies engine`data
      ensures fresh(batch) && Compacted(old(engine.data), engine.data, versions.inner)
      ensures fieldCount == meta.FieldCount() + created
      ensures var sub := old(SubAt(engine.data, key, meta.version));
              && created == Mentions(sub.Keys, Names(pairs), false)
              && Pending(old(engine.data), key, meta.version, issued, batch.ops, Assign(sub, pairs),
                  old(IndexAt(engine.data, key, meta.version)))
    {
      hide Opened, Pending, Compacted, SubAt, IndexAt, Assign, Mentions, Names;
      ghost var base := engine.data;
      ghost var sub, index := SubAt(base, key, meta.version), IndexAt(base, key, meta.version);
      OpenedFacts(base, versions.inner, issued, key, meta, slot);
      PendingStart(base, key, meta.version, issued);
      AssignNothing(sub, pairs);
      batch := new WriteBatch();
      fieldCount, created := meta.FieldCount(), 0;
      for i := 0 to |pairs|
        modifies engine`data, batch
        invariant Compacted(base, engine.data, versions.inner)
        invariant created == Mentions(sub.Keys, Names(pairs[..i]), false)
        invariant fieldCount == meta.FieldCount() + created
        invariant Pending(base, key, meta.version, issued, batch.ops, Assign(sub, pairs[..i]), index)
      {
        var (field, value) := pairs[i];
        var existed := Fetch(key, meta.version, field, base);
        AssignSnoc(sub, pairs, i);
        MentionsSnoc(sub.Keys, Names(pairs[..i]), field, false);
        if existed.None? {
          fieldCount := fieldCount + 1;
          created := created + 1;
        }
        PendingSub(base, key, meta.version, issued, batch.ops, Assign(sub, pairs[..i]), index,
                   WriteOp.Put(Subkey(key, meta.version, field), value), field);
        batch.Put(Subkey(key, meta.version, field), value);
      }
      assert pairs[..|pairs|] == pairs;
    }

    method HGet(key: bytes, field: bytes, now: u64) returns (r: Result<Option<bytes>>)
      requires Valid()
      modifies engine`data, versions
      ensures Valid() && Contents() == Place(old(Contents()), key, old(SlotAt(key, now)))
      ensures r == Dictionary.HGet(old(SlotAt(key, now)), field)
    {
      hide Abs, Place, Inv, Live, Opened, Compacted, SubAt, IndexAt;
      ghost var slot := SlotAt(key, now);
      var meta :- LoadTyped(key, TYPE_HASH, now);
      if meta.None? {
        return Ok(None);
      }
      ghost var base := engine.data;
      OpenedFacts(base, versions.inner, issued, key, meta.value, slot);
      HashOpened(base, versions.inner, issued, key, meta.value, slot);
      var value := Fetch(key, meta.value.version, field, base);
      SweepKeeps(base, engine.data, versions.inner, issued);
      r := Ok(value);
    }

    method HGetAll(key: bytes, now: u64) returns (r: Result<seq<(bytes, bytes)>>)
      requires Valid()
      modifies engine`data, versions
      ensures Valid() && Contents() == Place(old(Contents()), key, old(SlotAt(key, now)))
      ensures r == Dictionary.HGetAll(old(SlotAt(key, now)))
    {
      hide Abs, Place, Inv, Live, Opened, Compacted, IndexAt, ByField, Under;
      ghost var slot := SlotAt(key, now);
      var meta :- LoadTyped(key, TYPE_HASH, now);
      if meta.None? {
        return Ok([]);
      }
      ghost var base := engine.data;
      OpenedFacts(base, versions.inner, issued, key, meta.value, slot);
      HashOpened(base, versions.inner, issued, key, meta.value, slot);
      var prefix := SubkeyPrefix(key, meta.value.version);
      var items := FetchAll(SUBKEY_PREFIX, key, meta.value.version);
      SweepKeeps(base, engine.data, versions.inner, issued);
      var out := Stripped(items, |prefix|);
      SameSeq(out, ByField(SubAt(base, key, meta.value.version)));
      r := Ok(out);
    }

    method HDel(key: bytes, fields: seq<bytes>, now: u64) returns (r: Result<int>)
      requires Valid()
      modifies engine`data, versions
      ensures Valid()
      ensures var (slot, reply) := Dictionary.HDel(old(SlotAt(key, now)), fields);
              r == reply && Contents() == Place(old(Contents()), key, slot)
    {
      hide Abs, Place, Inv, Live, Opened, Pending, Compacted, ApplyOps, SubAt, IndexAt, MetaAt, Mentions, ToSet,
          Without;
      ghost var slot := SlotAt(key, now);
      var loaded :- LoadTyped(key, TYPE_HASH, now);
      if loaded.None? {
        return Ok(0);
      }
      var meta := loaded.value;
      ghost var base, was := engine.data, versions.inner;
      OpenedFacts(base, was, issued, key, meta, slot);
      HashOpened(base, was, issued, key, meta, slot);
      HDelIs(slot, fields);
      var batch, fieldCount, removed := StageDeletes(key, meta, fields, slot);
      ghost var ops, m := batch.ops, meta;
      if removed > 0 {
        if fieldCount == 0 {
          PendingOwns(base, key, m.version, issued, ops);
          WriteAndDelete(key, batch, base);
          PlaceTwice(old(Contents()), key, slot, None);
        } else {
          meta := meta.SetFieldCount(fieldCount);
          CommitBatch(key, meta, batch, base);
          ghost var rest := Without(SubAt(base, key, m.version), ToSet(fields));
          HashStored(base, was, issued, key, m, slot, ops, rest, fieldCount, engine.data);
          PlaceTwice(old(Contents()), key, slot, Some(Entry(Hash(rest, fieldCount), m.expireMs)));
        }
      } else {
        SweepKeeps(base, engine.data, was, issued);
      }
      r := Ok(removed);
    }

    /** The field loop of HDEL: a field named twice is deleted and counted twice. */
    method StageDeletes(key: bytes, meta: Meta, fields: seq<bytes>, ghost slot: Slot)
      returns (batch: WriteBatch, fieldCount: u32, removed: nat)
      requires engine.gc == versions && Opened(engine.data, versions.inner, issued, key, meta, slot)
      modifies engine`data
      ensures fresh(batch) && Compacted(old(engine.data), engine.data, versions.inner)
      ensures fieldCount == Max(0, meta.FieldCount() - removed)
      ensures var sub := old(SubAt(engine.data, key, meta.version));
              && removed == Mentions(sub.Keys, fields, true)
              && Pending(old(engine.data), key, meta.version, issued, batch.ops, Without(sub, ToSet(fields)),
                  old(IndexAt(engine.data, key, meta.version)))
    {
      hide Opened, Pending, Compacted, SubAt, IndexAt, Mentions, ToSet, Without;
      ghost var base := engine.data;
      ghost var sub, index := SubAt(base, key, meta.version), IndexAt(base, key, meta.version);
      OpenedFacts(base, versions.inner, issued, key, meta, slot);
      PendingStart(base, key, meta.version, issued);
      NoMentions(sub, fields);
      RemoveNone(sub);
      batch := new WriteBatch();
      fieldCount, removed := meta.FieldCount(), 0;
      for i := 0 to |fields|
        modifies engine`data, batch
        invariant Compacted(base, engine.data, versions.inner)
        invariant removed == Mentions(sub.Keys, fields[..i], true)
        invariant fieldCount == Max(0, meta.FieldCount() - removed)
        invariant Pending(base, key, meta.version, issued, batch.ops, Without(sub, ToSet(fields[..i])), index)
      {
        var field := fields[i];
        var stored := Fetch(key, meta.version, field, base);
        ToSetSnoc(fields, i);
        MentionsSnoc(sub.Keys, fields[..i], field, true);
        RemoveOne(sub, ToSet(fields[..i]), field);
        if stored.Some? {
          PendingSub(base, key, meta.version, issued, batch.ops, Without(sub, ToSet(fields[..i])), index,
                     WriteOp.Delete(Subkey(key, meta.version, field)), field);
          batch.Delete(Subkey(key, meta.version, field));
          removed := removed + 1;
          fieldCount := if fieldCount == 0 then 0 else fieldCount - 1;
        }
      }
      assert fields[..|fields|] == fields;
    }

    method HLen(key: bytes, now: u64) returns (r: Result<int>)
      requires Valid()
      modifies engine`data, versions
      ensures Valid() && Contents() == Place(old(Contents()), key, old(SlotAt(key, now)))
      ensures r == Dictionary.HLen(old(SlotAt(key, now)))
    {
      hide Abs, Place, Inv, Live, Opened, SubAt;
      var meta :- LoadTyped(key, TYPE_HASH, now);
      if meta.Some? {
        HashOpened(engine.data, versions.inner, issued, key, meta.value, old(SlotAt(key, now)));
      }
      r := Ok(if meta.None? then 0 else meta.value.FieldCount());
    }

    // ---- Sets -----------------------------------------------------------------------

    method SAdd(key: bytes, members: seq<bytes>, now: u64, micros: u64) returns (r: Result<int>)
      requires Valid() && |key| < U32 && Fresh(micros) && members != []
      requires Fits(SlotAt(key, now), |members|)
      modifies engine`data, versions, clock, this`issued
      ensures Valid() && Ticked(micros)
      ensures var (slot, reply) := Dictionary.SAdd(old(SlotAt(key, now)), members);
              r == reply && Contents() == Place(old(Contents()), key, slot)
    {
      hide Abs, Place, Inv, Live, Opened, Pending, Compacted, ApplyOps, SubAt, IndexAt, Dictionary.SAdd, Fits, ToSet,
          AllEmpty, AddMembers, Missing, Meta.FieldCount;
      ghost var slot := SlotAt(key, now);
      SAddWrongType(slot, members);
      var meta :- LoadOrCreate(key, TYPE_SET, now, micros);
      ghost var base, vm := engine.data, versions.inner;
      ghost var table := AddMembers(SubAt(base, key, meta.version), ToSet(members));
      SAddIs(base, vm, issued, key, meta, slot, members);
      var batch, count, added := StageAdds(key, meta, members, slot);
      ghost var ops, m := batch.ops, meta;
      if added > 0 {
        meta := meta.SetFieldCount(count);
        CommitBatch(key, meta, batch, base);
        SetStored(base, vm, issued, key, m, slot, ops, table, count, engine.data);
        PlaceTwice(old(Contents()), key, slot, Some(Entry(Value.Set(table.Keys), m.expireMs)));
      } else {
        SweepKeeps(base, engine.data, vm, issued);
      }
      r := Ok(added);
    }

    /** The member loop of SADD; a member is considered at its first mention only. */
    method StageAdds(key: bytes, meta: Meta, members: seq<bytes>, ghost slot: Slot)
      returns (batch: WriteBatch, count: u32, added: nat)
      requires engine.gc == versions && Opened(engine.data, versions.inner, issued, key, meta, slot)
      requires meta.FieldCount() + |members| < U32
      modifies engine`data
      ensures fresh(batch) && Compacted(old(engine.data), engine.data, versions.inner)
      ensures count == meta.FieldCount() + added
      ensures var sub := old(SubAt(engine.data, key, meta.version));
              && added == Missing(sub, ToSet(members))
              && Pending(old(engine.data), key, meta.version, issued, batch.ops, AddMembers(sub, ToSet(members)),
                  old(IndexAt(engine.data, key, meta.version)))
    {
      hide Opened, Pending, Compacted, SubAt, IndexAt, ToSet, AddMembers, Missing;
      ghost var base := engine.data;
      ghost var sub, index := SubAt(base, key, meta.version), IndexAt(base, key, meta.version);
      OpenedFacts(base, versions.inner, issued, key, meta, slot);
      PendingStart(base, key, meta.version, issued);
      NoMentions(sub, members);
      AddNone(sub);
      batch := new WriteBatch();
      count, added := meta.FieldCount(), 0;
      var seen: set<bytes> := {};
      for i := 0 to |members|
        modifies engine`data, batch
        invariant Compacted(base, engine.data, versions.inner)
        invariant seen == ToSet(members[..i])
        invariant added == Missing(sub, seen) && added <= i
        invariant count == meta.FieldCount() + added
        invariant Pending(base, key, meta.version, issued, batch.ops, AddMembers(sub, seen), index)
      {
        var member := members[i];
        ToSetSnoc(members, i);
        AddOne(sub, seen, member);
        MissingOne(sub, seen, member);
        if member !in seen {
          var stored := Fetch(key, meta.version, member, base);
          if stored.None? {
            count := count + 1;
            added := added + 1;
            PendingSub(base, key, meta.version, issued, batch.ops, AddMembers(sub, seen), index,
                       WriteOp.Put(Subkey(key, meta.version, member), []), member);
            batch.Put(Subkey(key, meta.version, member), []);
          }
        }
        seen := seen + {member};
      }
      assert members[..|members|] == members;
    }

    method SRem(key: bytes, members: seq<bytes>, now: u64) returns (r: Result<int>)
      requires Valid()
      modifies engine`data, versions
      ensures Valid()
      ensures var (slot, reply) := Dictionary.SRem(old(SlotAt(key, now)), members);
              r == reply && Contents() == Place(old(Contents()), key, slot)
    {
      hide Abs, Place, Inv, Live, Opened, Pending, Compacted, ApplyOps, SubAt, IndexAt, ToSet, AllEmpty, Stored,
          Without, Dictionary.SRem, Meta.FieldCount;
      ghost var slot := SlotAt(key, now);
      SRemEdges(slot, members);
      var loaded :- LoadTyped(key, TYPE_SET, now);
      if loaded.None? {
        return Ok(0);
      }
      var meta := loaded.value;
      ghost var base, was := engine.data, versions.inner;
      ghost var rest := Without(SubAt(base, key, meta.version), ToSet(members));
      StoredNonEmpty(base, was, issued, key, meta, slot);
      SRemIs(base, was, issued, key, meta, slot, members);
      var batch, count, removed := StageRemovals(key, meta, members, slot);
      ghost var ops, m := batch.ops, meta;
      if removed > 0 {
        if count == 0 {
          PendingOwns(base, key, m.version, issued, ops);
          WriteAndDelete(key, batch, base);
          PlaceTwice(old(Contents()), key, slot, None);
        } else {
          meta := meta.SetFieldCount(count);
          CommitBatch(key, meta, batch, base);
          SetStored(base, was, issued, key, m, slot, ops, rest, count, engine.data);
          PlaceTwice(old(Contents()), key, slot, Some(Entry(Value.Set(rest.Keys), m.expireMs)));
        }
      } else {
        SweepKeeps(base, engine.data, was, issued);
      }
      r := Ok(removed);
    }

    /** The member loop of SREM. */
    method StageRemovals(key: bytes, meta: Meta, members: seq<bytes>, ghost slot: Slot)
      returns (batch: WriteBatch, count: u32, removed: nat)
      requires engine.gc == versions && Opened(engine.data, versions.inner, issued, key, meta, slot)
      modifies engine`data
      ensures fresh(batch) && Compacted(old(engine.data), engine.data, versions.inner)
      ensures count == Max(0, meta.FieldCount() - removed)
      ensures var sub := old(SubAt(engine.data, key, meta.version));
              && removed == Stored(sub, ToSet(members))
              && Pending(old(engine.data), key, meta.version, issued, batch.ops, Without(sub, ToSet(members)),
                  old(IndexAt(engine.data, key, meta.version)))
    {
      hide Opened, Pending, Compacted, SubAt, IndexAt, ToSet, Stored, Without;
      ghost var base := engine.data;
      ghost var sub, index := SubAt(base, key, meta.version), IndexAt(base, key, meta.version);
      OpenedFacts(base, versions.inner, issued, key, meta, slot);
      PendingStart(base, key, meta.version, issued);
      RemoveNone(sub);
      NoMentions(sub, members);
      batch := new WriteBatch();
      count, removed := meta.FieldCount(), 0;
      var seen: set<bytes> := {};
      for i := 0 to |members|
        modifies engine`data, batch
        invariant Compacted(base, engine.data, versions.inner)
        invariant seen == ToSet(members[..i])
        invariant removed == Stored(sub, seen)
        invariant count == Max(0, meta.FieldCount() - removed)
        invariant Pending(base, key, meta.version, issued, batch.ops, Without(sub, seen), index)
      {
        var member := members[i];
        ToSetSnoc(members, i);
        RemoveOne(sub, seen, member);
        StoredOne(sub, seen, member);
        if member !in seen {
          var stored := Fetch(key, meta.version, member, base);
          if stored.Some? {
            PendingSub(base, key, meta.version, issued, batch.ops, Without(sub, seen), index,
                       WriteOp.Delete(Subkey(key, meta.version, member)), member);
            batch.Delete(Subkey(key, meta.version, member));
            removed := removed + 1;
            count := if count == 0 then 0 else count - 1;
          }
        }
        seen := seen + {member};
      }
      assert members[..|members|] == members;
    }

    method SIsMember(key: bytes, member: bytes, now: u64) returns (r: Result<bool>)
      requires Valid()
      modifies engine`data, versions
      ensures Valid() && Contents() == Place(old(Contents()), key, old(SlotAt(key, now)))
      ensures r == Dictionary.SIsMember(old(SlotAt(key, now)), member)
    {
      hide Abs, Place, Inv, Live, Opened, Compacted, SubAt, IndexAt;
      ghost var slot := SlotAt(key, now);
      var meta :- LoadTyped(key, TYPE_SET, now);
      if meta.None? {
        return Ok(false);
      }
      ghost var base := engine.data;
      OpenedFacts(base, versions.inner, issued, key, meta.value, slot);
      SetOpened(base, versions.inner, issued, key, meta.value, slot);
      var stored := Fetch(key, meta.value.version, member, base);
      SweepKeeps(base, engine.data, versions.inner, issued);
      r := Ok(stored.Some?);
    }

    method SMembers(key: bytes, now: u64) returns (r: Result<seq<bytes>>)
      requires Valid()
      modifies engine`data, versions
      ensures Valid() && Contents() == Place(old(Contents()), key, old(SlotAt(key, now)))
      ensures r == Dictionary.SMembers(old(SlotAt(key, now)))
    {
      hide Abs, Place, Inv, Live, Opened, Compacted, IndexAt, Under, ByField, SortedKeys;
      ghost var slot := SlotAt(key, now);
      var meta :- LoadTyped(key, TYPE_SET, now);
      if meta.None? {
        return Ok([]);
      }
      ghost var base := engine.data;
      OpenedFacts(base, versions.inner, issued, key, meta.value, slot);
      SetOpened(base, versions.inner, issued, key, meta.value, slot);
      var prefix := SubkeyPrefix(key, meta.value.version);
      var items := FetchAll(SUBKEY_PREFIX, key, meta.value.version);
      SweepKeeps(base, engine.data, versions.inner, issued);
      var out := Suffixes(items, |prefix|);
      SameSeq(out, SortedKeys(SubAt(base, key, meta.value.version).Keys));
      r := Ok(out);
    }

    /** Scanned records without the common prefix of their keys. */
    static method Stripped(items: seq<(bytes, bytes)>, n: nat) returns (out: seq<(bytes, bytes)>)
      requires forall i :: 0 <= i < |items| ==> n <= |items[i].0|
      ensures |out| == |items| && forall i :: 0 <= i < |items| ==> out[i] == (items[i].0[n..], items[i].1)
    {
      out := [];
      for i := 0 to |items|
        invariant |out| == i && forall j :: 0 <= j < i ==> out[j] == (items[j].0[n..], items[j].1)
      {
        out := out + [(items[i].0[n..], items[i].1)];
      }
    }

    /** What the keys of scanned records hold after their common prefix. */
    static method Suffixes(items: seq<(bytes, bytes)>, n: nat) returns (out: seq<bytes>)
      requires forall i :: 0 <= i < |items| ==> n <= |items[i].0|
      ensures |out| == |items| && forall i :: 0 <= i < |items| ==> out[i] == items[i].0[n..]
    {
      out := [];
      for i := 0 to |items|
        invariant |out| == i && forall j :: 0 <= j < i ==> out[j] == items[j].0[n..]
      {
        out := out + [items[i].0[n..]];
      }
    }

    method SCard(key: bytes, now: u64) returns (r: Result<int>)
      requires Valid()
      modifies engine`data, versions
      ensures Valid() && Contents() == Place(old(Contents()), key, old(SlotAt(key, now)))
      ensures r == Dictionary.SCard(old(SlotAt(key, now)))
    {
      hide Abs, Place, Inv, Live, Opened, SubAt;
      var meta :- LoadTyped(key, TYPE_SET, now);
      if meta.Some? {
        SetOpened(engine.data, versions.inner, issued, key, meta.value, old(SlotAt(key, now)));
      }
      r := Ok(if meta.None? then 0 else meta.value.FieldCount());
    }

    // ---- Sorted sets ------------------------------------------------------------------

    method ZAdd(key: bytes, pairs: seq<(u64, bytes)>, now: u64, micros: u64) returns (r: Result<int>)
      requires Valid() && |key| < U32 && Fresh(micros) && pairs != [] && NoNaN(pairs)
      requires Fits(SlotAt(key, now), |pairs|)
      modifies engine`data, versions, clock, this`issued
      ensures Valid() && Ticked(micros)
      ensures var (slot, reply) := Dictionary.ZAdd(old(SlotAt(key, now)), pairs);
              r == reply && Contents() == Place(old(Contents()), key, slot)
    {
      hide Abs, Place, Inv, Live, Opened, Pending, Compacted, ApplyOps, SubAt, IndexAt, Dictionary.ZAdd, Fits,
           LastScores, ScoreTable, Scores, ScoresStored, IndexOf, IsNaN, Missing, Meta.FieldCount;
      ghost var slot := SlotAt(key, now);
      ZAddWrongType(slot, pairs);
      var meta :- LoadOrCreate(key, TYPE_ZSET, now, micros);
      ghost var base, vm := engine.data, versions.inner;
      ghost var table := ScoreTable(SubAt(base, key, meta.version), LastScores(pairs));
      ZAddIs(base, vm, issued, key, meta, slot, pairs);
      LastScoresOk(pairs);
      var effective := LastWins(pairs);
      var batch, count, added := StageScores(key, meta, effective, slot);
      ghost var ops, m := batch.ops, meta;
      if batch.ops != [] {
        meta := meta.SetFieldCount(count);
        CommitBatch(key, meta, batch, base);
        ZSetStored(base, vm, issued, key, m, slot, ops, table, count, engine.data);
        PlaceTwice(old(Contents()), key, slot, Some(Entry(Value.ZSet(Scores(table)), m.expireMs)));
      } else {
        ZAddNothing(base, vm, issued, key, m, slot, pairs);
        SweepKeeps(base, engine.data, vm, issued);
      }
      r := Ok(added);
    }

    /** Deduplicates the arguments of one ZADD; the last score of a member wins. */
    static method LastWins(pairs: seq<(u64, bytes)>) returns (effective: seq<(bytes, u64)>)
      ensures DistinctMembers(effective) && AsScores(effective) == LastScores(pairs)
      ensures |effective| <= |pairs|
    {
      effective := [];
      for i := 0 to |pairs|
        invariant DistinctMembers(effective) && |effective| <= i
        invariant AsScores(effective) == LastScores(pairs[..i])
      {
        var (score, member) := pairs[i];
        LastScoresSnoc(pairs, i);
        var j := 0;
        while j < |effective| && effective[j].0 != member
          invariant 0 <= j <= |effective|
          invariant forall l :: 0 <= l < j ==> effective[l].0 != member
        {
          j := j + 1;
        }
        if j < |effective| {
          AsScoresReplace(effective, j, score);
          effective := effective[j := (member, score)];
        } else {
          AsScoresSnoc(effective, member, score);
          effective := effective + [(member, score)];
        }
      }
      assert pairs[..|pairs|] == pairs;
    }

    /** The member loop of ZADD: a changed score moves the member's index record. */
    method StageScores(key: bytes, meta: Meta, effective: seq<(bytes, u64)>, ghost slot: Slot)
      returns (batch: WriteBatch, count: u32, added: nat)
      requires engine.gc == versions && Opened(engine.data, versions.inner, issued, key, meta, slot)
          && meta.typeId == TYPE_ZSET
      requires DistinctMembers(effective) && meta.FieldCount() + |effective| < U32
      requires forall m :: m in AsScores(effective) ==> !IsNaN(AsScores(effective)[m])
      modifies engine`data
      ensures fresh(batch) && Compacted(old(engine.data), engine.data, versions.inner)
      ensures count == meta.FieldCount() + added
      ensures var sub := old(SubAt(engine.data, key, meta.version));
              var table := ScoreTable(sub, AsScores(effective));
              && added == Missing(sub, AsScores(effective).Keys)
              && Pending(old(engine.data), key, meta.version, issued, batch.ops, table, IndexOf(table))
    {
      hide Opened, Pending, Compacted, SubAt, IndexAt, AsScores, ScoreTable, IndexOf, ScoresStored, Missing, IsNaN,
          DistinctMembers,
           TableAfter, AddedBy, DecodeStoredScore, StoredScore, ScoreEq, EncodeScore;
      ghost var base := engine.data;
      ghost var sub := SubAt(base, key, meta.version);
      OpenedFacts(base, versions.inner, issued, key, meta, slot);
      ZSetOpened(base, versions.inner, issued, key, meta, slot);
      PendingStart(base, key, meta.version, issued);
      TableStart(sub, effective);
      TableEnd(sub, effective);
      batch := new WriteBatch();
      count, added := meta.FieldCount(), 0;
      for i := 0 to |effective|
        modifies engine`data, batch
        invariant Compacted(base, engine.data, versions.inner)
        invariant added == AddedBy(sub, effective, i) <= i
        invariant count == meta.FieldCount() + added
        invariant Pending(base, key, meta.version, issued, batch.ops, TableAfter(sub, effective, i),
            IndexOf(TableAfter(sub, effective, i)))
      {
        var (member, score) := effective[i];
        TableStep(sub, effective, i);
        var stored := Fetch(key, meta.version, member, base);
        if stored.None? || !ScoreEq(DecodeStoredScore(stored.value).value, score) {
          StageScore(key, meta.version, member, stored, score, batch, base, TableAfter(sub, effective, i));
        }
        if stored.None? {
          count := count + 1;
          added := added + 1;
        }
      }
    }

    /** Replaces the two records of one member; a new member has none to delete. */
    method StageScore(key: bytes, version: u64, member: bytes, stored: Option<bytes>, score: u64, batch: WriteBatch,
        ghost base: Db, ghost table: Db)
      requires Pending(base, key, version, issued, batch.ops, table, IndexOf(table)) && ScoresStored(table)
      requires stored == if member in table then Some(table[member]) else None
      modifies batch
      ensures Pending(base, key, version, issued, batch.ops, table[member := EncodeScore(score)],
          IndexOf(table[member := EncodeScore(score)]))
    {
      hide Pending, IndexOf, ScoresStored;
      var raw := EncodeScore(score);
      IndexMoves(table, member, raw);
      ghost var index := IndexOf(table);
      if stored.Some? {
        StoredScoreIs(table, member);
        var oldScore := DecodeStoredScore(stored.value).value;
        PendingIndex(base, key, version, issued, batch.ops, table, index,
            WriteOp.Delete(ZscoreKey(key, version, oldScore, member)), table[member] + member);
        batch.Delete(ZscoreKey(key, version, oldScore, member));
        index := index - {table[member] + member};
      }
      PendingSub(base, key, version, issued, batch.ops, table, index, WriteOp.Put(Subkey(key, version, member), raw),
          member);
      batch.Put(Subkey(key, version, member), raw);
      PendingIndex(base, key, version, issued, batch.ops, table[member := raw], index,
          WriteOp.Put(ZscoreKey(key, version, score, member), []), raw + member);
      batch.Put(ZscoreKey(key, version, score, member), []);
    }

    method ZScore(key: bytes, member: bytes, now: u64) returns (r: Result<Option<u64>>)
      requires Valid()
      modifies engine`data, versions
      ensures Valid() && Contents() == Place(old(Contents()), key, old(SlotAt(key, now)))
      ensures r == Dictionary.ZScore(old(SlotAt(key, now)), member)
    {
      hide Abs, Place, Inv, Live, Opened, Compacted, SubAt, IndexAt;
      ghost var slot := SlotAt(key, now);
      var meta :- LoadTyped(key, TYPE_ZSET, now);
      if meta.None? {
        return Ok(None);
      }
      ghost var base := engine.data;
      OpenedFacts(base, versions.inner, issued, key, meta.value, slot);
      ZSetOpened(base, versions.inner, issued, key, meta.value, slot);
      var raw := Fetch(key, meta.value.version, member, base);
      SweepKeeps(base, engine.data, versions.inner, issued);
      if raw.None? {
        return Ok(None);
      }
      r := Ok(Some(DecodeStoredScore(raw.value).value));
    }

    method ZRem(key: bytes, members: seq<bytes>, now: u64) returns (r: Result<int>)
      requires Valid()
      modifies engine`data, versions
      ensures Valid()
      ensures var (slot, reply) := Dictionary.ZRem(old(SlotAt(key, now)), members);
              r == reply && Contents() == Place(old(Contents()), key, slot)
    {
      hide Abs, Place, Inv, Live, Opened, Pending, Compacted, ApplyOps, SubAt, IndexAt, ToSet, Scores, ScoresStored,
          IndexOf, Stored, Without, Dictionary.ZRem, Meta.FieldCount;
      ghost var slot := SlotAt(key, now);
      ZRemEdges(slot, members);
      var loaded :- LoadTyped(key, TYPE_ZSET, now);
      if loaded.None? {
        return Ok(0);
      }
      var meta := loaded.value;
      ghost var base, was := engine.data, versions.inner;
      ghost var rest := Without(SubAt(base, key, meta.version), ToSet(members));
      StoredNonEmpty(base, was, issued, key, meta, slot);
      ZRemIs(base, was, issued, key, meta, slot, members);
      var batch, count, removed := StageScoreRemovals(key, meta, members, slot);
      ghost var ops, m := batch.ops, meta;
      if removed > 0 {
        if count == 0 {
          PendingOwns(base, key, m.version, issued, ops);
          WriteAndDelete(key, batch, base);
          PlaceTwice(old(Contents()), key, slot, None);
        } else {
          meta := meta.SetFieldCount(count);
          CommitBatch(key, meta, batch, base);
          ZSetStored(base, was, issued, key, m, slot, ops, rest, count, engine.data);
          PlaceTwice(old(Contents()), key, slot, Some(Entry(Value.ZSet(Scores(rest)), m.expireMs)));
        }
      } else {
        SweepKeeps(base, engine.data, was, issued);
      }
      r := Ok(removed);
    }

    /** The member loop of ZREM: both records of a member go. */
    method StageScoreRemovals(key: bytes, meta: Meta, members: seq<bytes>, ghost slot: Slot)
      returns (batch: WriteBatch, count: u32, removed: nat)
      requires engine.gc == versions && Opened(engine.data, versions.inner, issued, key, meta, slot)
          && meta.typeId == TYPE_ZSET
      modifies engine`data
      ensures fresh(batch) && Compacted(old(engine.data), engine.data, versions.inner)
      ensures count == Max(0, meta.FieldCount() - removed)
      ensures var sub := old(SubAt(engine.data, key, meta.version));
              && removed == Stored(sub, ToSet(members))
              && Pending(old(engine.data), key, meta.version, issued, batch.ops, Without(sub, ToSet(members)),
                  IndexOf(Without(sub, ToSet(members))))
    {
      hide Opened, Pending, Compacted, SubAt, IndexAt, ToSet, Stored, IndexOf, ScoresStored, Scores, Without;
      ghost var base := engine.data;
      ghost var sub := SubAt(base, key, meta.version);
      OpenedFacts(base, versions.inner, issued, key, meta, slot);
      ZSetOpened(base, versions.inner, issued, key, meta, slot);
      PendingStart(base, key, meta.version, issued);
      RemoveNone(sub);
      NoMentions(sub, members);
      batch := new WriteBatch();
      count, removed := meta.FieldCount(), 0;
      var seen: set<bytes> := {};
      for i := 0 to |members|
        modifies engine`data, batch
        invariant Compacted(base, engine.data, versions.inner)
        invariant seen == ToSet(members[..i])
        invariant removed == Stored(sub, seen)
        invariant count == Max(0, meta.FieldCount() - removed)
        invariant Pending(base, key, meta.version, issued, batch.ops, Without(sub, seen), IndexOf(Without(sub, seen)))
      {
        var member := members[i];
        ToSetSnoc(members, i);
        RemoveOne(sub, seen, member);
        StoredOne(sub, seen, member);
        if member !in seen {
          var stored := Fetch(key, meta.version, member, base);
          if stored.Some? {
            StoredScoreIs(sub, member);
            ScoresLess(sub, seen);
            IndexLosesMember(Without(sub, seen), member);
            var score := DecodeStoredScore(stored.value).value;
            PendingSub(base, key, meta.version, issued, batch.ops, Without(sub, seen), IndexOf(Without(sub, seen)),
                       WriteOp.Delete(Subkey(key, meta.version, member)), member);
            batch.Delete(Subkey(key, meta.version, member));
            PendingIndex(base, key, meta.version, issued, batch.ops, Without(sub, seen) - {member},
                IndexOf(Without(sub, seen)),
                         WriteOp.Delete(ZscoreKey(key, meta.version, score, member)), EncodeScore(score) + member);
            batch.Delete(ZscoreKey(key, meta.version, score, member));
            removed := removed + 1;
            count := if count == 0 then 0 else count - 1;
          }
        }
        seen := seen + {member};
      }
      assert members[..|members|] == members;
    }

    method ZCard(key: bytes, now: u64) returns (r: Result<int>)
      requires Valid()
      modifies engine`data, versions
      ensures Valid() && Contents() == Place(old(Contents()), key, old(SlotAt(key, now)))
      ensures r == Dictionary.ZCard(old(SlotAt(key, now)))
    {
      hide Abs, Place, Inv, Live, Opened;
      var meta :- LoadTyped(key, TYPE_ZSET, now);
      if meta.Some? {
        ZCardIs(engine.data, versions.inner, issued, key, meta.value, old(SlotAt(key, now)));
      }
      r := Ok(if meta.None? then 0 else meta.value.FieldCount());
    }

    /** A scan of the score index: suffixes unpack to the ranking, in order. */
    method ScanRanking(key: bytes, meta: Meta, ghost slot: Slot) returns (suffixes: seq<bytes>)
      requires Valid() && Opened(engine.data, versions.inner, issued, key, meta, slot) && meta.typeId == TYPE_ZSET
      modifies engine`data
      ensures Valid() && Contents() == old(Contents())
      ensures var ranking := Ranking(Scores(old(SubAt(engine.data, key, meta.version))));
              && |suffixes| == |ranking|
              && forall i :: 0 <= i < |suffixes| ==> |suffixes[i]| >= 8 && Unpack(suffixes[i]) == ranking[i]
    {
      hide Abs, Inv, Opened, Compacted, Under, ByField, SortedKeys, Ranking, Scores, ScoresStored, Unpack, IndexKeys,
          SubAt;
      ghost var base := engine.data;
      OpenedFacts(base, versions.inner, issued, key, meta, slot);
      ZSetOpened(base, versions.inner, issued, key, meta, slot);
      var items := FetchAll(ZSCORE_PREFIX, key, meta.version);
      SweepKeeps(base, engine.data, versions.inner, issued);
      IndexKeysAre(SubAt(base, key, meta.version));
      RankingOfIndex(SubAt(base, key, meta.version));
      suffixes := Suffixes(items, |ZscorePrefix(key, meta.version)|);
    }

    method ZRange(key: bytes, start: i64, stop: i64, now: u64) returns (r: Result<seq<(bytes, u64)>>)
      requires Valid()
      modifies engine`data, versions
      ensures Valid() && Contents() == Place(old(Contents()), key, old(SlotAt(key, now)))
      ensures r == Dictionary.ZRange(old(SlotAt(key, now)), start, stop)
    {
      hide Abs, Place, Inv, Live, Opened, SubAt, Scores, Ranking, NormalizeRange, Dictionary.ZRange, Unpack,
          Meta.FieldCount;
      ghost var slot := SlotAt(key, now);
      ZRangeEdges(slot, start, stop);
      var meta :- LoadTyped(key, TYPE_ZSET, now);
      if meta.None? {
        return Ok([]);
      }
      ghost var ranking := Ranking(Scores(SubAt(engine.data, key, meta.value.version)));
      ZRangeIs(engine.data, versions.inner, issued, key, meta.value, slot, start, stop);
      var range := NormalizeRange(start, stop, meta.value.FieldCount());
      if range.None? {
        return Ok([]);
      }
      var (lo, hi) := range.value;
      var suffixes := ScanRanking(key, meta.value, slot);
      var out := TakeRanks(suffixes, lo, hi, ranking);
      r := Ok(out);
    }

    /** The loop of ZRANGE: skips to rank `lo`, stops after rank `hi`. */
    static method TakeRanks(suffixes: seq<bytes>, lo: nat, hi: nat, ghost ranking: seq<(bytes, u64)>)
        returns (out: seq<(bytes, u64)>)
      requires lo <= hi < |suffixes| == |ranking|
      requires forall i :: 0 <= i < |suffixes| ==> |suffixes[i]| >= 8 && Unpack(suffixes[i]) == ranking[i]
      ensures out == ranking[lo..hi + 1]
    {
      out := [];
      var rank := 0;
      while rank < |suffixes| && rank <= hi
        invariant 0 <= rank <= hi + 1
        invariant |out| == Max(0, rank - lo)
        invariant forall i :: 0 <= i < |out| ==> out[i] == ranking[lo + i]
      {
        if rank >= lo {
          var (score, member) := SplitScoreSuffix(suffixes[rank]).value;
          out := out + [(member, score)];
        }
        rank := rank + 1;
      }
      SameSeq(out, ranking[lo..hi + 1]);
    }

    method ZRangeByScore(key: bytes, min: u64, minExclusive: bool, max: u64, maxExclusive: bool, now: u64)
      returns (r: Result<seq<(bytes, u64)>>)
      requires Valid()
      modifies engine`data, versions
      ensures Valid() && Contents() == Place(old(Contents()), key, old(SlotAt(key, now)))
      ensures r == Dictionary.ZRangeByScore(old(SlotAt(key, now)), min, minExclusive, max, maxExclusive)
    {
      hide Abs, Place, Inv, Live, Opened, SubAt, Scores, ScoresStored, Ranking, WithinScores, NoneNaN;
      ghost var slot := SlotAt(key, now);
      var meta :- LoadTyped(key, TYPE_ZSET, now);
      if meta.None? {
        return Ok([]);
      }
      ZSetOpened(engine.data, versions.inner, issued, key, meta.value, slot);
      ghost var ranking := Ranking(Scores(SubAt(engine.data, key, meta.value.version)));
      RankingNoneNaN(SubAt(engine.data, key, meta.value.version));
      var suffixes := ScanRanking(key, meta.value, slot);
      var out := CollectRange(suffixes, min, minExclusive, max, maxExclusive, ranking);
      r := Ok(out);
    }

    /** The loop of ZRANGEBYSCORE, stopping at the first score past the upper bound. */
    static method CollectRange(suffixes: seq<bytes>, min: u64, minExclusive: bool, max: u64, maxExclusive: bool,
        ghost ranking: seq<(bytes, u64)>)
      returns (out: seq<(bytes, u64)>)
      requires Ascending(RankLess, ranking) && NoneNaN(ranking) && |suffixes| == |ranking|
      requires forall i :: 0 <= i < |suffixes| ==> |suffixes[i]| >= 8 && Unpack(suffixes[i]) == ranking[i]
      ensures out == WithinScores(ranking, min, minExclusive, max, maxExclusive)
    {
      hide WithinScores, RankLess, NoneNaN;
      out := [];
      WithinNothing(ranking, min, minExclusive, max, maxExclusive);
      assert ranking[..|ranking|] == ranking;
      for i := 0 to |suffixes|
        invariant out == WithinScores(ranking[..i], min, minExclusive, max, maxExclusive)
      {
        var (score, member) := SplitScoreSuffix(suffixes[i]).value;
        assert ranking[i] == (member, score);
        WithinSnoc(ranking, i, min, minExclusive, max, maxExclusive);
        if ScoreLess(max, score) || (maxExclusive && ScoreEq(score, max)) {
          BreakIsFinal(ranking, i, |ranking|, min, minExclusive, max, maxExclusive);
          return;
        }
        if !(ScoreLess(score, min) || (minExclusive && ScoreEq(score, min))) {
          out := out + [(member, score)];
        }
      }
    }

    // ---- Lists --------------------------------------------------------------------------

    method Push(key: bytes, values: seq<bytes>, left: bool, now: u64, micros: u64) returns (r: Result<int>)
      requires Valid() && |key| < U32 && Fresh(micros) && values != []
      requires PushFits(SlotAt(key, now), |values|, left)
      modifies engine`data, versions, clock, this`issued
      ensures Valid() && Ticked(micros)
      ensures var (slot, reply) := Dictionary.Push(old(SlotAt(key, now)), values, left);
              r == reply && Contents() == Place(old(Contents()), key, slot)
    {
      hide Abs, Place, Inv, Live, Opened, Pending, Compacted, ApplyOps, SubAt, IndexAt, Dictionary.Push, PushFits,
           ListShape, Elements, Pushed, Meta.ListBounds;
      ghost var slot := SlotAt(key, now);
      PushWrongType(slot, values, left);
      var meta :- LoadOrCreate(key, TYPE_LIST, now, micros);
      ghost var base := engine.data;
      ListFacts(base, versions.inner, issued, key, meta, slot);
      PushIs(base, versions.inner, issued, key, meta, slot, values, left);
      var (head, tail) := meta.ListBounds().value;
      OpenedFacts(base, versions.inner, issued, key, meta, slot);
      PendingStart(base, key, meta.version, issued);
      ghost var table := SubAt(base, key, meta.version);
      var batch := new WriteBatch();
      head, tail, table := StagePush(key, meta.version, values, left, head, tail, batch, base, table);
      ghost var ops, m := batch.ops, meta;
      meta := meta.SetListBounds(head, tail);
      CommitBatch(key, meta, batch, base);
      ListStored(base, versions.inner, issued, key, m, slot, ops, table, head, tail, engine.data);
      PlaceTwice(old(Contents()), key, slot, Some(Entry(Value.List(Elements(table, head, tail), head), m.expireMs)));
      r := Ok(AsI64(tail - head));
    }

    /** The element loop of LPUSH and RPUSH; the bounds move without wrapping. */
    method StagePush(key: bytes, version: u64, values: seq<bytes>, left: bool, head0: u64, tail0: u64,
        batch: WriteBatch, ghost base: Db, ghost sub: Db)
      returns (head: u64, tail: u64, ghost table: Db)
      requires Pending(base, key, version, issued, batch.ops, sub, IndexAt(base, key, version))
          && ListShape(sub, head0, tail0)
      requires tail0 - head0 + |values| < U63 && if left then |values| <= head0 else tail0 + |values| < U64
      modifies batch
      ensures Pending(base, key, version, issued, batch.ops, table, IndexAt(base, key, version))
          && ListShape(table, head, tail)
      ensures if left then head == head0 - |values| && tail == tail0 else head == head0 && tail == tail0 + |values|
      ensures List(Elements(table, head, tail), head) == Pushed(Elements(sub, head0, tail0), head0, values, left)
    {
      hide Pending, IndexAt, Elements, ListShape, Pushed;
      head, tail, table := head0, tail0, sub;
      ghost var items := Elements(sub, head0, tail0);
      PushNone(items, head0, values, left);
      for i := 0 to |values|
        invariant Pending(base, key, version, issued, batch.ops, table, IndexAt(base, key, version))
            && ListShape(table, head, tail)
        invariant if left then head == head0 - i && tail == tail0 else head == head0 && tail == tail0 + i
        invariant List(Elements(table, head, tail), head) == Pushed(items, head0, values[..i], left)
      {
        var index;
        PushOne(items, head0, values, i, left);
        if left {
          PushFront(table, head, tail, values[i]);
          head := head - 1;
          index := head;
        } else {
          PushBack(table, head, tail, values[i]);
          index := tail;
          tail := tail + 1;
        }
        PendingSub(base, key, version, issued, batch.ops, table, IndexAt(base, key, version),
                   WriteOp.Put(Subkey(key, version, ListIndexField(index)), values[i]), ListIndexField(index));
        batch.Put(Subkey(key, version, ListIndexField(index)), values[i]);
        table := table[ListIndexField(index) := values[i]];
      }
      assert values[..|values|] == values;
    }

    method Pop(key: bytes, count: u64, left: bool, now: u64) returns (r: Result<seq<bytes>>)
      requires Valid()
      modifies engine`data, versions
      ensures Valid()
      ensures var (slot, reply) := Dictionary.Pop(old(SlotAt(key, now)), count, left);
              r == reply && Contents() == Place(old(Contents()), key, slot)
    {
      hide Abs, Place, Inv, Live, Opened, Pending, Compacted, ApplyOps, SubAt, IndexAt, ListShape, Elements, Taken,
          Rest, Dictionary.Pop, Meta.ListBounds;
      ghost var slot := SlotAt(key, now);
      PopEdges(slot, count, left);
      var loaded :- LoadTyped(key, TYPE_LIST, now);
      if loaded.None? {
        return Ok([]);
      }
      var meta := loaded.value;
      ghost var base := engine.data;
      var batch, head, tail, out;
      ghost var table;
      batch, head, tail, out, table := StagePop(key, meta, count, left, slot);
      PoppedIs(base, versions.inner, issued, key, meta, slot, count, left, head, tail, out, table);
      if out != [] {
        SettlePop(key, meta, batch, head, tail, base, slot, table);
        PlaceTwice(old(Contents()), key, slot, Dictionary.Pop(slot, count, left).0);
      } else {
        SweepKeeps(base, engine.data, versions.inner, issued);
      }
      r := Ok(out);
    }

    /** Removes a list that a pop has emptied, with its metadata, or stores the new bounds. */
    method SettlePop(key: bytes, meta: Meta, batch: WriteBatch, head: u64, tail: u64,
                     ghost base: Db, ghost slot: Slot, ghost table: Db)
      requires engine.gc == versions && Inv(base, versions.inner, issued)
      requires Opened(base, versions.inner, issued, key, meta, slot)
      requires meta.typeId == TYPE_LIST && Compacted(base, engine.data, versions.inner)
      requires Pending(base, key, meta.version, issued, batch.ops, table, IndexAt(base, key, meta.version))
      requires ListShape(table, head, tail)
      modifies engine`data, versions, batch
      ensures Valid()
      ensures Contents() == Place(Abs(base), key,
                if head == tail then None else Some(Entry(Value.List(Elements(table, head, tail), head), meta.expireMs)))
    {
      hide Abs, Place, Inv, Live, Opened, Pending, Compacted, ApplyOps, SubAt, IndexAt, Elements, Meta.ListBounds;
      if head == tail {
        PendingOwns(base, key, meta.version, issued, batch.ops);
        OpenedFacts(base, versions.inner, issued, key, meta, slot);
        WriteAndDelete(key, batch, base);
      } else {
        ghost var ops := batch.ops;
        CommitBatch(key, meta.SetListBounds(head, tail), batch, base);
        ListStored(base, versions.inner, issued, key, meta, slot, ops, table, head, tail, engine.data);
      }
    }

    /** The element loop of LPOP and RPOP; every index between the bounds has a record. */
    method StagePop(key: bytes, meta: Meta, count: u64, left: bool, ghost slot: Slot)
      returns (batch: WriteBatch, head: u64, tail: u64, out: seq<bytes>, ghost table: Db)
      requires engine.gc == versions && Opened(engine.data, versions.inner, issued, key, meta, slot)
          && meta.typeId == TYPE_LIST
      modifies engine`data
      ensures fresh(batch) && Compacted(old(engine.data), engine.data, versions.inner)
      ensures Pending(old(engine.data), key, meta.version, issued, batch.ops, table,
          old(IndexAt(engine.data, key, meta.version)))
      ensures ListShape(table, head, tail) && meta.ListBounds().Some?
      ensures var (head0, tail0) := meta.ListBounds().value;
              var items := Elements(old(SubAt(engine.data, key, meta.version)), head0, tail0);
              var n := Min(count, |items|);
              && (if left then head == head0 + n && tail == tail0 else head == head0 && tail == tail0 - n)
              && Elements(table, head, tail) == Rest(items, n, left) && out == Taken(items, n, left)
    {
      hide Opened, Pending, Compacted, SubAt, IndexAt, ListShape, Elements, Taken, Rest, Meta.ListBounds,
          ListIndexField;
      ghost var base := engine.data;
      ghost var sub, index0 := SubAt(base, key, meta.version), IndexAt(base, key, meta.version);
      OpenedFacts(base, versions.inner, issued, key, meta, slot);
      ListFacts(base, versions.inner, issued, key, meta, slot);
      PendingStart(base, key, meta.version, issued);
      head, tail := meta.ListBounds().value.0, meta.ListBounds().value.1;
      ghost var head0, tail0, items := head, tail, Elements(sub, head, tail);
      TakeNone(items, left);
      batch := new WriteBatch();
      out, table := [], sub;
      while |out| < count && head < tail
        modifies engine`data, batch
        invariant Compacted(base, engine.data, versions.inner)
        invariant |out| <= count && |out| <= |items|
        invariant if left then head == head0 + |out| && tail == tail0 else head == head0 && tail == tail0 - |out|
        invariant ListShape(table, head, tail)
        invariant Elements(table, head, tail) == Rest(items, |out|, left)
        invariant out == Taken(items, |out|, left)
        invariant Pending(base, key, meta.version, issued, batch.ops, table, index0)
        decreases count - |out|
      {
        PopStep(table, items, |out|, head, tail, left);
        var index;
        if left {
          index := head;
          head := head + 1;
        } else {
          tail := tail - 1;
          index := tail;
        }
        ElementAt(sub, head0, tail0, index - head0);
        var value := TakeElement(key, meta.version, index, batch, base, table, index0);
        out := out + [value];
        table := table - {ListIndexField(index)};
      }
    }

    method TakeElement(key: bytes, version: u64, index: u64, batch: WriteBatch, ghost base: Db, ghost table: Db,
        ghost index0: Db) returns (value: bytes)
      requires engine.gc == versions && |key| < U32 && key in versions.inner && versions.inner[key] == version
      requires Compacted(base, engine.data, versions.inner) && ListIndexField(index) in SubAt(base, key, version)
      requires Pending(base, key, version, issued, batch.ops, table, index0)
      modifies engine`data, batch
      ensures Compacted(base, engine.data, versions.inner) && value == SubAt(base, key, version)[ListIndexField(index)]
      ensures Pending(base, key, version, issued, batch.ops, table - {ListIndexField(index)}, index0)
    {
      hide Compacted, Pending, SubAt, ListIndexField;
      var sk := Subkey(key, version, ListIndexField(index));
      var stored := Fetch(key, version, ListIndexField(index), base);
      value := stored.value;
      PendingSub(base, key, version, issued, batch.ops, table, index0, WriteOp.Delete(sk), ListIndexField(index));
      batch.Delete(sk);
    }

    method LRange(key: bytes, start: i64, stop: i64, now: u64) returns (r: Result<seq<bytes>>)
      requires Valid()
      modifies engine`data, versions
      ensures Valid() && Contents() == Place(old(Contents()), key, old(SlotAt(key, now)))
      ensures r == Dictionary.LRange(old(SlotAt(key, now)), start, stop)
    {
      hide Abs, Place, Inv, Live, Opened, Dictionary.LRange;
      ghost var slot := SlotAt(key, now);
      LRangeEdges(slot, start, stop);
      var meta :- LoadTyped(key, TYPE_LIST, now);
      if meta.None? {
        return Ok([]);
      }
      var out := SelectRange(key, meta.value, start, stop, slot);
      r := Ok(out);
    }

    method SelectRange(key: bytes, meta: Meta, start: i64, stop: i64, ghost slot: Slot) returns (out: seq<bytes>)
      requires Valid() && Opened(engine.data, versions.inner, issued, key, meta, slot)
      requires meta.typeId == TYPE_LIST && slot.Some?
      modifies engine`data
      ensures Valid() && Contents() == old(Contents())
      ensures Dictionary.LRange(slot, start, stop) == Ok(out)
    {
      hide Abs, Inv, Opened, Compacted, SubAt, ListShape, Elements, NormalizeRange, Dictionary.LRange, Meta.ListBounds;
      ghost var base := engine.data;
      ListFacts(base, versions.inner, issued, key, meta, slot);
      var (head, tail) := meta.ListBounds().value;
      LRangeIs(base, versions.inner, issued, key, meta, slot, head, tail, start, stop);
      var len := AsI64(tail - head);
      var range := NormalizeRange(start, stop, len);
      if range.None? {
        return [];
      }
      var (lo, hi) := range.value;
      out := FetchRange(key, meta, lo, hi, slot);
      SweepKeeps(base, engine.data, versions.inner, issued);
    }

    /** The offset loop of LRANGE. */
    method FetchRange(key: bytes, meta: Meta, lo: nat, hi: nat, ghost slot: Slot) returns (out: seq<bytes>)
      requires engine.gc == versions && Opened(engine.data, versions.inner, issued, key, meta, slot)
          && meta.typeId == TYPE_LIST
      requires meta.ListBounds().Some? && lo <= hi < meta.ListBounds().value.1 - meta.ListBounds().value.0
      modifies engine`data
      ensures Compacted(old(engine.data), engine.data, versions.inner)
      ensures var items := Elements(old(SubAt(engine.data, key, meta.version)), meta.ListBounds().value.0,
          meta.ListBounds().value.1);
              hi < |items| && out == items[lo..hi + 1]
    {
      hide Opened, Compacted, SubAt, ListShape, Elements, Meta.ListBounds;
      ghost var base := engine.data;
      OpenedFacts(base, versions.inner, issued, key, meta, slot);
      ListFacts(base, versions.inner, issued, key, meta, slot);
      var (head, tail) := meta.ListBounds().value;
      ghost var sub := SubAt(base, key, meta.version);
      ghost var items := Elements(sub, head, tail);
      out := [];
      for offset := lo to hi + 1
        modifies engine`data
        invariant Compacted(base, engine.data, versions.inner)
        invariant |out| == offset - lo && forall i :: 0 <= i < |out| ==> out[i] == items[lo + i]
      {
        ElementAt(sub, head, tail, offset);
        var value := Fetch(key, meta.version, ListIndexField(head + offset), base);
        out := out + [value.value];
      }
      SameSeq(out, items[lo..hi + 1]);
    }

    method LLen(key: bytes, now: u64) returns (r: Result<int>)
      requires Valid()
      modifies engine`data, versions
      ensures Valid() && Contents() == Place(old(Contents()), key, old(SlotAt(key, now)))
      ensures r == Dictionary.LLen(old(SlotAt(key, now)))
    {
      hide Abs, Place, Inv, Live, Opened, SubAt, ListShape, Elements, Meta.ListBounds;
      ghost var slot := SlotAt(key, now);
      var meta :- LoadTyped(key, TYPE_LIST, now);
      if meta.None? {
        return Ok(0);
      }
      ListFacts(engine.data, versions.inner, issued, key, meta.value, slot);
      var (head, tail) := meta.value.ListBounds().value;
      r := Ok(AsI64(tail - head));
    }

    // ---- Administration -------------------------------------------------------------------

    /** DBSIZE counts stored keys, expired ones included. */
    method DbSize() returns (n: nat)
      requires Valid()
      modifies engine`data
      ensures Valid() && Contents() == old(Contents())
      ensures n == |Contents()|
    {
      hide Abs, Inv, Listing, Under;
      ghost var before := engine.data;
      var items;
      ghost var view;
      items, view := engine.ScanPrefix([META_PREFIX]);
      CompactedTransitive(before, view, engine.data, versions.inner);
      SweepKeeps(before, engine.data, versions.inner, issued);
      SweepKeeps(before, view, versions.inner, issued);
      KeysConserved(view, versions.inner, issued);
      n := 0;
      for i := 0 to |items|
        invariant n == i
      {
        n := n + 1;
      }
    }

    /** RAWCOUNT counts member and index records; garbage makes it larger than the data calls for. */
    method RawSubkeyCount() returns (n: nat)
      requires Valid()
      modifies engine`data
      ensures Valid() && Contents() == old(Contents())
      ensures RecordTotal(Contents()) <= n
      ensures old(NoGarbage(engine.data, versions.inner)) ==> n == RecordTotal(Contents())
    {
      hide Abs, Inv, Under, NoGarbage, Compacted;
      ghost var before := engine.data;
      var members, indexes;
      ghost var first, second;
      members, first := CountBelow(SUBKEY_PREFIX);
      ghost var between := engine.data;
      indexes, second := CountBelow(ZSCORE_PREFIX);
      CompactedTransitive(before, between, second, versions.inner);
      CompactedTransitive(before, between, engine.data, versions.inner);
      SweepKeeps(before, engine.data, versions.inner, issued);
      CountsAreEnough(before, first, second, versions.inner, issued);
      n := members + indexes;
    }

    /** Counts the records of one family in the view of one scan. */
    method CountBelow(tag: byte) returns (n: nat, ghost view: Db)
      requires engine.gc == versions
      modifies engine`data
      ensures Compacted(old(engine.data), view, versions.inner) && Compacted(view, engine.data, versions.inner)
      ensures Compacted(old(engine.data), engine.data, versions.inner)
      ensures n == |Under(view, [tag])|
    {
      hide Listing, Under, Keep;
      var items;
      items, view := engine.ScanPrefix([tag]);
      n := 0;
      for i := 0 to |items|
        invariant n == i
      {
        n := n + 1;
      }
    }

    /** COMPACT: afterwards no garbage is left, and the dictionary is as before. */
    method Compact()
      requires Valid()
      modifies engine`data
      ensures Valid() && Contents() == old(Contents())
      ensures NoGarbage(engine.data, versions.inner)
    {
      hide Abs, Inv;
      ghost var before := engine.data;
      engine.CompactRange();
      SweepKeeps(before, engine.data, versions.inner, issued);
    }

    /** FLUSHALL: one batch deletes every record of all three families. */
    method FlushAll()
      requires Valid()
      modifies engine`data, versions
      ensures Valid() && engine.data == map[] && Contents() == map[] && versions.inner == map[]
    {
      hide Abs, Inv, NamesFamily, Compacted, ApplyOps;
      ghost var before, vm := engine.data, versions.inner;
      var batch := new WriteBatch();
      StageFamily(META_PREFIX, batch);
      ghost var ops1, d1 := batch.ops, engine.data;
      StageFamily(SUBKEY_PREFIX, batch);
      ghost var ops2, d2 := batch.ops, engine.data;
      NamesKept(d1, d2, ops1, ops2, 1, vm);
      StageFamily(ZSCORE_PREFIX, batch);
      ghost var swept := engine.data;
      NamesKept(d2, swept, ops2, batch.ops, 1, vm);
      NamesKept(d2, swept, ops2, batch.ops, 2, vm);
      CompactedTransitive(before, d1, d2, vm);
      CompactedTransitive(before, d2, swept, vm);
      FamiliesGone(swept, batch.ops, before, vm, issued);
      engine.Write(batch);
      NothingLeft(engine.data, vm);
      versions.Clear();
      EmptyStore(issued);
    }

    /** One round of FLUSHALL: a deletion for every record of a family. */
    method StageFamily(tag: byte, batch: WriteBatch)
      requires engine.gc == versions && OnlyDeletes(batch.ops)
      modifies engine`data, batch
      ensures Compacted(old(engine.data), engine.data, versions.inner)
      ensures old(batch.ops) <= batch.ops && OnlyDeletes(batch.ops) && NamesFamily(engine.data, batch.ops, tag)
    {
      hide Listing, NamesFamily, Compacted;
      ghost var before := engine.data;
      var items;
      ghost var view;
      items, view := engine.ScanPrefix([tag]);
      for i := 0 to |items|
        modifies batch
        invariant old(batch.ops) <= batch.ops && OnlyDeletes(batch.ops)
        invariant forall j :: 0 <= j < i ==> WriteOp.Delete(items[j].0) in batch.ops
      {
        batch.Delete(items[i].0);
      }
      ListingNames(view, tag, batch.ops);
      NamesKept(view, engine.data, batch.ops, batch.ops, tag, versions.inner);
      CompactedTransitive(before, view, engine.data, versions.inner);
    }
  }
}
