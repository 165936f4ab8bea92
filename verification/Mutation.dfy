/** How a batch under construction changes the tables of the key it is for. */
module Mutation {
  import opened Common
  import opened ByteOrder
  import opened Encoding
  import opened Engine
  import opened Records
  import opened Gc
  import opened Dictionary
  import opened Representation

  /** Applied to `d`, the batch `ops` would turn the key's member and index tables into `sub` and `index`. */
  ghost predicate Pending(d: Db, key: bytes, version: u64, issued: u64, ops: seq<WriteOp>, sub: Db, index: Db) {
    && |key| < U32 && version <= issued
    && OwnOps(key, ops, issued)
    && ApplyTable(SubAt(d, key, version), ops, SubkeyPrefix(key, version)) == sub
    && ApplyTable(IndexAt(d, key, version), ops, ZscorePrefix(key, version)) == index
  }

  lemma PendingStart(d: Db, key: bytes, version: u64, issued: u64)
    requires |key| < U32 && version <= issued
    ensures Pending(d, key, version, issued, [], SubAt(d, key, version), IndexAt(d, key, version))
  {
  }

  lemma OwnSnoc(key: bytes, ops: seq<WriteOp>, op: WriteOp, issued: u64)
    requires OwnOps(key, ops, issued) && Owns(key, op.key) && RecordOk(op.key, issued)
    ensures OwnOps(key, ops + [op], issued)
  {
  }

  lemma PendingSub(d: Db, key: bytes, version: u64, issued: u64, ops: seq<WriteOp>, sub: Db, index: Db, op: WriteOp,
      field: bytes)
    requires Pending(d, key, version, issued, ops, sub, index)
    requires op.key == Subkey(key, version, field)
    ensures Pending(d, key, version, issued, ops + [op],
                    if op.Put? then sub[field := op.value] else sub - {field}, index)
  {
    hide ApplyTable, OwnOps, Owns, SubAt, IndexAt, RecordOk, Be;
    var p, q := SubkeyPrefix(key, version), ZscorePrefix(key, version);
    VersionedRecord(SUBKEY_PREFIX, key, version, field);
    OwnSnoc(key, ops, op, issued);
    TableSnoc(SubAt(d, key, version), ops, op, p);
    TableSnoc(IndexAt(d, key, version), ops, op, q);
    assert p <= op.key && op.key[|p|..] == field;
    assert q[0] != op.key[0];
  }

  lemma PendingIndex(d: Db, key: bytes, version: u64, issued: u64, ops: seq<WriteOp>, sub: Db, index: Db, op: WriteOp,
      suffix: bytes)
    requires Pending(d, key, version, issued, ops, sub, index)
    requires op.key == ZscorePrefix(key, version) + suffix
    ensures Pending(d, key, version, issued, ops + [op], sub,
                    if op.Put? then index[suffix := op.value] else index - {suffix})
  {
    hide ApplyTable, OwnOps, Owns, SubAt, IndexAt, RecordOk, Be;
    var p, q := SubkeyPrefix(key, version), ZscorePrefix(key, version);
    VersionedRecord(ZSCORE_PREFIX, key, version, suffix);
    OwnSnoc(key, ops, op, issued);
    TableSnoc(SubAt(d, key, version), ops, op, p);
    TableSnoc(IndexAt(d, key, version), ops, op, q);
    assert q <= op.key && op.key[|q|..] == suffix;
    assert p[0] != op.key[0];
  }

  lemma MetaOpTables(d: Db, ops: seq<WriteOp>, op: WriteOp, key: bytes, version: u64)
    requires op.key == MetaKey(key) && |key| < U32
    ensures SubAt(ApplyOps(d, ops + [op]), key, version)
        == ApplyTable(SubAt(d, key, version), ops, SubkeyPrefix(key, version))
    ensures IndexAt(ApplyOps(d, ops + [op]), key, version)
        == ApplyTable(IndexAt(d, key, version), ops, ZscorePrefix(key, version))
  {
    var p, q := SubkeyPrefix(key, version), ZscorePrefix(key, version);
    UnderApply(d, ops + [op], p);
    UnderApply(d, ops + [op], q);
    TableSnoc(SubAt(d, key, version), ops, op, p);
    TableSnoc(IndexAt(d, key, version), ops, op, q);
    assert p[0] != op.key[0] && q[0] != op.key[0];
  }

  lemma MetaWritten(d: Db, ops: seq<WriteOp>, key: bytes, m: Meta)
    requires |key| < U32
    ensures var target := ApplyOps(d, ops + [Put(MetaKey(key), m.Encode())]);
            MetaKey(key) in target && MetaAt(target, key) == Some(m)
  {
    ApplySnoc(d, ops, Put(MetaKey(key), m.Encode()));
    m.DecodeOfEncode();
  }

  lemma TargetOk(target: Db, versions: map<bytes, u64>, issued: u64, key: bytes, m: Meta)
    requires MetaKey(key) in target && MetaAt(target, key) == Some(m)
    requires |key| < U32 && m.version <= issued
    requires m.Composite() <==> key in versions
    requires m.Composite() ==> versions[key] == m.version
    requires Shape(m, SubAt(target, key, m.version), IndexAt(target, key, m.version))
    requires NonEmpty(m, SubAt(target, key, m.version))
    ensures KeyOk(target, versions, issued, key)
    ensures EntryAt(target, key) == Some(Entry(ValueOf(m, SubAt(target, key, m.version)), m.expireMs))
  {
  }

  /** A batch that ends by storing consistent metadata replaces the key's dictionary entry. */
  lemma Upsert(d0: Db, versions: map<bytes, u64>, issued: u64, key: bytes, ops: seq<WriteOp>, m: Meta, sub: Db,
      index: Db, d1: Db)
    requires InvElsewhere(d0, versions, issued, key)
    requires Pending(d0, key, m.version, issued, ops, sub, index)
    requires Compacted(ApplyOps(d0, ops + [Put(MetaKey(key), m.Encode())]), d1, versions)
    requires m.Composite() <==> key in versions
    requires m.Composite() ==> versions[key] == m.version
    requires Shape(m, sub, index) && NonEmpty(m, sub)
    ensures Inv(d1, versions, issued)
    ensures Abs(d1) == Place(Abs(d0), key, Some(Entry(ValueOf(m, sub), m.expireMs)))
  {
    var op := Put(MetaKey(key), m.Encode());
    MetaWritten(d0, ops, key, m);
    MetaOpTables(d0, ops, op, key, m.version);
    TargetOk(ApplyOps(d0, ops + [op]), versions, issued, key, m);
    OwnSnoc(key, ops, op, issued);
    Commit(d0, versions, issued, key, ops + [op], versions, d1);
  }

  /** The special case of metadata alone. */
  lemma StoreMeta(d0: Db, versions: map<bytes, u64>, issued: u64, key: bytes, m: Meta, d1: Db)
    requires InvElsewhere(d0, versions, issued, key)
    requires |key| < U32 && m.version <= issued
    requires Compacted(ApplyOps(d0, [Put(MetaKey(key), m.Encode())]), d1, versions)
    requires m.Composite() <==> key in versions
    requires m.Composite() ==> versions[key] == m.version
    requires Shape(m, SubAt(d0, key, m.version), IndexAt(d0, key, m.version)) && NonEmpty(m, SubAt(d0, key, m.version))
    ensures Inv(d1, versions, issued)
    ensures Abs(d1) == Place(Abs(d0), key, Some(Entry(ValueOf(m, SubAt(d0, key, m.version)), m.expireMs)))
  {
    hide *;
    assert [] + [Put(MetaKey(key), m.Encode())] == [Put(MetaKey(key), m.Encode())];
    PendingStart(d0, key, m.version, issued);
    Upsert(d0, versions, issued, key, [], m, SubAt(d0, key, m.version), IndexAt(d0, key, m.version), d1);
  }

  /** Overwriting with a string needs no record of what the key held before. */
  lemma StoreString(d0: Db, was: map<bytes, u64>, issued: u64, key: bytes, m: Meta, d1: Db)
    requires Inv(d0, was, issued) && issued <= m.version
    requires |key| < U32 && m.typeId == TYPE_STRING
    requires Compacted(ApplyOps(d0, [Put(MetaKey(key), m.Encode())]), d1, was - {key})
    ensures Inv(d1, was - {key}, m.version)
    ensures Abs(d1) == Place(Abs(d0), key, Some(Entry(Str(m.payload), m.expireMs)))
  {
    hide Inv, InvElsewhere, Compacted, ApplyOps, Abs, Place, SubAt, IndexAt;
    OpenKey(d0, was, issued, key, was - {key}, m.version);
    StoreMeta(d0, was - {key}, m.version, key, m, d1);
  }

  /** Rewriting the metadata of an existing key with another deadline. */
  lemma StoreDeadline(d0: Db, versions: map<bytes, u64>, issued: u64, key: bytes, m: Meta, deadline: u64, d1: Db)
    requires Inv(d0, versions, issued) && MetaAt(d0, key) == Some(m)
    requires Compacted(ApplyOps(d0, [Put(MetaKey(key), m.(expireMs := deadline).Encode())]), d1, versions)
    ensures Inv(d1, versions, issued)
    ensures EntryAt(d0, key).Some?
    ensures Abs(d1) == Place(Abs(d0), key, Some(EntryAt(d0, key).value.(expireMs := deadline)))
  {
    hide Inv, InvElsewhere, Compacted, ApplyOps, Abs, Place, SubAt, IndexAt, EntryAt, MetaAt;
    MetaFacts(d0, versions, issued, key);
    StoreMeta(d0, versions, issued, key, m.(expireMs := deadline), d1);
  }

  /** A key's metadata, tables and dictionary slot while an operation on it is under way. */
  ghost predicate Opened(d: Db, versions: map<bytes, u64>, issued: u64, key: bytes, m: Meta, slot: Slot) {
    && InvElsewhere(d, versions, issued, key)
    && |key| < U32 && m.version <= issued
    && m.Composite() && key in versions && versions[key] == m.version
    && Shape(m, SubAt(d, key, m.version), IndexAt(d, key, m.version))
    && slot.GetOr(Entry(Blank(m.typeId), 0)) == Entry(ValueOf(m, SubAt(d, key, m.version)), m.expireMs)
  }

  lemma OpenedFacts(d: Db, versions: map<bytes, u64>, issued: u64, key: bytes, m: Meta, slot: Slot)
    requires Opened(d, versions, issued, key, m, slot)
    ensures |key| < U32 && m.version <= issued && key in versions && versions[key] == m.version
    ensures Compacted(d, d, versions)
  {
    hide InvElsewhere, Shape, SubAt, IndexAt;
  }

  lemma OpenExisting(d: Db, versions: map<bytes, u64>, issued: u64, key: bytes, m: Meta)
    requires Inv(d, versions, issued) && MetaAt(d, key) == Some(m) && m.Composite()
    ensures Opened(d, versions, issued, key, m, EntryAt(d, key))
  {
    OpenKey(d, versions, issued, key, versions, issued);
    assert KeyOk(d, versions, issued, key);
  }

  /** A fresh version starts from empty tables, whatever garbage earlier versions left behind. */
  lemma OpenNew(d: Db, versions: map<bytes, u64>, issued: u64, key: bytes, typeId: byte, version: u64)
    requires Inv(d, versions, issued) && issued < version && |key| < U32
    requires Meta(typeId, version, 0, []).Composite()
    ensures var m := Meta(typeId, version, 0, []);
            var blank := if typeId == TYPE_LIST then m.SetListBounds(LIST_INITIAL_INDEX, LIST_INITIAL_INDEX)
                else m.SetFieldCount(0);
            Opened(d, versions[key := version], version, key, blank, None)
  {
    hide SubAt, IndexAt, InvElsewhere, Inv, Opened, Be;
    assert versions[key := version] - {key} == versions - {key};
    OpenKey(d, versions, issued, key, versions[key := version], version);
    FreshVersionIsEmpty(d, versions, issued, key, version);
    var m := Meta(typeId, version, 0, []);
    if typeId == TYPE_LIST {
      m.ListBoundsOfSet(LIST_INITIAL_INDEX, LIST_INITIAL_INDEX);
      OpenBlank(d, versions[key := version], version, key, m.SetListBounds(LIST_INITIAL_INDEX, LIST_INITIAL_INDEX));
    } else {
      m.FieldCountOfSet(0);
      OpenBlank(d, versions[key := version], version, key, m.SetFieldCount(0));
    }
  }

  lemma OpenBlank(d: Db, versions: map<bytes, u64>, issued: u64, key: bytes, m: Meta)
    requires InvElsewhere(d, versions, issued, key) && |key| < U32
    requires key in versions && versions[key] == m.version == issued && m.expireMs == 0
    requires SubAt(d, key, m.version) == map[] && IndexAt(d, key, m.version) == map[]
    requires (m.typeId == TYPE_LIST && |m.payload| == 16
        && m.ListBounds() == Some((LIST_INITIAL_INDEX, LIST_INITIAL_INDEX)))
          || (m.Counted() && |m.payload| == 4 && m.FieldCount() == 0)
    ensures Opened(d, versions, issued, key, m, None)
  {
    hide SubAt, IndexAt, InvElsewhere, Meta.ListBounds, Meta.FieldCount;
  }

  /** A batch that ends by deleting the metadata removes the key. */
  lemma Removal(d0: Db, versions: map<bytes, u64>, issued: u64, key: bytes, ops: seq<WriteOp>, d1: Db)
    requires InvElsewhere(d0, versions - {key}, issued, key)
    requires OwnOps(key, ops, issued)
    requires Compacted(ApplyOps(d0, ops + [Delete(MetaKey(key))]), d1, versions)
    ensures Inv(d1, versions - {key}, issued)
    ensures Abs(d1) == Place(Abs(d0), key, None) && MetaAt(d1, key) == None
  {
    var op := Delete(MetaKey(key));
    ApplySnoc(d0, ops, op);
    OwnSnoc(key, ops, op, issued);
    Commit(d0, versions - {key}, issued, key, ops + [op], versions, d1);
  }

  /** Two batches around a compaction amount to one. */
  lemma TwoWrites(d0: Db, first: seq<WriteOp>, d1: Db, second: seq<WriteOp>, d2: Db, versions: map<bytes, u64>)
    requires Compacted(ApplyOps(d0, first), d1, versions) && Compacted(ApplyOps(d1, second), d2, versions)
    ensures Compacted(ApplyOps(d0, first + second), d2, versions)
  {
    ApplyConcat(d0, first, second);
    CompactedBeforeWrite(ApplyOps(d0, first), d1, second, versions);
  }

  /** Deleting the metadata alone is enough to remove a key. */
  lemma DeletionRemoves(d0: Db, versions: map<bytes, u64>, issued: u64, key: bytes, d1: Db)
    requires Inv(d0, versions, issued)
    requires Compacted(ApplyOps(d0, [Delete(MetaKey(key))]), d1, versions)
    ensures Inv(d1, versions - {key}, issued)
    ensures Abs(d1) == Place(Abs(d0), key, None) && MetaAt(d1, key) == None
  {
    assert [] + [Delete(MetaKey(key))] == [Delete(MetaKey(key))];
    OpenKey(d0, versions, issued, key, versions - {key}, issued);
    Removal(d0, versions, issued, key, [], d1);
  }

  lemma LiveMeta(d: Db, key: bytes, now: u64)
    ensures MetaAt(d, key).None? <==> EntryAt(d, key).None?
    ensures MetaAt(d, key).None? ==> Live(Abs(d), key, now) == None
    ensures MetaAt(d, key).Some? ==>
      var expireMs := MetaAt(d, key).value.expireMs;
      Live(Abs(d), key, now) == if expireMs != 0 && now >= expireMs then None else EntryAt(d, key)
    ensures Place(Abs(d), key, EntryAt(d, key)) == Abs(d)
  {
    LiveAt(d, key, now);
    PlaceSame(d, key);
  }

  lemma EntryType(d: Db, versions: map<bytes, u64>, issued: u64, key: bytes)
    requires Inv(d, versions, issued)
    ensures match MetaAt(d, key)
            case None => EntryAt(d, key) == None
            case Some(m) => && EntryAt(d, key).Some? && EntryAt(d, key).value.expireMs == m.expireMs
                            && TypeId(EntryAt(d, key).value.value) == m.typeId
                            && (m.typeId == TYPE_STRING ==> EntryAt(d, key).value.value == Str(m.payload))
  {
    assert KeyOk(d, versions, issued, key);
  }

  lemma MetaFacts(d: Db, versions: map<bytes, u64>, issued: u64, key: bytes)
    requires Inv(d, versions, issued) && MetaAt(d, key).Some?
    ensures InvElsewhere(d, versions, issued, key)
    ensures |key| < U32
    ensures var m := MetaAt(d, key).value;
            && m.version <= issued
            && Shape(m, SubAt(d, key, m.version), IndexAt(d, key, m.version)) && NonEmpty(m, SubAt(d, key, m.version))
            && (m.Composite() <==> key in versions)
            && (m.Composite() ==> versions[key] == m.version)
            && EntryAt(d, key) == Some(Entry(ValueOf(m, SubAt(d, key, m.version)), m.expireMs))
  {
    OpenKey(d, versions, issued, key, versions, issued);
    assert KeyOk(d, versions, issued, key);
  }

  /** A batch written after a compaction of `base`. */
  lemma WriteFrom(base: Db, d: Db, ops: seq<WriteOp>, d1: Db, versions: map<bytes, u64>)
    requires Compacted(base, d, versions) && Compacted(ApplyOps(d, ops), d1, versions)
    ensures Compacted(ApplyOps(base, ops), d1, versions)
  {
    CompactedBeforeWrite(base, d, ops, versions);
  }

  /** Deleting the last members and then the metadata, with a compaction in between. */
  lemma Emptied(d0: Db, versions: map<bytes, u64>, issued: u64, key: bytes, ops: seq<WriteOp>, d1: Db, d2: Db)
    requires Inv(d0, versions, issued) && OwnOps(key, ops, issued)
    requires Compacted(ApplyOps(d0, ops), d1, versions)
    requires Compacted(ApplyOps(d1, [Delete(MetaKey(key))]), d2, versions)
    ensures Inv(d2, versions - {key}, issued)
    ensures Abs(d2) == Place(Abs(d0), key, None)
  {
    TwoWrites(d0, ops, d1, [Delete(MetaKey(key))], d2, versions);
    OpenKey(d0, versions, issued, key, versions - {key}, issued);
    Removal(d0, versions, issued, key, ops, d2);
  }

  // ---- Hashes -------------------------------------------------------------------

  lemma HashOpened(d: Db, versions: map<bytes, u64>, issued: u64, key: bytes, m: Meta, slot: Slot)
    requires Opened(d, versions, issued, key, m, slot) && m.typeId == TYPE_HASH
    ensures slot.GetOr(Entry(Hash(map[], 0), 0)) == Entry(Hash(SubAt(d, key, m.version), m.FieldCount()), m.expireMs)
  {
    hide InvElsewhere, SubAt, IndexAt, Meta.FieldCount;
  }

  lemma HashStored(d: Db, versions: map<bytes, u64>, issued: u64, key: bytes, m: Meta, slot: Slot,
                   ops: seq<WriteOp>, sub: Db, count: u32, d1: Db)
    requires Opened(d, versions, issued, key, m, slot) && m.typeId == TYPE_HASH
    requires Pending(d, key, m.version, issued, ops, sub, IndexAt(d, key, m.version))
    requires Compacted(ApplyOps(d, ops + [Put(MetaKey(key), m.SetFieldCount(count).Encode())]), d1, versions)
    ensures Inv(d1, versions, issued)
    ensures Abs(d1) == Place(Abs(d), key, Some(Entry(Hash(sub, count), m.expireMs)))
  {
    hide Inv, InvElsewhere, Compacted, ApplyOps, Abs, Place, SubAt, IndexAt, Pending;
    m.FieldCountOfSet(count);
    Upsert(d, versions, issued, key, ops, m.SetFieldCount(count), sub, IndexAt(d, key, m.version), d1);
  }

  lemma HSetIs(slot: Slot, pairs: seq<(bytes, bytes)>)
    requires Fits(slot, |pairs|)
    ensures slot.Some? && TypeId(slot.value.value) != TYPE_HASH ==> HSet(slot, pairs) == (slot, WrongType)
    ensures slot.None? || TypeId(slot.value.value) == TYPE_HASH ==>
      var e := slot.GetOr(Entry(Hash(map[], 0), 0));
      var created := Mentions(e.value.fields.Keys, Names(pairs), false);
      && e.value.count + |pairs| < U32
      && HSet(slot, pairs) == (Some(Entry(Hash(Assign(e.value.fields, pairs), e.value.count + created), e.expireMs)),
          Ok(created))
  {
    hide Assign, Mentions, Names;
  }

  lemma AssignNothing(fields: map<bytes, bytes>, pairs: seq<(bytes, bytes)>)
    ensures Assign(fields, pairs[..0]) == fields
    ensures forall present :: Mentions(fields.Keys, Names(pairs[..0]), present) == 0
  {
  }

  lemma HDelIs(slot: Slot, names: seq<bytes>)
    requires slot.Some? && slot.value.value.Hash?
    ensures var e := slot.value;
            var removed := Mentions(e.value.fields.Keys, names, true);
            var count := Max(0, e.value.count - removed);
            HDel(slot, names) ==
              if removed == 0 then (slot, Ok(0))
              else if count == 0 then (None, Ok(removed))
              else (Some(Entry(Hash(Without(e.value.fields, ToSet(names)), count), e.expireMs)), Ok(removed))
  {
    hide Mentions, ToSet;
  }

  lemma AssignSnoc(fields: map<bytes, bytes>, pairs: seq<(bytes, bytes)>, i: nat)
    requires i < |pairs|
    ensures Assign(fields, pairs[..i + 1]) == Assign(fields, pairs[..i])[pairs[i].0 := pairs[i].1]
    ensures Names(pairs[..i + 1]) == Names(pairs[..i]) + [pairs[i].0]
  {
    assert pairs[..i + 1][..i] == pairs[..i];
  }

  lemma MentionsSnoc(fields: set<bytes>, names: seq<bytes>, name: bytes, present: bool)
    ensures Mentions(fields, names + [name], present) ==
            Mentions(fields, names, present) + if (name in fields) == present then 1 else 0
  {
    assert (names + [name])[..|names|] == names;
  }

  lemma NoMentions(sub: Db, names: seq<bytes>)
    ensures Mentions(sub.Keys, names[..0], true) == 0 && ToSet(names[..0]) == {}
  {
  }

  lemma PendingOwns(d: Db, key: bytes, version: u64, issued: u64, ops: seq<WriteOp>)
    requires exists sub, index :: Pending(d, key, version, issued, ops, sub, index)
    ensures OwnOps(key, ops, issued)
  {
  }

  lemma ToSetSnoc(names: seq<bytes>, i: nat)
    requires i < |names|
    ensures names[..i + 1] == names[..i] + [names[i]]
    ensures ToSet(names[..i + 1]) == ToSet(names[..i]) + {names[i]}
  {
  }

  function Without(sub: Db, gone: set<bytes>): Db {
    sub - gone
  }

  /** A scan of the member table lists it by field. */
  lemma ScanOfTable(view: Db, p: bytes)
    ensures var names := SortedKeys(Under(view, p).Keys);
            && |Listing(view, p)| == |ByField(Under(view, p))| == |names|
            && forall i :: 0 <= i < |Listing(view, p)| ==>
                 var (k, v) := Listing(view, p)[i];
                 |p| <= |k| && k[|p|..] == names[i] && (k[|p|..], v) == ByField(Under(view, p))[i]
  {
    var names := SortedKeys(Under(view, p).Keys);
    forall i | 0 <= i < |names|
      ensures var (k, v) := Listing(view, p)[i];
              |p| <= |k| && k[|p|..] == names[i] && (k[|p|..], v) == ByField(Under(view, p))[i]
    {
      assert names[i] in names;
      assert (p + names[i])[|p|..] == names[i];
    }
  }

  // ---- Sets -----------------------------------------------------------------------

  /** The member table with new members added, each with an empty value. */
  function AddMembers(sub: Db, members: set<bytes>): Db {
    map m | m in sub.Keys + members :: if m in sub then sub[m] else []
  }

  lemma SetOpened(d: Db, versions: map<bytes, u64>, issued: u64, key: bytes, m: Meta, slot: Slot)
    requires Opened(d, versions, issued, key, m, slot) && m.typeId == TYPE_SET
    ensures slot.GetOr(Entry(Set({}), 0)) == Entry(Set(SubAt(d, key, m.version).Keys), m.expireMs)
    ensures m.FieldCount() == |SubAt(d, key, m.version).Keys|
    ensures AllEmpty(SubAt(d, key, m.version))
  {
    hide InvElsewhere, SubAt, IndexAt, Meta.FieldCount;
  }

  predicate AllEmpty(sub: Db) {
    forall f :: f in sub ==> sub[f] == []
  }

  lemma SetStored(d: Db, versions: map<bytes, u64>, issued: u64, key: bytes, m: Meta, slot: Slot,
                  ops: seq<WriteOp>, sub: Db, count: u32, d1: Db)
    requires Opened(d, versions, issued, key, m, slot) && m.typeId == TYPE_SET
    requires Pending(d, key, m.version, issued, ops, sub, IndexAt(d, key, m.version))
    requires AllEmpty(sub) && count == |sub.Keys| > 0
    requires Compacted(ApplyOps(d, ops + [Put(MetaKey(key), m.SetFieldCount(count).Encode())]), d1, versions)
    ensures Inv(d1, versions, issued)
    ensures Abs(d1) == Place(Abs(d), key, Some(Entry(Set(sub.Keys), m.expireMs)))
  {
    hide Inv, InvElsewhere, Compacted, ApplyOps, Abs, Place, SubAt, IndexAt, Pending;
    m.FieldCountOfSet(count);
    assert |sub| == |sub.Keys|;
    Upsert(d, versions, issued, key, ops, m.SetFieldCount(count), sub, IndexAt(d, key, m.version), d1);
  }

  /** How many of some members a table lacks, and how many it has. */
  function Missing(sub: Db, members: set<bytes>): nat {
    |members - sub.Keys|
  }

  function Stored(sub: Db, members: set<bytes>): nat {
    |members * sub.Keys|
  }

  lemma AddNone(sub: Db)
    ensures AddMembers(sub, {}) == sub && Missing(sub, {}) == 0
  {
    assert {} - sub.Keys == {};
  }

  lemma AddOne(sub: Db, seen: set<bytes>, member: bytes)
    ensures AddMembers(sub, seen + {member}) ==
            if member in seen || member in sub then AddMembers(sub, seen) else AddMembers(sub, seen)[member := []]
  {
    hide ApplyOps;
  }

  lemma MissingOne(sub: Db, seen: set<bytes>, member: bytes)
    ensures Missing(sub, seen + {member}) == Missing(sub, seen) + if member in seen || member in sub then 0 else 1
  {
    if member in seen || member in sub {
      assert (seen + {member}) - sub.Keys == seen - sub.Keys;
    } else {
      assert (seen + {member}) - sub.Keys == (seen - sub.Keys) + {member};
    }
  }

  lemma RemoveNone(sub: Db)
    ensures Without(sub, {}) == sub && Stored(sub, {}) == 0
  {
    assert {} * sub.Keys == {};
  }

  lemma RemoveOne(sub: Db, seen: set<bytes>, member: bytes)
    ensures Without(sub, seen + {member}) ==
            if member in seen || member !in sub then Without(sub, seen) else Without(sub, seen) - {member}
    ensures Without(sub, seen + {member}) == Without(sub, seen) - {member}
    ensures member in Without(sub, seen) <==> member in sub && member !in seen
    ensures member in Without(sub, seen) ==> Without(sub, seen)[member] == sub[member]
  {
  }

  lemma StoredOne(sub: Db, seen: set<bytes>, member: bytes)
    ensures Stored(sub, seen + {member}) == Stored(sub, seen) + if member in seen || member !in sub then 0 else 1
  {
    if member in seen || member !in sub {
      assert (seen + {member}) * sub.Keys == seen * sub.Keys;
    } else {
      assert (seen + {member}) * sub.Keys == (seen * sub.Keys) + {member};
    }
  }

  lemma KeysSize(have: set<bytes>, members: set<bytes>)
    ensures |have + members| == |have| + |members - have|
    ensures |members - have| == 0 ==> have + members == have
  {
    assert have + members == have + (members - have);
  }

  lemma AddedKeys(sub: Db, members: set<bytes>)
    ensures AddMembers(sub, members).Keys == sub.Keys + members
    ensures Missing(sub, members) == 0 ==> sub.Keys + members == sub.Keys
    ensures |sub.Keys + members| == |sub.Keys| + Missing(sub, members)
    ensures AllEmpty(sub) ==> AllEmpty(AddMembers(sub, members))
  {
    KeysSize(sub.Keys, members);
  }

  lemma RemainingKeys(sub: Db, members: set<bytes>)
    ensures Without(sub, members).Keys == sub.Keys - members
    ensures |sub.Keys - members| == |sub.Keys| - Stored(sub, members)
    ensures Stored(sub, members) == 0 ==> sub.Keys - members == sub.Keys
  {
    assert sub.Keys == (sub.Keys - members) + (members * sub.Keys);
    assert members * sub.Keys == {} ==> sub.Keys - members == sub.Keys;
  }

  lemma AllEmptyLess(sub: Db, gone: set<bytes>)
    requires AllEmpty(sub)
    ensures AllEmpty(Without(sub, gone))
  {
  }

  lemma ToSetHas(s: seq<bytes>)
    requires s != []
    ensures ToSet(s) != {}
  {
    assert s[0] in ToSet(s);
  }

  lemma SAddWrongType(slot: Slot, members: seq<bytes>)
    ensures slot.Some? && TypeId(slot.value.value) != TYPE_SET ==> SAdd(slot, members) == (slot, WrongType)
    ensures slot.Some? && TypeId(slot.value.value) == TYPE_SET ==> slot.value.value.Set?
  {
    hide ToSet;
  }

  lemma SAddIs(d: Db, versions: map<bytes, u64>, issued: u64, key: bytes, m: Meta, slot: Slot, members: seq<bytes>)
    requires Opened(d, versions, issued, key, m, slot) && m.typeId == TYPE_SET
    requires Fits(slot, |members|) && (slot.None? || slot.value.value.Set?) && members != []
    ensures var sub := SubAt(d, key, m.version);
            var table := AddMembers(sub, ToSet(members));
            && m.FieldCount() + |members| < U32
            && AllEmpty(table) && |table.Keys| == m.FieldCount() + Missing(sub, ToSet(members)) > 0
            && SAdd(slot, members) == (Some(Entry(Set(table.Keys), m.expireMs)), Ok(Missing(sub, ToSet(members))))
            && (Missing(sub, ToSet(members)) == 0 ==> slot.Some? && SAdd(slot, members) == (slot, Ok(0)))
  {
    hide Opened, SubAt, ToSet, AllEmpty, AddMembers, Meta.FieldCount;
    var sub, given := SubAt(d, key, m.version), ToSet(members);
    SetOpened(d, versions, issued, key, m, slot);
    AddedKeys(sub, given);
    ToSetHas(members);
    assert given != {} && sub.Keys + given != {};
  }

  lemma SRemEdges(slot: Slot, members: seq<bytes>)
    ensures slot.None? ==> SRem(slot, members) == (None, Ok(0))
    ensures slot.Some? && TypeId(slot.value.value) != TYPE_SET ==> SRem(slot, members) == (slot, WrongType)
  {
    hide ToSet;
  }

  lemma SRemIs(d: Db, versions: map<bytes, u64>, issued: u64, key: bytes, m: Meta, slot: Slot, members: seq<bytes>)
    requires Opened(d, versions, issued, key, m, slot) && m.typeId == TYPE_SET && slot.Some?
    ensures var sub := SubAt(d, key, m.version);
            var rest := Without(sub, ToSet(members));
            && AllEmpty(rest) && |rest.Keys| == m.FieldCount() - Stored(sub, ToSet(members))
            && SRem(slot, members) ==
                 (if |rest.Keys| == 0 then None else Some(Entry(Set(rest.Keys), m.expireMs)),
                     Ok(Stored(sub, ToSet(members))))
            && (Stored(sub, ToSet(members)) == 0 && m.FieldCount() > 0 ==> SRem(slot, members).0 == slot)
  {
    hide Opened, SubAt, ToSet, AllEmpty, Without, Meta.FieldCount;
    var sub, given := SubAt(d, key, m.version), ToSet(members);
    SetOpened(d, versions, issued, key, m, slot);
    RemainingKeys(sub, given);
    AllEmptyLess(sub, given);
    assert given * sub.Keys == sub.Keys * given;
  }

  /** A stored set or sorted set has members. */
  lemma StoredNonEmpty(d: Db, versions: map<bytes, u64>, issued: u64, key: bytes, m: Meta, slot: Slot)
    requires Inv(d, versions, issued) && Opened(d, versions, issued, key, m, slot) && slot == EntryAt(d, key)
        && slot.Some?
    requires m.typeId == TYPE_SET || m.typeId == TYPE_ZSET
    ensures m.FieldCount() > 0
  {
    assert KeyOk(d, versions, issued, key);
    ValueKeepsSize(m, SubAt(d, key, m.version));
  }

  lemma ValueKeepsSize(m: Meta, sub: Db)
    requires (m.typeId == TYPE_SET || m.typeId == TYPE_ZSET) && NonEmpty(m, sub)
    ensures |sub| > 0
  {
    assert Scores(sub) != map[] ==> sub.Keys == Scores(sub).Keys != {};
    assert |sub| == |sub.Keys|;
  }

  // ---- Emptying the store -------------------------------------------------------------

  lemma AllTagged(d: Db, d1: Db, versions: map<bytes, u64>, issued: u64)
    requires Inv(d, versions, issued) && Compacted(d, d1, versions)
    ensures forall raw :: raw in d1 ==> raw != [] && 1 <= raw[0] < 4
  {
    forall raw | raw in d1 ensures raw != [] && 1 <= raw[0] < 4 {
      assert RecordOk(raw, issued);
    }
  }

  /** Every record of one family is named by a deletion. */
  ghost predicate NamesFamily(d: Db, ops: seq<WriteOp>, tag: int) {
    forall raw :: raw in d && raw != [] && raw[0] == tag ==> Delete(raw) in ops
  }

  ghost predicate OnlyDeletes(ops: seq<WriteOp>) {
    forall op :: op in ops ==> op.Delete?
  }

  lemma NamesKept(d: Db, d1: Db, ops: seq<WriteOp>, more: seq<WriteOp>, tag: int, versions: map<bytes, u64>)
    requires NamesFamily(d, ops, tag) && Compacted(d, d1, versions) && ops <= more
    ensures NamesFamily(d1, more, tag)
  {
  }

  lemma ListingNames(d: Db, tag: byte, ops: seq<WriteOp>)
    requires forall i :: 0 <= i < |Listing(d, [tag])| ==> Delete(Listing(d, [tag])[i].0) in ops
    ensures NamesFamily(d, ops, tag)
  {
    forall raw | raw in d && raw != [] && raw[0] == tag ensures Delete(raw) in ops {
      assert raw == [tag] + raw[1..];
      ListingHas(d, [tag], raw[1..]);
    }
  }

  lemma FamiliesGone(d: Db, ops: seq<WriteOp>, before: Db, versions: map<bytes, u64>, issued: u64)
    requires Inv(before, versions, issued) && Compacted(before, d, versions)
    requires OnlyDeletes(ops) && NamesFamily(d, ops, 1) && NamesFamily(d, ops, 2) && NamesFamily(d, ops, 3)
    ensures ApplyOps(d, ops) == map[]
  {
    AllTagged(before, d, versions, issued);
    DeletesAll(d, ops);
  }

  /** A batch of deletions removes exactly the keys it names. */
  lemma {:induction false} DeletesNamed(d: Db, ops: seq<WriteOp>, raw: bytes)
    requires forall op :: op in ops ==> op.Delete?
    ensures raw in ApplyOps(d, ops) <==> raw in d && Delete(raw) !in ops
  {
    if ops != [] {
      var init, last := ops[..|ops| - 1], ops[|ops| - 1];
      assert last in ops && last == Delete(last.key);
      assert forall op :: op in ops <==> op in init || op == last;
      DeletesNamed(d, init, raw);
    }
  }

  lemma DeletesAll(d: Db, ops: seq<WriteOp>)
    requires forall op :: op in ops ==> op.Delete?
    requires forall raw :: raw in d ==> Delete(raw) in ops
    ensures ApplyOps(d, ops) == map[]
  {
    forall raw ensures raw !in ApplyOps(d, ops) {
      DeletesNamed(d, ops, raw);
    }
  }

  lemma NothingLeft(d: Db, versions: map<bytes, u64>)
    requires Compacted(map[], d, versions)
    ensures d == map[]
  {
  }

  lemma EmptyStore(issued: u64)
    ensures Inv(map[], map[], issued) && Abs(map[]) == map[]
  {
  }
}
