/** How records represent the dictionary, and what every operation on one key must keep. */
module Representation {
  import opened Common
  import opened Encoding
  import opened Records
  import opened Gc
  import opened Dictionary

  function SubAt(d: Db, key: bytes, version: u64): Db {
    Under(d, SubkeyPrefix(key, version))
  }

  function IndexAt(d: Db, key: bytes, version: u64): Db {
    Under(d, ZscorePrefix(key, version))
  }

  function MetaAt(d: Db, key: bytes): Option<Meta> {
    if MetaKey(key) in d then Meta.Decode(d[MetaKey(key)]) else None
  }

  // ---- The value a key's records stand for --------------------------------------

  function StoredScore(raw: bytes): u64 {
    if |raw| == 8 then DecodeScore(raw) else 0
  }

  function Scores(sub: Db): map<bytes, u64> {
    map m | m in sub :: StoredScore(sub[m])
  }

  function Element(sub: Db, index: int): bytes {
    if 0 <= index < U64 && ListIndexField(index) in sub then sub[ListIndexField(index)] else []
  }

  function Elements(sub: Db, head: u64, tail: u64): (items: seq<bytes>)
    ensures |items| == if head <= tail then tail - head else 0
  {
    if head <= tail then seq(tail - head, i => Element(sub, head + i)) else []
  }

  lemma ElementsAre(sub: Db, head: u64, tail: u64)
    ensures forall i :: 0 <= i < |Elements(sub, head, tail)| ==> Elements(sub, head, tail)[i] == Element(sub, head + i)
  {
  }

  function ValueOf(m: Meta, sub: Db): Value {
    if m.typeId == TYPE_STRING then Str(m.payload)
    else if m.typeId == TYPE_HASH then Hash(sub, m.FieldCount())
    else if m.typeId == TYPE_SET then Set(sub.Keys)
    else if m.typeId == TYPE_ZSET then ZSet(Scores(sub))
    else
      var (head, tail) := m.ListBounds().GetOr((0, 0));
      List(Elements(sub, head, tail), head)
  }

  function TypeId(value: Value): byte {
    match value
    case Str(_) => TYPE_STRING
    case Hash(_, _) => TYPE_HASH
    case Set(_) => TYPE_SET
    case ZSet(_) => TYPE_ZSET
    case List(_, _) => TYPE_LIST
  }

  /** The value a composite key of some type starts from. */
  function Blank(typeId: byte): Value {
    if typeId == TYPE_HASH then Hash(map[], 0)
    else if typeId == TYPE_SET then Set({})
    else if typeId == TYPE_ZSET then ZSet(map[])
    else List([], LIST_INITIAL_INDEX)
  }

  /** The score-index suffixes that member records call for. */
  function IndexKeys(sub: Db): set<bytes> {
    set m | m in sub :: sub[m] + m
  }

  ghost predicate ZSetShape(sub: Db, index: Db) {
    && (forall m :: m in sub ==> |sub[m]| == 8 && !IsNaN(DecodeScore(sub[m])))
    && index == map s | s in IndexKeys(sub) :: []
  }

  ghost predicate ListShape(sub: Db, head: u64, tail: u64) {
    && head <= tail && tail - head < U63
    && (forall i: u64 :: ListIndexField(i) in sub <==> head <= i < tail)
    && (forall f :: f in sub ==> |f| == 8)
  }

  ghost predicate Shape(m: Meta, sub: Db, index: Db) {
    if m.typeId == TYPE_STRING then true
    else if m.typeId == TYPE_HASH then |m.payload| == 4 && index == map[]
    else if m.typeId == TYPE_SET then
      |m.payload| == 4 && m.FieldCount() == |sub| && (forall f :: f in sub ==> sub[f] == []) && index == map[]
    else if m.typeId == TYPE_ZSET then
      |m.payload| == 4 && m.FieldCount() == |sub| && ZSetShape(sub, index)
    else
      m.typeId == TYPE_LIST && |m.payload| == 16 && ListShape(sub, m.ListBounds().value.0, m.ListBounds().value.1)
          && index == map[]
  }

  /** Sets, sorted sets and lists without elements are not stored. */
  predicate NonEmpty(m: Meta, sub: Db) {
    match ValueOf(m, sub)
    case Set(members) => members != {}
    case ZSet(scores) => scores != map[]
    case List(items, _) => items != []
    case _ => true
  }

  // ---- The invariant ----------------------------------------------------------------

  /** Metadata, member records, score index and version map of one key agree. */
  ghost predicate KeyOk(d: Db, versions: map<bytes, u64>, issued: u64, key: bytes) {
    if MetaKey(key) !in d then key !in versions
    else
      && |key| < U32
      && MetaAt(d, key).Some?
      && var m := MetaAt(d, key).value;
         && m.version <= issued
         && Shape(m, SubAt(d, key, m.version), IndexAt(d, key, m.version))
         && NonEmpty(m, SubAt(d, key, m.version))
         && (m.Composite() <==> key in versions)
         && (m.Composite() ==> versions[key] == m.version)
  }

  /** A record is metadata, or carries a version issued at some time. */
  predicate RecordOk(raw: bytes, issued: u64) {
    raw != [] && (raw[0] == META_PREFIX || (ParseOwnerVersion(raw).Some?
        && ParseOwnerVersion(raw).value.version <= issued))
  }

  ghost predicate Inv(d: Db, versions: map<bytes, u64>, issued: u64) {
    && (forall raw :: raw in d ==> RecordOk(raw, issued))
    && (forall key :: KeyOk(d, versions, issued, key))
  }

  /** The invariant of all keys but one, whose operation is under way. */
  ghost predicate InvElsewhere(d: Db, versions: map<bytes, u64>, issued: u64, key: bytes) {
    && (forall raw :: raw in d ==> RecordOk(raw, issued))
    && (forall other :: other != key ==> KeyOk(d, versions, issued, other))
  }

  function EntryAt(d: Db, key: bytes): Slot {
    match MetaAt(d, key)
    case None => None
    case Some(m) => Some(Entry(ValueOf(m, SubAt(d, key, m.version)), m.expireMs))
  }

  /** The dictionary that the records represent. */
  function Abs(d: Db): (dict: Dict)
    ensures forall key :: key in dict <==> EntryAt(d, key).Some?
    ensures forall key :: key in dict ==> dict[key] == EntryAt(d, key).value
  {
    assert forall key :: MetaKey(key) in d <==> key in Under(d, [META_PREFIX]);
    map key | key in Under(d, [META_PREFIX]).Keys && EntryAt(d, key).Some? :: EntryAt(d, key).value
  }

  // ---- Records of one key -------------------------------------------------------------

  predicate Owns(key: bytes, raw: bytes) {
    raw == MetaKey(key) || (ParseOwnerVersion(raw).Some? && ParseOwnerVersion(raw).value.key == key)
  }

  ghost predicate OwnOps(key: bytes, ops: seq<WriteOp>, issued: u64) {
    forall op :: op in ops ==> Owns(key, op.key) && RecordOk(op.key, issued)
  }

  lemma VersionedRecord(tag: byte, key: bytes, version: u64, rest: bytes)
    requires |key| < U32 && (tag == SUBKEY_PREFIX || tag == ZSCORE_PREFIX)
    ensures var raw := VersionedPrefix(tag, key, version) + rest;
            ParseOwnerVersion(raw) == Some(Versioned(key, version, rest)) && Owns(key, raw)
  {
    ParseOfVersioned(tag, key, version, rest);
  }

  /** A batch over one key's records leaves all other records alone. */
  lemma {:induction false} OthersUntouched(d: Db, ops: seq<WriteOp>, key: bytes, issued: u64, raw: bytes)
    requires OwnOps(key, ops, issued) && !Owns(key, raw)
    ensures raw in ApplyOps(d, ops) <==> raw in d
    ensures raw in d ==> ApplyOps(d, ops)[raw] == d[raw]
  {
    if ops != [] {
      assert ops[|ops| - 1] in ops;
      OthersUntouched(d, ops[..|ops| - 1], key, issued, raw);
    }
  }

  lemma {:induction false} RecordsStayOk(d: Db, ops: seq<WriteOp>, key: bytes, issued: u64, raw: bytes)
    requires OwnOps(key, ops, issued) && raw in ApplyOps(d, ops)
    ensures raw in d || RecordOk(raw, issued)
  {
    if ops != [] {
      var op := ops[|ops| - 1];
      assert op in ops;
      if raw != op.key {
        RecordsStayOk(d, ops[..|ops| - 1], key, issued, raw);
      }
    }
  }

  lemma OtherTableUntouched(d: Db, ops: seq<WriteOp>, key: bytes, issued: u64, tag: byte, other: bytes, version: u64)
    requires OwnOps(key, ops, issued) && other != key && |other| < U32
    requires tag == SUBKEY_PREFIX || tag == ZSCORE_PREFIX
    ensures var p := VersionedPrefix(tag, other, version); Under(ApplyOps(d, ops), p) == Under(d, p)
  {
    var p := VersionedPrefix(tag, other, version);
    forall s ensures p + s in ApplyOps(d, ops) <==> p + s in d
             ensures p + s in d ==> ApplyOps(d, ops)[p + s] == d[p + s]
    {
      VersionedRecord(tag, other, version, s);
      assert (p + s)[0] == tag;
      OthersUntouched(d, ops, key, issued, p + s);
    }
  }

  lemma OtherKeyKept(d0: Db, versions: map<bytes, u64>, issued: u64, key: bytes, ops: seq<WriteOp>,
                     filter: map<bytes, u64>, d1: Db, other: bytes)
    requires KeyOk(d0, versions, issued, other) && other != key
    requires OwnOps(key, ops, issued)
    requires Compacted(ApplyOps(d0, ops), d1, filter)
    requires AgreeElsewhere(filter, versions, key)
    ensures KeyOk(d1, versions, issued, other)
    ensures EntryAt(d1, other) == EntryAt(d0, other)
  {
    var target := ApplyOps(d0, ops);
    AgreesAt(filter, versions, key, other);
    assert ParseOwnerVersion(MetaKey(other)) == None;
    assert MetaKey(other)[1..] == other && MetaKey(key)[1..] == key;
    OthersUntouched(d0, ops, key, issued, MetaKey(other));
    MetaSurvives(target, d1, filter);
    if MetaKey(other) in d0 {
      var m := MetaAt(d0, other).value;
      if m.Composite() {
        OtherTableUntouched(d0, ops, key, issued, SUBKEY_PREFIX, other, m.version);
        OtherTableUntouched(d0, ops, key, issued, ZSCORE_PREFIX, other, m.version);
        TableSurvives(target, d1, filter, SUBKEY_PREFIX, other, m.version);
        TableSurvives(target, d1, filter, ZSCORE_PREFIX, other, m.version);
      }
    }
  }

  lemma SameKeySurvives(target: Db, d1: Db, filter: map<bytes, u64>, versions: map<bytes, u64>, issued: u64, key: bytes)
    requires KeyOk(target, versions, issued, key)
    requires Compacted(target, d1, filter)
    requires key in versions ==> key in filter && filter[key] == versions[key]
    ensures KeyOk(d1, versions, issued, key)
    ensures EntryAt(d1, key) == EntryAt(target, key)
  {
    MetaSurvives(target, d1, filter);
    if MetaKey(key) in target {
      var m := MetaAt(target, key).value;
      if m.Composite() {
        TableSurvives(target, d1, filter, SUBKEY_PREFIX, key, m.version);
        TableSurvives(target, d1, filter, ZSCORE_PREFIX, key, m.version);
      }
    }
  }

  predicate AgreeElsewhere(a: map<bytes, u64>, b: map<bytes, u64>, key: bytes) {
    a - {key} == b - {key}
  }

  /**
   * Every mutation has this form: batches that together amount to `ops` on one key's records, with
   * compactions under `filter` in between, ending with version map `versions`. If the key itself
   * ends up consistent, so does the whole store, and the dictionary changes at that key only.
   */
  lemma Commit(d0: Db, versions: map<bytes, u64>, issued: u64, key: bytes, ops: seq<WriteOp>, filter: map<bytes, u64>,
      d1: Db)
    requires InvElsewhere(d0, versions, issued, key)
    requires OwnOps(key, ops, issued)
    requires Compacted(ApplyOps(d0, ops), d1, filter)
    requires AgreeElsewhere(filter, versions, key)
    requires key in versions ==> key in filter && filter[key] == versions[key]
    requires KeyOk(ApplyOps(d0, ops), versions, issued, key)
    ensures Inv(d1, versions, issued)
    ensures Abs(d1) == Place(Abs(d0), key, EntryAt(ApplyOps(d0, ops), key))
  {
    forall raw | raw in d1 ensures RecordOk(raw, issued) {
      RecordsStayOk(d0, ops, key, issued, raw);
    }
    forall other ensures KeyOk(d1, versions, issued, other) {
      KeyAfterCommit(d0, versions, issued, key, ops, filter, d1, other);
    }
    forall other ensures EntryAt(d1, other) == if other == key then EntryAt(ApplyOps(d0, ops), key)
        else EntryAt(d0, other) {
      KeyAfterCommit(d0, versions, issued, key, ops, filter, d1, other);
    }
    AbsChangesAt(d0, d1, key, EntryAt(ApplyOps(d0, ops), key));
  }

  lemma KeyAfterCommit(d0: Db, versions: map<bytes, u64>, issued: u64, key: bytes, ops: seq<WriteOp>,
                       filter: map<bytes, u64>, d1: Db, other: bytes)
    requires other != key ==> KeyOk(d0, versions, issued, other)
    requires OwnOps(key, ops, issued)
    requires Compacted(ApplyOps(d0, ops), d1, filter)
    requires AgreeElsewhere(filter, versions, key)
    requires key in versions ==> key in filter && filter[key] == versions[key]
    requires KeyOk(ApplyOps(d0, ops), versions, issued, key)
    ensures KeyOk(d1, versions, issued, other)
    ensures EntryAt(d1, other) == if other == key then EntryAt(ApplyOps(d0, ops), key) else EntryAt(d0, other)
  {
    if other == key {
      SameKeySurvives(ApplyOps(d0, ops), d1, filter, versions, issued, key);
    } else {
      OtherKeyKept(d0, versions, issued, key, ops, filter, d1, other);
    }
  }

  /** Beginning an operation on one key: its own version map entry and newer versions do not matter to the others. */
  lemma OpenKey(d: Db, versions: map<bytes, u64>, issued: u64, key: bytes, newVersions: map<bytes, u64>, newIssued: u64)
    requires Inv(d, versions, issued) && issued <= newIssued
    requires AgreeElsewhere(newVersions, versions, key)
    ensures InvElsewhere(d, newVersions, newIssued, key)
  {
    forall other | other != key ensures KeyOk(d, newVersions, newIssued, other) {
      assert KeyOk(d, versions, issued, other);
      AgreesAt(newVersions, versions, key, other);
    }
  }

  lemma AbsChangesAt(d0: Db, d1: Db, key: bytes, slot: Slot)
    requires forall other :: EntryAt(d1, other) == if other == key then slot else EntryAt(d0, other)
    ensures Abs(d1) == Place(Abs(d0), key, slot)
  {
    forall other ensures At(Abs(d1), other) == if other == key then slot else At(Abs(d0), other) {
      AbsAt(d1, other);
      AbsAt(d0, other);
    }
    PlaceByLookup(Abs(d1), Abs(d0), key, slot);
  }

  lemma AbsAt(d: Db, key: bytes)
    ensures At(Abs(d), key) == EntryAt(d, key)
  {
  }

  lemma SameEntry(d0: Db, d1: Db, key: bytes)
    requires Abs(d0) == Abs(d1)
    ensures EntryAt(d0, key) == EntryAt(d1, key)
  {
    AbsAt(d0, key);
    AbsAt(d1, key);
  }

  lemma LiveAt(d: Db, key: bytes, now: u64)
    ensures Live(Abs(d), key, now) ==
            if EntryAt(d, key).Some? && !Expired(EntryAt(d, key).value, now) then EntryAt(d, key) else None
  {
  }

  /** Putting back the slot a key has changes nothing. */
  lemma PlaceSame(d: Db, key: bytes)
    ensures Place(Abs(d), key, EntryAt(d, key)) == Abs(d)
  {
  }

  lemma PlaceByLookup(got: Dict, dict: Dict, key: bytes, slot: Slot)
    requires forall other :: At(got, other) == if other == key then slot else At(dict, other)
    ensures got == Place(dict, key, slot)
  {
    SameByLookup(got, Place(dict, key, slot));
  }

  lemma AgreesAt(a: map<bytes, u64>, b: map<bytes, u64>, key: bytes, other: bytes)
    requires AgreeElsewhere(a, b, key) && other != key
    ensures other in a <==> other in b
    ensures other in a ==> a[other] == b[other]
  {
    assert other in a <==> other in a - {key};
    assert other in b <==> other in b - {key};
    if other in a {
      assert (a - {key})[other] == (b - {key})[other];
    }
  }

  /** A compaction with the current version map is invisible. */
  lemma SweepKeeps(d0: Db, d1: Db, versions: map<bytes, u64>, issued: u64)
    requires Inv(d0, versions, issued) && Compacted(d0, d1, versions)
    ensures Inv(d1, versions, issued) && Abs(d1) == Abs(d0)
  {
    forall key ensures KeyOk(d1, versions, issued, key) {
      SameKeySurvives(d0, d1, versions, versions, issued, key);
    }
    forall key ensures EntryAt(d1, key) == EntryAt(d0, key) {
      SameKeySurvives(d0, d1, versions, versions, issued, key);
    }
    AbsSame(d0, d1);
  }

  lemma AbsSame(d0: Db, d1: Db)
    requires forall key :: EntryAt(d1, key) == EntryAt(d0, key)
    ensures Abs(d1) == Abs(d0)
  {
    forall key ensures At(Abs(d1), key) == At(Abs(d0), key) {
      AbsAt(d1, key);
      AbsAt(d0, key);
    }
    SameByLookup(Abs(d1), Abs(d0));
  }

  lemma SameByLookup(a: Dict, b: Dict)
    requires forall key :: At(a, key) == At(b, key)
    ensures a == b
  {
    assert forall key :: key in a <==> At(a, key).Some?;
    assert forall key :: key in b <==> At(b, key).Some?;
    assert forall key :: key in a ==> a[key] == At(a, key).value == b[key];
  }

  /** A version that was never issued has no records. */
  lemma FreshVersionIsEmpty(d: Db, versions: map<bytes, u64>, issued: u64, key: bytes, version: u64)
    requires Inv(d, versions, issued) && issued < version && |key| < U32
    ensures SubAt(d, key, version) == map[] && IndexAt(d, key, version) == map[]
  {
    forall tag, s | tag in [SUBKEY_PREFIX, ZSCORE_PREFIX] ensures VersionedPrefix(tag, key, version) + s !in d {
      VersionedRecord(tag, key, version, s);
      assert (VersionedPrefix(tag, key, version) + s)[0] == tag;
    }
  }
}
