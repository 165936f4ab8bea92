/** Two situations the store's guarantees do not cover, and exactly when they are harmless. */
module Caveats {
  import opened Common
  import opened Encoding
  import opened Records
  import opened Gc
  import opened Dictionary
  import opened Representation
  import opened Conservation

  // ---- A restart with the clock behind --------------------------------------------------

  /** The version the first structure built after a restart gets: the counter starts from zero again. */
  function FirstVersionAfterRestart(micros: u64): u64 {
    Max(1, micros)
  }

  /** Records of `key` at `version` that no live structure wrote would show up in a structure built at it. */
  ghost predicate Resurfaces(d: Db, key: bytes, version: u64) {
    SubAt(d, key, version) != map[] || IndexAt(d, key, version) != map[]
  }

  /**
   * A key rebuilt after a restart starts empty, whatever the records left behind with versions up
   * to `issued` and whatever the key, if and only if the clock has passed `issued` by then.
   */
  lemma RestartIsSafeIff(issued: u64, micros: u64)
    ensures (forall d: Db, versions: map<bytes, u64>, key: bytes ::
               Inv(d, versions, issued) && |key| < U32 ==> !Resurfaces(d, key, FirstVersionAfterRestart(micros)))
            <==> issued < FirstVersionAfterRestart(micros)
  {
    var version := FirstVersionAfterRestart(micros);
    if issued < version {
      forall d: Db, versions: map<bytes, u64>, key: bytes | Inv(d, versions, issued) && |key| < U32
        ensures !Resurfaces(d, key, version)
      {
        FreshVersionIsEmpty(d, versions, issued, key, version);
      }
    } else {
      var d := Leftover([107], version, [102]);
      LeftoverResurfaces([107], version, [102], issued);
      assert Inv(d, map[], issued) && Resurfaces(d, [107], version);
    }
  }

  /** A store whose only record is a member of a key deleted earlier. */
  function Leftover(key: bytes, version: u64, field: bytes): Db {
    map[Subkey(key, version, field) := []]
  }

  lemma LeftoverResurfaces(key: bytes, version: u64, field: bytes, issued: u64)
    requires |key| < U32 && version <= issued
    ensures Inv(Leftover(key, version, field), map[], issued)
    ensures Abs(Leftover(key, version, field)) == map[]
    ensures Resurfaces(Leftover(key, version, field), key, version)
  {
    var d := Leftover(key, version, field);
    VersionedRecord(SUBKEY_PREFIX, key, version, field);
    assert Subkey(key, version, field)[0] == SUBKEY_PREFIX;
    forall k ensures MetaKey(k) !in d {
      assert MetaKey(k)[0] == META_PREFIX;
    }
    assert forall k :: KeyOk(d, map[], issued, k);
    assert SubkeyPrefix(key, version) + field in d;
    assert field in SubAt(d, key, version);
  }

  // ---- Compaction before the version map is rebuilt ---------------------------------------

  /** With no versions registered, the filter rejects every versioned record, current or not. */
  lemma NothingRegisteredKeepsNothing(raw: bytes)
    ensures Keep(map[], raw) <==> ParseOwnerVersion(raw).None?
  {
  }

  lemma DropMember(d: Db, key: bytes, version: u64, field: bytes)
    requires |key| < U32
    ensures var lost := d - {Subkey(key, version, field)};
            && Compacted(d, lost, map[])
            && MetaAt(lost, key) == MetaAt(d, key)
            && SubAt(lost, key, version) == SubAt(d, key, version) - {field}
  {
    var raw, p := Subkey(key, version, field), SubkeyPrefix(key, version);
    VersionedRecord(SUBKEY_PREFIX, key, version, field);
    assert raw[0] == SUBKEY_PREFIX && MetaKey(key)[0] == META_PREFIX;
    forall s ensures p + s == raw <==> s == field {
      assert (p + s)[|p|..] == s && raw[|p|..] == field;
    }
  }

  lemma HashEntry(d: Db, versions: map<bytes, u64>, issued: u64, key: bytes)
    requires Inv(d, versions, issued) && key in Abs(d) && Abs(d)[key].value.Hash?
    ensures |key| < U32 && key in versions && MetaAt(d, key).Some?
    ensures var m := MetaAt(d, key).value;
            && m.version == versions[key] && m.typeId == TYPE_HASH
            && Abs(d)[key] == Entry(Hash(SubAt(d, key, m.version), m.FieldCount()), m.expireMs)
  {
    AbsAt(d, key);
    assert KeyOk(d, versions, issued, key);
  }

  /** In terms of the dictionary: hashes, sets, sorted sets and lists are all empty. */
  ghost predicate NoMembers(dict: Dict) {
    forall key :: key in dict ==> RecordsOf(dict[key].value) == 0
  }

  /** No compaction in that window does any harm, whatever it drops. */
  ghost predicate WindowIsHarmless(d: Db, versions: map<bytes, u64>, issued: u64) {
    forall lost: Db :: Compacted(d, lost, map[]) ==> Inv(lost, versions, issued) && Abs(lost) == Abs(d)
  }

  /** Every compaction before the map is rebuilt is harmless if and only if no stored key has a member. */
  lemma EarlyCompactionIsHarmlessIff(d: Db, versions: map<bytes, u64>, issued: u64)
    requires Inv(d, versions, issued)
    ensures WindowIsHarmless(d, versions, issued) <==> NoMembers(Abs(d))
  {
    hide Inv, Abs, Compacted, RecordsOf;
    if NoMembers(Abs(d)) {
      forall lost: Db | Compacted(d, lost, map[]) ensures Inv(lost, versions, issued) && Abs(lost) == Abs(d) {
        NothingToLose(d, lost, versions, issued);
      }
    }
    if WindowIsHarmless(d, versions, issued) {
      EverythingDropped(d);
      forall key | key in Abs(d) ensures RecordsOf(Abs(d)[key].value) == 0 {
        DroppedIsEmpty(d, Dropped(d), versions, issued, key);
      }
    }
  }

  /** What the most thorough compaction in that window leaves. */
  function Dropped(d: Db): Db {
    map raw | raw in d && Keep(map[], raw) :: d[raw]
  }

  lemma EverythingDropped(d: Db)
    ensures Compacted(d, Dropped(d), map[])
  {
  }

  lemma DroppedIsEmpty(d: Db, lost: Db, versions: map<bytes, u64>, issued: u64, key: bytes)
    requires lost == Dropped(d) && Inv(lost, versions, issued) && Abs(lost) == Abs(d) && key in Abs(d)
    ensures RecordsOf(Abs(d)[key].value) == 0
  {
    hide Inv, KeyOk, Abs, Under, RecordsOf, Dropped;
    OneOwner(lost, versions, issued, key);
    if key in versions {
      TableDropped(d, SUBKEY_PREFIX, key, versions[key]);
      TableDropped(d, ZSCORE_PREFIX, key, versions[key]);
    }
  }

  lemma TableDropped(d: Db, tag: byte, key: bytes, version: u64)
    requires |key| < U32 && (tag == SUBKEY_PREFIX || tag == ZSCORE_PREFIX)
    ensures Under(Dropped(d), VersionedPrefix(tag, key, version)) == map[]
  {
    var p := VersionedPrefix(tag, key, version);
    forall s ensures p + s !in Dropped(d) {
      VersionedRecord(tag, key, version, s);
      NothingRegisteredKeepsNothing(p + s);
    }
  }

  lemma NothingToLose(d: Db, lost: Db, versions: map<bytes, u64>, issued: u64)
    requires Inv(d, versions, issued) && NoMembers(Abs(d)) && Compacted(d, lost, map[])
    ensures Inv(lost, versions, issued) && Abs(lost) == Abs(d)
  {
    hide Abs;
    forall key ensures KeyOk(lost, versions, issued, key) && EntryAt(lost, key) == EntryAt(d, key) {
      KeyNotLost(d, lost, versions, issued, key);
    }
    AbsSame(d, lost);
  }

  lemma KeyNotLost(d: Db, lost: Db, versions: map<bytes, u64>, issued: u64, key: bytes)
    requires Inv(d, versions, issued) && NoMembers(Abs(d)) && Compacted(d, lost, map[])
    ensures KeyOk(lost, versions, issued, key) && EntryAt(lost, key) == EntryAt(d, key)
  {
    hide Inv, Abs, KeyOk, EntryAt, SubAt, IndexAt, RecordsOf, Compacted;
    AllOk(d, versions, issued, key);
    AbsAt(d, key);
    MetaSurvives(d, lost, map[]);
    if key in versions {
      KeyRecords(d, versions, issued, key);
      TableNotLost(d, lost, key, versions[key]);
      SameTables(d, lost, versions, issued, key);
    } else {
      NoTables(d, lost, versions, issued, key);
    }
  }

  predicate MetaAlike(d: Db, lost: Db, key: bytes) {
    && (MetaKey(key) in lost <==> MetaKey(key) in d)
    && (MetaKey(key) in d ==> lost[MetaKey(key)] == d[MetaKey(key)])
  }

  lemma SameTables(d: Db, lost: Db, versions: map<bytes, u64>, issued: u64, key: bytes)
    requires KeyOk(d, versions, issued, key) && key in versions
    requires MetaAlike(d, lost, key)
    requires SubAt(lost, key, versions[key]) == SubAt(d, key, versions[key])
    requires IndexAt(lost, key, versions[key]) == IndexAt(d, key, versions[key])
    ensures KeyOk(lost, versions, issued, key) && EntryAt(lost, key) == EntryAt(d, key)
  {
    hide SubAt, IndexAt, Shape, NonEmpty, ValueOf;
  }

  /** A string has its value in its metadata. */
  lemma NoTables(d: Db, lost: Db, versions: map<bytes, u64>, issued: u64, key: bytes)
    requires KeyOk(d, versions, issued, key) && key !in versions
    requires MetaAlike(d, lost, key)
    ensures KeyOk(lost, versions, issued, key) && EntryAt(lost, key) == EntryAt(d, key)
  {
    hide SubAt, IndexAt, Elements, Scores, ZSetShape, ListShape, Meta.ListBounds, Meta.FieldCount;
  }

  lemma TableNotLost(d: Db, lost: Db, key: bytes, version: u64)
    requires Compacted(d, lost, map[])
    requires |SubAt(d, key, version)| + |IndexAt(d, key, version)| == 0
    ensures SubAt(lost, key, version) == SubAt(d, key, version) && IndexAt(lost, key, version) == IndexAt(d, key, version)
  {
    assert SubAt(d, key, version) == map[] && IndexAt(d, key, version) == map[];
  }

  /** A compaction in that window can drop a live hash's field and leave the hash otherwise as it was. */
  lemma EarlyCompactionLosesField(d: Db, versions: map<bytes, u64>, issued: u64, key: bytes, field: bytes)
    requires Inv(d, versions, issued) && key in Abs(d) && Abs(d)[key].value.Hash? && field in Abs(d)[key].value.fields
    ensures key in versions
    ensures var (lost, hash) := (d - {Subkey(key, versions[key], field)}, Abs(d)[key].value);
            && Compacted(d, lost, map[])
            && At(Abs(lost), key) == Some(Abs(d)[key].(value := Hash(hash.fields - {field}, hash.count)))
  {
    hide Inv, Abs, SubAt, MetaAt, Compacted, Meta.FieldCount;
    HashEntry(d, versions, issued, key);
    DropMember(d, key, versions[key], field);
    AbsAt(d - {Subkey(key, versions[key], field)}, key);
  }
}
