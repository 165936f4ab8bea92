/** Version-based garbage collection of stale records. */
module Gc {
  import opened Common
  import opened Encoding
  import opened Records

  /** The compaction filter's question: metadata stays, a versioned record stays while its version is current. */
  predicate Keep(versions: map<bytes, u64>, raw: bytes) {
    match ParseOwnerVersion(raw)
    case None => true
    case Some(p) => p.key in versions && versions[p.key] == p.version
  }

  /** `d1` is what a compaction that dropped some of the rejected records leaves of `d0`. */
  ghost predicate Compacted(d0: Db, d1: Db, versions: map<bytes, u64>) {
    && (forall raw :: raw in d1 ==> raw in d0 && d1[raw] == d0[raw])
    && (forall raw :: raw in d0 && raw !in d1 ==> !Keep(versions, raw))
  }

  lemma CompactedTransitive(d0: Db, d1: Db, d2: Db, versions: map<bytes, u64>)
    requires Compacted(d0, d1, versions) && Compacted(d1, d2, versions)
    ensures Compacted(d0, d2, versions)
  {
  }

  /** Collecting before a batch leaves nothing more than collecting after it may. */
  lemma {:induction false} CompactedBeforeWrite(d0: Db, d1: Db, ops: seq<WriteOp>, versions: map<bytes, u64>)
    requires Compacted(d0, d1, versions)
    ensures Compacted(ApplyOps(d0, ops), ApplyOps(d1, ops), versions)
  {
    if ops != [] {
      CompactedBeforeWrite(d0, d1, ops[..|ops| - 1], versions);
    }
  }

  lemma CurrentVersionKept(versions: map<bytes, u64>, tag: byte, key: bytes, version: u64, raw: bytes)
    requires |key| < U32 && key in versions && versions[key] == version
    requires VersionedPrefix(tag, key, version) <= raw
    ensures Keep(versions, raw)
  {
    PrefixIffParsed(raw, tag, key, version);
    assert raw[0] == VersionedPrefix(tag, key, version)[0];
  }

  /** A compaction does not touch the records of a key's current version. */
  lemma TableSurvives(d0: Db, d1: Db, versions: map<bytes, u64>, tag: byte, key: bytes, version: u64)
    requires Compacted(d0, d1, versions)
    requires |key| < U32 && key in versions && versions[key] == version
    ensures var p := VersionedPrefix(tag, key, version); Under(d1, p) == Under(d0, p)
  {
    var p := VersionedPrefix(tag, key, version);
    forall s | p + s in d0 ensures p + s in d1 {
      CurrentVersionKept(versions, tag, key, version, p + s);
    }
  }

  lemma MetaSurvives(d0: Db, d1: Db, versions: map<bytes, u64>)
    requires Compacted(d0, d1, versions)
    ensures Under(d1, [META_PREFIX]) == Under(d0, [META_PREFIX])
    ensures forall key :: MetaKey(key) in d0 <==> MetaKey(key) in d1
    ensures forall key :: MetaKey(key) in d0 ==> d1[MetaKey(key)] == d0[MetaKey(key)]
  {
    forall raw | [META_PREFIX] <= raw ensures Keep(versions, raw) {
      assert raw[0] == META_PREFIX;
    }
  }

  /** The in-memory map from user key to current structure version. */
  class VersionMap {
    var inner: map<bytes, u64>

    constructor ()
      ensures inner == map[]
    {
      inner := map[];
    }

    method Set(key: bytes, version: u64)
      modifies this
      ensures inner == old(inner)[key := version]
    {
      inner := inner[key := version];
    }

    method Remove(key: bytes)
      modifies this
      ensures inner == old(inner) - {key}
    {
      inner := inner - {key};
    }

    method Get(key: bytes) returns (version: Option<u64>)
      ensures version == if key in inner then Some(inner[key]) else None
    {
      version := if key in inner then Some(inner[key]) else None;
    }

    method Clear()
      modifies this
      ensures inner == map[]
    {
      inner := map[];
    }

    method ShouldKeep(raw: bytes) returns (keep: bool)
      ensures keep <==> Keep(inner, raw)
    {
      match ParseOwnerVersion(raw) {
        case None =>
          keep := true;
        case Some(p) =>
          var current := Get(p.key);
          keep := current == Some(p.version);
      }
    }
  }
}
