/** How many physical records a dictionary occupies once all garbage is gone. */
module Conservation {
  import opened Common
  import ByteOrder
  import opened Encoding
  import opened Records
  import opened Gc
  import opened Dictionary
  import opened Representation

  function RecordsOf(value: Value): nat {
    match value
    case Str(_) => 0
    case Hash(fields, _) => |fields|
    case Set(members) => |members|
    case ZSet(scores) => 2 * |scores|
    case List(items, _) => |items|
  }

  ghost function Pick(keys: set<bytes>): (key: bytes)
    requires keys != {}
    ensures key in keys
  {
    var key :| key in keys; key
  }

  /** The sum of `RecordsOf` over some keys of a dictionary. */
  ghost function TotalOver(dict: Dict, keys: set<bytes>): nat
    requires keys <= dict.Keys
  {
    if keys == {} then 0
    else RecordsOf(dict[Pick(keys)].value) + TotalOver(dict, keys - {Pick(keys)})
  }

  ghost function RecordTotal(dict: Dict): nat {
    TotalOver(dict, dict.Keys)
  }

  ghost predicate NoGarbage(d: Db, versions: map<bytes, u64>) {
    forall raw :: raw in d ==> Keep(versions, raw)
  }

  lemma NothingToSweep(d: Db, d1: Db, versions: map<bytes, u64>)
    requires NoGarbage(d, versions) && Compacted(d, d1, versions)
    ensures d1 == d
  {
  }

  // ---- Counting the records below a prefix -------------------------------------------

  function Below(d: Db, p: bytes): set<bytes> {
    set raw | raw in d && p <= raw
  }

  lemma {:induction false} StripSize(keys: set<bytes>, p: bytes)
    requires forall raw :: raw in keys ==> p <= raw
    ensures |set raw | raw in keys :: raw[|p|..]| == |keys|
  {
    var stripped := set raw | raw in keys :: raw[|p|..];
    if keys == {} {
      assert stripped == {};
    } else {
      var raw := Pick(keys);
      var rest := keys - {raw};
      StripSize(rest, p);
      var fewer := set r | r in rest :: r[|p|..];
      forall r | r in rest ensures r[|p|..] != raw[|p|..] {
        assert r == p + r[|p|..] && raw == p + raw[|p|..];
      }
      assert stripped == fewer + {raw[|p|..]};
    }
  }

  lemma UnderSize(d: Db, p: bytes)
    ensures |Under(d, p)| == |Below(d, p)|
  {
    StripSize(Below(d, p), p);
    assert Suffixes(d, p) == set raw | raw in Below(d, p) :: raw[|p|..];
    assert Under(d, p).Keys == Suffixes(d, p) by {
      forall s { SuffixIff(d, p, s); }
    }
    assert |Under(d, p)| == |Under(d, p).Keys|;
  }

  // ---- Partition by owner --------------------------------------------------------------

  /** The records of one family whose owner is among `keys`, at the owner's current version. */
  function OwnedBy(d: Db, tag: byte, keys: set<bytes>, versions: map<bytes, u64>): set<bytes> {
    set raw | raw in d && ParseVersioned(raw, tag).Some?
              && ParseVersioned(raw, tag).value.key in keys
              && ParseVersioned(raw, tag).value.key in versions
              && ParseVersioned(raw, tag).value.version == versions[ParseVersioned(raw, tag).value.key]
  }

  lemma OwnedByOne(d: Db, tag: byte, keys: set<bytes>, versions: map<bytes, u64>, key: bytes)
    requires key in keys
    requires key in versions ==> |key| < U32
    ensures |OwnedBy(d, tag, keys, versions)| ==
            |OwnedBy(d, tag, keys - {key}, versions)| + if key in versions
                then |Under(d, VersionedPrefix(tag, key, versions[key]))| else 0
  {
    var all, rest := OwnedBy(d, tag, keys, versions), OwnedBy(d, tag, keys - {key}, versions);
    if key in versions {
      var own := Below(d, VersionedPrefix(tag, key, versions[key]));
      forall raw ensures raw in own <==> raw in d && ParseVersioned(raw, tag).Some?
                                         && ParseVersioned(raw, tag).value.key == key
                                         && ParseVersioned(raw, tag).value.version == versions[key]
      {
        PrefixIffParsed(raw, tag, key, versions[key]);
        if ParseVersioned(raw, tag).Some? {
          var p := ParseVersioned(raw, tag).value;
          assert p == Versioned(p.key, p.version, p.rest);
        }
      }
      assert all == rest + own;
      assert rest !! own;
      UnderSize(d, VersionedPrefix(tag, key, versions[key]));
    } else {
      assert all == rest;
    }
  }

  /** A consistent key's two tables hold the records its value calls for. */
  lemma KeyRecords(d: Db, versions: map<bytes, u64>, issued: u64, key: bytes)
    requires KeyOk(d, versions, issued, key) && key in versions
    ensures |key| < U32 && EntryAt(d, key).Some?
    ensures |SubAt(d, key, versions[key])| + |IndexAt(d, key, versions[key])| == RecordsOf(EntryAt(d, key).value.value)
  {
    hide Shape, NonEmpty, ValueOf, SubAt, IndexAt;
    var m := MetaAt(d, key).value;
    ShapeRecords(m, SubAt(d, key, m.version), IndexAt(d, key, m.version));
  }

  lemma ShapeRecords(m: Meta, sub: Db, index: Db)
    requires Shape(m, sub, index) && m.Composite()
    ensures |sub| + |index| == RecordsOf(ValueOf(m, sub))
  {
    hide IndexKeys, Scores, Elements, Meta.FieldCount, Meta.ListBounds, ListShape;
    if m.typeId == TYPE_SET {
      assert |sub| == |sub.Keys|;
    } else if m.typeId == TYPE_ZSET {
      ScoredRecords(sub, index);
    } else if m.typeId == TYPE_LIST {
      m.ListBoundsIff();
      var (head, tail) := m.ListBounds().value;
      ListSize(sub, head, tail);
      HeadBeforeTail(sub, head, tail);
    }
  }

  lemma HeadBeforeTail(sub: Db, head: u64, tail: u64)
    requires ListShape(sub, head, tail)
    ensures head <= tail
  {
  }

  lemma ScoredRecords(sub: Db, index: Db)
    requires ZSetShape(sub, index)
    ensures |sub| + |index| == 2 * |Scores(sub)|
  {
    IndexSize(sub);
    assert index.Keys == IndexKeys(sub);
    assert |index| == |index.Keys|;
    assert Scores(sub).Keys == sub.Keys;
    assert |Scores(sub)| == |Scores(sub).Keys| == |sub.Keys| == |sub|;
  }

  /** The two kinds of records of a sorted set say the same, and its metadata counts either kind. */
  lemma DualIndexCoherent(d: Db, versions: map<bytes, u64>, issued: u64, key: bytes, member: bytes, score: u64)
    requires Inv(d, versions, issued) && key in Abs(d) && Abs(d)[key].value.ZSet?
    ensures key in versions && MetaAt(d, key).Some?
    ensures var (v, scores) := (versions[key], Abs(d)[key].value.scores);
            && (member in scores && scores[member] == score
                <==> Subkey(key, v, member) in d && d[Subkey(key, v, member)] == EncodeScore(score))
            && (member in scores && scores[member] == score <==> ZscoreKey(key, v, score, member) in d)
            && MetaAt(d, key).value.FieldCount() == |scores| == |SubAt(d, key, v)| == |IndexAt(d, key, v)|
  {
    hide Inv, Abs, Meta.FieldCount, Meta.ListBounds, Elements, EncodeScore;
    AbsAt(d, key);
    assert KeyOk(d, versions, issued, key) by { AllOk(d, versions, issued, key); }
    var v := versions[key];
    var sub, index := SubAt(d, key, v), IndexAt(d, key, v);
    ScoredRecords(sub, index);
    ScoreRecordIff(sub, index, member, score);
    assert Scores(sub).Keys == sub.Keys && |Scores(sub)| == |Scores(sub).Keys| && |sub| == |sub.Keys|;
  }

  lemma AllOk(d: Db, versions: map<bytes, u64>, issued: u64, key: bytes)
    requires Inv(d, versions, issued)
    ensures KeyOk(d, versions, issued, key)
  {
  }

  lemma ScoreRecordIff(sub: Db, index: Db, member: bytes, score: u64)
    requires ZSetShape(sub, index)
    ensures member in sub && StoredScore(sub[member]) == score <==> member in sub && sub[member] == EncodeScore(score)
    ensures EncodeScore(score) + member in index <==> member in sub && sub[member] == EncodeScore(score)
  {
    var raw := EncodeScore(score);
    DecodeOfEncodeScore(score);
    if member in sub {
      EncodeOfDecodeScore(sub[member]);
    }
    if raw + member in IndexKeys(sub) {
      var other :| other in sub && sub[other] + other == raw + member;
      assert (sub[other] + other)[..8] == sub[other] && (raw + member)[..8] == raw;
      assert (sub[other] + other)[8..] == other && (raw + member)[8..] == member;
    }
  }

  lemma {:induction false} IndexSize(sub: Db)
    requires forall m :: m in sub ==> |sub[m]| == 8
    ensures |IndexKeys(sub)| == |sub|
    decreases |sub|
  {
    if sub == map[] {
      assert IndexKeys(sub) == {};
    } else {
      var m := Pick(sub.Keys);
      var rest := sub - {m};
      assert |rest| == |sub| - 1 by {
        assert sub.Keys == rest.Keys + {m};
        assert |sub| == |sub.Keys| && |rest| == |rest.Keys|;
      }
      IndexSize(rest);
      forall o | o in rest ensures rest[o] + o != sub[m] + m {
        assert (rest[o] + o)[8..] == o && (sub[m] + m)[8..] == m;
      }
      IndexKeysWithout(sub, m);
    }
  }

  lemma IndexKeysWithout(sub: Db, m: bytes)
    requires m in sub
    ensures IndexKeys(sub) == IndexKeys(sub - {m}) + {sub[m] + m}
  {
    var rest := sub - {m};
    forall s | s in IndexKeys(sub) ensures s in IndexKeys(rest) + {sub[m] + m} {
      var o :| o in sub && sub[o] + o == s;
      assert o == m || (o in rest && rest[o] + o == s);
    }
    forall s | s in IndexKeys(rest) ensures s in IndexKeys(sub) {
      var o :| o in rest && rest[o] + o == s;
      assert o in sub && sub[o] + o == s;
    }
  }

  lemma {:induction false} ListSize(sub: Db, head: u64, tail: u64)
    requires ListShape(sub, head, tail)
    ensures |sub| == tail - head
    decreases tail - head
  {
    assert |sub| == |sub.Keys|;
    if head == tail {
      forall f | f in sub ensures false {
        FieldOfIndex(f);
      }
      assert sub.Keys == {};
    } else {
      var last := ListIndexField(tail - 1);
      var rest := sub - {last};
      forall i: u64 ensures ListIndexField(i) in rest <==> head <= i < tail - 1 {
        if ListIndexField(i) == last {
          ListIndexInjective(i, tail - 1);
        }
      }
      ListSize(rest, head, tail - 1);
      assert sub.Keys == rest.Keys + {last};
      assert |rest| == |rest.Keys|;
    }
  }

  lemma FieldOfIndex(f: bytes)
    requires |f| == 8
    ensures exists i: u64 :: ListIndexField(i) == f
  {
    assert ListIndexField(ByteOrder.FromBe64(f)) == f;
  }

  lemma {:induction false} TotalOfOwned(d: Db, versions: map<bytes, u64>, issued: u64, keys: set<bytes>)
    requires Inv(d, versions, issued) && keys <= Abs(d).Keys
    ensures |OwnedBy(d, SUBKEY_PREFIX, keys, versions)| + |OwnedBy(d, ZSCORE_PREFIX, keys, versions)|
        == TotalOver(Abs(d), keys)
  {
    hide OwnedBy, Inv, KeyOk, Abs, EntryAt;
    if keys == {} {
      NoOwners(d, SUBKEY_PREFIX, versions);
      NoOwners(d, ZSCORE_PREFIX, versions);
    } else {
      var key := Pick(keys);
      TotalOfOwned(d, versions, issued, keys - {key});
      OneOwner(d, versions, issued, key);
      OwnedByOne(d, SUBKEY_PREFIX, keys, versions, key);
      OwnedByOne(d, ZSCORE_PREFIX, keys, versions, key);
    }
  }

  lemma NoOwners(d: Db, tag: byte, versions: map<bytes, u64>)
    ensures OwnedBy(d, tag, {}, versions) == {}
  {
  }

  lemma OneOwner(d: Db, versions: map<bytes, u64>, issued: u64, key: bytes)
    requires Inv(d, versions, issued) && key in Abs(d)
    ensures key in versions ==> |key| < U32
    ensures RecordsOf(Abs(d)[key].value) ==
            if key in versions then |SubAt(d, key, versions[key])| + |IndexAt(d, key, versions[key])| else 0
  {
    AbsAt(d, key);
    assert KeyOk(d, versions, issued, key);
    if key in versions {
      KeyRecords(d, versions, issued, key);
    }
  }

  /** Without garbage every versioned record belongs to a key of the dictionary. */
  lemma AllOwned(d: Db, versions: map<bytes, u64>, issued: u64, tag: byte)
    requires Inv(d, versions, issued) && NoGarbage(d, versions)
    requires tag == SUBKEY_PREFIX || tag == ZSCORE_PREFIX
    ensures Below(d, [tag]) == OwnedBy(d, tag, Abs(d).Keys, versions)
  {
    forall raw | raw in d && [tag] <= raw ensures raw in OwnedBy(d, tag, Abs(d).Keys, versions) {
      assert raw[0] == tag;
      assert RecordOk(raw, issued) && Keep(versions, raw);
      var key := ParseVersioned(raw, tag).value.key;
      assert KeyOk(d, versions, issued, key);
      AbsAt(d, key);
    }
  }

  /** Conservation: hash fields + set members + twice the sorted-set members + list elements. */
  lemma RecordsConserved(d: Db, versions: map<bytes, u64>, issued: u64)
    requires Inv(d, versions, issued) && NoGarbage(d, versions)
    ensures |Under(d, [SUBKEY_PREFIX])| + |Under(d, [ZSCORE_PREFIX])| == RecordTotal(Abs(d))
  {
    hide OwnedBy, Inv, Abs, Under, Below, NoGarbage;
    UnderSize(d, [SUBKEY_PREFIX]);
    UnderSize(d, [ZSCORE_PREFIX]);
    AllOwned(d, versions, issued, SUBKEY_PREFIX);
    AllOwned(d, versions, issued, ZSCORE_PREFIX);
    TotalOfOwned(d, versions, issued, Abs(d).Keys);
  }

  /** No compaction drops a record that is owned, and every owned record counts. */
  lemma OwnedStay(d: Db, d1: Db, versions: map<bytes, u64>, tag: byte, keys: set<bytes>)
    requires Compacted(d, d1, versions) && (tag == SUBKEY_PREFIX || tag == ZSCORE_PREFIX)
    ensures OwnedBy(d1, tag, keys, versions) == OwnedBy(d, tag, keys, versions)
    ensures |OwnedBy(d, tag, keys, versions)| <= |Under(d1, [tag])|
  {
    forall raw | raw in OwnedBy(d, tag, keys, versions) ensures raw in d1 {
      assert Keep(versions, raw);
    }
    UnderSize(d1, [tag]);
    assert OwnedBy(d, tag, keys, versions) <= Below(d1, [tag]);
    SubsetSize(OwnedBy(d, tag, keys, versions), Below(d1, [tag]));
  }

  lemma SubsetSize(a: set<bytes>, b: set<bytes>)
    requires a <= b
    ensures |a| <= |b|
  {
    assert b == a + (b - a);
  }

  /**
   * Counting the two families one after the other, with compaction in between: never fewer records
   * than the dictionary calls for, and exactly as many once no garbage is left.
   */
  lemma CountsAreEnough(d: Db, d1: Db, d2: Db, versions: map<bytes, u64>, issued: u64)
    requires Inv(d, versions, issued) && Compacted(d, d1, versions) && Compacted(d, d2, versions)
    ensures var n := |Under(d1, [SUBKEY_PREFIX])| + |Under(d2, [ZSCORE_PREFIX])|;
            RecordTotal(Abs(d)) <= n && (NoGarbage(d, versions) ==> n == RecordTotal(Abs(d)))
  {
    hide OwnedBy, Inv, Abs, Under, NoGarbage, Compacted;
    TotalOfOwned(d, versions, issued, Abs(d).Keys);
    OwnedStay(d, d1, versions, SUBKEY_PREFIX, Abs(d).Keys);
    OwnedStay(d, d2, versions, ZSCORE_PREFIX, Abs(d).Keys);
    if NoGarbage(d, versions) {
      NothingToSweep(d, d1, versions);
      NothingToSweep(d, d2, versions);
      RecordsConserved(d, versions, issued);
    }
  }

  /** One metadata record per key. */
  lemma KeysConserved(d: Db, versions: map<bytes, u64>, issued: u64)
    requires Inv(d, versions, issued)
    ensures |Under(d, [META_PREFIX])| == |Abs(d)|
  {
    forall key ensures key in Under(d, [META_PREFIX]) <==> key in Abs(d) {
      assert KeyOk(d, versions, issued, key);
      assert [META_PREFIX] + key == MetaKey(key);
      AbsAt(d, key);
    }
    assert Under(d, [META_PREFIX]).Keys == Abs(d).Keys;
    assert |Abs(d)| == |Abs(d).Keys| && |Under(d, [META_PREFIX])| == |Under(d, [META_PREFIX]).Keys|;
  }
}
