/** How the member table and the score index of a sorted set move together. */
module SortedSets {
  import opened Common
  import opened Sorting
  import opened ByteOrder
  import opened Encoding
  import opened Records
  import opened Gc
  import opened Dictionary
  import opened Representation
  import opened Mutation

  function DecodeStoredScore(raw: bytes): Result<u64> {
    if |raw| == 8 then Ok(DecodeScore(raw)) else Corruption
  }

  /** The score index that a member table calls for. */
  function IndexOf(sub: Db): Db {
    map s | s in IndexKeys(sub) :: []
  }

  predicate ScoresStored(sub: Db) {
    forall m :: m in sub ==> |sub[m]| == 8 && !IsNaN(DecodeScore(sub[m]))
  }

  lemma ZSetOpened(d: Db, versions: map<bytes, u64>, issued: u64, key: bytes, m: Meta, slot: Slot)
    requires Opened(d, versions, issued, key, m, slot) && m.typeId == TYPE_ZSET
    ensures slot.GetOr(Entry(ZSet(map[]), 0)) == Entry(ZSet(Scores(SubAt(d, key, m.version))), m.expireMs)
    ensures m.FieldCount() == |SubAt(d, key, m.version)| == |SubAt(d, key, m.version).Keys|
    ensures ScoresStored(SubAt(d, key, m.version))
    ensures IndexAt(d, key, m.version) == IndexOf(SubAt(d, key, m.version))
  {
    hide InvElsewhere, SubAt, IndexAt, Scores, Meta.FieldCount;
  }

  lemma ZSetStored(d: Db, versions: map<bytes, u64>, issued: u64, key: bytes, m: Meta, slot: Slot,
                   ops: seq<WriteOp>, sub: Db, count: u32, d1: Db)
    requires Opened(d, versions, issued, key, m, slot) && m.typeId == TYPE_ZSET
    requires Pending(d, key, m.version, issued, ops, sub, IndexOf(sub))
    requires ScoresStored(sub) && count == |sub.Keys| > 0
    requires Compacted(ApplyOps(d, ops + [Put(MetaKey(key), m.SetFieldCount(count).Encode())]), d1, versions)
    ensures Inv(d1, versions, issued)
    ensures Abs(d1) == Place(Abs(d), key, Some(Entry(ZSet(Scores(sub)), m.expireMs)))
  {
    hide Inv, InvElsewhere, Compacted, ApplyOps, Abs, Place, SubAt, IndexAt, Pending;
    m.FieldCountOfSet(count);
    assert |sub| == |sub.Keys|;
    ScoresKeys(sub);
    Upsert(d, versions, issued, key, ops, m.SetFieldCount(count), sub, IndexOf(sub), d1);
  }

  lemma ScoresKeys(sub: Db)
    ensures Scores(sub).Keys == sub.Keys
    ensures |Scores(sub)| == |sub| == |sub.Keys|
    ensures Scores(sub) == map[] <==> sub.Keys == {}
  {
    assert |Scores(sub)| == |Scores(sub).Keys|;
  }

  // ---- Index maintenance --------------------------------------------------------

  lemma IndexSuffixInjective(a: bytes, x: bytes, b: bytes, y: bytes)
    requires |a| == |b| && a + x == b + y
    ensures a == b && x == y
  {
    assert (a + x)[..|a|] == a && (b + y)[..|b|] == b;
    assert (a + x)[|a|..] == x && (b + y)[|b|..] == y;
  }

  lemma IndexKeyIff(sub: Db, m: bytes, raw: bytes)
    requires ScoresStored(sub) && |raw| == 8
    ensures raw + m in IndexKeys(sub) <==> m in sub && sub[m] == raw
  {
    if raw + m in IndexKeys(sub) {
      var o :| o in sub && sub[o] + o == raw + m;
      IndexSuffixInjective(sub[o], o, raw, m);
    }
  }

  /** Replacing a member's score moves exactly its index record. */
  lemma IndexMoves(sub: Db, m: bytes, raw: bytes)
    requires ScoresStored(sub) && |raw| == 8
    ensures IndexOf(sub[m := raw]) == (if m in sub then IndexOf(sub) - {sub[m] + m} else IndexOf(sub))[raw + m := []]
  {
    var after := sub[m := raw];
    var want := (if m in sub then IndexOf(sub) - {sub[m] + m} else IndexOf(sub))[raw + m := []];
    forall s | s in IndexKeys(after) ensures s in want {
      var o :| o in after && after[o] + o == s;
      if o != m {
        assert s in IndexKeys(sub);
        if m in sub && sub[o] + o == sub[m] + m {
          IndexSuffixInjective(sub[o], o, sub[m], m);
        }
      }
    }
    forall s | s in want ensures s in IndexKeys(after) {
      if s == raw + m {
        assert after[m] + m == s;
      } else {
        var o :| o in sub && sub[o] + o == s;
        assert o != m;
        assert after[o] + o == s;
      }
    }
  }

  lemma IndexLosesMember(sub: Db, m: bytes)
    requires ScoresStored(sub) && m in sub
    ensures IndexOf(sub - {m}) == IndexOf(sub) - {sub[m] + m}
  {
    var after, want := sub - {m}, IndexOf(sub) - {sub[m] + m};
    forall s | s in IndexKeys(after) ensures s in want {
      var o :| o in after && after[o] + o == s;
      assert s in IndexKeys(sub);
      if sub[o] + o == sub[m] + m {
        IndexSuffixInjective(sub[o], o, sub[m], m);
      }
    }
    forall s | s in want ensures s in IndexKeys(after) {
      var o :| o in sub && sub[o] + o == s;
      assert after[o] + o == s;
    }
  }

  // ---- ZADD ------------------------------------------------------------------------

  /** The member table after some members got new scores. */
  function ScoreTable(sub: Db, updates: map<bytes, u64>): Db {
    map m | m in sub.Keys + updates.Keys ::
      if m in updates && !(m in sub && ScoreEq(StoredScore(sub[m]), updates[m])) then EncodeScore(updates[m])
          else sub[m]
  }

  lemma ScoreTableNone(sub: Db)
    ensures ScoreTable(sub, map[]) == sub
  {
  }

  lemma ScoreTableOne(sub: Db, updates: map<bytes, u64>, m: bytes, score: u64)
    requires m !in updates
    ensures m in sub && ScoreEq(StoredScore(sub[m]), score) ==>
        ScoreTable(sub, updates[m := score]) == ScoreTable(sub, updates)
    ensures !(m in sub && ScoreEq(StoredScore(sub[m]), score)) ==>
              ScoreTable(sub, updates[m := score]) == ScoreTable(sub, updates)[m := EncodeScore(score)]
    ensures m in sub <==> m in ScoreTable(sub, updates)
    ensures m in sub ==> ScoreTable(sub, updates)[m] == sub[m]
  {
    hide StoredScore, ScoreEq, EncodeScore;
    var t, want := ScoreTable(sub, updates[m := score]), ScoreTable(sub, updates);
    assert forall o :: o != m ==> (o in t <==> o in want);
    assert forall o :: o != m && o in t ==> t[o] == want[o];
  }

  lemma ScoreTableStored(sub: Db, updates: map<bytes, u64>)
    requires ScoresStored(sub) && forall m :: m in updates ==> !IsNaN(updates[m])
    ensures ScoresStored(ScoreTable(sub, updates))
    ensures Scores(ScoreTable(sub, updates)) == Rescore(Scores(sub), updates)
    ensures ScoreTable(sub, updates).Keys == sub.Keys + updates.Keys
  {
    hide ScoreEq, EncodeScore, DecodeScore, IsNaN;
    var t := ScoreTable(sub, updates);
    forall m | m in t ensures |t[m]| == 8 && !IsNaN(DecodeScore(t[m])) {
      if m in updates {
        DecodeOfEncodeScore(updates[m]);
      }
    }
    forall m | m in t ensures StoredScore(t[m]) == Rescore(Scores(sub), updates)[m] {
      if m in updates {
        DecodeOfEncodeScore(updates[m]);
      }
    }
  }

  /** The deduplicated arguments as a map; members are pairwise distinct. */
  function AsScores(effective: seq<(bytes, u64)>): map<bytes, u64> {
    if effective == [] then map[]
    else AsScores(effective[..|effective| - 1])[effective[|effective| - 1].0 := effective[|effective| - 1].1]
  }

  predicate DistinctMembers(effective: seq<(bytes, u64)>) {
    forall i, j :: 0 <= i < j < |effective| ==> effective[i].0 != effective[j].0
  }

  lemma AsScoresSnoc(effective: seq<(bytes, u64)>, m: bytes, score: u64)
    ensures AsScores(effective + [(m, score)]) == AsScores(effective)[m := score]
  {
    assert (effective + [(m, score)])[..|effective|] == effective;
  }

  lemma {:induction false} AsScoresAt(effective: seq<(bytes, u64)>, m: bytes)
    requires DistinctMembers(effective)
    ensures m in AsScores(effective) <==> exists i :: 0 <= i < |effective| && effective[i].0 == m
    ensures forall i :: 0 <= i < |effective| && effective[i].0 == m ==> AsScores(effective)[m] == effective[i].1
  {
    if effective != [] {
      var init := effective[..|effective| - 1];
      AsScoresAt(init, m);
      assert forall i :: 0 <= i < |init| ==> init[i] == effective[i];
    }
  }

  lemma AsScoresReplace(effective: seq<(bytes, u64)>, i: nat, score: u64)
    requires DistinctMembers(effective) && i < |effective|
    ensures var replaced := effective[i := (effective[i].0, score)];
            DistinctMembers(replaced) && AsScores(replaced) == AsScores(effective)[effective[i].0 := score]
  {
    var replaced := effective[i := (effective[i].0, score)];
    var got, want := AsScores(replaced), AsScores(effective)[effective[i].0 := score];
    assert forall j :: 0 <= j < |effective| ==> replaced[j].0 == effective[j].0;
    forall m ensures m in got <==> m in want
             ensures m in got ==> got[m] == want[m]
    {
      AsScoresAt(replaced, m);
      AsScoresAt(effective, m);
      if m in got {
        var j :| 0 <= j < |replaced| && replaced[j].0 == m;
        assert effective[j].0 == m;
        assert got[m] == replaced[j].1;
      }
    }
  }

  lemma DistinctPrefix(effective: seq<(bytes, u64)>, i: nat)
    requires DistinctMembers(effective) && i < |effective|
    ensures effective[i].0 !in AsScores(effective[..i])
    ensures AsScores(effective[..i + 1]) == AsScores(effective[..i])[effective[i].0 := effective[i].1]
  {
    AsScoresAt(effective[..i], effective[i].0);
    assert effective[..i + 1] == effective[..i] + [effective[i]];
    AsScoresSnoc(effective[..i], effective[i].0, effective[i].1);
  }

  lemma LastScoresSnoc(pairs: seq<(u64, bytes)>, i: nat)
    requires i < |pairs|
    ensures LastScores(pairs[..i + 1]) == LastScores(pairs[..i])[pairs[i].1 := pairs[i].0]
  {
    assert pairs[..i + 1][..i] == pairs[..i];
  }

  predicate NoNaN(pairs: seq<(u64, bytes)>) {
    forall i :: 0 <= i < |pairs| ==> !IsNaN(pairs[i].0)
  }

  lemma {:induction false} LastScoresOk(pairs: seq<(u64, bytes)>)
    requires NoNaN(pairs)
    ensures forall m :: m in LastScores(pairs) ==> !IsNaN(LastScores(pairs)[m])
    ensures pairs != [] ==> LastScores(pairs) != map[]
    ensures |LastScores(pairs).Keys| <= |pairs|
  {
    if pairs != [] {
      var init, m := pairs[..|pairs| - 1], pairs[|pairs| - 1].1;
      LastScoresOk(init);
      assert LastScores(pairs).Keys == LastScores(init).Keys + {m};
      assert m in LastScores(pairs);
    }
  }

  lemma ZAddIs(d: Db, versions: map<bytes, u64>, issued: u64, key: bytes, m: Meta, slot: Slot, pairs: seq<(u64, bytes)>)
    requires Opened(d, versions, issued, key, m, slot) && m.typeId == TYPE_ZSET
    requires Fits(slot, |pairs|) && (slot.None? || slot.value.value.ZSet?) && NoNaN(pairs)
    ensures var sub := SubAt(d, key, m.version);
            var updates := LastScores(pairs);
            var table := ScoreTable(sub, updates);
            && m.FieldCount() + |pairs| < U32
            && ScoresStored(table) && |table.Keys| == m.FieldCount() + Missing(sub, updates.Keys)
            && (pairs != [] ==> |table.Keys| > 0)
            && ZAdd(slot, pairs) == (Some(Entry(ZSet(Scores(table)), m.expireMs)), Ok(Missing(sub, updates.Keys)))
  {
    hide Opened, SubAt, LastScores, Rescore, ScoreTable, Scores, ScoresStored, IsNaN, Meta.FieldCount;
    var sub, updates := SubAt(d, key, m.version), LastScores(pairs);
    ZSetOpened(d, versions, issued, key, m, slot);
    LastScoresOk(pairs);
    ScoresKeys(sub);
    ScoreTableStored(sub, updates);
    KeysSize(sub.Keys, updates.Keys);
    assert pairs != [] ==> updates.Keys != {};
  }

  /** A ZADD that queues no write concerns an existing key and leaves it as it is. */
  lemma ZAddNothing(d: Db, versions: map<bytes, u64>, issued: u64, key: bytes, m: Meta, slot: Slot,
      pairs: seq<(u64, bytes)>)
    requires Opened(d, versions, issued, key, m, slot) && m.typeId == TYPE_ZSET
    requires Fits(slot, |pairs|) && (slot.None? || slot.value.value.ZSet?) && NoNaN(pairs) && pairs != []
    requires var table := ScoreTable(SubAt(d, key, m.version), LastScores(pairs));
             Pending(d, key, m.version, issued, [], table, IndexOf(table))
    ensures slot.Some? && ZAdd(slot, pairs) == (slot, Ok(Missing(SubAt(d, key, m.version), LastScores(pairs).Keys)))
  {
    hide Opened, LastScores, Rescore, ScoreTable, Scores, ScoresStored, IsNaN, Meta.FieldCount, ZAdd, SubAt, Missing;
    var sub, updates := SubAt(d, key, m.version), LastScores(pairs);
    PendingNothing(d, key, m.version, issued, ScoreTable(sub, updates), IndexOf(ScoreTable(sub, updates)));
    ZSetOpened(d, versions, issued, key, m, slot);
    ScoresKeys(sub);
    ZAddIs(d, versions, issued, key, m, slot, pairs);
  }

  // ---- ZREM ---------------------------------------------------------------------------

  lemma ZRemEdges(slot: Slot, members: seq<bytes>)
    ensures slot.None? ==> ZRem(slot, members) == (None, Ok(0))
    ensures slot.Some? && TypeId(slot.value.value) != TYPE_ZSET ==> ZRem(slot, members) == (slot, WrongType)
  {
    hide ToSet;
  }

  lemma ZRemIs(d: Db, versions: map<bytes, u64>, issued: u64, key: bytes, m: Meta, slot: Slot, members: seq<bytes>)
    requires Opened(d, versions, issued, key, m, slot) && m.typeId == TYPE_ZSET && slot.Some?
    ensures var sub := SubAt(d, key, m.version);
            var rest := Without(sub, ToSet(members));
            && ScoresStored(rest) && |rest.Keys| == m.FieldCount() - Stored(sub, ToSet(members))
            && ZRem(slot, members) ==
                 (if |rest.Keys| == 0 then None else Some(Entry(ZSet(Scores(rest)), m.expireMs)),
                     Ok(Stored(sub, ToSet(members))))
            && (Stored(sub, ToSet(members)) == 0 && m.FieldCount() > 0 ==> ZRem(slot, members).0 == slot)
  {
    hide Opened, SubAt, ToSet, Scores, ScoresStored, Without, Meta.FieldCount;
    var sub, given := SubAt(d, key, m.version), ToSet(members);
    ZSetOpened(d, versions, issued, key, m, slot);
    RemainingKeys(sub, given);
    ScoresLess(sub, given);
    ScoresKeys(sub);
    ScoresKeys(Without(sub, given));
    assert given * Scores(sub).Keys == Scores(sub).Keys * given;
  }

  lemma ScoresLess(sub: Db, gone: set<bytes>)
    requires ScoresStored(sub)
    ensures ScoresStored(Without(sub, gone)) && Scores(Without(sub, gone)) == Scores(sub) - gone
    ensures sub.Keys - gone == sub.Keys ==> Scores(sub) - gone == Scores(sub)
  {
    assert sub.Keys - gone == sub.Keys ==> sub - gone == sub;
  }

  // ---- Ranking ---------------------------------------------------------------------------

  /** A score-index suffix read back. */
  function Unpack(suffix: bytes): (bytes, u64)
    requires |suffix| >= 8
  {
    (suffix[8..], DecodeScore(suffix[..8]))
  }

  lemma PackedOrder(a: bytes, b: bytes)
    requires |a| >= 8 && |b| >= 8
    ensures LexLess(a, b) <==> RankLess(Unpack(a), Unpack(b))
  {
    var s, t := DecodeScore(a[..8]), DecodeScore(b[..8]);
    EncodeOfDecodeScore(a[..8]);
    EncodeOfDecodeScore(b[..8]);
    ScoreByteOrder(s, t);
    LexByHead(a[..8], b[..8], a[8..], b[8..]);
    assert a == a[..8] + a[8..] && b == b[..8] + b[8..];
  }

  lemma IndexKeyLength(sub: Db, s: bytes)
    requires ScoresStored(sub) && s in IndexKeys(sub)
    ensures |s| >= 8
  {
    var m :| m in sub && sub[m] + m == s;
  }

  lemma UnpackedItem(sub: Db, s: bytes)
    requires ScoresStored(sub) && |s| >= 8
    ensures s in IndexKeys(sub) <==> Unpack(s) in Scores(sub).Items
  {
    var (m, score) := Unpack(s);
    assert s == s[..8] + m;
    IndexKeyIff(sub, m, s[..8]);
    EncodeOfDecodeScore(s[..8]);
    if m in sub && StoredScore(sub[m]) == score {
      EncodeOfDecodeScore(sub[m]);
    }
  }

  ghost function Unpacked(keys: seq<bytes>): (ranked: seq<(bytes, u64)>)
    requires forall i :: 0 <= i < |keys| ==> |keys[i]| >= 8
    ensures |ranked| == |keys| && forall i :: 0 <= i < |keys| ==> ranked[i] == Unpack(keys[i])
  {
    seq(|keys|, i requires 0 <= i < |keys| => Unpack(keys[i]))
  }

  lemma UnpackedLists(sub: Db, keys: seq<bytes>)
    requires ScoresStored(sub) && Lists(LexLess, keys, IndexKeys(sub))
    requires forall i :: 0 <= i < |keys| ==> |keys[i]| >= 8
    ensures Lists(RankLess, Unpacked(keys), Scores(sub).Items)
  {
    hide LexLess, RankLess, IndexKeys, Scores, Unpack, ScoresStored;
    var ranked := Unpacked(keys);
    forall i, j | 0 <= i < j < |keys| ensures RankLess(ranked[i], ranked[j]) {
      PackedOrder(keys[i], keys[j]);
    }
    forall x | x in ranked ensures x in Scores(sub).Items {
      var i :| 0 <= i < |ranked| && ranked[i] == x;
      assert keys[i] in keys;
      UnpackedItem(sub, keys[i]);
    }
    forall x | x in Scores(sub).Items ensures x in ranked {
      var s := PackedItem(sub, x);
      assert s in keys;
      var i :| 0 <= i < |keys| && keys[i] == s;
      assert ranked[i] == x;
    }
  }

  lemma PackedItem(sub: Db, x: (bytes, u64)) returns (s: bytes)
    requires ScoresStored(sub) && x in Scores(sub).Items
    ensures |s| >= 8 && s in IndexKeys(sub) && Unpack(s) == x
  {
    s := sub[x.0] + x.0;
    assert s[..8] == sub[x.0] && s[8..] == x.0;
    UnpackedItem(sub, s);
  }

  /** The score index, read in key order, is the ranking. */
  lemma RankingOfIndex(sub: Db)
    requires ScoresStored(sub)
    ensures var keys, ranking := SortedKeys(IndexKeys(sub)), Ranking(Scores(sub));
            |keys| == |ranking| && forall i :: 0 <= i < |keys| ==> |keys[i]| >= 8 && Unpack(keys[i]) == ranking[i]
  {
    hide IndexKeys, Scores, Unpack, ScoresStored;
    var keys := SortedKeys(IndexKeys(sub));
    forall i | 0 <= i < |keys| ensures |keys[i]| >= 8 {
      assert keys[i] in keys;
      IndexKeyLength(sub, keys[i]);
    }
    SortedKeysLists(IndexKeys(sub));
    UnpackedLists(sub, keys);
    RankIsStrictTotal();
    ListingIsUnique(RankLess, Unpacked(keys), Ranking(Scores(sub)), Scores(sub).Items);
  }

  // ---- Score ranges ------------------------------------------------------------------------

  predicate NoneNaN(items: seq<(bytes, u64)>) {
    forall i :: 0 <= i < |items| ==> !IsNaN(items[i].1)
  }

  lemma RankingNoneNaN(sub: Db)
    requires ScoresStored(sub)
    ensures NoneNaN(Ranking(Scores(sub)))
  {
    hide IsNaN, DecodeScore;
    var ranking := Ranking(Scores(sub));
    forall i | 0 <= i < |ranking| ensures !IsNaN(ranking[i].1) {
      assert ranking[i] in Scores(sub).Items;
    }
  }

  predicate Beyond(score: u64, max: u64, maxExclusive: bool) {
    ScoreLess(max, score) || (maxExclusive && ScoreEq(score, max))
  }

  lemma WithinSnoc(items: seq<(bytes, u64)>, i: nat, min: u64, minExclusive: bool, max: u64, maxExclusive: bool)
    requires i < |items|
    ensures WithinScores(items[..i + 1], min, minExclusive, max, maxExclusive) ==
            WithinScores(items[..i], min, minExclusive, max, maxExclusive)
            + (if InScoreRange(items[i].1, min, minExclusive, max, maxExclusive) then [items[i]] else [])
  {
    assert items[..i + 1][..i] == items[..i];
  }

  /** Once a scan in rank order passes the upper bound, nothing further can match. */
  lemma {:induction false} BreakIsFinal(items: seq<(bytes, u64)>, i: nat, n: nat, min: u64, minExclusive: bool,
      max: u64, maxExclusive: bool)
    requires Ascending(RankLess, items) && i < n <= |items| && Beyond(items[i].1, max, maxExclusive)
    requires NoneNaN(items)
    ensures WithinScores(items[..n], min, minExclusive, max, maxExclusive)
        == WithinScores(items[..i], min, minExclusive, max, maxExclusive)
    decreases n
  {
    hide WithinScores;
    WithinSnoc(items, n - 1, min, minExclusive, max, maxExclusive);
    if n - 1 > i {
      assert RankLess(items[i], items[n - 1]);
      BreakIsFinal(items, i, n - 1, min, minExclusive, max, maxExclusive);
    }
  }

  // ---- Small facts used by the loops --------------------------------------------------------

  lemma PendingNothing(d: Db, key: bytes, version: u64, issued: u64, sub: Db, index: Db)
    requires Pending(d, key, version, issued, [], sub, index)
    ensures sub == SubAt(d, key, version)
  {
  }

  lemma ZAddWrongType(slot: Slot, pairs: seq<(u64, bytes)>)
    ensures slot.Some? && TypeId(slot.value.value) != TYPE_ZSET ==> ZAdd(slot, pairs) == (slot, WrongType)
    ensures slot.Some? && TypeId(slot.value.value) == TYPE_ZSET ==> slot.value.value.ZSet?
  {
    hide LastScores, Rescore;
  }

  lemma ZRangeEdges(slot: Slot, start: i64, stop: i64)
    ensures slot.None? ==> ZRange(slot, start, stop) == Ok([])
    ensures slot.Some? && TypeId(slot.value.value) != TYPE_ZSET ==> ZRange(slot, start, stop) == WrongType
  {
    hide Slice, Ranking;
  }

  lemma ZRangeIs(d: Db, versions: map<bytes, u64>, issued: u64, key: bytes, m: Meta, slot: Slot, start: i64, stop: i64)
    requires Opened(d, versions, issued, key, m, slot) && m.typeId == TYPE_ZSET && slot.Some?
    ensures var ranking := Ranking(Scores(SubAt(d, key, m.version)));
            var r := NormalizeRange(start, stop, m.FieldCount());
            && |ranking| == m.FieldCount()
            && (r.None? ==> ZRange(slot, start, stop) == Ok([]))
            && (r.Some? ==>
                  && 0 <= r.value.0 <= r.value.1 < |ranking|
                  && ZRange(slot, start, stop) == Ok(ranking[r.value.0..r.value.1 + 1]))
  {
    hide Opened, SubAt, Slice, NormalizeRange, Ranking, Scores, Meta.FieldCount;
    ZSetOpened(d, versions, issued, key, m, slot);
    RankingSize(SubAt(d, key, m.version));
    SliceIs(Ranking(Scores(SubAt(d, key, m.version))), start, stop);
  }

  lemma ZCardIs(d: Db, versions: map<bytes, u64>, issued: u64, key: bytes, m: Meta, slot: Slot)
    requires Opened(d, versions, issued, key, m, slot) && m.typeId == TYPE_ZSET && slot.Some?
    ensures ZCard(slot) == Ok(m.FieldCount())
  {
    hide Opened, SubAt, Scores, Meta.FieldCount;
    ZSetOpened(d, versions, issued, key, m, slot);
    ScoresKeys(SubAt(d, key, m.version));
  }

  lemma NoScores(effective: seq<(bytes, u64)>)
    ensures AsScores(effective[..0]) == map[] && AsScores(effective[..0]).Keys == {}
  {
  }

  lemma StoredScoreIs(sub: Db, m: bytes)
    requires ScoresStored(sub) && m in sub
    ensures DecodeStoredScore(sub[m]) == Ok(StoredScore(sub[m]))
    ensures EncodeScore(StoredScore(sub[m])) == sub[m]
  {
    EncodeOfDecodeScore(sub[m]);
  }

  /** The member table, and the number of new members, after the first `i` updates. */
  function TableAfter(sub: Db, effective: seq<(bytes, u64)>, i: nat): Db
    requires i <= |effective|
  {
    ScoreTable(sub, AsScores(effective[..i]))
  }

  function AddedBy(sub: Db, effective: seq<(bytes, u64)>, i: nat): nat
    requires i <= |effective|
  {
    Missing(sub, AsScores(effective[..i]).Keys)
  }

  lemma TableStart(sub: Db, effective: seq<(bytes, u64)>)
    ensures TableAfter(sub, effective, 0) == sub && AddedBy(sub, effective, 0) == 0
  {
    ScoreTableNone(sub);
    AddNone(sub);
    NoScores(effective);
  }

  lemma TableEnd(sub: Db, effective: seq<(bytes, u64)>)
    ensures TableAfter(sub, effective, |effective|) == ScoreTable(sub, AsScores(effective))
    ensures AddedBy(sub, effective, |effective|) == Missing(sub, AsScores(effective).Keys)
  {
    assert effective[..|effective|] == effective;
  }

  lemma TableStep(sub: Db, effective: seq<(bytes, u64)>, i: nat)
    requires ScoresStored(sub) && DistinctMembers(effective) && i < |effective|
    requires forall m :: m in AsScores(effective) ==> !IsNaN(AsScores(effective)[m])
    ensures var t := TableAfter(sub, effective, i);
            var (m, score) := effective[i];
            && ScoresStored(t)
            && (m in sub <==> m in t) && (m in sub ==> t[m] == sub[m])
            && TableAfter(sub, effective, i + 1) ==
                 (if m in sub && ScoreEq(StoredScore(sub[m]), score) then t else t[m := EncodeScore(score)])
            && AddedBy(sub, effective, i + 1) == AddedBy(sub, effective, i) + (if m in sub then 0 else 1)
            && (m in sub ==> DecodeStoredScore(sub[m]) == Ok(StoredScore(sub[m])))
  {
    hide IsNaN, ScoreTable, AsScores, ScoreEq, EncodeScore, Missing;
    var updates := AsScores(effective[..i]);
    var (m, score) := effective[i];
    DistinctPrefix(effective, i);
    ScoreTableOne(sub, updates, m, score);
    MissingOne(sub, updates.Keys, m);
    assert updates[m := score].Keys == updates.Keys + {m};
    if m in sub {
      StoredScoreIs(sub, m);
    }
    ScoresSoFar(sub, effective, i);
  }

  lemma ScoresSoFar(sub: Db, effective: seq<(bytes, u64)>, i: nat)
    requires ScoresStored(sub) && DistinctMembers(effective) && i <= |effective|
    requires forall m :: m in AsScores(effective) ==> !IsNaN(AsScores(effective)[m])
    ensures ScoresStored(ScoreTable(sub, AsScores(effective[..i])))
  {
    hide IsNaN, ScoreTable, AsScores;
    forall m | m in AsScores(effective[..i]) ensures !IsNaN(AsScores(effective[..i])[m]) {
      AsScoresAt(effective, m);
      AsScoresAt(effective[..i], m);
      var j :| 0 <= j < i && effective[..i][j].0 == m;
      assert effective[j].0 == m;
    }
    ScoreTableStored(sub, AsScores(effective[..i]));
  }

  lemma IndexKeysAre(sub: Db)
    ensures IndexOf(sub).Keys == IndexKeys(sub)
  {
  }

  lemma RankingSize(sub: Db)
    ensures |Ranking(Scores(sub))| == |sub|
  {
    ItemsSize(Scores(sub));
    ScoresKeys(sub);
    assert |sub| == |sub.Keys| == |Scores(sub).Keys|;
  }

  lemma ItemsSize(scores: map<bytes, u64>)
    ensures |scores.Items| == |scores|
  {
  }

  lemma WithinNothing(items: seq<(bytes, u64)>, min: u64, minExclusive: bool, max: u64, maxExclusive: bool)
    ensures WithinScores(items[..0], min, minExclusive, max, maxExclusive) == []
  {
  }
}
