/** The general engine: an ordered record map with atomic batches, prefix scans and background collection. */
module Engine {
  import opened Common
  import opened ByteOrder
  import opened Sorting
  import opened Records
  import opened Gc

  ghost function Items(d: Db, p: bytes, suffixes: seq<bytes>): (items: seq<(bytes, bytes)>)
    requires forall s :: s in suffixes ==> p + s in d
    ensures |items| == |suffixes|
  {
    seq(|suffixes|, i requires 0 <= i < |suffixes| => (p + suffixes[i], d[p + suffixes[i]]))
  }

  lemma NoItems(d: Db, p: bytes)
    ensures Items(d, p, []) == []
  {
  }

  lemma ItemsSnoc(d: Db, p: bytes, suffixes: seq<bytes>, s: bytes)
    requires p + s in d && forall t :: t in suffixes ==> p + t in d
    ensures forall t :: t in suffixes + [s] ==> p + t in d
    ensures Items(d, p, suffixes + [s]) == Items(d, p, suffixes) + [(p + s, d[p + s])]
  {
  }

  /** All and only the records whose key starts with `p`, in key order. */
  ghost function Listing(d: Db, p: bytes): (items: seq<(bytes, bytes)>)
    ensures |items| == |Under(d, p)|
  {
    assert forall s :: s in SortedKeys(Under(d, p).Keys) ==> s in Under(d, p);
    Items(d, p, SortedKeys(Under(d, p).Keys))
  }

  lemma ListingHas(d: Db, p: bytes, s: bytes)
    requires p + s in d
    ensures exists i :: 0 <= i < |Listing(d, p)| && Listing(d, p)[i] == (p + s, d[p + s])
  {
    var suffixes := SortedKeys(Under(d, p).Keys);
    assert s in suffixes;
    var i :| 0 <= i < |suffixes| && suffixes[i] == s;
    assert Listing(d, p)[i] == (p + s, d[p + s]);
  }

  lemma ListingItem(d: Db, p: bytes, i: nat)
    requires i < |Listing(d, p)|
    ensures var (k, v) := Listing(d, p)[i]; p <= k && k in d && d[k] == v && k == p + k[|p|..]
  {
    var suffixes := SortedKeys(Under(d, p).Keys);
    assert suffixes[i] in suffixes;
    assert (p + suffixes[i])[|p|..] == suffixes[i];
  }

  predicate Reaches(raw: bytes, target: bytes, past: bool) {
    if past then LexLess(target, raw) else !LexLess(raw, target)
  }

  /** `key` is where an iterator positioned at or after `target` stands. */
  ghost predicate SeeksTo(d: Db, target: bytes, past: bool, key: Option<bytes>) {
    match key
    case None => forall raw :: raw in d ==> !Reaches(raw, target, past)
    case Some(k) =>
      && k in d && Reaches(k, target, past)
      && forall raw :: raw in d && Reaches(raw, target, past) ==> raw == k || LexLess(k, raw)
  }

  /** Suffixes collected so far by a scan of `p` standing at `key`. */
  ghost predicate Scanned(d: Db, p: bytes, found: seq<bytes>, key: Option<bytes>) {
    && Ascending(LexLess, found)
    && (forall s :: s in found ==> p + s in d)
    && (forall s :: p + s in d ==> s in found || (key.Some? && !LexLess(p + s, key.value)))
    && (key.Some? ==> key.value in d && !LexLess(key.value, p))
    && (key.Some? ==> forall s :: s in found ==> LexLess(p + s, key.value))
  }

  lemma ScanStart(d: Db, p: bytes, key: Option<bytes>)
    requires SeeksTo(d, p, false, key)
    ensures Scanned(d, p, [], key)
  {
    forall s | p + s in d ensures key.Some? && !LexLess(p + s, key.value) {
      PrefixNotAbove(p, p + s);
      if key.Some? && p + s != key.value {
        LexIsStrictTotal();
      }
      LexIrreflexive(p + s);
    }
  }

  lemma ScanStep(d: Db, p: bytes, found: seq<bytes>, key: bytes, next: Option<bytes>)
    requires Scanned(d, p, found, Some(key)) && p <= key
    requires SeeksTo(d, key, true, next)
    ensures Scanned(d, p, found + [key[|p|..]], next)
  {
    var s := key[|p|..];
    assert key == p + s;
    forall f | f in found ensures LexLess(f, s) && (next.Some? ==> LexLess(p + f, next.value)) {
      LexAfterPrefix(p, f, s);
      if next.Some? {
        LexTransitive(p + f, key, next.value);
      }
    }
    forall f | p + f in d && f !in found && f != s ensures next.Some? && !LexLess(p + f, next.value) {
      assert (p + f)[|p|..] == f;
      LexConnected(p + f, key);
      assert Reaches(p + f, key, true);
      LexAsymmetric(p + f, next.value);
    }
    if next.Some? {
      LexNotBelow(key, next.value, p);
    }
  }

  lemma ScanEnd(d: Db, p: bytes, found: seq<bytes>, key: Option<bytes>)
    requires Scanned(d, p, found, key)
    requires key.Some? ==> !(p <= key.value)
    ensures found == SortedKeys(Under(d, p).Keys)
  {
    if key.Some? {
      forall s | p + s in d ensures s in found {
        if !LexLess(p + s, key.value) && s !in found {
          LexConnected(p + s, key.value);
          PrefixRun(p, p + s, key.value);
        }
      }
    }
    SortedKeysUnique(found, Under(d, p).Keys);
  }

  class WriteBatch {
    var ops: seq<WriteOp>

    constructor ()
      ensures ops == []
    {
      ops := [];
    }

    method Put(key: bytes, value: bytes)
      modifies this
      ensures ops == old(ops) + [WriteOp.Put(key, value)]
    {
      ops := ops + [WriteOp.Put(key, value)];
    }

    method Delete(key: bytes)
      modifies this
      ensures ops == old(ops) + [WriteOp.Delete(key)]
    {
      ops := ops + [WriteOp.Delete(key)];
    }
  }

  class Engine {
    var data: Db
    /** The shared slot the compaction filter consults; nothing is dropped while it is empty. */
    var gc: VersionMap?

    constructor (records: Db)
      ensures data == records && gc == null
    {
      data := records;
      gc := null;
    }

    /** What any amount of background compaction may have made of `before` by now. */
    ghost predicate Swept(before: Db, after: Db)
      reads this, gc
    {
      if gc == null then after == before else Compacted(before, after, gc.inner)
    }

    method InstallGc(predicate_: VersionMap)
      modifies this`gc
      ensures gc == predicate_
    {
      gc := predicate_;
    }

    /** One record passing through the compaction filter. */
    method Filter(raw: bytes)
      modifies this`data
      ensures data == if gc != null && !Keep(gc.inner, raw) then old(data) - {raw} else old(data)
    {
      if gc != null {
        var keep := gc.ShouldKeep(raw);
        if !keep {
          data := data - {raw};
        }
      }
    }

    /** A background compaction over an arbitrary part of the key space; possibly over nothing. */
    method Background()
      modifies this`data
      ensures Swept(old(data), data)
    {
      var todo := data.Keys;
      while todo != {}
        invariant Swept(old(data), data)
      {
        var raw :| raw in todo;
        todo := todo - {raw};
        if * {
          Filter(raw);
        }
      }
    }

    /** A forced compaction of the whole key space. */
    method CompactRange()
      modifies this`data
      ensures gc == null ==> data == old(data)
      ensures gc != null ==> data == map raw | raw in old(data) && Keep(gc.inner, raw) :: old(data)[raw]
    {
      var todo := data.Keys;
      while todo != {}
        invariant todo <= old(data).Keys
        invariant gc == null ==> data == old(data)
        invariant gc != null ==>
          data == map raw | raw in old(data) && (raw in todo || Keep(gc.inner, raw)) :: old(data)[raw]
      {
        var raw :| raw in todo;
        todo := todo - {raw};
        Filter(raw);
      }
    }

    method Get(key: bytes) returns (value: Option<bytes>)
      modifies this`data
      ensures Swept(old(data), data)
      ensures value.Some? ==> key in old(data) && value.value == old(data)[key]
      ensures value.None? ==> key !in old(data) || (gc != null && !Keep(gc.inner, key))
    {
      Background();
      value := if key in data then Some(data[key]) else None;
      Background();
    }

    method Write(batch: WriteBatch)
      modifies this`data
      ensures Swept(ApplyOps(old(data), batch.ops), data)
    {
      hide ApplyOp;
      Background();
      ghost var before := data;
      var next := data;
      for i := 0 to |batch.ops|
        invariant next == ApplyOps(before, batch.ops[..i])
      {
        ApplySnoc(before, batch.ops[..i], batch.ops[i]);
        assert batch.ops[..i + 1] == batch.ops[..i] + [batch.ops[i]];
        next := ApplyOp(next, batch.ops[i]);
      }
      assert batch.ops[..|batch.ops|] == batch.ops;
      data := next;
      if gc != null {
        CompactedBeforeWrite(old(data), before, batch.ops, gc.inner);
      }
      Background();
    }

    /** Positions an iterator: the least key from `target` on, `target` itself included unless `past`. */
    method Seek(target: bytes, past: bool) returns (key: Option<bytes>)
      ensures SeeksTo(data, target, past, key)
    {
      LexIsStrictTotal();
      key := None;
      var todo := data.Keys;
      while todo != {}
        invariant todo <= data.Keys
        invariant key.Some? ==> key.value in data && Reaches(key.value, target, past)
        invariant key.Some? ==>
          forall raw :: raw in data.Keys - todo && Reaches(raw, target, past) ==>
            raw == key.value || LexLess(key.value, raw)
        invariant key.None? ==> forall raw :: raw in data.Keys - todo ==> !Reaches(raw, target, past)
      {
        var raw :| raw in todo;
        todo := todo - {raw};
        if Reaches(raw, target, past) && (key.None? || LexLess(raw, key.value)) {
          key := Some(raw);
        }
      }
    }

    /** Seeks to `p` and advances until the keys leave it, over the records as they were at the seek. */
    method ScanPrefix(p: bytes) returns (items: seq<(bytes, bytes)>, ghost view: Db)
      modifies this`data
      ensures Swept(old(data), view) && Swept(view, data)
      ensures items == Listing(view, p)
    {
      Background();
      items := Scan(p);
      view := data;
      Background();
    }

    /** The iteration itself. */
    method Scan(p: bytes) returns (items: seq<(bytes, bytes)>)
      ensures items == Listing(data, p)
    {
      hide Items, LexLess;
      items := [];
      var key := Seek(p, false);
      var done := false;
      ghost var found: seq<bytes> := [];
      ghost var ahead := data.Keys;
      ScanStart(data, p, key);
      NoItems(data, p);
      while !done && key.Some?
        invariant Scanned(data, p, found, key)
        invariant items == Items(data, p, found)
        invariant key.Some? ==> key.value in ahead
        invariant key.Some? ==> forall raw :: raw in data && !LexLess(raw, key.value) ==> raw in ahead
        invariant done ==> key.Some? && !(p <= key.value)
        decreases !done, ahead
      {
        var k := key.value;
        if p <= k {
          items := items + [(k, data[k])];
          key := Seek(k, true);
          ScanStep(data, p, found, k, key);
          assert k == p + k[|p|..];
          ItemsSnoc(data, p, found, k[|p|..]);
          found := found + [k[|p|..]];
          LexIsStrictTotal();
          ahead := set raw | raw in ahead && LexLess(k, raw);
        } else {
          done := true;
        }
      }
      ScanEnd(data, p, found, key);
    }
  }
}
