/** The on-disk layout, byte by byte: which records a key's value is kept in. */
module Layout {
  import opened Common
  import opened ByteOrder
  import opened Encoding
  import opened Records
  import opened Dictionary
  import opened Representation

  // ---- Numbers in records ------------------------------------------------------------------------

  /** The first byte weighs most. */
  function Weigh(s: bytes): (n: int)
    ensures 0 <= n
  {
    if s == [] then 0 else s[0] * Pow256(|s| - 1) + Weigh(s[1..])
  }

  lemma {:induction false} WeighGrows(s: bytes, last: byte)
    ensures Weigh(s + [last]) == 256 * Weigh(s) + last
  {
    if s == [] {
      assert Weigh([last][1..]) == 0;
    } else {
      WeighGrows(s[1..], last);
      assert (s + [last])[1..] == s[1..] + [last];
      assert s[0] * (256 * Pow256(|s| - 1)) == 256 * (s[0] * Pow256(|s| - 1));
    }
  }

  lemma {:induction false} FromBeWeighs(s: bytes)
    ensures FromBe(s) == Weigh(s)
  {
    hide Weigh;
    if s != [] {
      FromBeWeighs(s[..|s| - 1]);
      WeighGrows(s[..|s| - 1], s[|s| - 1]);
      assert s[..|s| - 1] + [s[|s| - 1]] == s;
    } else {
      NothingWeighs();
    }
  }

  lemma NothingWeighs()
    ensures Weigh([]) == 0
  {
  }

  // ---- Records ---------------------------------------------------------------------------------------

  /** A tag, the length of the key in four bytes, the key, the eight bytes of the version, and what names the part. */
  predicate IsRecord(raw: bytes, tag: byte, key: bytes, version: bytes, part: bytes) {
    && |raw| == 13 + |key| + |part| && |version| == 8
    && raw[0] == tag && Weigh(raw[1..5]) == |key| && raw[5..5 + |key|] == key
    && raw[5 + |key|..13 + |key|] == version && raw[13 + |key|..] == part
  }

  /** The record of a part holds these bytes. */
  predicate Keeps(d: Db, tag: byte, key: bytes, version: bytes, part: bytes, held: bytes)
  {
    exists raw :: IsRecord(raw, tag, key, version, part) && raw in d && d[raw] == held
  }

  lemma RecordIff(raw: bytes, tag: byte, key: bytes, version: u64, part: bytes)
    requires |key| < U32
    ensures IsRecord(raw, tag, key, Be64(version), part) <==> raw == VersionedPrefix(tag, key, version) + part
  {
    hide Be, FromBe, Weigh;
    var whole := VersionedPrefix(tag, key, version) + part;
    assert whole[1..5] == Be32(|key|) && whole[5..5 + |key|] == key;
    assert whole[5 + |key|..13 + |key|] == Be64(version) && whole[13 + |key|..] == part;
    FromBeWeighs(Be32(|key|));
    if IsRecord(raw, tag, key, Be64(version), part) {
      FromBeWeighs(raw[1..5]);
      BeOfFromBe(raw[1..5]);
      assert raw[1..5] == Be32(|key|);
      assert raw == [raw[0]] + raw[1..5] + raw[5..5 + |key|] + raw[5 + |key|..13 + |key|] + raw[13 + |key|..];
    }
  }

  lemma KeepsIff(d: Db, tag: byte, key: bytes, version: u64, part: bytes, held: bytes)
    requires |key| < U32
    ensures var t := Under(d, VersionedPrefix(tag, key, version));
            Keeps(d, tag, key, Be64(version), part, held) <==> part in t && t[part] == held
  {
    hide IsRecord, Under;
    var raw := VersionedPrefix(tag, key, version) + part;
    RecordIff(raw, tag, key, version, part);
    forall other | IsRecord(other, tag, key, Be64(version), part) ensures other == raw {
      RecordIff(other, tag, key, version, part);
    }
  }

  /** The order-preserving eight bytes of a score: the sign bit set for positive ones, all bits turned for negative. */
  predicate IsScore(held: bytes, score: u64) {
    && |held| == 8
    && Weigh(held) ==
       if score < 0x8000_0000_0000_0000 then score + 0x8000_0000_0000_0000
       else 0xFFFF_FFFF_FFFF_FFFF - score
  }

  lemma ScoreIff(held: bytes, score: u64)
    ensures IsScore(held, score) <==> held == EncodeScore(score)
  {
    hide Be, FromBe, Weigh;
    FromBeWeighs(held);
    BeOfFromBe(held);
    FromBeWeighs(EncodeScore(score));
  }

  /** The records of a key that holds `e`. */
  ghost predicate Stored(d: Db, key: bytes, e: Entry) {
    && [1] + key in d
    && var raw := d[[1] + key];
       && |raw| >= 17 && Weigh(raw[9..17]) == e.expireMs
       && Described(raw[0], raw[17..], e.value)
       && Kept(d, key, raw[1..9], e.value)
  }

  /** What follows the type, the version and the deadline. */
  predicate Described(kind: byte, rest: bytes, value: Value) {
    match value
    case Str(text) => kind == 1 && rest == text
    case Hash(_, count) => kind == 2 && |rest| == 4 && Weigh(rest) == count
    case Set(members) => kind == 3 && |rest| == 4 && Weigh(rest) == |members|
    case ZSet(scores) => kind == 4 && |rest| == 4 && Weigh(rest) == |scores|
    case List(items, head) =>
      kind == 5 && |rest| == 16 && Weigh(rest[..8]) == head && Weigh(rest[8..]) == head + |items|
  }

  ghost predicate Kept(d: Db, key: bytes, version: bytes, value: Value) {
    match value
    case Str(_) => true
    case Hash(fields, _) =>
      forall part, held :: Keeps(d, 2, key, version, part, held) <==> part in fields && fields[part] == held
    case Set(members) =>
      forall part, held :: Keeps(d, 2, key, version, part, held) <==> part in members && held == []
    case ZSet(scores) =>
      && (forall part, held ::
            Keeps(d, 2, key, version, part, held) <==> part in scores && IsScore(held, scores[part]))
      && (forall part, held :: Keeps(d, 3, key, version, part, held) <==>
            |part| >= 8 && part[8..] in scores && IsScore(part[..8], scores[part[8..]]) && held == [])
    case List(items, head) =>
      forall part, held :: Keeps(d, 2, key, version, part, held) <==>
        |part| == 8 && head <= Weigh(part) < head + |items| && items[Weigh(part) - head] == held
  }

  /** Every key of the dictionary lies on disk as the layout says. */
  lemma StoredAsLaidOut(d: Db, versions: map<bytes, u64>, issued: u64, key: bytes)
    requires Inv(d, versions, issued) && key in Abs(d)
    ensures Stored(d, key, Abs(d)[key])
  {
    hide Inv, Abs, Described, Kept, Shape, ValueOf, Weigh, FromBe, Be;
    KeyOkIs(d, versions, issued, key);
    var m, raw := MetaAt(d, key).value, d[[1] + key];
    var sub, index := SubAt(d, key, m.version), IndexAt(d, key, m.version);
    FromBeWeighs(raw[9..17]);
    Describes(m, sub, index);
    KeepsParts(d, key, m);
    assert raw[1..9] == Be64(m.version) by { BeOfFromBe(raw[1..9]); }
  }

  lemma KeyOkIs(d: Db, versions: map<bytes, u64>, issued: u64, key: bytes)
    requires Inv(d, versions, issued) && key in Abs(d)
    ensures MetaKey(key) in d && |key| < U32 && MetaAt(d, key).Some?
    ensures var m := MetaAt(d, key).value;
            && Shape(m, SubAt(d, key, m.version), IndexAt(d, key, m.version))
            && Abs(d)[key] == Entry(ValueOf(m, SubAt(d, key, m.version)), m.expireMs)
  {
    hide Shape, ValueOf, Meta.Decode;
    assert KeyOk(d, versions, issued, key);
  }

  lemma Describes(m: Meta, sub: Db, index: Db)
    requires Shape(m, sub, index)
    ensures Described(m.typeId, m.payload, ValueOf(m, sub))
  {
    hide Described, Shape, ValueOf;
    if m.typeId == TYPE_LIST {
      BoundsDescribed(m, sub, index);
    } else if m.Counted() {
      CountDescribed(m, sub, index);
    } else {
      TextDescribed(m, sub, index);
    }
  }

  lemma TextDescribed(m: Meta, sub: Db, index: Db)
    requires Shape(m, sub, index) && !m.Composite()
    ensures Described(m.typeId, m.payload, ValueOf(m, sub))
  {
  }

  lemma CountDescribed(m: Meta, sub: Db, index: Db)
    requires Shape(m, sub, index) && m.Counted()
    ensures Described(m.typeId, m.payload, ValueOf(m, sub))
  {
    hide Weigh, FromBe, ZSetShape, StoredScore;
    FromBeWeighs(m.payload);
    assert m.payload[..4] == m.payload;
    assert Scores(sub).Keys == sub.Keys;
  }

  lemma BoundsDescribed(m: Meta, sub: Db, index: Db)
    requires Shape(m, sub, index) && m.typeId == TYPE_LIST
    ensures Described(m.typeId, m.payload, ValueOf(m, sub))
  {
    hide Weigh, FromBe, Elements;
    var p := m.payload;
    assert p[8..] == p[8..16];
    FromBeWeighs(p[..8]);
    FromBeWeighs(p[8..]);
  }

  /** A table maps a part to these bytes. */
  predicate Holds(t: Db, part: bytes, held: bytes) {
    part in t && t[part] == held
  }

  lemma KeepsParts(d: Db, key: bytes, m: Meta)
    requires |key| < U32 && Shape(m, SubAt(d, key, m.version), IndexAt(d, key, m.version))
    ensures Kept(d, key, Be64(m.version), ValueOf(m, SubAt(d, key, m.version)))
  {
    hide Keeps, Shape, Under, Be, ValueOf, Kept, Holds;
    var sub, index, v := SubAt(d, key, m.version), IndexAt(d, key, m.version), Be64(m.version);
    forall part, held ensures Keeps(d, 2, key, v, part, held) <==> Holds(sub, part, held) {
      KeepsIff(d, 2, key, m.version, part, held);
      HoldsIs(sub, part, held);
    }
    forall part, held ensures Keeps(d, 3, key, v, part, held) <==> Holds(index, part, held) {
      KeepsIff(d, 3, key, m.version, part, held);
      HoldsIs(index, part, held);
    }
    if m.typeId == TYPE_ZSET {
      ScoresKept(d, key, v, m, sub, index);
    } else if m.typeId == TYPE_SET {
      MembersKept(d, key, v, m, sub, index);
    } else if m.typeId == TYPE_LIST {
      ItemsKept(d, key, v, m, sub, index);
    } else {
      FieldsKept(d, key, v, m, sub, index);
    }
  }

  lemma HoldsIs(t: Db, part: bytes, held: bytes)
    ensures Holds(t, part, held) <==> part in t && t[part] == held
  {
  }

  ghost predicate Held(d: Db, tag: byte, key: bytes, version: bytes, t: Db) {
    forall part, held :: Keeps(d, tag, key, version, part, held) <==> Holds(t, part, held)
  }

  lemma FieldsKept(d: Db, key: bytes, v: bytes, m: Meta, sub: Db, index: Db)
    requires Held(d, 2, key, v, sub) && Shape(m, sub, index)
    requires m.typeId != TYPE_SET && m.typeId != TYPE_ZSET && m.typeId != TYPE_LIST
    ensures Kept(d, key, v, ValueOf(m, sub))
  {
    hide Keeps;
  }

  lemma MembersKept(d: Db, key: bytes, v: bytes, m: Meta, sub: Db, index: Db)
    requires Held(d, 2, key, v, sub) && Shape(m, sub, index) && m.typeId == TYPE_SET
    ensures Kept(d, key, v, ValueOf(m, sub))
  {
    hide Keeps;
  }

  lemma ItemsKept(d: Db, key: bytes, v: bytes, m: Meta, sub: Db, index: Db)
    requires Held(d, 2, key, v, sub) && Shape(m, sub, index) && m.typeId == TYPE_LIST
    ensures Kept(d, key, v, ValueOf(m, sub))
  {
    hide Keeps, Weigh, Shape, Element, Elements, FromBe, Be;
    assert ListShape(sub, m.ListBounds().value.0, m.ListBounds().value.1) by { ListShaped(m, sub, index); }
    var (head, tail) := m.ListBounds().value;
    ElementsAre(sub, head, tail);
    forall part, held ensures Holds(sub, part, held) <==>
        |part| == 8 && head <= Weigh(part) < tail && Elements(sub, head, tail)[Weigh(part) - head] == held
    {
      ItemHeld(sub, head, tail, part, held);
    }
  }

  lemma ListShaped(m: Meta, sub: Db, index: Db)
    requires Shape(m, sub, index) && m.typeId == TYPE_LIST
    ensures m.ListBounds().Some? && ListShape(sub, m.ListBounds().value.0, m.ListBounds().value.1)
  {
  }

  lemma ItemHeld(sub: Db, head: u64, tail: u64, part: bytes, held: bytes)
    requires ListShape(sub, head, tail)
    ensures Holds(sub, part, held) <==>
              |part| == 8 && head <= Weigh(part) < tail && Elements(sub, head, tail)[Weigh(part) - head] == held
  {
    hide Weigh, FromBe, Be;
    ElementsAre(sub, head, tail);
    FromBeWeighs(part);
    BeOfFromBe(part);
    if |part| == 8 {
      assert ListIndexField(FromBe64(part)) == part;
    }
  }

  lemma ScoresKept(d: Db, key: bytes, v: bytes, m: Meta, sub: Db, index: Db)
    requires Held(d, 2, key, v, sub) && Held(d, 3, key, v, index) && Shape(m, sub, index) && m.typeId == TYPE_ZSET
    ensures Kept(d, key, v, ValueOf(m, sub))
  {
    hide Keeps, IsScore, StoredScore, Shape, Holds, IndexKeys, ZSetShape;
    assert ZSetShape(sub, index) by { ZSetShaped(m, sub, index); }
    forall part, held ensures Holds(sub, part, held) <==> part in Scores(sub) && IsScore(held, Scores(sub)[part]) {
      ScoreHeld(sub, index, part, held);
    }
    forall part, held ensures Holds(index, part, held) <==>
        |part| >= 8 && part[8..] in Scores(sub) && IsScore(part[..8], Scores(sub)[part[8..]]) && held == []
    {
      IndexHeld(sub, index, part, held);
    }
  }

  lemma ZSetShaped(m: Meta, sub: Db, index: Db)
    requires Shape(m, sub, index) && m.typeId == TYPE_ZSET
    ensures ZSetShape(sub, index)
  {
  }

  lemma ScoreHeld(sub: Db, index: Db, part: bytes, held: bytes)
    requires ZSetShape(sub, index)
    ensures Holds(sub, part, held) <==> part in Scores(sub) && IsScore(held, Scores(sub)[part])
  {
    hide IsScore, EncodeScore, DecodeScore;
    if part in sub {
      EncodeOfDecodeScore(sub[part]);
      ScoreIff(held, Scores(sub)[part]);
    }
  }

  lemma IndexHeld(sub: Db, index: Db, part: bytes, held: bytes)
    requires ZSetShape(sub, index)
    ensures Holds(index, part, held) <==>
              |part| >= 8 && part[8..] in Scores(sub) && IsScore(part[..8], Scores(sub)[part[8..]]) && held == []
  {
    hide IsScore, EncodeScore, DecodeScore;
    if |part| >= 8 && part[8..] in sub {
      ScoreHeld(sub, index, part[8..], part[..8]);
      assert part == part[..8] + part[8..];
    }
    if part in IndexKeys(sub) {
      var member :| member in sub && part == sub[member] + member;
      assert part[8..] == member && part[..8] == sub[member];
      ScoreHeld(sub, index, member, part[..8]);
    }
  }
}
