/** The on-disk layout: record keys, order-preserving scores and metadata values. */
module Encoding {
  import opened Common
  import opened ByteOrder

  const META_PREFIX: byte := 1
  const SUBKEY_PREFIX: byte := 2
  const ZSCORE_PREFIX: byte := 3

  const TYPE_STRING: byte := 1
  const TYPE_HASH: byte := 2
  const TYPE_SET: byte := 3
  const TYPE_ZSET: byte := 4
  const TYPE_LIST: byte := 5

  const META_HEADER_LEN := 17
  const LIST_INITIAL_INDEX: u64 := U63

  // ---- Record keys --------------------------------------------------------

  /** Owner, structure version and remaining bytes of a versioned record key. */
  datatype Versioned = Versioned(key: bytes, version: u64, rest: bytes)

  function MetaKey(key: bytes): bytes {
    [META_PREFIX] + key
  }

  /** The layout shared by subkeys and score-index records; the length field truncates like a cast. */
  function VersionedPrefix(tag: byte, key: bytes, version: u64): bytes {
    [tag] + Be32(|key| % U32) + key + Be64(version)
  }

  function SubkeyPrefix(key: bytes, version: u64): bytes {
    VersionedPrefix(SUBKEY_PREFIX, key, version)
  }

  function Subkey(key: bytes, version: u64, field: bytes): bytes {
    SubkeyPrefix(key, version) + field
  }

  function ZscorePrefix(key: bytes, version: u64): bytes {
    VersionedPrefix(ZSCORE_PREFIX, key, version)
  }

  function ZscoreKey(key: bytes, version: u64, score: u64, member: bytes): bytes {
    ZscorePrefix(key, version) + (EncodeScore(score) + member)
  }

  function ParseVersioned(raw: bytes, tag: byte): Option<Versioned> {
    if raw == [] || raw[0] != tag || |raw| < 13 then None
    else
      var keyEnd := 5 + FromBe32(raw[1..5]);
      var versionEnd := keyEnd + 8;
      if |raw| < versionEnd then None
      else Some(Versioned(raw[5..keyEnd], FromBe64(raw[keyEnd..versionEnd]), raw[versionEnd..]))
  }

  function ParseOwnerVersion(raw: bytes): Option<Versioned> {
    if raw == [] || (raw[0] != SUBKEY_PREFIX && raw[0] != ZSCORE_PREFIX) then None
    else ParseVersioned(raw, raw[0])
  }

  /** Parsing a record key inverts building it. */
  lemma ParseOfVersioned(tag: byte, key: bytes, version: u64, rest: bytes)
    requires |key| < U32
    ensures ParseVersioned(VersionedPrefix(tag, key, version) + rest, tag) == Some(Versioned(key, version, rest))
  {
    hide Be, FromBe;
    var raw := VersionedPrefix(tag, key, version) + rest;
    assert raw[1..5] == Be32(|key|);
    assert raw[5..5 + |key|] == key;
    assert raw[5 + |key|..13 + |key|] == Be64(version);
    assert raw[13 + |key|..] == rest;
  }

  /** Whatever parses is a record key of exactly the parsed owner, version and suffix. */
  lemma VersionedOfParse(raw: bytes, tag: byte)
    requires ParseVersioned(raw, tag).Some?
    ensures var p := ParseVersioned(raw, tag).value;
            |p.key| < U32 && raw == VersionedPrefix(tag, p.key, p.version) + p.rest
  {
    hide FromBe, Be;
    var p := ParseVersioned(raw, tag).value;
    var keyEnd := 5 + FromBe32(raw[1..5]);
    assert p.key == raw[5..keyEnd] && |p.key| == FromBe32(raw[1..5]);
    assert Be32(|p.key|) == raw[1..5] && Be64(p.version) == raw[keyEnd..keyEnd + 8];
    assert raw == [raw[0]] + raw[1..5] + raw[5..keyEnd] + raw[keyEnd..keyEnd + 8] + raw[keyEnd + 8..];
  }

  /** A record key starts with the prefix of one owner and version exactly when it parses to them. */
  lemma PrefixIffParsed(raw: bytes, tag: byte, key: bytes, version: u64)
    requires |key| < U32
    ensures VersionedPrefix(tag, key, version) <= raw
       <==> exists rest :: ParseVersioned(raw, tag) == Some(Versioned(key, version, rest))
  {
    var p := VersionedPrefix(tag, key, version);
    if p <= raw {
      assert raw == p + raw[|p|..];
      ParseOfVersioned(tag, key, version, raw[|p|..]);
    } else if ParseVersioned(raw, tag).Some? {
      VersionedOfParse(raw, tag);
    }
  }

  /** No byte string extends the prefixes of two different (family, owner, version) triples. */
  lemma PrefixesAreDisjoint(raw: bytes, t1: byte, k1: bytes, v1: u64, t2: byte, k2: bytes, v2: u64)
    requires |k1| < U32 && |k2| < U32
    requires VersionedPrefix(t1, k1, v1) <= raw && VersionedPrefix(t2, k2, v2) <= raw
    ensures t1 == t2 && k1 == k2 && v1 == v2
  {
    assert raw[0] == VersionedPrefix(t1, k1, v1)[0] && raw[0] == VersionedPrefix(t2, k2, v2)[0];
    PrefixIffParsed(raw, t1, k1, v1);
    PrefixIffParsed(raw, t2, k2, v2);
  }

  // ---- Scores -------------------------------------------------------------

  // A score is the bit pattern of a binary64 number.

  predicate IsNaN(score: u64) {
    score % U63 > 0x7FF0_0000_0000_0000
  }

  /** Sign-magnitude reading: orders all non-NaN patterns numerically, both zeros alike. */
  function Magnitude(score: u64): int {
    if score < U63 then score else U63 - score
  }

  /** The comparisons of the machine: with a NaN, all of them are false. */
  predicate ScoreLess(a: u64, b: u64) {
    !IsNaN(a) && !IsNaN(b) && Magnitude(a) < Magnitude(b)
  }

  predicate ScoreEq(a: u64, b: u64) {
    !IsNaN(a) && !IsNaN(b) && Magnitude(a) == Magnitude(b)
  }

  /** totalOrder of section 5.10 of IEEE 754-2019 on non-NaN patterns: -0 comes before +0. */
  function TotalRank(score: u64): int {
    if score < U63 then score else U63 - 1 - score
  }

  function EncodeScore(score: u64): (raw: bytes)
    ensures |raw| == 8
  {
    Be64(if score >= U63 then U64 - 1 - score else score + U63)
  }

  function DecodeScore(raw: bytes): u64
    requires |raw| == 8
  {
    var ordered := FromBe64(raw);
    if ordered >= U63 then ordered - U63 else U64 - 1 - ordered
  }

  lemma DecodeOfEncodeScore(score: u64)
    ensures DecodeScore(EncodeScore(score)) == score
  {
    var ordered := if score >= U63 then U64 - 1 - score else score + U63;
    assert FromBe(Be64(ordered)) == ordered;
    assert Be64(FromBe64(Be64(ordered))) == Be64(ordered);
  }

  lemma EncodeOfDecodeScore(raw: bytes)
    requires |raw| == 8
    ensures EncodeScore(DecodeScore(raw)) == raw
  {
  }

  /** Byte order of encoded scores is totalOrder ... */
  lemma ScoreByteOrder(a: u64, b: u64)
    ensures LexLess(EncodeScore(a), EncodeScore(b)) <==> TotalRank(a) < TotalRank(b)
  {
    Widths();
    BeOrder(if a >= U63 then U64 - 1 - a else a + U63, if b >= U63 then U64 - 1 - b else b + U63, 8);
  }

  /** ... and so never contradicts numeric order. */
  lemma ByteOrderIsNumeric(a: u64, b: u64)
    ensures ScoreLess(a, b) ==> LexLess(EncodeScore(a), EncodeScore(b))
    ensures LexLess(EncodeScore(a), EncodeScore(b)) ==> !ScoreLess(b, a)
  {
    ScoreByteOrder(a, b);
    ScoreByteOrder(b, a);
  }

  function SplitScoreSuffix(suffix: bytes): Option<(u64, bytes)> {
    if |suffix| < 8 then None else Some((DecodeScore(suffix[..8]), suffix[8..]))
  }

  // ---- List indexes -------------------------------------------------------

  function ListIndexField(index: u64): bytes {
    Be64(index)
  }

  lemma ListIndexInjective(i: u64, j: u64)
    requires ListIndexField(i) == ListIndexField(j)
    ensures i == j
  {
    assert FromBe(Be64(i)) == i && FromBe(Be64(j)) == j;
  }

  // ---- Metadata -----------------------------------------------------------

  datatype Meta = Meta(typeId: byte, version: u64, expireMs: u64, payload: bytes) {

    function Encode(): bytes {
      [typeId] + Be64(version) + Be64(expireMs) + payload
    }

    static function Decode(raw: bytes): Option<Meta> {
      if |raw| < META_HEADER_LEN then None
      else Some(Meta(raw[0], FromBe64(raw[1..9]), FromBe64(raw[9..17]), raw[17..]))
    }

    predicate Counted() {
      typeId == TYPE_HASH || typeId == TYPE_SET || typeId == TYPE_ZSET
    }

    predicate Composite() {
      Counted() || typeId == TYPE_LIST
    }

    function FieldCount(): u32 {
      if Counted() && |payload| >= 4 then FromBe32(payload[..4]) else 0
    }

    function SetFieldCount(n: u32): Meta {
      this.(payload := Be32(n))
    }

    function ListBounds(): Option<(u64, u64)> {
      if typeId != TYPE_LIST || |payload| < 16 then None
      else Some((FromBe64(payload[..8]), FromBe64(payload[8..16])))
    }

    function SetListBounds(head: u64, tail: u64): Meta {
      this.(payload := Be64(head) + Be64(tail))
    }

    lemma DecodeOfEncode()
      ensures Decode(Encode()) == Some(this)
    {
      var raw := Encode();
      assert raw[1..9] == Be64(version) && raw[9..17] == Be64(expireMs) && raw[17..] == payload;
      assert FromBe(raw[1..9]) == version && FromBe(raw[9..17]) == expireMs;
      Widths();
      assert Be64(FromBe64(raw[1..9])) == raw[1..9];
      assert Be64(FromBe64(raw[9..17])) == raw[9..17];
    }

    lemma FieldCountOfSet(n: u32)
      requires Counted()
      ensures SetFieldCount(n).FieldCount() == n
    {
      assert Be32(n)[..4] == Be32(n);
      assert Be32(FromBe32(Be32(n))) == Be32(n);
    }

    lemma ListBoundsIff()
      ensures ListBounds().Some? <==> typeId == TYPE_LIST && |payload| >= 16
    {
    }

    lemma ListBoundsOfSet(head: u64, tail: u64)
      requires typeId == TYPE_LIST
      ensures SetListBounds(head, tail).ListBounds() == Some((head, tail))
    {
      var p := Be64(head) + Be64(tail);
      assert p[..8] == Be64(head) && p[8..16] == Be64(tail);
      assert Be64(FromBe64(p[..8])) == p[..8] && Be64(FromBe64(p[8..16])) == p[8..16];
    }
  }
}
