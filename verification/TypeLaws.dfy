/** What callers may rely on for each type: readers against writers, and readers against each other. */
module TypeLaws {
  import opened Common
  import opened ByteOrder
  import opened Encoding
  import opened Dictionary
  import opened Script
  import opened HashCounts
  import opened HashRuns
  import opened ReadLaws

  // ---- Hashes ----------------------------------------------------------------------------------

  predicate MayBeHash(slot: Slot) {
    slot.Some? ==> slot.value.value.Hash?
  }

  lemma RightHash(op: Op, slot: Slot)
    requires OpFits(op, slot) && (op.HSet? || op.HDel? || op.HGetAll?) && Apply(op, slot).1 != Wrong
    ensures MayBeHash(slot)
  {
    hide Assign, Mentions, Names, ByField, ToSet;
  }

  lemma HashAnswers(slot: Slot, field: bytes)
    requires MayBeHash(slot)
    ensures var fields := FieldsOf(slot);
            && Apply(HGet(field), slot).1 == Maybe(if field in fields then Some(fields[field]) else None)
            && Apply(HGetAll, slot).1 == Fields(ByField(fields))
            && Apply(HLen, slot).1 == Number(if slot.Some? then slot.value.value.count else 0)
  {
    hide ByField;
    NoFields();
  }

  lemma NoFields()
    ensures ByField(map[]) == []
  {
  }

  /** HGET after HSET answers the last value given to the field, and what it answered before for any other. */
  lemma HSetThenHGet(dict: Dict, key: bytes, pairs: seq<(bytes, bytes)>, field: bytes, now: u64)
    requires Can(dict, key, HSet(pairs), now) && Ask(dict, key, HSet(pairs), now) != Wrong
    ensures Can(dict, key, HGet(field), now) && Can(After(dict, key, HSet(pairs), now), key, HGet(field), now)
    ensures var answer := Ask(After(dict, key, HSet(pairs), now), key, HGet(field), now);
            && (forall i :: 0 <= i < |pairs| && IsLast(pairs, i, field) ==> answer == Maybe(Some(pairs[i].1)))
            && ((forall i :: 0 <= i < |pairs| ==> pairs[i].0 != field) ==> answer == Ask(dict, key, HGet(field), now))
  {
    hide Apply, OpFits, Ask, After, IsLast, Assign;
    var slot := Live(dict, key, now);
    ReadAfter(dict, key, HSet(pairs), HGet(field), now);
    RightHash(HSet(pairs), slot);
    HSetFields(slot, pairs);
    forall i | 0 <= i < |pairs| && IsLast(pairs, i, field)
      ensures field in Assign(FieldsOf(slot), pairs) && Assign(FieldsOf(slot), pairs)[field] == pairs[i].1
    {
      AssignLast(FieldsOf(slot), pairs, i, field);
    }
    if forall i :: 0 <= i < |pairs| ==> pairs[i].0 != field {
      AssignOther(FieldsOf(slot), pairs, field);
    }
    HashAnswers(slot, field);
    HashAnswers(Apply(HSet(pairs), slot).0, field);
  }

  predicate IsLast<T>(pairs: seq<(bytes, T)>, i: nat, field: bytes)
    requires i < |pairs|
  {
    pairs[i].0 == field && forall j :: i < j < |pairs| ==> pairs[j].0 != field
  }

  lemma HSetFields(slot: Slot, pairs: seq<(bytes, bytes)>)
    requires OpFits(HSet(pairs), slot) && MayBeHash(slot)
    ensures var after := Apply(HSet(pairs), slot).0;
            MayBeHash(after) && FieldsOf(after) == Assign(FieldsOf(slot), pairs)
  {
    hide Assign, Mentions, Names;
  }

  lemma {:induction false} AssignLast(fields: map<bytes, bytes>, pairs: seq<(bytes, bytes)>, i: nat, field: bytes)
    requires i < |pairs| && IsLast(pairs, i, field)
    ensures field in Assign(fields, pairs) && Assign(fields, pairs)[field] == pairs[i].1
    decreases |pairs|
  {
    var init := pairs[..|pairs| - 1];
    if i < |init| {
      assert pairs[|init|].0 != field;
      AssignLast(fields, init, i, field);
    }
  }

  lemma {:induction false} AssignOther(fields: map<bytes, bytes>, pairs: seq<(bytes, bytes)>, field: bytes)
    requires forall i :: 0 <= i < |pairs| ==> pairs[i].0 != field
    ensures field in Assign(fields, pairs) <==> field in fields
    ensures field in fields ==> Assign(fields, pairs)[field] == fields[field]
    decreases |pairs|
  {
    if pairs != [] {
      AssignOther(fields, pairs[..|pairs| - 1], field);
    }
  }

  /**
   * HGET after HDEL answers nothing for a field named, and what it answered before for any other, unless
   * the whole key is gone: it goes exactly when HDEL answers at least what HLEN said, and not 0.
   */
  lemma HDelThenHGet(dict: Dict, key: bytes, names: seq<bytes>, field: bytes, now: u64)
    requires Can(dict, key, HDel(names), now) && Ask(dict, key, HDel(names), now) != Wrong
    requires Ask(dict, key, Exists, now) == Flag(true)
    ensures var after := After(dict, key, HDel(names), now);
            && Can(dict, key, HGet(field), now) && Can(after, key, HGet(field), now) && Can(dict, key, HLen, now)
            && Ask(dict, key, HDel(names), now).Number? && Ask(dict, key, HLen, now).Number?
            && var gone := Max(1, Ask(dict, key, HLen, now).n) <= Ask(dict, key, HDel(names), now).n;
               && Ask(after, key, Exists, now) == Flag(!gone)
               && Ask(after, key, HGet(field), now) ==
                  (if gone || field in names then Maybe(None) else Ask(dict, key, HGet(field), now))
               && Can(after, key, HLen, now)
               && Ask(after, key, HLen, now) ==
                  Number(if gone then 0 else Ask(dict, key, HLen, now).n - Ask(dict, key, HDel(names), now).n)
  {
    hide Apply, OpFits, Ask, After, Live, MayBeHash, FieldsOf;
    var slot := Live(dict, key, now);
    ReadAfter(dict, key, HDel(names), HLen, now);
    ReadNow(dict, key, Exists, now);
    ReadAfter(dict, key, HDel(names), HGet(field), now);
    ReadAfter(dict, key, HDel(names), Exists, now);
    RightHash(HDel(names), slot);
    ExistsIs(slot);
    ExistsIs(Apply(HDel(names), slot).0);
    DeletedAnswers(slot, names, field);
  }

  /** HDEL answers how many of the names given are found, each mention counted. */
  lemma HDelCounts(dict: Dict, key: bytes, names: seq<bytes>, now: u64, found: set<nat>)
    requires Can(dict, key, HDel(names), now) && Ask(dict, key, HDel(names), now) != Wrong
    requires forall field: bytes :: Can(dict, key, HGet(field), now)
    requires forall i: nat :: i in found <==> i < |names| && Ask(dict, key, HGet(names[i]), now) != Maybe(None)
    ensures Ask(dict, key, HDel(names), now) == Number(|found|)
  {
    hide Apply, OpFits, Ask, Live, MayBeHash, FieldsOf, Mentions;
    var slot := Live(dict, key, now);
    InSlots(dict, key, HDel(names), now);
    RightHash(HDel(names), slot);
    HDelReply(slot, names);
    forall i: nat | i < |names| ensures i in found <==> names[i] in FieldsOf(slot) {
      ReadNow(dict, key, HGet(names[i]), now);
      HashAnswers(slot, names[i]);
    }
    MentionsAre(FieldsOf(slot).Keys, names, true, found);
  }

  lemma HDelReply(slot: Slot, names: seq<bytes>)
    requires OpFits(HDel(names), slot) && MayBeHash(slot)
    ensures Apply(HDel(names), slot).1 == Number(Mentions(FieldsOf(slot).Keys, names, true))
  {
    NoMentions(names);
  }

  lemma {:induction false} NoMentions(names: seq<bytes>)
    ensures Mentions({}, names, true) == 0
    decreases |names|
  {
    if names != [] {
      NoMentions(names[..|names| - 1]);
    }
  }

  lemma {:induction false} MentionsAre(fields: set<bytes>, names: seq<bytes>, present: bool, found: set<nat>)
    requires forall i: nat :: i in found <==> i < |names| && (names[i] in fields) == present
    ensures Mentions(fields, names, present) == |found|
    decreases |names|
  {
    if names != [] {
      var last := |names| - 1;
      MentionsAre(fields, names[..last], present, found - {last});
    } else {
      assert found == {};
    }
  }

  /** HSET answers how many of the fields given were not there, each mention counted, and HLEN grows by that. */
  lemma HSetCounts(dict: Dict, key: bytes, pairs: seq<(bytes, bytes)>, now: u64, lost: set<nat>)
    requires Can(dict, key, HSet(pairs), now) && Ask(dict, key, HSet(pairs), now) != Wrong
    requires forall field: bytes :: Can(dict, key, HGet(field), now)
    requires forall i: nat :: i in lost <==> i < |pairs| && Ask(dict, key, HGet(pairs[i].0), now) == Maybe(None)
    ensures Ask(dict, key, HSet(pairs), now) == Number(|lost|)
    ensures var after := After(dict, key, HSet(pairs), now);
            && Can(dict, key, HLen, now) && Can(after, key, HLen, now) && Ask(dict, key, HLen, now).Number?
            && Ask(after, key, HLen, now) == Number(Ask(dict, key, HLen, now).n + |lost|)
  {
    hide Apply, OpFits, Ask, After, Live, MayBeHash, FieldsOf, Mentions;
    var slot := Live(dict, key, now);
    ReadAfter(dict, key, HSet(pairs), HLen, now);
    RightHash(HSet(pairs), slot);
    HashAnswers(slot, []);
    HSetReply(slot, pairs);
    HashAnswers(Apply(HSet(pairs), slot).0, []);
    forall i: nat | i < |pairs| ensures i in lost <==> Names(pairs)[i] !in FieldsOf(slot) {
      ReadNow(dict, key, HGet(pairs[i].0), now);
      HashAnswers(slot, pairs[i].0);
    }
    MentionsAre(FieldsOf(slot).Keys, Names(pairs), false, lost);
  }

  lemma HSetReply(slot: Slot, pairs: seq<(bytes, bytes)>)
    requires OpFits(HSet(pairs), slot) && MayBeHash(slot)
    ensures var ((after, reply), size) := (Apply(HSet(pairs), slot), if slot.Some? then slot.value.value.count else 0);
            && reply == Number(Mentions(FieldsOf(slot).Keys, Names(pairs), false))
            && MayBeHash(after) && after.Some? && after.value.value.count == size + reply.n
  {
    hide Assign;
  }

  lemma DeletedAnswers(slot: Slot, names: seq<bytes>, field: bytes)
    requires OpFits(HDel(names), slot) && MayBeHash(slot) && slot.Some?
    ensures var ((after, reply), size) := (Apply(HDel(names), slot), Apply(HLen, slot).1);
            && reply.Number? && size.Number?
            && (after.None? <==> Max(1, size.n) <= reply.n)
            && Apply(HGet(field), after).1 ==
               (if after.None? || field in names then Maybe(None) else Apply(HGet(field), slot).1)
            && Apply(HLen, after).1 == Number(if after.None? then 0 else size.n - reply.n)
  {
    hide Apply;
    DeletedFields(slot, names);
    HashAnswers(slot, field);
    HashAnswers(Apply(HDel(names), slot).0, field);
  }

  lemma DeletedFields(slot: Slot, names: seq<bytes>)
    requires OpFits(HDel(names), slot) && MayBeHash(slot) && slot.Some?
    ensures var ((after, reply), fields) := (Apply(HDel(names), slot), FieldsOf(slot));
            && reply.Number? && MayBeHash(after)
            && (after.Some? <==> reply.n < Max(1, slot.value.value.count))
            && (after.Some? ==> FieldsOf(after) == fields - ToSet(names))
            && (after.Some? ==> after.value.value.count == slot.value.value.count - reply.n)
  {
    NoneNamed(FieldsOf(slot).Keys, names);
  }

  lemma {:induction false} NoneNamed(fields: set<bytes>, names: seq<bytes>)
    ensures Mentions(fields, names, true) == 0 ==> fields !! ToSet(names)
  {
    if names != [] {
      NoneNamed(fields, names[..|names| - 1]);
      assert forall x :: x in names ==> x in names[..|names| - 1] || x == names[|names| - 1];
    }
  }

  /** HGETALL lists exactly the fields that HGET finds, with their values, each once and in byte order. */
  lemma HGetAllIs(dict: Dict, key: bytes, now: u64)
    requires |key| < U32 && Ask(dict, key, HGetAll, now) != Wrong
    ensures Ask(dict, key, HGetAll, now).Fields?
    ensures forall field: bytes :: Can(dict, key, HGet(field), now)
    ensures var items := Ask(dict, key, HGetAll, now).fields;
            && (forall field: bytes, value: bytes ::
                  (field, value) in items <==> Ask(dict, key, HGet(field), now) == Maybe(Some(value)))
            && (forall i, j :: 0 <= i < j < |items| ==> LexLess(items[i].0, items[j].0))
  {
    hide Apply, Ask, Can, ByField, LexLess;
    var slot := Live(dict, key, now);
    ReadNow(dict, key, HGetAll, now);
    RightHash(HGetAll, slot);
    forall field: bytes ensures Can(dict, key, HGet(field), now) {
      ReadNow(dict, key, HGet(field), now);
    }
    HashAnswers(slot, []);
    ByFieldIs(FieldsOf(slot));
    forall field: bytes, value: bytes
      ensures (field, value) in ByField(FieldsOf(slot)) <==> Ask(dict, key, HGet(field), now) == Maybe(Some(value))
    {
      ReadNow(dict, key, HGet(field), now);
      HashAnswers(slot, field);
    }
  }

  lemma ByFieldIs(fields: map<bytes, bytes>)
    ensures var items := ByField(fields);
            && (forall field: bytes, value: bytes ::
                  (field, value) in items <==> field in fields && fields[field] == value)
            && (forall i, j :: 0 <= i < j < |items| ==> LexLess(items[i].0, items[j].0))
  {
    hide LexLess;
    var items, names := ByField(fields), SortedKeys(fields.Keys);
    SortedKeysLists(fields.Keys);
    forall field: bytes, value: bytes ensures (field, value) in items <==> field in fields && fields[field] == value {
      if field in fields {
        assert field in names;
        var i :| 0 <= i < |names| && names[i] == field;
        assert items[i] == (field, fields[field]);
      }
      if (field, value) in items {
        var i :| 0 <= i < |items| && items[i] == (field, value);
        assert names[i] in names;
      }
    }
  }

  /** HLEN counts what HGETALL lists if and only if the stored count is exact. */
  lemma HLenIs(dict: Dict, key: bytes, now: u64)
    requires |key| < U32 && Ask(dict, key, HGetAll, now) != Wrong
    ensures Ask(dict, key, HGetAll, now).Fields?
    ensures Can(dict, key, HLen, now)
    ensures Ask(dict, key, HLen, now) == Number(|Ask(dict, key, HGetAll, now).fields|) <==>
              var slot := Live(dict, key, now);
              slot.Some? && slot.value.value.Hash? ==> slot.value.value.count == |slot.value.value.fields|
  {
    hide Apply, Ask, ByField;
    var slot := Live(dict, key, now);
    ReadNow(dict, key, HGetAll, now);
    ReadNow(dict, key, HLen, now);
    RightHash(HGetAll, slot);
    HashAnswers(slot, []);
  }

  // ---- Sets ------------------------------------------------------------------------------------------

  predicate MayBeSet(slot: Slot) {
    slot.Some? ==> slot.value.value.Set?
  }

  function MembersOf(slot: Slot): set<bytes> {
    if slot.Some? && slot.value.value.Set? then slot.value.value.members else {}
  }

  lemma RightSet(op: Op, slot: Slot)
    requires OpFits(op, slot) && (op.SAdd? || op.SRem? || op.SMembers?) && Apply(op, slot).1 != Wrong
    ensures MayBeSet(slot)
  {
    hide ToSet;
  }

  lemma SetAnswers(slot: Slot, member: bytes)
    requires MayBeSet(slot)
    ensures var members := MembersOf(slot);
            && Apply(SIsMember(member), slot).1 == Flag(member in members)
            && Apply(SMembers, slot).1 == Texts(SortedKeys(members))
            && Apply(SCard, slot).1 == Number(|members|)
  {
    hide SortedKeys;
    SortedKeysLists({});
  }

  lemma SetChanges(slot: Slot, members: seq<bytes>)
    requires MayBeSet(slot)
    ensures OpFits(SAdd(members), slot) ==>
              var (after, reply) := Apply(SAdd(members), slot);
              && MayBeSet(after) && MembersOf(after) == MembersOf(slot) + ToSet(members)
              && reply == Number(|ToSet(members) - MembersOf(slot)|)
    ensures var (after, reply) := Apply(SRem(members), slot);
            && MayBeSet(after) && MembersOf(after) == MembersOf(slot) - ToSet(members)
            && reply == Number(|MembersOf(slot) * ToSet(members)|)
  {
    hide ToSet;
  }

  /** SADD and SREM settle membership of what they name, and of nothing else. */
  lemma SAddThenSIsMember(dict: Dict, key: bytes, members: seq<bytes>, member: bytes, now: u64)
    requires Can(dict, key, SAdd(members), now) && Ask(dict, key, SAdd(members), now) != Wrong
    ensures Can(dict, key, SIsMember(member), now)
    ensures Can(After(dict, key, SAdd(members), now), key, SIsMember(member), now)
    ensures Ask(After(dict, key, SAdd(members), now), key, SIsMember(member), now) ==
            if member in members then Flag(true) else Ask(dict, key, SIsMember(member), now)
  {
    hide Apply, OpFits, Ask, After;
    var slot := Live(dict, key, now);
    ReadAfter(dict, key, SAdd(members), SIsMember(member), now);
    RightSet(SAdd(members), slot);
    SetChanges(slot, members);
    SetAnswers(slot, member);
    SetAnswers(Apply(SAdd(members), slot).0, member);
  }

  lemma SRemThenSIsMember(dict: Dict, key: bytes, members: seq<bytes>, member: bytes, now: u64)
    requires Can(dict, key, SRem(members), now) && Ask(dict, key, SRem(members), now) != Wrong
    ensures Can(dict, key, SIsMember(member), now)
    ensures Can(After(dict, key, SRem(members), now), key, SIsMember(member), now)
    ensures Ask(After(dict, key, SRem(members), now), key, SIsMember(member), now) ==
            if member in members then Flag(false) else Ask(dict, key, SIsMember(member), now)
  {
    hide Apply, OpFits, Ask, After;
    var slot := Live(dict, key, now);
    ReadAfter(dict, key, SRem(members), SIsMember(member), now);
    RightSet(SRem(members), slot);
    SetChanges(slot, members);
    SetAnswers(slot, member);
    SetAnswers(Apply(SRem(members), slot).0, member);
  }

  /** SMEMBERS lists exactly the members, each once and in byte order, and SCARD counts them. */
  lemma SMembersIs(dict: Dict, key: bytes, now: u64)
    requires |key| < U32 && Ask(dict, key, SMembers, now) != Wrong
    ensures Ask(dict, key, SMembers, now).Texts?
    ensures forall member: bytes ::
              Can(dict, key, SIsMember(member), now) && Ask(dict, key, SIsMember(member), now).Flag?
    ensures var items := Ask(dict, key, SMembers, now).texts;
            && (forall member: bytes :: member in items <==> Ask(dict, key, SIsMember(member), now) == Flag(true))
            && (forall i, j :: 0 <= i < j < |items| ==> LexLess(items[i], items[j]))
            && Can(dict, key, SCard, now) && Ask(dict, key, SCard, now) == Number(|items|)
  {
    hide Apply, Ask, Can, LexLess, SortedKeys;
    var slot := Live(dict, key, now);
    ReadNow(dict, key, SMembers, now);
    ReadNow(dict, key, SCard, now);
    RightSet(SMembers, slot);
    SetAnswers(slot, []);
    SortedKeysLists(MembersOf(slot));
    forall member: bytes
      ensures Can(dict, key, SIsMember(member), now)
      ensures Ask(dict, key, SIsMember(member), now) == Flag(member in MembersOf(slot))
    {
      ReadNow(dict, key, SIsMember(member), now);
      SetAnswers(slot, member);
    }
  }

  /** SADD answers by how many members the set has grown, SREM by how many it has shrunk. */
  lemma SAddCounts(dict: Dict, key: bytes, members: seq<bytes>, now: u64)
    requires Can(dict, key, SAdd(members), now) && Ask(dict, key, SAdd(members), now) != Wrong
    ensures Can(dict, key, SCard, now) && Can(After(dict, key, SAdd(members), now), key, SCard, now)
    ensures Ask(dict, key, SCard, now).Number? && Ask(After(dict, key, SAdd(members), now), key, SCard, now).Number?
    ensures Ask(dict, key, SAdd(members), now) ==
            Number(Ask(After(dict, key, SAdd(members), now), key, SCard, now).n - Ask(dict, key, SCard, now).n)
  {
    hide Apply, OpFits, Ask, After, ToSet;
    var slot := Live(dict, key, now);
    ReadAfter(dict, key, SAdd(members), SCard, now);
    RightSet(SAdd(members), slot);
    SetChanges(slot, members);
    SetAnswers(slot, []);
    SetAnswers(Apply(SAdd(members), slot).0, []);
    GrownBy(MembersOf(slot), ToSet(members));
  }

  lemma GrownBy(have: set<bytes>, more: set<bytes>)
    ensures |have + more| == |have| + |more - have|
    ensures |have - more| == |have| - |have * more|
  {
    assert have + more == have + (more - have);
    assert have == (have - more) + (have * more);
  }

  lemma SRemCounts(dict: Dict, key: bytes, members: seq<bytes>, now: u64)
    requires Can(dict, key, SRem(members), now) && Ask(dict, key, SRem(members), now) != Wrong
    ensures Can(dict, key, SCard, now) && Can(After(dict, key, SRem(members), now), key, SCard, now)
    ensures Ask(dict, key, SCard, now).Number? && Ask(After(dict, key, SRem(members), now), key, SCard, now).Number?
    ensures Ask(dict, key, SRem(members), now) ==
            Number(Ask(dict, key, SCard, now).n - Ask(After(dict, key, SRem(members), now), key, SCard, now).n)
  {
    hide Apply, OpFits, Ask, After, ToSet;
    var slot := Live(dict, key, now);
    ReadAfter(dict, key, SRem(members), SCard, now);
    RightSet(SRem(members), slot);
    SetChanges(slot, members);
    SetAnswers(slot, []);
    SetAnswers(Apply(SRem(members), slot).0, []);
    GrownBy(MembersOf(slot), ToSet(members));
  }

  // ---- Lists -----------------------------------------------------------------------------------------

  predicate MayBeList(slot: Slot) {
    slot.Some? ==> slot.value.value.List?
  }

  function ItemsOf(slot: Slot): seq<bytes> {
    if slot.Some? && slot.value.value.List? then slot.value.value.items else []
  }

  lemma RightList(op: Op, slot: Slot)
    requires OpFits(op, slot) && (op.Push? || op.Pop? || op.LRange?) && Apply(op, slot).1 != Wrong
    ensures MayBeList(slot)
  {
    hide Reverse, Dictionary.Slice;
  }

  lemma ListAnswers(slot: Slot, start: i64, stop: i64)
    requires MayBeList(slot)
    ensures var items := ItemsOf(slot);
            && Apply(LRange(0, -1), slot).1 == Texts(items)
            && Apply(LRange(start, stop), slot).1 == Texts(Dictionary.Slice(items, start, stop))
            && Apply(LLen, slot).1 == Number(|items|)
  {
  }

  /**
   * The elements two ranks enclose: a negative rank counts from the end, the first is drawn up to the
   * beginning and the last down to the end.
   */
  lemma SliceEncloses<T>(all: seq<T>, start: i64, stop: i64)
    ensures var n := |all|;
            var lo := if start < 0 then (if start + n < 0 then 0 else start + n) else start;
            var hi := if stop < 0 then stop + n else if stop < n then stop else n - 1;
            Dictionary.Slice(all, start, stop) == if lo <= hi then all[lo..hi + 1] else []
  {
  }

  /** LRANGE 0 -1 is the whole list, LLEN its length, and any other LRANGE the elements its two ranks enclose. */
  lemma LRangeEncloses(dict: Dict, key: bytes, start: i64, stop: i64, now: u64)
    requires |key| < U32 && Ask(dict, key, LRange(0, -1), now) != Wrong
    ensures Ask(dict, key, LRange(0, -1), now).Texts?
    ensures Can(dict, key, LRange(start, stop), now) && Can(dict, key, LLen, now)
    ensures var all := Ask(dict, key, LRange(0, -1), now).texts;
            var n := |all|;
            var lo := if start < 0 then (if start + n < 0 then 0 else start + n) else start;
            var hi := if stop < 0 then stop + n else if stop < n then stop else n - 1;
            && Ask(dict, key, LLen, now) == Number(n)
            && Ask(dict, key, LRange(start, stop), now) == Texts(if lo <= hi then all[lo..hi + 1] else [])
  {
    hide Apply, Ask, Dictionary.Slice;
    var slot := Live(dict, key, now);
    ReadNow(dict, key, LRange(0, -1), now);
    ReadNow(dict, key, LRange(start, stop), now);
    ReadNow(dict, key, LLen, now);
    RightList(LRange(0, -1), slot);
    ListAnswers(slot, start, stop);
    SliceEncloses(ItemsOf(slot), start, stop);
  }

  /** A push adds its values at the named end, the last one outermost, and answers the new length. */
  lemma PushThenLRange(dict: Dict, key: bytes, values: seq<bytes>, left: bool, now: u64)
    requires Can(dict, key, Push(values, left), now) && Ask(dict, key, Push(values, left), now) != Wrong
    ensures var after := After(dict, key, Push(values, left), now);
            && Can(dict, key, LRange(0, -1), now) && Can(after, key, LRange(0, -1), now)
            && Ask(dict, key, LRange(0, -1), now).Texts? && Ask(after, key, LRange(0, -1), now).Texts?
            && var before, all := Ask(dict, key, LRange(0, -1), now).texts, Ask(after, key, LRange(0, -1), now).texts;
               && |all| == |before| + |values| && Ask(dict, key, Push(values, left), now) == Number(|all|)
               && (left ==> (forall i :: 0 <= i < |values| ==> all[i] == values[|values| - 1 - i])
                            && (forall i :: 0 <= i < |before| ==> all[|values| + i] == before[i]))
               && (!left ==> (forall i :: 0 <= i < |before| ==> all[i] == before[i])
                             && (forall i :: 0 <= i < |values| ==> all[|before| + i] == values[i]))
  {
    hide Apply, OpFits, Ask, After, Reverse;
    var slot := Live(dict, key, now);
    ReadAfter(dict, key, Push(values, left), LRange(0, -1), now);
    RightList(Push(values, left), slot);
    PushedItems(slot, values, left);
    ListAnswers(slot, 0, -1);
    ListAnswers(Apply(Push(values, left), slot).0, 0, -1);
    ReverseAt(values);
  }

  lemma PushedItems(slot: Slot, values: seq<bytes>, left: bool)
    requires OpFits(Push(values, left), slot) && MayBeList(slot)
    ensures var ((after, reply), items) := (Apply(Push(values, left), slot), ItemsOf(slot));
            && MayBeList(after) && ItemsOf(after) == (if left then Reverse(values) + items else items + values)
            && reply == Number(|items| + |values|)
  {
    hide Apply, OpFits, Dictionary.Push, PushFits, Reverse, ItemsOf, MayBeList;
    FitsPush(slot, values, left);
    PushedEntry(slot, values, left);
    PushApplies(slot, values, left);
  }

  lemma FitsPush(slot: Slot, values: seq<bytes>, left: bool)
    requires OpFits(Push(values, left), slot)
    ensures PushFits(slot, |values|, left)
  {
    hide PushFits;
  }

  lemma PushApplies(slot: Slot, values: seq<bytes>, left: bool)
    requires OpFits(Push(values, left), slot) && Dictionary.Push(slot, values, left).1.Ok?
    ensures Apply(Push(values, left), slot) ==
            (Dictionary.Push(slot, values, left).0, Number(Dictionary.Push(slot, values, left).1.value))
  {
    hide Dictionary.Push, PushFits;
  }

  lemma PushedEntry(slot: Slot, values: seq<bytes>, left: bool)
    requires PushFits(slot, |values|, left) && MayBeList(slot)
    ensures var ((after, reply), items) := (Dictionary.Push(slot, values, left), ItemsOf(slot));
            && MayBeList(after) && ItemsOf(after) == (if left then Reverse(values) + items else items + values)
            && reply == Ok(|items| + |values|)
  {
    hide Reverse, PushFits, Pushed;
    var e := slot.GetOr(Entry(List([], LIST_INITIAL_INDEX), 0));
    assert left ==> |values| <= e.value.head by { RoomToPush(slot, values, left); }
    PushedOnto(e.value.items, e.value.head, values, left);
  }

  lemma RoomToPush(slot: Slot, values: seq<bytes>, left: bool)
    requires PushFits(slot, |values|, left) && MayBeList(slot)
    ensures left ==> |values| <= slot.GetOr(Entry(List([], LIST_INITIAL_INDEX), 0)).value.head
  {
  }

  lemma PushedOnto(items: seq<bytes>, head: u64, values: seq<bytes>, left: bool)
    requires left ==> |values| <= head
    ensures Pushed(items, head, values, left).items == if left then Reverse(values) + items else items + values
  {
  }

  lemma {:induction false} ReverseAt(s: seq<bytes>)
    ensures forall i :: 0 <= i < |s| ==> Reverse(s)[i] == s[|s| - 1 - i]
    decreases |s|
  {
    if s != [] {
      ReverseAt(s[..|s| - 1]);
    }
  }

  /** A pop answers up to `count` elements from the named end, outermost first, and leaves the others. */
  lemma PopThenLRange(dict: Dict, key: bytes, count: u64, left: bool, now: u64)
    requires Can(dict, key, Pop(count, left), now) && Ask(dict, key, Pop(count, left), now) != Wrong
    ensures var after := After(dict, key, Pop(count, left), now);
            && Can(dict, key, LRange(0, -1), now) && Can(after, key, LRange(0, -1), now)
            && Ask(dict, key, LRange(0, -1), now).Texts? && Ask(after, key, LRange(0, -1), now).Texts?
            && Ask(dict, key, Pop(count, left), now).Texts?
            && var before, rest := Ask(dict, key, LRange(0, -1), now).texts, Ask(after, key, LRange(0, -1), now).texts;
               var out := Ask(dict, key, Pop(count, left), now).texts;
               && |out| == (if count < |before| then count else |before|) && |rest| == |before| - |out|
               && (left ==> before == out + rest)
               && (!left ==> rest <= before && forall i :: 0 <= i < |out| ==> out[i] == before[|before| - 1 - i])
  {
    hide Apply, OpFits, Ask, After, Reverse;
    var slot := Live(dict, key, now);
    var items := ItemsOf(slot);
    var n := Min(count, |items|);
    ReadAfter(dict, key, Pop(count, left), LRange(0, -1), now);
    RightList(Pop(count, left), slot);
    PoppedItems(slot, count, left);
    ListAnswers(slot, 0, -1);
    ListAnswers(Apply(Pop(count, left), slot).0, 0, -1);
    ReverseAt(items[|items| - n..]);
  }

  lemma PoppedItems(slot: Slot, count: u64, left: bool)
    requires MayBeList(slot)
    ensures var ((after, reply), items) := (Apply(Pop(count, left), slot), ItemsOf(slot));
            var n := Min(count, |items|);
            && MayBeList(after) && ItemsOf(after) == (if left then items[n..] else items[..|items| - n])
            && reply == Texts(if left then items[..n] else Reverse(items[|items| - n..]))
  {
    hide Reverse;
  }

  // ---- Emptied keys ------------------------------------------------------------------------------------

  /** A set, sorted set or list that is stored has a member. */
  predicate Filled(slot: Slot) {
    slot.Some? ==>
      match slot.value.value
      case Set(members) => members != {}
      case ZSet(scores) => scores != map[]
      case List(items, _) => items != []
      case _ => true
  }

  lemma ApplyKeepsFilled(op: Op, slot: Slot)
    requires OpFits(op, slot) && Filled(slot)
    ensures Filled(Apply(op, slot).0)
  {
    hide Apply, OpFits, Filled;
    if !Changes(op) {
      OthersKeepValue(op, slot);
      FilledByValue(slot, Apply(op, slot).0);
    } else {
      ChangeKeepsFilled(op, slot);
    }
  }

  lemma FilledByValue(slot: Slot, after: Slot)
    requires Filled(slot)
    requires after == None || after.value.value.Str? || (slot.Some? && after.value.value == slot.value.value)
    ensures Filled(after)
  {
  }

  lemma ChangeKeepsFilled(op: Op, slot: Slot)
    requires OpFits(op, slot) && Filled(slot) && Changes(op)
    ensures Filled(Apply(op, slot).0)
  {
    hide Apply, Filled, Fits, PushFits;
    ChangeIs(op, slot);
    match op
    case HSet(pairs) => HashesFilled(slot, pairs, []);
    case HDel(names) => HashesFilled(slot, [], names);
    case SAdd(members) => SetsFilled(slot, members);
    case SRem(members) => SetsFilled(slot, members);
    case ZAdd(scored) => ScoresFilled(slot, scored, []);
    case ZRem(members) => ScoresFilled(slot, [], members);
    case Push(values, left) => PushesFilled(slot, values, left);
    case Pop(count, left) => PopsFilled(slot, count, left);
    case _ =>
  }

  lemma HashesFilled(slot: Slot, pairs: seq<(bytes, bytes)>, names: seq<bytes>)
    requires Filled(slot)
    ensures Fits(slot, |pairs|) ==> Filled(Dictionary.HSet(slot, pairs).0)
    ensures Filled(Dictionary.HDel(slot, names).0)
  {
    hide Assign, Mentions, Names, ToSet, Fits;
  }

  lemma SetsFilled(slot: Slot, members: seq<bytes>)
    requires Filled(slot)
    ensures members != [] ==> Filled(Dictionary.SAdd(slot, members).0)
    ensures Filled(Dictionary.SRem(slot, members).0)
  {
    assert members != [] ==> members[0] in ToSet(members);
  }

  lemma ScoresFilled(slot: Slot, scored: seq<(u64, bytes)>, members: seq<bytes>)
    requires Filled(slot)
    ensures scored != [] ==> Filled(Dictionary.ZAdd(slot, scored).0)
    ensures Filled(Dictionary.ZRem(slot, members).0)
  {
    hide LastScores, Rescore, ToSet;
    if scored != [] {
      ScoresGiven(scored, if slot.Some? && slot.value.value.ZSet? then slot.value.value.scores else map[]);
    }
  }

  lemma PushesFilled(slot: Slot, values: seq<bytes>, left: bool)
    requires Filled(slot) && values != [] && PushFits(slot, |values|, left)
    ensures Filled(Dictionary.Push(slot, values, left).0)
  {
    hide PushFits, Reverse;
  }

  lemma PopsFilled(slot: Slot, count: u64, left: bool)
    requires Filled(slot)
    ensures Filled(Dictionary.Pop(slot, count, left).0)
  {
    hide Taken, Rest;
  }

  lemma ScoresGiven(scored: seq<(u64, bytes)>, have: map<bytes, u64>)
    requires scored != []
    ensures Rescore(have, LastScores(scored)) != map[]
  {
    assert scored[|scored| - 1].1 in Rescore(have, LastScores(scored));
  }

  lemma {:induction false} RunsStayFilled(script: seq<Timed>, key: bytes)
    requires RunFits(map[], script)
    ensures Filled(At(Run(map[], script).0, key))
    decreases |script|
  {
    hide Filled, Step, At;
    NothingIsFilled();
    if script == [] {
      AtNothing(key);
    } else {
      RunsStayFilled(script[..|script| - 1], key);
      StepKeepsFilled(Run(map[], script[..|script| - 1]).0, script[|script| - 1], key);
    }
  }

  lemma AtNothing(key: bytes)
    ensures At(map[], key) == None
  {
  }

  lemma NothingIsFilled()
    ensures Filled(None)
  {
  }

  lemma StepKeepsFilled(dict: Dict, t: Timed, key: bytes)
    requires CommandFits(dict, t) && Filled(At(dict, key))
    ensures Filled(At(Step(dict, t).0, key))
  {
    hide Apply, OpFits, Filled;
    NothingIsFilled();
    if t.command.OnKey? && t.command.key == key {
      ApplyKeepsFilled(t.command.op, Live(dict, key, t.now));
    }
  }

  /** After any run from an empty store, a set, sorted set or list counts no member exactly when EXISTS says no. */
  lemma EmptiedIsGone(script: seq<Timed>, key: bytes, size: Op, now: u64)
    requires RunFits(map[], script) && |key| < U32 && (size.SCard? || size.ZCard? || size.LLen?)
    ensures var d := Run(map[], script).0;
            && Can(d, key, size, now) && Can(d, key, Exists, now)
            && (Ask(d, key, size, now) == Number(0) <==> Ask(d, key, Exists, now) == Flag(false))
  {
    hide Apply, Ask, Can, Run, Filled;
    var d := Run(map[], script).0;
    RunsStayFilled(script, key);
    ReadNow(d, key, size, now);
    ReadNow(d, key, Exists, now);
    NothingIsFilled();
    SizeOfFilled(size, Live(d, key, now));
  }

  lemma SizeOfFilled(size: Op, slot: Slot)
    requires Filled(slot) && (size.SCard? || size.ZCard? || size.LLen?)
    ensures Apply(size, slot).1 == Number(0) <==> slot == None
    ensures Apply(Exists, slot).1 == Flag(slot.Some?)
  {
  }
}
