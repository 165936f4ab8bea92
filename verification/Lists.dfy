/** List elements as records at consecutive indexes. */
module Lists {
  import opened Common
  import opened ByteOrder
  import opened Encoding
  import opened Records
  import opened Gc
  import opened Dictionary
  import opened Representation
  import opened Mutation

  lemma ListOpened(d: Db, versions: map<bytes, u64>, issued: u64, key: bytes, m: Meta, slot: Slot)
    requires Opened(d, versions, issued, key, m, slot) && m.typeId == TYPE_LIST
    ensures m.ListBounds().Some?
    ensures var (head, tail) := m.ListBounds().value;
            var sub := SubAt(d, key, m.version);
            && ListShape(sub, head, tail)
            && slot.GetOr(Entry(List([], LIST_INITIAL_INDEX), 0))
                == Entry(List(Elements(sub, head, tail), head), m.expireMs)
    ensures IndexAt(d, key, m.version) == map[]
  {
    hide InvElsewhere, SubAt, IndexAt, Elements, ListShape, Meta.ListBounds;
    m.ListBoundsIff();
  }

  lemma ListNonEmpty(d: Db, versions: map<bytes, u64>, issued: u64, key: bytes, m: Meta, slot: Slot)
    requires Inv(d, versions, issued) && Opened(d, versions, issued, key, m, slot) && slot == EntryAt(d, key)
        && slot.Some?
    requires m.typeId == TYPE_LIST && m.ListBounds().Some?
    ensures m.ListBounds().value.0 < m.ListBounds().value.1
  {
    hide Inv, KeyOk, Shape, InvElsewhere, SubAt, IndexAt, Elements, Meta.ListBounds;
    MetaFacts(d, versions, issued, key);
    assert Elements(SubAt(d, key, m.version), m.ListBounds().value.0, m.ListBounds().value.1) != [];
  }

  lemma ListStored(d: Db, versions: map<bytes, u64>, issued: u64, key: bytes, m: Meta, slot: Slot,
                   ops: seq<WriteOp>, sub: Db, head: u64, tail: u64, d1: Db)
    requires Opened(d, versions, issued, key, m, slot) && m.typeId == TYPE_LIST
    requires Pending(d, key, m.version, issued, ops, sub, IndexAt(d, key, m.version))
    requires ListShape(sub, head, tail) && head < tail
    requires Compacted(ApplyOps(d, ops + [Put(MetaKey(key), m.SetListBounds(head, tail).Encode())]), d1, versions)
    ensures Inv(d1, versions, issued)
    ensures Abs(d1) == Place(Abs(d), key, Some(Entry(List(Elements(sub, head, tail), head), m.expireMs)))
  {
    hide Inv, InvElsewhere, Compacted, ApplyOps, Abs, Place, SubAt, IndexAt, Pending, ListShape, Elements;
    m.ListBoundsOfSet(head, tail);
    assert |Be64(head) + Be64(tail)| == 16;
    assert |Elements(sub, head, tail)| == tail - head;
    Upsert(d, versions, issued, key, ops, m.SetListBounds(head, tail), sub, IndexAt(d, key, m.version), d1);
  }

  lemma ElementAt(sub: Db, head: u64, tail: u64, i: nat)
    requires ListShape(sub, head, tail) && i < tail - head
    ensures ListIndexField(head + i) in sub && sub[ListIndexField(head + i)] == Elements(sub, head, tail)[i]
  {
    ElementsAre(sub, head, tail);
  }

  lemma FieldsDiffer()
    ensures forall i: u64, j: u64 :: ListIndexField(i) == ListIndexField(j) ==> i == j
  {
    forall i: u64, j: u64 | ListIndexField(i) == ListIndexField(j) ensures i == j {
      ListIndexInjective(i, j);
    }
  }

  lemma SetElement(sub: Db, index: u64, value: bytes, i: u64)
    ensures var after := sub[ListIndexField(index) := value];
            && (ListIndexField(i) in after <==> i == index || ListIndexField(i) in sub)
            && Element(after, i) == if i == index then value else Element(sub, i)
  {
    FieldsDiffer();
  }

  lemma DropElement(sub: Db, index: u64, i: u64)
    ensures var after := sub - {ListIndexField(index)};
            && (ListIndexField(i) in after <==> i != index && ListIndexField(i) in sub)
            && (i != index ==> Element(after, i) == Element(sub, i))
  {
    FieldsDiffer();
  }

  lemma PushFront(sub: Db, head: u64, tail: u64, value: bytes)
    requires ListShape(sub, head, tail) && head > 0 && tail - head + 1 < U63
    ensures var after := sub[ListIndexField(head - 1) := value];
            ListShape(after, head - 1, tail) && Elements(after, head - 1, tail) == [value] + Elements(sub, head, tail)
  {
    hide ListIndexField, Element, Elements;
    var after := sub[ListIndexField(head - 1) := value];
    forall i: u64 ensures ListIndexField(i) in after <==> head - 1 <= i < tail
                  ensures Element(after, i) == if i == head - 1 then value else Element(sub, i)
    {
      SetElement(sub, head - 1, value, i);
    }
    FieldLength(head - 1);
    ElementsAre(sub, head, tail);
    ElementsAre(after, head - 1, tail);
    SameSeq(Elements(after, head - 1, tail), [value] + Elements(sub, head, tail));
  }

  lemma PushBack(sub: Db, head: u64, tail: u64, value: bytes)
    requires ListShape(sub, head, tail) && tail + 1 < U64 && tail - head + 1 < U63
    ensures var after := sub[ListIndexField(tail) := value];
            ListShape(after, head, tail + 1) && Elements(after, head, tail + 1) == Elements(sub, head, tail) + [value]
  {
    hide ListIndexField, Element, Elements;
    var after := sub[ListIndexField(tail) := value];
    forall i: u64 ensures ListIndexField(i) in after <==> head <= i < tail + 1
                  ensures Element(after, i) == if i == tail then value else Element(sub, i)
    {
      SetElement(sub, tail, value, i);
    }
    FieldLength(tail);
    ElementsAre(sub, head, tail);
    ElementsAre(after, head, tail + 1);
    SameSeq(Elements(after, head, tail + 1), Elements(sub, head, tail) + [value]);
  }

  lemma PopFront(sub: Db, head: u64, tail: u64)
    requires ListShape(sub, head, tail) && head < tail
    ensures var after := sub - {ListIndexField(head)};
            ListShape(after, head + 1, tail) && Elements(after, head + 1, tail) == Elements(sub, head, tail)[1..]
  {
    hide ListIndexField, Element, Elements;
    var after := sub - {ListIndexField(head)};
    forall i: u64 ensures ListIndexField(i) in after <==> head + 1 <= i < tail
                  ensures i != head ==> Element(after, i) == Element(sub, i)
    {
      DropElement(sub, head, i);
    }
    ElementsAre(sub, head, tail);
    ElementsAre(after, head + 1, tail);
    SameSeq(Elements(after, head + 1, tail), Elements(sub, head, tail)[1..]);
  }

  lemma PopBack(sub: Db, head: u64, tail: u64)
    requires ListShape(sub, head, tail) && head < tail
    ensures var after := sub - {ListIndexField(tail - 1)};
            ListShape(after, head, tail - 1)
                && Elements(after, head, tail - 1) == Elements(sub, head, tail)[..tail - head - 1]
  {
    hide ListIndexField, Element, Elements;
    var after := sub - {ListIndexField(tail - 1)};
    forall i: u64 ensures ListIndexField(i) in after <==> head <= i < tail - 1
                  ensures i != tail - 1 ==> Element(after, i) == Element(sub, i)
    {
      DropElement(sub, tail - 1, i);
    }
    ElementsAre(sub, head, tail);
    ElementsAre(after, head, tail - 1);
    SameSeq(Elements(after, head, tail - 1), Elements(sub, head, tail)[..tail - head - 1]);
  }

  lemma FieldLength(i: u64)
    ensures |ListIndexField(i)| == 8
  {
  }

  lemma ReverseSnoc(values: seq<bytes>, i: nat)
    requires i < |values|
    ensures Reverse(values[..i + 1]) == [values[i]] + Reverse(values[..i])
  {
    assert values[..i + 1][..i] == values[..i];
  }

  lemma {:induction false} ReverseCons(x: bytes, s: seq<bytes>)
    ensures Reverse([x] + s) == Reverse(s) + [x]
  {
    if s == [] {
      assert [x] + s == [x];
    } else {
      ReverseCons(x, s[..|s| - 1]);
      assert ([x] + s)[..|s|] == [x] + s[..|s| - 1];
    }
  }

  // ---- What the dictionary says of an opened list --------------------------------------

  lemma ListFacts(d: Db, versions: map<bytes, u64>, issued: u64, key: bytes, m: Meta, slot: Slot)
    requires Opened(d, versions, issued, key, m, slot) && m.typeId == TYPE_LIST
    ensures m.ListBounds().Some?
    ensures var (head, tail) := m.ListBounds().value;
            && head <= tail && tail - head < U63
            && ListShape(SubAt(d, key, m.version), head, tail)
            && |Elements(SubAt(d, key, m.version), head, tail)| == tail - head
            && (slot.Some? ==> LLen(slot) == Ok(tail - head))
  {
    hide Opened, Elements, ListShape, SubAt, Meta.ListBounds;
    ListOpened(d, versions, issued, key, m, slot);
    var (head, tail) := m.ListBounds().value;
    ListBound(SubAt(d, key, m.version), head, tail);
  }

  lemma LRangeIs(d: Db, versions: map<bytes, u64>, issued: u64, key: bytes, m: Meta, slot: Slot, head: u64, tail: u64,
      start: i64, stop: i64)
    requires Opened(d, versions, issued, key, m, slot) && m.typeId == TYPE_LIST && slot.Some?
    requires m.ListBounds() == Some((head, tail))
    ensures 0 <= tail - head < U63 && |Elements(SubAt(d, key, m.version), head, tail)| == tail - head
    ensures var items := Elements(SubAt(d, key, m.version), head, tail);
            match NormalizeRange(start, stop, tail - head)
            case None => LRange(slot, start, stop) == Ok([])
            case Some((lo, hi)) => 0 <= lo <= hi < tail - head && LRange(slot, start, stop) == Ok(items[lo..hi + 1])
  {
    hide Opened, Slice, NormalizeRange, Elements, ListShape, SubAt, Meta.ListBounds;
    ListOpened(d, versions, issued, key, m, slot);
    ListBound(SubAt(d, key, m.version), head, tail);
    SliceIs(Elements(SubAt(d, key, m.version), head, tail), start, stop);
  }

  lemma PushIs(d: Db, versions: map<bytes, u64>, issued: u64, key: bytes, m: Meta, slot: Slot, values: seq<bytes>,
      left: bool)
    requires Opened(d, versions, issued, key, m, slot) && m.typeId == TYPE_LIST
    requires PushFits(slot, |values|, left) && (slot.None? || slot.value.value.List?)
    ensures m.ListBounds().Some?
    ensures var (head, tail) := m.ListBounds().value;
            var items := Elements(SubAt(d, key, m.version), head, tail);
            && head <= tail && tail - head + |values| < U63
            && (if left then |values| <= head else tail + |values| < U64)
            && Push(slot, values, left) == (Some(Entry(Pushed(items, head, values, left), m.expireMs)),
                Ok(tail - head + |values|))
  {
    hide Opened, Reverse, Elements, ListShape, SubAt, Meta.ListBounds;
    ListOpened(d, versions, issued, key, m, slot);
    var (head, tail) := m.ListBounds().value;
    ListBound(SubAt(d, key, m.version), head, tail);
  }

  lemma PopIs(d: Db, versions: map<bytes, u64>, issued: u64, key: bytes, m: Meta, slot: Slot, count: u64, left: bool)
    requires Opened(d, versions, issued, key, m, slot) && m.typeId == TYPE_LIST && slot.Some?
    ensures m.ListBounds().Some?
    ensures var (head, tail) := m.ListBounds().value;
            var items := Elements(SubAt(d, key, m.version), head, tail);
            var n := Min(count, |items|);
            && head <= tail && |items| == tail - head
            && Pop(slot, count, left).1 == Ok(Taken(items, n, left))
            && (n == |items| ==> Pop(slot, count, left).0 == None)
            && (n < |items| ==> Pop(slot, count, left).0 ==
                                  Some(Entry(List(Rest(items, n, left), if left then head + n else head), m.expireMs)))
            && (n == 0 && items != [] ==> Pop(slot, count, left) == (slot, Ok([])))
  {
    hide Opened, Reverse, Taken, Elements, ListShape, SubAt, Meta.ListBounds;
    ListOpened(d, versions, issued, key, m, slot);
    TakeNone(slot.value.value.items, left);
    var (head, tail) := m.ListBounds().value;
    ListBound(SubAt(d, key, m.version), head, tail);
  }

  lemma ListBound(sub: Db, head: u64, tail: u64)
    requires ListShape(sub, head, tail)
    ensures head <= tail && tail - head < U63 && |Elements(sub, head, tail)| == tail - head
  {
  }

  lemma PushNone(items: seq<bytes>, head: u64, values: seq<bytes>, left: bool)
    ensures Pushed(items, head, values[..0], left) == List(items, head)
  {
  }

  lemma PushOne(items: seq<bytes>, head: u64, values: seq<bytes>, i: nat, left: bool)
    requires i < |values| && (left ==> |values| <= head)
    ensures var before := Pushed(items, head, values[..i], left);
            Pushed(items, head, values[..i + 1], left) ==
            if left then List([values[i]] + before.items, head - i - 1) else List(before.items + [values[i]], head)
  {
    ReverseSnoc(values, i);
    hide Reverse;
    assert values[..i + 1] == values[..i] + [values[i]];
    assert [values[i]] + Reverse(values[..i]) + items == [values[i]] + (Reverse(values[..i]) + items);
    assert items + (values[..i] + [values[i]]) == items + values[..i] + [values[i]];
  }

  lemma TakeNone(items: seq<bytes>, left: bool)
    ensures Taken(items, 0, left) == [] && Rest(items, 0, left) == items
  {
  }

  lemma TakeOne(items: seq<bytes>, n: nat, left: bool)
    requires n < |items|
    ensures var rest := Rest(items, n, left);
            && Taken(items, n + 1, left) == Taken(items, n, left) + [items[if left then n else |items| - n - 1]]
            && Rest(items, n + 1, left) == if left then rest[1..] else rest[..|rest| - 1]
  {
    if !left {
      hide Reverse;
      ReverseTail(items, |items| - n);
    }
  }

  /** One round of the pop loop, at either end. */
  lemma PopStep(table: Db, items: seq<bytes>, n: nat, head: u64, tail: u64, left: bool)
    requires ListShape(table, head, tail) && head < tail
    requires n < |items| && Elements(table, head, tail) == Rest(items, n, left)
    ensures var after := table - {ListIndexField(if left then head else tail - 1)};
            var (newHead, newTail) := if left then (head + 1, tail) else (head, tail - 1);
            && ListShape(after, newHead, newTail)
            && Elements(after, newHead, newTail) == Rest(items, n + 1, left)
            && Taken(items, n + 1, left) == Taken(items, n, left) + [items[if left then n else |items| - n - 1]]
  {
    hide ListShape, ListIndexField, Taken;
    TakeOne(items, n, left);
    ListBound(table, head, tail);
    hide Elements, Rest;
    if left {
      PopFront(table, head, tail);
    } else {
      PopBack(table, head, tail);
    }
  }

  lemma ReverseTail(items: seq<bytes>, i: nat)
    requires 0 < i <= |items|
    ensures Reverse(items[i - 1..]) == Reverse(items[i..]) + [items[i - 1]]
  {
    assert items[i - 1..] == [items[i - 1]] + items[i..];
    ReverseCons(items[i - 1], items[i..]);
  }

  lemma PushWrongType(slot: Slot, values: seq<bytes>, left: bool)
    requires PushFits(slot, |values|, left)
    ensures slot.Some? && TypeId(slot.value.value) != TYPE_LIST ==> Push(slot, values, left) == (slot, WrongType)
    ensures slot.Some? && TypeId(slot.value.value) == TYPE_LIST ==> slot.value.value.List?
  {
    hide Reverse;
  }

  lemma PopEdges(slot: Slot, count: u64, left: bool)
    ensures slot.None? ==> Pop(slot, count, left) == (None, Ok([]))
    ensures slot.Some? && TypeId(slot.value.value) != TYPE_LIST ==> Pop(slot, count, left) == (slot, WrongType)
  {
    hide Reverse;
  }

  lemma LRangeEdges(slot: Slot, start: i64, stop: i64)
    ensures slot.None? ==> LRange(slot, start, stop) == Ok([])
    ensures slot.Some? && TypeId(slot.value.value) != TYPE_LIST ==> LRange(slot, start, stop) == WrongType
  {
    hide Slice;
  }

  /** What the element loop of a pop has made of the bounds and elements is what the dictionary says. */
  lemma PoppedIs(d: Db, versions: map<bytes, u64>, issued: u64, key: bytes, m: Meta, slot: Slot, count: u64, left: bool,
                 head: u64, tail: u64, out: seq<bytes>, table: Db)
    requires Inv(d, versions, issued) && slot == EntryAt(d, key) && slot.Some?
    requires Opened(d, versions, issued, key, m, slot) && m.typeId == TYPE_LIST
    requires m.ListBounds().Some? && ListShape(table, head, tail)
    requires var (head0, tail0) := m.ListBounds().value;
             var items := Elements(SubAt(d, key, m.version), head0, tail0);
             var n := Min(count, |items|);
             && (if left then head == head0 + n && tail == tail0 else head == head0 && tail == tail0 - n)
             && Elements(table, head, tail) == Rest(items, n, left) && out == Taken(items, n, left)
    ensures Pop(slot, count, left).1 == Ok(out)
    ensures Pop(slot, count, left).0 ==
            if out == [] then slot
            else if head == tail then None
            else Some(Entry(List(Elements(table, head, tail), head), m.expireMs))
  {
    hide Inv, Opened, Elements, ListShape, SubAt, Rest, Taken, Pop, EntryAt, Meta.ListBounds;
    ListNonEmpty(d, versions, issued, key, m, slot);
    PopIs(d, versions, issued, key, m, slot, count, left);
  }
}
