/** What the store means to its callers: a dictionary of typed values with deadlines. */
module Dictionary {
  import opened Common
  import opened Sorting
  import opened ByteOrder
  import opened Encoding

  datatype Result<+T> = Ok(value: T) | WrongType | Corruption {
    predicate IsFailure() { !Ok? }

    function PropagateFailure<U>(): Result<U>
      requires IsFailure()
    {
      if WrongType? then WrongType else Corruption
    }

    function Extract(): T
      requires !IsFailure()
    {
      value
    }
  }

  /**
   * `count` is the number HLEN reports: HSET and HDEL maintain it by counting arguments, so it can
   * differ from the number of fields. `head` is the index of a list's first element.
   */
  datatype Value =
    | Str(text: bytes)
    | Hash(fields: map<bytes, bytes>, count: u32)
    | Set(members: set<bytes>)
    | ZSet(scores: map<bytes, u64>)
    | List(items: seq<bytes>, head: u64)

  datatype Entry = Entry(value: Value, expireMs: u64)

  type Dict = map<bytes, Entry>

  /** One key's place in the dictionary. */
  type Slot = Option<Entry>

  predicate Expired(e: Entry, now: u64) {
    e.expireMs != 0 && now >= e.expireMs
  }

  function Live(d: Dict, key: bytes, now: u64): Slot {
    if key in d && !Expired(d[key], now) then Some(d[key]) else None
  }

  /** What is stored for a key, expired or not. */
  function At(d: Dict, key: bytes): Slot {
    if key in d then Some(d[key]) else None
  }

  function Place(d: Dict, key: bytes, slot: Slot): Dict {
    match slot
    case None => d - {key}
    case Some(e) => d[key := e]
  }

  lemma PlaceTwice(d: Dict, key: bytes, first: Slot, second: Slot)
    ensures Place(Place(d, key, first), key, second) == Place(d, key, second)
  {
  }

  /** A 64-bit unsigned number reinterpreted as signed. */
  function AsI64(n: u64): i64 {
    if n < U63 then n else n - U64
  }

  // ---- Strings and keys -----------------------------------------------------

  function GetOf(slot: Slot): Result<Option<bytes>> {
    match slot
    case None => Ok(None)
    case Some(e) => if e.value.Str? then Ok(Some(e.value.text)) else WrongType
  }

  function TypeOf(slot: Slot): string {
    match slot
    case None => "none"
    case Some(e) =>
      match e.value
      case Str(_) => "string"
      case Hash(_, _) => "hash"
      case Set(_) => "set"
      case ZSet(_) => "zset"
      case List(_, _) => "list"
  }

  function ExpireAt(slot: Slot, deadline: u64): (Slot, bool) {
    match slot
    case None => (None, false)
    case Some(e) => (Some(e.(expireMs := deadline)), true)
  }

  function PTtl(slot: Slot, later: u64): i64 {
    match slot
    case None => -2
    case Some(e) => if e.expireMs == 0 then -1 else AsI64(if later < e.expireMs then e.expireMs - later else 0)
  }

  // ---- Hashes -----------------------------------------------------------------

  function Assign(fields: map<bytes, bytes>, pairs: seq<(bytes, bytes)>): map<bytes, bytes> {
    if pairs == [] then fields
    else Assign(fields, pairs[..|pairs| - 1])[pairs[|pairs| - 1].0 := pairs[|pairs| - 1].1]
  }

  /** How many of the arguments name a field outside (`present` false) or inside (`present`) `fields`. */
  function Mentions(fields: set<bytes>, names: seq<bytes>, present: bool): (n: nat)
    ensures n <= |names|
  {
    if names == [] then 0
    else Mentions(fields, names[..|names| - 1], present) + (if (names[|names| - 1] in fields) == present then 1 else 0)
  }

  function Names(pairs: seq<(bytes, bytes)>): (names: seq<bytes>)
    ensures |names| == |pairs|
  {
    seq(|pairs|, i requires 0 <= i < |pairs| => pairs[i].0)
  }

  /** Room for `n` more members below the 32-bit member count. */
  ghost predicate Fits(slot: Slot, n: nat) {
    match slot
    case None => n < U32
    case Some(e) =>
      match e.value
      case Hash(_, count) => count + n < U32
      case Set(members) => |members| + n < U32
      case ZSet(scores) => |scores| + n < U32
      case _ => true
  }

  function HSet(slot: Slot, pairs: seq<(bytes, bytes)>): (Slot, Result<int>)
    requires Fits(slot, |pairs|)
  {
    var e := slot.GetOr(Entry(Hash(map[], 0), 0));
    if !e.value.Hash? then (slot, WrongType)
    else
      var created := Mentions(e.value.fields.Keys, Names(pairs), false);
      (Some(e.(value := Hash(Assign(e.value.fields, pairs), e.value.count + created))), Ok(created))
  }

  function HGet(slot: Slot, field: bytes): Result<Option<bytes>> {
    match slot
    case None => Ok(None)
    case Some(e) =>
      if !e.value.Hash? then WrongType
      else if field in e.value.fields then Ok(Some(e.value.fields[field]))
      else Ok(None)
  }

  ghost function HGetAll(slot: Slot): Result<seq<(bytes, bytes)>> {
    match slot
    case None => Ok([])
    case Some(e) => if e.value.Hash? then Ok(ByField(e.value.fields)) else WrongType
  }

  /** All entries of a map in ascending order of their keys. */
  ghost function ByField(fields: map<bytes, bytes>): (items: seq<(bytes, bytes)>)
    ensures |items| == |fields|
  {
    var names := SortedKeys(fields.Keys);
    assert forall f :: f in names ==> f in fields;
    seq(|names|, i requires 0 <= i < |names| => (names[i], fields[names[i]]))
  }

  function HDel(slot: Slot, names: seq<bytes>): (Slot, Result<int>) {
    match slot
    case None => (None, Ok(0))
    case Some(e) =>
      if !e.value.Hash? then (slot, WrongType)
      else
        var removed := Mentions(e.value.fields.Keys, names, true);
        var count := Max(0, e.value.count - removed);
        if removed == 0 then (slot, Ok(0))
        else if count == 0 then (None, Ok(removed))
        else (Some(e.(value := Hash(e.value.fields - ToSet(names), count))), Ok(removed))
  }

  function ToSet(s: seq<bytes>): set<bytes> {
    set x | x in s
  }

  // ---- Sets -------------------------------------------------------------------

  function SAdd(slot: Slot, members: seq<bytes>): (Slot, Result<int>) {
    var e := slot.GetOr(Entry(Set({}), 0));
    if !e.value.Set? then (slot, WrongType)
    else (Some(e.(value := Set(e.value.members + ToSet(members)))), Ok(|ToSet(members) - e.value.members|))
  }

  function SRem(slot: Slot, members: seq<bytes>): (Slot, Result<int>) {
    match slot
    case None => (None, Ok(0))
    case Some(e) =>
      if !e.value.Set? then (slot, WrongType)
      else
        var rest := e.value.members - ToSet(members);
        (if rest == {} then None else Some(e.(value := Set(rest))), Ok(|e.value.members * ToSet(members)|))
  }

  function SIsMember(slot: Slot, member: bytes): Result<bool> {
    match slot
    case None => Ok(false)
    case Some(e) => if e.value.Set? then Ok(member in e.value.members) else WrongType
  }

  ghost function SMembers(slot: Slot): Result<seq<bytes>> {
    match slot
    case None => Ok([])
    case Some(e) => if e.value.Set? then Ok(SortedKeys(e.value.members)) else WrongType
  }

  // ---- Sorted sets --------------------------------------------------------------

  /** The last score given to each member. */
  function LastScores(pairs: seq<(u64, bytes)>): map<bytes, u64> {
    if pairs == [] then map[]
    else LastScores(pairs[..|pairs| - 1])[pairs[|pairs| - 1].1 := pairs[|pairs| - 1].0]
  }

  /** A member whose new score is numerically equal keeps the score it has. */
  function Rescore(scores: map<bytes, u64>, updates: map<bytes, u64>): map<bytes, u64> {
    map m | m in scores.Keys + updates.Keys ::
      if m in updates && !(m in scores && ScoreEq(scores[m], updates[m])) then updates[m] else scores[m]
  }

  function ZAdd(slot: Slot, pairs: seq<(u64, bytes)>): (Slot, Result<int>) {
    var e := slot.GetOr(Entry(ZSet(map[]), 0));
    if !e.value.ZSet? then (slot, WrongType)
    else
      var updates := LastScores(pairs);
      (Some(e.(value := ZSet(Rescore(e.value.scores, updates)))), Ok(|updates.Keys - e.value.scores.Keys|))
  }

  function ZScore(slot: Slot, member: bytes): Result<Option<u64>> {
    match slot
    case None => Ok(None)
    case Some(e) =>
      if !e.value.ZSet? then WrongType
      else if member in e.value.scores then Ok(Some(e.value.scores[member]))
      else Ok(None)
  }

  function ZRem(slot: Slot, members: seq<bytes>): (Slot, Result<int>) {
    match slot
    case None => (None, Ok(0))
    case Some(e) =>
      if !e.value.ZSet? then (slot, WrongType)
      else
        var rest := e.value.scores - ToSet(members);
        (if rest == map[] then None else Some(e.(value := ZSet(rest))), Ok(|e.value.scores.Keys * ToSet(members)|))
  }

  predicate RankLess(a: (bytes, u64), b: (bytes, u64)) {
    TotalRank(a.1) < TotalRank(b.1) || (a.1 == b.1 && LexLess(a.0, b.0))
  }

  lemma RankIsStrictTotal()
    ensures StrictTotal(RankLess)
  {
    LexIsStrictTotal();
  }

  /** Members with their scores by ascending score, ties by member. */
  ghost function Ranking(scores: map<bytes, u64>): (items: seq<(bytes, u64)>)
    ensures Lists(RankLess, items, scores.Items) && |items| == |scores.Items|
  {
    RankIsStrictTotal();
    SortBy(RankLess, scores.Items)
  }

  predicate InScoreRange(score: u64, min: u64, minExclusive: bool, max: u64, maxExclusive: bool) {
    && !ScoreLess(score, min) && !(minExclusive && ScoreEq(score, min))
    && !ScoreLess(max, score) && !(maxExclusive && ScoreEq(score, max))
  }

  function WithinScores(items: seq<(bytes, u64)>, min: u64, minExclusive: bool, max: u64,
      maxExclusive: bool): seq<(bytes, u64)> {
    if items == [] then []
    else
      var last := items[|items| - 1];
      WithinScores(items[..|items| - 1], min, minExclusive, max, maxExclusive)
      + (if InScoreRange(last.1, min, minExclusive, max, maxExclusive) then [last] else [])
  }

  ghost function ZRange(slot: Slot, start: i64, stop: i64): Result<seq<(bytes, u64)>> {
    match slot
    case None => Ok([])
    case Some(e) => if e.value.ZSet? then Ok(Slice(Ranking(e.value.scores), start, stop)) else WrongType
  }

  ghost function ZRangeByScore(slot: Slot, min: u64, minExclusive: bool, max: u64,
      maxExclusive: bool): Result<seq<(bytes, u64)>> {
    match slot
    case None => Ok([])
    case Some(e) =>
      if e.value.ZSet? then Ok(WithinScores(Ranking(e.value.scores), min, minExclusive, max, maxExclusive))
      else WrongType
  }

  // ---- Inclusive ranges ---------------------------------------------------------

  /** A rank argument as an offset: negative ranks count from the end. */
  function Offset(rank: i64, len: int): int {
    if rank < 0 then rank + len else rank
  }

  /** The elements whose offset lies between the two ranks. */
  function Slice<T>(s: seq<T>, start: i64, stop: i64): seq<T> {
    var lo := Max(0, Offset(start, |s|));
    var hi := Min(|s|, Offset(stop, |s|) + 1);
    if lo < hi then s[lo..hi] else []
  }

  predicate Selects(offset: int, start: i64, stop: i64, len: i64) {
    0 <= offset < len && Offset(start, len) <= offset <= Offset(stop, len)
  }

  /** The inclusive offsets a rank range selects out of `len` elements, if it selects any. */
  function NormalizeRange(start: i64, stop: i64, len: i64): Option<(int, int)> {
    if len <= 0 then None
    else
      var lo := Max(if start < 0 then start + len else start, 0);
      var hi := Min(if stop < 0 then stop + len else stop, len - 1);
      if lo > hi then None else Some((lo, hi))
  }

  /** The normalized bounds enclose exactly the offsets that the two ranks select. */
  lemma NormalizeRangeSelects(start: i64, stop: i64, len: i64)
    ensures NormalizeRange(start, stop, len).None? <==> forall i :: !Selects(i, start, stop, len)
    ensures NormalizeRange(start, stop, len).Some? ==>
              forall i :: Selects(i, start, stop, len) <==>
                          NormalizeRange(start, stop, len).value.0 <= i <= NormalizeRange(start, stop, len).value.1
  {
    var r := NormalizeRange(start, stop, len);
    assert r.Some? ==> Selects(r.value.0, start, stop, len);
  }

  lemma SliceIs<T>(s: seq<T>, start: i64, stop: i64)
    requires |s| < U63
    ensures var r := NormalizeRange(start, stop, |s|);
            && (r.None? ==> Slice(s, start, stop) == [])
            && (r.Some? ==> 0 <= r.value.0 <= r.value.1 < |s| && Slice(s, start, stop) == s[r.value.0..r.value.1 + 1])
  {
  }

  // ---- Lists ----------------------------------------------------------------------

  function Reverse(s: seq<bytes>): (r: seq<bytes>)
    ensures |r| == |s|
  {
    if s == [] then [] else [s[|s| - 1]] + Reverse(s[..|s| - 1])
  }

  ghost predicate PushFits(slot: Slot, n: nat, left: bool) {
    var (len, head) :=
      if slot.Some? && slot.value.value.List? then (|slot.value.value.items|, slot.value.value.head)
      else (0, LIST_INITIAL_INDEX);
    len + n < U63 && (if left then n <= head else head + len + n < U64)
  }

  function Push(slot: Slot, values: seq<bytes>, left: bool): (Slot, Result<int>)
    requires PushFits(slot, |values|, left)
  {
    var e := slot.GetOr(Entry(List([], LIST_INITIAL_INDEX), 0));
    if !e.value.List? then (slot, WrongType)
    else
      var list := Pushed(e.value.items, e.value.head, values, left);
      (Some(e.(value := list)), Ok(|list.items|))
  }

  /** Pushing on the left puts the last argument first. */
  function Pushed(items: seq<bytes>, head: u64, values: seq<bytes>, left: bool): (list: Value)
    requires left ==> |values| <= head
    ensures list.List? && |list.items| == |items| + |values|
  {
    if left then List(Reverse(values) + items, head - |values|) else List(items + values, head)
  }

  function Pop(slot: Slot, count: u64, left: bool): (Slot, Result<seq<bytes>>)
  {
    match slot
    case None => (None, Ok([]))
    case Some(e) =>
      if !e.value.List? then (slot, WrongType)
      else
        var items := e.value.items;
        var n := Min(count, |items|);
        var rest := List(Rest(items, n, left), if left then (e.value.head + n) % U64 else e.value.head);
        (if rest.items == [] then None else Some(e.(value := rest)), Ok(Taken(items, n, left)))
  }

  /** The first `n` elements popped from one end, in popping order, and what stays. */
  function Taken(items: seq<bytes>, n: nat, left: bool): (out: seq<bytes>)
    requires n <= |items|
    ensures |out| == n
  {
    if left then items[..n] else Reverse(items[|items| - n..])
  }

  function Rest(items: seq<bytes>, n: nat, left: bool): (rest: seq<bytes>)
    requires n <= |items|
    ensures |rest| == |items| - n
  {
    if left then items[n..] else items[..|items| - n]
  }

  function LRange(slot: Slot, start: i64, stop: i64): Result<seq<bytes>> {
    match slot
    case None => Ok([])
    case Some(e) => if e.value.List? then Ok(Slice(e.value.items, start, stop)) else WrongType
  }

  // ---- Sizes ------------------------------------------------------------------------

  function HLen(slot: Slot): Result<int> {
    match slot
    case None => Ok(0)
    case Some(e) => if e.value.Hash? then Ok(e.value.count) else WrongType
  }

  function SCard(slot: Slot): Result<int> {
    match slot
    case None => Ok(0)
    case Some(e) => if e.value.Set? then Ok(|e.value.members|) else WrongType
  }

  function ZCard(slot: Slot): Result<int> {
    match slot
    case None => Ok(0)
    case Some(e) => if e.value.ZSet? then Ok(|e.value.scores|) else WrongType
  }

  function LLen(slot: Slot): Result<int> {
    match slot
    case None => Ok(0)
    case Some(e) => if e.value.List? then Ok(|e.value.items|) else WrongType
  }
}
