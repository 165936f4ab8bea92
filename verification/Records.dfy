/** The flat record map, write batches replayed over it, and the records below one prefix. */
module Records {
  import opened Common

  type Db = map<bytes, bytes>

  datatype WriteOp = Put(key: bytes, value: bytes) | Delete(key: bytes)

  function ApplyOp(d: Db, op: WriteOp): Db {
    match op
    case Put(key, value) => d[key := value]
    case Delete(key) => d - {key}
  }

  /** Replays a batch in order. */
  function ApplyOps(d: Db, ops: seq<WriteOp>): Db {
    if ops == [] then d else ApplyOp(ApplyOps(d, ops[..|ops| - 1]), ops[|ops| - 1])
  }

  lemma ApplySnoc(d: Db, ops: seq<WriteOp>, op: WriteOp)
    ensures ApplyOps(d, ops + [op]) == ApplyOp(ApplyOps(d, ops), op)
  {
    assert (ops + [op])[..|ops|] == ops;
  }

  lemma {:induction false} ApplyConcat(d: Db, ops: seq<WriteOp>, more: seq<WriteOp>)
    ensures ApplyOps(d, ops + more) == ApplyOps(ApplyOps(d, ops), more)
  {
    if more == [] {
      assert ops + more == ops;
    } else {
      var init := more[..|more| - 1];
      ApplyConcat(d, ops, init);
      assert (ops + more)[..|ops + more| - 1] == ops + init;
    }
  }

  // ---- Tables: the records below a prefix, keyed by suffix ------------------

  function Suffixes(d: Db, p: bytes): set<bytes> {
    set raw | raw in d && p <= raw :: raw[|p|..]
  }

  lemma SuffixIff(d: Db, p: bytes, s: bytes)
    ensures s in Suffixes(d, p) <==> p + s in d
  {
    if p + s in d {
      assert p <= p + s && (p + s)[|p|..] == s;
    }
    if s in Suffixes(d, p) {
      var raw :| raw in d && p <= raw && raw[|p|..] == s;
      assert raw == p + s;
    }
  }

  function Under(d: Db, p: bytes): (t: Db)
    ensures forall s :: s in t <==> p + s in d
    ensures forall s :: s in t ==> t[s] == d[p + s]
  {
    assert forall s :: s in Suffixes(d, p) <==> p + s in d by {
      forall s { SuffixIff(d, p, s); }
    }
    map s | s in Suffixes(d, p) :: d[p + s]
  }

  function ApplyBelow(t: Db, op: WriteOp, p: bytes): Db {
    if !(p <= op.key) then t
    else match op
      case Put(key, value) => t[key[|p|..] := value]
      case Delete(key) => t - {key[|p|..]}
  }

  /** A batch as seen by the table below one prefix. */
  function ApplyTable(t: Db, ops: seq<WriteOp>, p: bytes): Db {
    if ops == [] then t else ApplyBelow(ApplyTable(t, ops[..|ops| - 1], p), ops[|ops| - 1], p)
  }

  lemma TableSnoc(t: Db, ops: seq<WriteOp>, op: WriteOp, p: bytes)
    ensures ApplyTable(t, ops + [op], p) == ApplyBelow(ApplyTable(t, ops, p), op, p)
  {
    assert (ops + [op])[..|ops|] == ops;
  }

  lemma SuffixOfKey(p: bytes, s: bytes, key: bytes)
    ensures p + s == key <==> p <= key && s == key[|p|..]
  {
    if p <= key {
      assert key == p + key[|p|..];
    }
  }

  lemma UnderApplyOp(d: Db, op: WriteOp, p: bytes)
    ensures Under(ApplyOp(d, op), p) == ApplyBelow(Under(d, p), op, p)
  {
    var after, want := ApplyOp(d, op), ApplyBelow(Under(d, p), op, p);
    forall s ensures p + s in after <==> s in want
             ensures s in want ==> after[p + s] == want[s]
    {
      SuffixOfKey(p, s, op.key);
      assert s in Under(d, p) <==> p + s in d;
    }
    assert forall s :: s in Under(after, p) <==> p + s in after;
  }

  lemma {:induction false} UnderApply(d: Db, ops: seq<WriteOp>, p: bytes)
    ensures Under(ApplyOps(d, ops), p) == ApplyTable(Under(d, p), ops, p)
  {
    if ops != [] {
      UnderApply(d, ops[..|ops| - 1], p);
      UnderApplyOp(ApplyOps(d, ops[..|ops| - 1]), ops[|ops| - 1], p);
    }
  }
}
