/** Values shared by the storage engine and the protocol codec. */
module Common {

  datatype Option<+T> = None | Some(value: T) {
    function GetOr(default: T): T {
      if Some? then value else default
    }
  }

  /** Machine integers; a value outside the range cannot be stored in one of these. */
  const U32: int := 0x1_0000_0000
  const U63: int := 0x8000_0000_0000_0000
  const U64: int := 0x1_0000_0000_0000_0000

  type byte = b: int | 0 <= b < 256
  type u32 = n: int | 0 <= n < U32
  type u64 = n: int | 0 <= n < U64
  type i64 = n: int | -U63 <= n < U63

  type bytes = seq<byte>

  function Max(a: int, b: int): int {
    if a < b then b else a
  }

  function Min(a: int, b: int): int {
    if a < b then a else b
  }

  lemma ConsParts<T>(x: T, s: seq<T>)
    ensures ([x] + s)[0] == x && ([x] + s)[1..] == s
  {
  }

  lemma SameSeq<T>(a: seq<T>, b: seq<T>)
    requires |a| == |b| && forall i :: 0 <= i < |a| ==> a[i] == b[i]
    ensures a == b
  {
  }
}
