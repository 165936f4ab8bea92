/** Big-endian integers and the byte order in which the engine keeps its records. */
module ByteOrder {
  import opened Common
  import opened Sorting

  // ---- Big-endian integers ------------------------------------------------

  function Pow256(w: nat): (r: nat)
    ensures r > 0
  {
    if w == 0 then 1 else 256 * Pow256(w - 1)
  }

  /** The low `w` bytes of `n`, most significant first. */
  function Be(n: nat, w: nat): (r: bytes)
    ensures |r| == w
  {
    if w == 0 then [] else Be(n / 256, w - 1) + [n % 256]
  }

  function FromBe(b: bytes): (n: nat)
    ensures n < Pow256(|b|)
  {
    if b == [] then 0 else FromBe(b[..|b| - 1]) * 256 + b[|b| - 1]
  }

  lemma {:induction false} FromBeOfBe(n: nat, w: nat)
    requires n < Pow256(w)
    ensures FromBe(Be(n, w)) == n
  {
    if w > 0 {
      FromBeOfBe(n / 256, w - 1);
      assert Be(n, w)[..w - 1] == Be(n / 256, w - 1);
    }
  }

  lemma {:induction false} BeOfFromBe(b: bytes)
    ensures Be(FromBe(b), |b|) == b
  {
    if b != [] {
      BeOfFromBe(b[..|b| - 1]);
      assert b == b[..|b| - 1] + [b[|b| - 1]];
    }
  }

  lemma Widths()
    ensures Pow256(4) == U32 && Pow256(8) == U64
  {
    assert Pow256(1) == 256 && Pow256(2) == 0x1_0000 && Pow256(3) == 0x100_0000;
    assert Pow256(4) == U32;
    assert Pow256(5) == 0x100_0000_0000 && Pow256(6) == 0x1_0000_0000_0000;
    assert Pow256(7) == 0x100_0000_0000_0000;
  }

  function Be32(n: u32): (r: bytes)
    ensures |r| == 4 && FromBe(r) == n
  {
    Widths();
    FromBeOfBe(n, 4);
    Be(n, 4)
  }

  function Be64(n: u64): (r: bytes)
    ensures |r| == 8 && FromBe(r) == n
  {
    Widths();
    FromBeOfBe(n, 8);
    Be(n, 8)
  }

  function FromBe32(b: bytes): (n: u32)
    requires |b| == 4
    ensures Be32(n) == b
  {
    Widths();
    BeOfFromBe(b);
    FromBe(b)
  }

  function FromBe64(b: bytes): (n: u64)
    requires |b| == 8
    ensures Be64(n) == b
  {
    Widths();
    BeOfFromBe(b);
    FromBe(b)
  }

  // ---- Lexicographic order ------------------------------------------------

  predicate LexLess(a: bytes, b: bytes) {
    if b == [] then false
    else if a == [] then true
    else a[0] < b[0] || (a[0] == b[0] && LexLess(a[1..], b[1..]))
  }

  lemma {:induction false} LexIrreflexive(a: bytes)
    ensures !LexLess(a, a)
  {
    if a != [] {
      LexIrreflexive(a[1..]);
    }
  }

  lemma {:induction false} LexTransitive(a: bytes, b: bytes, c: bytes)
    requires LexLess(a, b) && LexLess(b, c)
    ensures LexLess(a, c)
  {
    if a != [] && a[0] == b[0] == c[0] {
      LexTransitive(a[1..], b[1..], c[1..]);
    }
  }

  lemma {:induction false} LexConnected(a: bytes, b: bytes)
    ensures a == b || LexLess(a, b) || LexLess(b, a)
  {
    if a != [] && b != [] && a[0] == b[0] {
      LexConnected(a[1..], b[1..]);
      assert a == [a[0]] + a[1..] && b == [b[0]] + b[1..];
    }
  }

  lemma LexAsymmetric(a: bytes, b: bytes)
    ensures a == b || LexLess(b, a) ==> !LexLess(a, b)
  {
    LexIrreflexive(a);
    if LexLess(a, b) && LexLess(b, a) {
      LexTransitive(a, b, a);
    }
  }

  lemma LexNotBelow(a: bytes, b: bytes, c: bytes)
    requires LexLess(a, b) && !LexLess(a, c)
    ensures !LexLess(b, c)
  {
    if LexLess(b, c) {
      LexTransitive(a, b, c);
    }
  }

  /** A shared prefix does not influence the order. */
  lemma {:induction false} LexAfterPrefix(p: bytes, a: bytes, b: bytes)
    ensures LexLess(p + a, p + b) <==> LexLess(a, b)
  {
    if p == [] {
      assert p + a == a && p + b == b;
    } else {
      LexAfterPrefix(p[1..], a, b);
      HeadFirst(p, a);
      HeadFirst(p, b);
      LexStep(p[0], p[1..] + a, p[1..] + b);
    }
  }

  lemma HeadFirst(p: bytes, a: bytes)
    requires p != []
    ensures p + a == [p[0]] + (p[1..] + a)
  {
  }

  lemma LexStep(c: byte, a: bytes, b: bytes)
    ensures LexLess([c] + a, [c] + b) <==> LexLess(a, b)
  {
    assert ([c] + a)[1..] == a && ([c] + b)[1..] == b;
  }

  /** Two heads of equal length decide the order unless they are equal. */
  lemma {:induction false} LexByHead(a: bytes, b: bytes, x: bytes, y: bytes)
    requires |a| == |b|
    ensures LexLess(a + x, b + y) <==> LexLess(a, b) || (a == b && LexLess(x, y))
  {
    if a == [] {
      assert a + x == x && b + y == y;
    } else {
      LexByHead(a[1..], b[1..], x, y);
      assert (a + x)[1..] == a[1..] + x && (b + y)[1..] == b[1..] + y;
      assert a == [a[0]] + a[1..] && b == [b[0]] + b[1..];
    }
  }

  /** Records sharing a prefix lie together, right after the prefix itself. */
  lemma {:induction false} PrefixRun(p: bytes, a: bytes, k: bytes)
    requires p <= a
    requires !LexLess(k, p) && LexLess(k, a)
    ensures p <= k
  {
    if p != [] && k != [] {
      assert p[0] == a[0] == k[0];
      PrefixRun(p[1..], a[1..], k[1..]);
      assert k == [k[0]] + k[1..] && p == [p[0]] + p[1..];
    }
  }

  lemma {:induction false} PrefixNotAbove(p: bytes, a: bytes)
    requires p <= a
    ensures !LexLess(a, p)
  {
    if p != [] {
      PrefixNotAbove(p[1..], a[1..]);
    }
  }

  /** Fixed-width big-endian integers sort in numeric order. */
  lemma {:induction false} BeOrder(m: nat, n: nat, w: nat)
    requires m < Pow256(w) && n < Pow256(w)
    ensures LexLess(Be(m, w), Be(n, w)) <==> m < n
  {
    if w > 0 {
      var a, b := Be(m / 256, w - 1), Be(n / 256, w - 1);
      BeOrder(m / 256, n / 256, w - 1);
      LexByHead(a, b, [m % 256], [n % 256]);
      assert LexLess([m % 256], [n % 256]) <==> m % 256 < n % 256;
      assert a == b <==> m / 256 == n / 256 by {
        FromBeOfBe(m / 256, w - 1);
        FromBeOfBe(n / 256, w - 1);
      }
    }
  }

  lemma LexIsStrictTotal()
    ensures StrictTotal(LexLess)
  {
    forall x: bytes ensures !LexLess(x, x) { LexIrreflexive(x); }
    forall x: bytes, y: bytes, z: bytes | LexLess(x, y) && LexLess(y, z) ensures LexLess(x, z) {
      LexTransitive(x, y, z);
    }
    forall x: bytes, y: bytes ensures x == y || LexLess(x, y) || LexLess(y, x) { LexConnected(x, y); }
  }

  /** A set of byte strings in ascending order. */
  ghost function SortedKeys(keys: set<bytes>): (s: seq<bytes>)
    ensures |s| == |keys|
    ensures forall k :: k in s <==> k in keys
  {
    LexIsStrictTotal();
    SortBy(LexLess, keys)
  }

  lemma SortedKeysLists(keys: set<bytes>)
    ensures Lists(LexLess, SortedKeys(keys), keys)
  {
    LexIsStrictTotal();
  }

  lemma SortedKeysUnique(s: seq<bytes>, keys: set<bytes>)
    requires Lists(LexLess, s, keys)
    ensures s == SortedKeys(keys)
  {
    LexIsStrictTotal();
    SortedKeysLists(keys);
    ListingIsUnique(LexLess, s, SortedKeys(keys), keys);
  }
}
