/** That the check for UTF-8 accepts exactly the texts that encode Unicode scalar values (RFC 3629). */
module Unicode {
  import opened Common
  import opened Text

  /** A code point that is no surrogate. */
  type Scalar = c: int | 0 <= c < 0xD800 || 0xE000 <= c < 0x11_0000

  function Utf8(c: Scalar): (s: bytes)
    ensures 0 < |s| <= 4
  {
    if c < 0x80 then [c]
    else if c < 0x800 then [0xC0 + c / 0x40, 0x80 + c % 0x40]
    else if c < 0x1_0000 then [0xE0 + c / 0x1000, 0x80 + c / 0x40 % 0x40, 0x80 + c % 0x40]
    else [0xF0 + c / 0x4_0000, 0x80 + c / 0x1000 % 0x40, 0x80 + c / 0x40 % 0x40, 0x80 + c % 0x40]
  }

  function Utf8All(text: seq<Scalar>): bytes {
    if text == [] then [] else Utf8(text[0]) + Utf8All(text[1..])
  }

  lemma CharEncodes(c: Scalar, rest: bytes)
    ensures CharLength(Utf8(c) + rest) == |Utf8(c)|
  {
    var s := Utf8(c) + rest;
    assert forall i :: 0 <= i < |Utf8(c)| ==> s[i] == Utf8(c)[i];
  }

  lemma SixBits(high: int, low: int)
    requires 0 <= low < 0x40
    ensures (0x40 * high + low) / 0x40 == high && (0x40 * high + low) % 0x40 == low
  {
  }

  /** Two continuation bytes behind the bits `a`. */
  lemma TwelveBits(a: int, b: int, d: int)
    requires 0 <= b < 0x40 && 0 <= d < 0x40
    ensures var c := 0x40 * (0x40 * a + b) + d; c / 0x1000 == a && c / 0x40 % 0x40 == b && c % 0x40 == d
  {
    SixBits(a, b);
    SixBits(0x40 * a + b, d);
  }

  lemma EighteenBits(a: int, b: int, d: int, e: int)
    requires 0 <= b < 0x40 && 0 <= d < 0x40 && 0 <= e < 0x40
    ensures var c := 0x40 * (0x40 * (0x40 * a + b) + d) + e;
            c / 0x4_0000 == a && c / 0x1000 % 0x40 == b && c / 0x40 % 0x40 == d && c % 0x40 == e
  {
    TwelveBits(0x40 * a + b, d, e);
    SixBits(a, b);
  }

  /** The scalar value a character encodes. */
  lemma CharDecodes(s: bytes) returns (c: Scalar)
    requires CharLength(s) > 0
    ensures Utf8(c) == s[..CharLength(s)]
  {
    match CharLength(s)
    case 1 => c := s[0];
    case 2 => c := TwoDecode(s);
    case 3 => c := ThreeDecode(s);
    case _ => c := FourDecode(s);
  }

  lemma TwoDecode(s: bytes) returns (c: Scalar)
    requires CharLength(s) == 2
    ensures Utf8(c) == s[..2]
  {
    var high: int, low: int := s[0] - 0xC0, s[1] - 0x80;
    SixBits(high, low);
    c := 0x40 * high + low;
  }

  lemma ThreeDecode(s: bytes) returns (c: Scalar)
    requires CharLength(s) == 3
    ensures Utf8(c) == s[..3]
  {
    var a: int, b: int, d: int := s[0] - 0xE0, s[1] - 0x80, s[2] - 0x80;
    TwelveBits(a, b, d);
    c := 0x40 * (0x40 * a + b) + d;
  }

  lemma FourDecode(s: bytes) returns (c: Scalar)
    requires CharLength(s) == 4
    ensures Utf8(c) == s[..4]
  {
    var a: int, b: int, d: int, e: int := s[0] - 0xF0, s[1] - 0x80, s[2] - 0x80, s[3] - 0x80;
    EighteenBits(a, b, d, e);
    c := 0x40 * (0x40 * (0x40 * a + b) + d) + e;
  }

  /** A byte string is valid if and only if it is the encoding of some text. */
  lemma {:induction false} ValidUtf8Iff(s: bytes)
    ensures ValidUtf8(s) <==> exists text :: Utf8All(text) == s
  {
    forall text ensures ValidUtf8(Utf8All(text)) {
      EncodedIsValid(text);
    }
    if ValidUtf8(s) {
      var text := ValidIsEncoded(s);
    }
  }

  lemma {:induction false} EncodedIsValid(text: seq<Scalar>)
    ensures ValidUtf8(Utf8All(text))
  {
    hide CharLength, Utf8;
    if text != [] {
      EncodedIsValid(text[1..]);
      CharEncodes(text[0], Utf8All(text[1..]));
      assert Utf8All(text)[|Utf8(text[0])|..] == Utf8All(text[1..]);
    }
  }

  lemma {:induction false} ValidIsEncoded(s: bytes) returns (text: seq<Scalar>)
    requires ValidUtf8(s)
    ensures Utf8All(text) == s
  {
    hide CharLength, Utf8;
    text := [];
    if s != [] {
      var c := CharDecodes(s);
      var more := ValidIsEncoded(s[CharLength(s)..]);
      text := [c] + more;
      assert text[1..] == more;
    }
  }
}
