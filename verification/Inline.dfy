/** Inline commands: splitting a line into arguments, with quotes and escapes. */
module Inline {
  import opened Common
  import opened Text

  const QUOTE: byte := '\"' as int
  const TICK: byte := '\'' as int
  const SLASH: byte := '\\' as int

  predicate IsSpace(b: byte) {
    b == 32 || b == 9 || b == CR || b == LF || b == 0x0b || b == 0x0c
  }

  predicate IsHex(b: byte) {
    IsDigit(b) || Within(b, 'a' as int, 'f' as int) || Within(b, 'A' as int, 'F' as int)
  }

  function HexVal(b: byte): (v: byte)
    ensures v < 16
  {
    if IsDigit(b) then b - 48
    else if Within(b, 'a' as int, 'f' as int) then b - 'a' as int + 10
    else if Within(b, 'A' as int, 'F' as int) then b - 'A' as int + 10
    else 0
  }

  /** The byte an escape stands for, and how far it reaches past its backslash. */
  function Unescape(line: bytes, i: nat): (r: (byte, nat))
    requires i < |line|
    ensures 0 < r.1 <= |line| - i
  {
    var c := line[i];
    if c == 'x' as int && i + 2 < |line| && IsHex(line[i + 1]) && IsHex(line[i + 2]) then
      (HexVal(line[i + 1]) * 16 + HexVal(line[i + 2]), 3)
    else if c == 'n' as int then (LF, 1)
    else if c == 'r' as int then (CR, 1)
    else if c == 't' as int then (9, 1)
    else if c == 'b' as int then (8, 1)
    else if c == 'a' as int then (7, 1)
    else (c, 1)
  }

  // ---- Tokens -----------------------------------------------------------------------------

  /** A token and the position past it; none if its quotes do not close, or close inside a word. */
  type Token = Option<(bytes, nat)>

  function Prefixed(text: bytes, t: Token): Token {
    if t.Some? then Some((text + t.value.0, t.value.1)) else None
  }

  function Closing(line: bytes, i: nat): Token
    requires i < |line|
  {
    if i + 1 < |line| && !IsSpace(line[i + 1]) then None else Some(([], i + 1))
  }

  function DoubleQuoted(line: bytes, i: nat): (t: Token)
    ensures t.Some? ==> i < t.value.1 <= |line|
    decreases |line| - i
  {
    if i >= |line| then None
    else if line[i] == QUOTE then Closing(line, i)
    else if line[i] == SLASH && i + 1 < |line| then
      var (b, width) := Unescape(line, i + 1);
      Prefixed([b], DoubleQuoted(line, i + 1 + width))
    else Prefixed([line[i]], DoubleQuoted(line, i + 1))
  }

  function SingleQuoted(line: bytes, i: nat): (t: Token)
    ensures t.Some? ==> i < t.value.1 <= |line|
    decreases |line| - i
  {
    if i >= |line| then None
    else if line[i] == TICK then Closing(line, i)
    else if line[i] == SLASH && i + 1 < |line| && line[i + 1] == TICK then Prefixed([TICK], SingleQuoted(line, i + 2))
    else Prefixed([line[i]], SingleQuoted(line, i + 1))
  }

  function Bare(line: bytes, i: nat): (t: Token)
    requires i <= |line|
    ensures t.Some? && i <= t.value.1 <= |line|
    ensures i < |line| && !IsSpace(line[i]) ==> i < t.value.1
    decreases |line| - i
  {
    if i < |line| && !IsSpace(line[i]) then Prefixed([line[i]], Bare(line, i + 1)) else Some(([], i))
  }

  function TokenAt(line: bytes, i: nat): (t: Token)
    requires i < |line| && !IsSpace(line[i])
    ensures t.Some? ==> i < t.value.1 <= |line|
  {
    if line[i] == QUOTE then DoubleQuoted(line, i + 1)
    else if line[i] == TICK then SingleQuoted(line, i + 1)
    else Bare(line, i)
  }

  function SkipSpaces(line: bytes, i: nat): (j: nat)
    requires i <= |line|
    ensures i <= j <= |line| && (j < |line| ==> !IsSpace(line[j]))
    decreases |line| - i
  {
    if i < |line| && IsSpace(line[i]) then SkipSpaces(line, i + 1) else i
  }

  /** The arguments from position `i` on; none for a syntax error. */
  function SplitAt(line: bytes, i: nat): Option<seq<bytes>>
    requires i <= |line|
    decreases |line| - i
  {
    var start := SkipSpaces(line, i);
    if start == |line| then Some([])
    else
      match TokenAt(line, start)
      case None => None
      case Some((text, next)) =>
        match SplitAt(line, next)
        case None => None
        case Some(args) => Some([text] + args)
  }

  // ---- The tokenizer as written --------------------------------------------------------------

  lemma PrefixedTwice(a: bytes, b: bytes, t: Token)
    ensures Prefixed(a, Prefixed(b, t)) == Prefixed(a + b, t)
    ensures Prefixed([], t) == t
  {
    if t.Some? {
      assert a + (b + t.value.0) == a + b + t.value.0;
      assert [] + t.value.0 == t.value.0;
    }
  }

  method ReadDoubleQuoted(line: bytes, start: nat) returns (t: Token)
    ensures t == DoubleQuoted(line, start)
  {
    hide DoubleQuoted;
    var cur: bytes, i := [], start;
    PrefixedTwice([], [], DoubleQuoted(line, start));
    while i < |line|
      invariant DoubleQuoted(line, start) == Prefixed(cur, DoubleQuoted(line, i))
    {
      DoubleStep(line, i, cur);
      if line[i] == QUOTE {
        i := i + 1;
        if i < |line| && !IsSpace(line[i]) {
          return None;
        }
        return Some((cur, i));
      } else if line[i] == SLASH && i + 1 < |line| {
        i := i + 1;
        var (b, width) := Unescape(line, i);
        cur := cur + [b];
        i := i + width;
      } else {
        cur := cur + [line[i]];
        i := i + 1;
      }
    }
    DoubleEnds(line, i);
    return None;
  }

  lemma DoubleEnds(line: bytes, i: nat)
    requires i >= |line|
    ensures DoubleQuoted(line, i) == None
  {
  }

  lemma DoubleStep(line: bytes, i: nat, cur: bytes)
    requires i < |line|
    ensures Prefixed(cur, DoubleQuoted(line, i)) ==
            if line[i] == QUOTE then
              if i + 1 < |line| && !IsSpace(line[i + 1]) then None else Some((cur, i + 1))
            else if line[i] == SLASH && i + 1 < |line| then
              Prefixed(cur + [Unescape(line, i + 1).0], DoubleQuoted(line, i + 1 + Unescape(line, i + 1).1))
            else Prefixed(cur + [line[i]], DoubleQuoted(line, i + 1))
  {
    assert cur + [] == cur;
    if line[i] == SLASH && i + 1 < |line| {
      var (b, width) := Unescape(line, i + 1);
      PrefixedTwice(cur, [b], DoubleQuoted(line, i + 1 + width));
    } else if line[i] != QUOTE {
      PrefixedTwice(cur, [line[i]], DoubleQuoted(line, i + 1));
    }
  }

  method ReadSingleQuoted(line: bytes, start: nat) returns (t: Token)
    ensures t == SingleQuoted(line, start)
  {
    var cur: bytes, i := [], start;
    PrefixedTwice([], [], SingleQuoted(line, start));
    while i < |line|
      invariant SingleQuoted(line, start) == Prefixed(cur, SingleQuoted(line, i))
    {
      if line[i] == TICK {
        i := i + 1;
        if i < |line| && !IsSpace(line[i]) {
          return None;
        }
        assert cur + [] == cur;
        return Some((cur, i));
      } else if line[i] == SLASH && i + 1 < |line| && line[i + 1] == TICK {
        PrefixedTwice(cur, [TICK], SingleQuoted(line, i + 2));
        cur := cur + [TICK];
        i := i + 2;
      } else {
        PrefixedTwice(cur, [line[i]], SingleQuoted(line, i + 1));
        cur := cur + [line[i]];
        i := i + 1;
      }
    }
    return None;
  }

  method ReadBare(line: bytes, start: nat) returns (t: Token)
    requires start <= |line|
    ensures t == Bare(line, start)
  {
    var cur: bytes, i := [], start;
    PrefixedTwice([], [], Bare(line, start));
    while i < |line| && !IsSpace(line[i])
      invariant start <= i <= |line|
      invariant Bare(line, start) == Prefixed(cur, Bare(line, i))
    {
      PrefixedTwice(cur, [line[i]], Bare(line, i + 1));
      cur := cur + [line[i]];
      i := i + 1;
    }
    assert cur + [] == cur;
    return Some((cur, i));
  }

  /** The arguments already read in front of those still to come. */
  ghost function After(args: seq<bytes>, more: Option<seq<bytes>>): Option<seq<bytes>> {
    if more.Some? then Some(args + more.value) else None
  }

  method SplitInline(line: bytes) returns (r: Option<seq<bytes>>)
    ensures r == SplitAt(line, 0)
  {
    hide DoubleQuoted, SingleQuoted, Bare;
    var args: seq<bytes>, i := [], 0;
    assert SplitAt(line, 0).Some? ==> [] + SplitAt(line, 0).value == SplitAt(line, 0).value;
    while i < |line|
      invariant i <= |line| && SplitAt(line, 0) == After(args, SplitAt(line, i))
    {
      ghost var from := i;
      while i < |line| && IsSpace(line[i])
        invariant i <= |line| && SkipSpaces(line, from) == SkipSpaces(line, i)
        invariant from <= i
      {
        i := i + 1;
      }
      if i >= |line| {
        break;
      }
      var token;
      if line[i] == QUOTE {
        token := ReadDoubleQuoted(line, i + 1);
      } else if line[i] == TICK {
        token := ReadSingleQuoted(line, i + 1);
      } else {
        token := ReadBare(line, i);
      }
      if token == None {
        return None;
      }
      AfterOne(args, token.value.0, SplitAt(line, token.value.1));
      args, i := args + [token.value.0], token.value.1;
    }
    assert args + [] == args;
    return Some(args);
  }

  lemma AfterOne(args: seq<bytes>, text: bytes, more: Option<seq<bytes>>)
    ensures After(args, After([text], more)) == After(args + [text], more)
  {
    if more.Some? {
      assert args + ([text] + more.value) == args + [text] + more.value;
    }
  }

  // ---- Spelling arguments ------------------------------------------------------------------------

  /** What stands for one byte between double quotes: itself, a backslash and a letter, or \x and two hex digits. */
  datatype Piece = Raw(b: byte) | Letter(c: byte) | Hex(high: byte, low: byte)

  function PieceBytes(p: Piece): bytes {
    match p
    case Raw(b) => [b]
    case Letter(c) => [92, c]
    case Hex(high, low) => [92, 120, high, low]
  }

  predicate HexDigit(b: byte) {
    48 <= b <= 57 || 65 <= b <= 70 || 97 <= b <= 102
  }

  function DigitValue(b: byte): (v: byte)
    requires HexDigit(b)
    ensures v < 16
  {
    if b <= 57 then b - 48 else if b <= 70 then b - 55 else b - 87
  }

  /** The byte it stands for: after a backslash, n r t b a are the control characters and every other byte is itself. */
  function Meant(p: Piece): byte
    requires p.Hex? ==> HexDigit(p.high) && HexDigit(p.low)
  {
    match p
    case Raw(b) => b
    case Letter(c) =>
      if c == 110 then 10 else if c == 114 then 13 else if c == 116 then 9 else if c == 98 then 8 else if c == 97 then 7
      else c
    case Hex(high, low) => 16 * DigitValue(high) + DigitValue(low)
  }

  function DoubleBody(pieces: seq<Piece>): (body: bytes)
    ensures body != []
  {
    if pieces == [] then [34] else PieceBytes(pieces[0]) + DoubleBody(pieces[1..])
  }

  /** A quote and a backslash do not stand for themselves, and \x is a letter only where no two hex digits follow. */
  predicate Stands(p: Piece, rest: bytes) {
    match p
    case Raw(b) => b != 34 && b != 92
    case Letter(c) => c == 120 ==> !(|rest| >= 2 && HexDigit(rest[0]) && HexDigit(rest[1]))
    case Hex(high, low) => HexDigit(high) && HexDigit(low)
  }

  predicate AllStand(pieces: seq<Piece>) {
    forall i :: 0 <= i < |pieces| ==> Stands(pieces[i], DoubleBody(pieces[i + 1..]))
  }

  function AllMeant(pieces: seq<Piece>): (text: bytes)
    requires AllStand(pieces)
    ensures |text| == |pieces|
  {
    assert forall i :: 0 <= i < |pieces| ==> Stands(pieces[i], DoubleBody(pieces[i + 1..]));
    seq(|pieces|, i requires 0 <= i < |pieces| => Meant(pieces[i]))
  }

  /** The ways to write one argument. */
  datatype Spelling = Plain(word: bytes) | Single(quoted: bytes) | Double(pieces: seq<Piece>)

  function SingleBody(text: bytes): bytes {
    if text == [] then [39] else (if text[0] == 39 then [92, 39] else [text[0]]) + SingleBody(text[1..])
  }

  function Spelled(w: Spelling): bytes {
    match w
    case Plain(text) => text
    case Single(text) => [39] + SingleBody(text)
    case Double(pieces) => [34] + DoubleBody(pieces)
  }

  predicate White(b: byte) {
    b == 32 || 9 <= b <= 13
  }

  /** Which spellings are good: bare words hold no white space and begin with no quote. */
  predicate Spellable(w: Spelling) {
    match w
    case Plain(text) => text != [] && text[0] != 34 && text[0] != 39 && forall i :: 0 <= i < |text| ==> !White(text[i])
    case Single(text) => text != [] ==> text[|text| - 1] != 92
    case Double(pieces) => AllStand(pieces)
  }

  function TextOf(w: Spelling): bytes
    requires Spellable(w)
  {
    match w
    case Plain(text) => text
    case Single(text) => text
    case Double(pieces) => AllMeant(pieces)
  }

  predicate AllSpellable(words: seq<Spelling>) {
    forall k :: 0 <= k < |words| ==> Spellable(words[k])
  }

  /** A line of spelled arguments with white space between them. */
  function Written(words: seq<Spelling>, gaps: seq<bytes>): bytes
    requires |gaps| == |words| + 1
  {
    if words == [] then gaps[0] else gaps[0] + (Spelled(words[0]) + Written(words[1..], gaps[1..]))
  }

  predicate Blank(gap: bytes) {
    forall i :: 0 <= i < |gap| ==> White(gap[i])
  }

  predicate Separating(words: seq<Spelling>, gaps: seq<bytes>) {
    && |gaps| == |words| + 1
    && (forall i :: 0 <= i < |gaps| ==> Blank(gaps[i]))
    && (forall i :: 0 < i < |words| ==> gaps[i] != [])
  }

  function Texts(words: seq<Spelling>): (texts: seq<bytes>)
    requires AllSpellable(words)
    ensures |texts| == |words|
  {
    seq(|words|, i requires 0 <= i < |words| => TextOf(words[i]))
  }

  /** Any text can be written, byte by byte in hexadecimal. */
  function InHex(text: bytes): seq<Piece> {
    if text == [] then [] else [Hex(HexOf(text[0] / 16), HexOf(text[0] % 16))] + InHex(text[1..])
  }

  function HexOf(v: byte): byte
    requires v < 16
  {
    if v < 10 then 48 + v else 87 + v
  }

  lemma {:induction false} AnyTextIsSpellable(text: bytes)
    ensures Spellable(Double(InHex(text))) && TextOf(Double(InHex(text))) == text
  {
    if text != [] {
      AnyTextIsSpellable(text[1..]);
      var pieces := InHex(text);
      assert pieces[1..] == InHex(text[1..]);
      forall i | 0 <= i < |pieces| ensures Stands(pieces[i], DoubleBody(pieces[i + 1..])) {
        assert i > 0 ==> pieces[i] == pieces[1..][i - 1];
      }
      forall i | 0 <= i < |pieces| ensures Meant(pieces[i]) == text[i] {
        assert i > 0 ==> AllMeant(pieces[1..])[i - 1] == Meant(pieces[i]) == text[1..][i - 1];
      }
    }
  }

  // ---- Reading spellings back ---------------------------------------------------------------------

  predicate EndsAt(line: bytes, i: nat) {
    i == |line| || (i < |line| && IsSpace(line[i]))
  }

  lemma SpacesAreWhite(b: byte)
    ensures IsSpace(b) <==> White(b)
    ensures IsHex(b) <==> HexDigit(b)
    ensures HexDigit(b) ==> HexVal(b) == DigitValue(b)
  {
  }

  /** A piece at the position of a byte is read as the byte it stands for. */
  lemma PieceReads(line: bytes, i: nat, p: Piece, rest: bytes)
    requires Stands(p, rest) && rest != [] && At(line, i, PieceBytes(p) + rest)
    requires |rest| == 1 ==> !HexDigit(rest[0])
    ensures DoubleQuoted(line, i) == Prefixed([Meant(p)], DoubleQuoted(line, i + |PieceBytes(p)|))
  {
    hide DoubleQuoted, IsHex, HexVal, HexDigit, DigitValue;
    var piece := PieceBytes(p);
    AtSplits(line, i, piece, rest);
    ByteAt(line, i, piece, 0);
    ByteAt(line, i + |piece|, rest, 0);
    DoubleStep(line, i, []);
    PrefixedTwice([], [], DoubleQuoted(line, i));
    assert [] + [Meant(p)] == [Meant(p)];
    match p {
      case Raw(b) =>
      case Letter(c) =>
        ByteAt(line, i, piece, 1);
        if c == 120 {
          if |rest| >= 2 { ByteAt(line, i + 2, rest, 1); }
          LetterX(line, i + 1, rest);
        }
      case Hex(high, low) =>
        ByteAt(line, i, piece, 1);
        ByteAt(line, i, piece, 2);
        ByteAt(line, i, piece, 3);
        SpacesAreWhite(high);
        SpacesAreWhite(low);
    }
  }

  lemma LetterX(line: bytes, i: nat, rest: bytes)
    requires At(line, i + 1, rest) && rest != [] && i < |line| && line[i] == 120
    requires !(|rest| >= 2 && HexDigit(rest[0]) && HexDigit(rest[1])) && (|rest| == 1 ==> !HexDigit(rest[0]))
    ensures Unescape(line, i) == (120, 1)
  {
    hide HexDigit, IsHex, HexVal;
    ByteAt(line, i + 1, rest, 0);
    SpacesAreWhite(rest[0]);
    if |rest| >= 2 {
      ByteAt(line, i + 1, rest, 1);
      SpacesAreWhite(rest[1]);
    }
  }

  lemma BodyEnds(pieces: seq<Piece>)
    ensures var body := DoubleBody(pieces); |body| == 1 ==> body == [34]
  {
    if pieces != [] {
      assert |PieceBytes(pieces[0])| >= 1;
    }
  }

  lemma {:induction false} DoubleReads(line: bytes, i: nat, pieces: seq<Piece>)
    requires AllStand(pieces) && At(line, i, DoubleBody(pieces)) && EndsAt(line, i + |DoubleBody(pieces)|)
    ensures DoubleQuoted(line, i) == Some((AllMeant(pieces), i + |DoubleBody(pieces)|))
    decreases |pieces|
  {
    hide DoubleQuoted, Meant, Stands, AllStand, AllMeant, PieceBytes;
    if pieces == [] {
      ByteAt(line, i, [34], 0);
      DoubleStep(line, i, []);
      PrefixedTwice([], [], DoubleQuoted(line, i));
    } else {
      var piece, rest := PieceBytes(pieces[0]), DoubleBody(pieces[1..]);
      AtSplits(line, i, piece, rest);
      TailStands(pieces);
      DoubleReads(line, i + |piece|, pieces[1..]);
      BodyEnds(pieces[1..]);
      PieceReads(line, i, pieces[0], rest);
    }
  }

  lemma TailStands(pieces: seq<Piece>)
    requires AllStand(pieces) && pieces != []
    ensures AllStand(pieces[1..]) && Stands(pieces[0], DoubleBody(pieces[1..]))
    ensures AllMeant(pieces) == [Meant(pieces[0])] + AllMeant(pieces[1..])
  {
    assert Stands(pieces[0], DoubleBody(pieces[0 + 1..]));
    forall i | 0 <= i < |pieces| - 1 ensures Stands(pieces[1..][i], DoubleBody(pieces[1..][i + 1..])) {
      assert pieces[1..][i] == pieces[i + 1] && pieces[1..][i + 1..] == pieces[i + 1 + 1..];
      assert Stands(pieces[i + 1], DoubleBody(pieces[i + 1 + 1..]));
    }
  }

  lemma {:induction false} SingleReads(line: bytes, i: nat, text: bytes)
    requires At(line, i, SingleBody(text)) && EndsAt(line, i + |SingleBody(text)|)
    requires text != [] ==> text[|text| - 1] != SLASH
    ensures SingleQuoted(line, i) == Some((text, i + |SingleBody(text)|))
    decreases |text|
  {
    hide SingleQuoted, IsSpace;
    ByteAt(line, i, SingleBody(text), 0);
    SingleStep(line, i);
    if text != [] {
      var piece := if text[0] == TICK then [SLASH, TICK] else [text[0]];
      var rest := SingleBody(text[1..]);
      AtSplits(line, i, piece, rest);
      ByteAt(line, i, piece, |piece| - 1);
      ByteAt(line, i + |piece|, rest, 0);
      SingleReads(line, i + |piece|, text[1..]);
      assert text == [text[0]] + text[1..];
    }
  }

  lemma SingleStep(line: bytes, i: nat)
    requires i < |line|
    ensures line[i] == TICK ==> SingleQuoted(line, i) == Closing(line, i)
    ensures line[i] == SLASH && i + 1 < |line| && line[i + 1] == TICK ==>
              SingleQuoted(line, i) == Prefixed([TICK], SingleQuoted(line, i + 2))
    ensures line[i] != TICK && !(line[i] == SLASH && i + 1 < |line| && line[i + 1] == TICK) ==>
              SingleQuoted(line, i) == Prefixed([line[i]], SingleQuoted(line, i + 1))
  {
  }

  lemma {:induction false} BareReads(line: bytes, i: nat, text: bytes)
    requires At(line, i, text) && EndsAt(line, i + |text|)
    requires forall k :: 0 <= k < |text| ==> !White(text[k])
    ensures Bare(line, i) == Some((text, i + |text|))
    decreases |text|
  {
    if text != [] {
      AtSplits(line, i, [text[0]], text[1..]);
      assert [text[0]] + text[1..] == text;
      assert line[i] == line[i..i + 1][0];
      BareReads(line, i + 1, text[1..]);
    }
  }

  lemma SpellingReads(line: bytes, i: nat, w: Spelling)
    requires At(line, i, Spelled(w)) && Spellable(w) && EndsAt(line, i + |Spelled(w)|)
    ensures i < |line| && !IsSpace(line[i])
    ensures TokenAt(line, i) == Some((TextOf(w), i + |Spelled(w)|))
  {
    hide Spelled, TokenAt, IsSpace, At, EndsAt, AllStand;
    match w
    case Plain(text) => PlainReads(line, i, text);
    case Single(text) => SingleSpellingReads(line, i, text);
    case Double(pieces) => DoubleSpellingReads(line, i, pieces);
  }

  lemma PlainReads(line: bytes, i: nat, text: bytes)
    requires At(line, i, Spelled(Plain(text))) && Spellable(Plain(text)) && EndsAt(line, i + |Spelled(Plain(text))|)
    ensures i < |line| && !IsSpace(line[i])
    ensures TokenAt(line, i) == Some((text, i + |Spelled(Plain(text))|))
  {
    hide DoubleQuoted, SingleQuoted, Bare, At, EndsAt;
    assert Spelled(Plain(text)) == text;
    ByteAt(line, i, text, 0);
    BareReads(line, i, text);
  }

  lemma SingleSpellingReads(line: bytes, i: nat, text: bytes)
    requires At(line, i, Spelled(Single(text))) && Spellable(Single(text)) && EndsAt(line, i + |Spelled(Single(text))|)
    ensures i < |line| && !IsSpace(line[i])
    ensures TokenAt(line, i) == Some((text, i + |Spelled(Single(text))|))
  {
    hide DoubleQuoted, SingleQuoted, Bare, At, EndsAt, SingleBody;
    AtSplits(line, i, [TICK], SingleBody(text));
    ByteAt(line, i, [TICK], 0);
    SingleReads(line, i + 1, text);
  }

  lemma DoubleSpellingReads(line: bytes, i: nat, pieces: seq<Piece>)
    requires At(line, i, Spelled(Double(pieces))) && AllStand(pieces) && EndsAt(line, i + |Spelled(Double(pieces))|)
    ensures i < |line| && !IsSpace(line[i])
    ensures TokenAt(line, i) == Some((AllMeant(pieces), i + |Spelled(Double(pieces))|))
  {
    hide DoubleQuoted, SingleQuoted, Bare, At, EndsAt, DoubleBody, AllStand;
    AtSplits(line, i, [34], DoubleBody(pieces));
    ByteAt(line, i, [34], 0);
    DoubleReads(line, i + 1, pieces);
  }

  lemma {:induction false} GapSkips(line: bytes, i: nat, gap: bytes)
    requires At(line, i, gap) && Blank(gap)
    ensures SkipSpaces(line, i) == SkipSpaces(line, i + |gap|)
    decreases |gap|
  {
    if gap != [] {
      AtSplits(line, i, [gap[0]], gap[1..]);
      assert [gap[0]] + gap[1..] == gap;
      assert line[i] == line[i..i + 1][0];
      GapSkips(line, i + 1, gap[1..]);
    }
  }

  lemma {:induction false} WrittenReads(line: bytes, i: nat, words: seq<Spelling>, gaps: seq<bytes>)
    requires Separating(words, gaps) && AllSpellable(words)
    requires At(line, i, Written(words, gaps)) && i + |Written(words, gaps)| == |line|
    ensures SplitAt(line, i) == Some(Texts(words))
    decreases |words|
  {
    hide TokenAt, Spelled, Spellable, At;
    if words == [] {
      GapSkips(line, i, gaps[0]);
    } else {
      var gap, word, rest := gaps[0], Spelled(words[0]), Written(words[1..], gaps[1..]);
      AtSplits(line, i, gap, word + rest);
      AtSplits(line, i + |gap|, word, rest);
      GapSkips(line, i, gap);
      var end := i + |gap| + |word|;
      RestStarts(line, end, words[1..], gaps[1..]);
      SpellingReads(line, i + |gap|, words[0]);
      WrittenReads(line, end, words[1..], gaps[1..]);
      assert Texts(words) == [TextOf(words[0])] + Texts(words[1..]);
    }
  }

  lemma RestStarts(line: bytes, i: nat, words: seq<Spelling>, gaps: seq<bytes>)
    requires |gaps| == |words| + 1 && Blank(gaps[0]) && (words != [] ==> gaps[0] != [])
    requires At(line, i, Written(words, gaps)) && i + |Written(words, gaps)| == |line|
    ensures EndsAt(line, i)
  {
    if i < |line| {
      assert line[i] == line[i..i + |Written(words, gaps)|][0];
    }
  }

  /**
   * Arguments written one after the other, in any style that can spell them and with any white
   * space between them, are split back into exactly those arguments.
   */
  lemma SplitInvertsWriting(words: seq<Spelling>, gaps: seq<bytes>)
    requires Separating(words, gaps) && AllSpellable(words)
    ensures SplitAt(Written(words, gaps), 0) == Some(Texts(words))
  {
    WrittenReads(Written(words, gaps), 0, words, gaps);
  }

  /** Single quotes spell a text if and only if it does not end in a backslash, which swallows the closing quote. */
  lemma SingleQuotesSpellIff(text: bytes)
    ensures SplitAt(Spelled(Single(text)), 0) == Some([text]) <==> (text != [] ==> text[|text| - 1] != SLASH)
  {
    hide SingleQuoted, SingleBody, SplitAt;
    var line := Spelled(Single(text));
    assert line[1..] == SingleBody(text) && line[0] == TICK;
    OneToken(line, text);
    if text != [] && text[|text| - 1] == SLASH {
      SwallowedTo(line, 1, text);
    } else {
      SingleReads(line, 1, text);
    }
  }

  lemma {:induction false} SwallowedTo(line: bytes, i: nat, text: bytes)
    requires text != [] && text[|text| - 1] == SLASH
    requires At(line, i, SingleBody(text)) && i + |SingleBody(text)| == |line|
    ensures SingleQuoted(line, i) == None
    decreases |text|
  {
    hide SingleQuoted;
    var piece := if text[0] == TICK then [SLASH, TICK] else [text[0]];
    var rest := SingleBody(text[1..]);
    AtSplits(line, i, piece, rest);
    ByteAt(line, i, piece, 0);
    ByteAt(line, i, piece, |piece| - 1);
    ByteAt(line, i + |piece|, rest, 0);
    SingleStep(line, i);
    if |text| > 1 {
      SwallowedTo(line, i + |piece|, text[1..]);
    } else {
      SingleEnds(line, i + 2);
    }
  }

  /** A line that is one single-quoted token, if it closes at the end of the line. */
  lemma OneToken(line: bytes, text: bytes)
    requires line != [] && line[0] == TICK
    ensures SingleQuoted(line, 1) == None ==> SplitAt(line, 0) == None
    ensures SingleQuoted(line, 1) == Some((text, |line|)) ==> SplitAt(line, 0) == Some([text])
  {
    hide SingleQuoted;
    assert SkipSpaces(line, 0) == 0;
    assert SplitAt(line, |line|) == Some([]) && [text] + [] == [text];
  }

  lemma SingleEnds(line: bytes, i: nat)
    requires i >= |line|
    ensures SingleQuoted(line, i) == None
  {
  }
}
