/** The inline grammar, whole: a line is accepted exactly if it is a writing of arguments. */
module InlineSyntax {
  import opened Common
  import opened Inline

  lemma DoublePiece(line: bytes, i: nat) returns (p: Piece, next: nat)
    requires i < |line| && line[i] != QUOTE && DoubleQuoted(line, i).Some?
    ensures i < next <= |line| && line[i..next] == PieceBytes(p)
    ensures DoubleQuoted(line, next).Some? && (p.Hex? ==> HexDigit(p.high) && HexDigit(p.low))
    ensures DoubleQuoted(line, i) == Prefixed([Meant(p)], DoubleQuoted(line, next))
    ensures p.Raw? ==> p.b != 34 && p.b != 92
    ensures p == Letter(120) ==> !(next + 1 < |line| && HexDigit(line[next]) && HexDigit(line[next + 1]))
  {
    hide DoubleQuoted, IsHex, HexVal, HexDigit, DigitValue;
    DoubleStep(line, i, []);
    PrefixedTwice([], [], DoubleQuoted(line, i));
    if line[i] == SLASH && i + 1 < |line| {
      if i + 3 < |line| {
        SpacesAreWhite(line[i + 2]);
        SpacesAreWhite(line[i + 3]);
      }
      next := i + 1 + Unescape(line, i + 1).1;
      p := if next == i + 4 then Hex(line[i + 2], line[i + 3]) else Letter(line[i + 1]);
    } else {
      LoneSlash(line, i);
      p, next := Raw(line[i]), i + 1;
    }
    assert [] + [Meant(p)] == [Meant(p)];
  }

  /** A backslash at the very end of a line closes no quote. */
  lemma LoneSlash(line: bytes, i: nat)
    requires i < |line|
    ensures line[i] == SLASH && i + 1 == |line| ==> DoubleQuoted(line, i) == None
  {
  }

  lemma StandsInLine(line: bytes, next: nat, end: nat, p: Piece)
    requires next <= end <= |line|
    requires p.Hex? ==> HexDigit(p.high) && HexDigit(p.low)
    requires p.Raw? ==> p.b != 34 && p.b != 92
    requires p == Letter(120) ==> !(next + 1 < |line| && HexDigit(line[next]) && HexDigit(line[next + 1]))
    ensures Stands(p, line[next..end])
  {
    hide HexDigit;
  }

  lemma OnePieceMore(p: Piece, tail: seq<Piece>)
    requires AllStand(tail) && Stands(p, DoubleBody(tail))
    ensures AllStand([p] + tail) && AllMeant([p] + tail) == [Meant(p)] + AllMeant(tail)
    ensures DoubleBody([p] + tail) == PieceBytes(p) + DoubleBody(tail)
  {
    hide Stands, Meant, PieceBytes;
    var pieces := [p] + tail;
    assert pieces[1..] == tail;
    forall i | 0 <= i < |pieces| ensures Stands(pieces[i], DoubleBody(pieces[i + 1..])) {
      if i > 0 {
        assert Stands(tail[i - 1], DoubleBody(tail[i - 1 + 1..]));
        assert pieces[i + 1..] == tail[i - 1 + 1..];
      }
    }
  }

  lemma {:induction false} DoubleForm(line: bytes, i: nat) returns (pieces: seq<Piece>)
    requires i <= |line| && DoubleQuoted(line, i).Some?
    ensures AllStand(pieces) && DoubleQuoted(line, i).value.0 == AllMeant(pieces)
    ensures line[i..DoubleQuoted(line, i).value.1] == DoubleBody(pieces)
    ensures EndsAt(line, DoubleQuoted(line, i).value.1)
    decreases |line| - i
  {
    hide DoubleQuoted, Stands, AllStand, AllMeant, Meant, PieceBytes, HexDigit, IsSpace;
    if i == |line| {
      DoubleEnds(line, i);
      assert false;
    } else if line[i] == QUOTE {
      DoubleStep(line, i, []);
      PrefixedTwice([], [], DoubleQuoted(line, i));
      pieces := [];
      NoPieces();
    } else {
      var p, next := DoublePiece(line, i);
      var tail := DoubleForm(line, next);
      var end := DoubleQuoted(line, next).value.1;
      StandsInLine(line, next, end, p);
      OnePieceMore(p, tail);
      pieces := [p] + tail;
      assert line[i..end] == line[i..next] + line[next..end];
    }
  }

  lemma NoPieces()
    ensures AllStand([]) && AllMeant([]) == [] && DoubleBody([]) == [34]
  {
  }

  lemma {:induction false} SingleForm(line: bytes, i: nat)
    requires i <= |line| && SingleQuoted(line, i).Some?
    ensures Spellable(Single(SingleQuoted(line, i).value.0)) && EndsAt(line, SingleQuoted(line, i).value.1)
    ensures line[i..SingleQuoted(line, i).value.1] == SingleBody(SingleQuoted(line, i).value.0)
    decreases |line| - i
  {
    hide SingleQuoted, IsSpace;
    if i == |line| {
      SingleEnds(line, i);
      assert false;
    } else {
      SingleStep(line, i);
      var (text, end) := SingleQuoted(line, i).value;
      if line[i] == TICK {
        assert line[i..i + 1] == [39];
      } else {
        var next := if line[i] == SLASH && i + 1 < |line| && line[i + 1] == TICK then i + 2 else i + 1;
        SingleForm(line, next);
        assert text[1..] == SingleQuoted(line, next).value.0;
        assert line[i..end] == line[i..next] + line[next..end];
        if |text| == 1 {
          assert line[next] == line[next..end][0] == 39;
        }
      }
    }
  }

  lemma {:induction false} BareForm(line: bytes, i: nat)
    requires i <= |line|
    ensures line[i..Bare(line, i).value.1] == Bare(line, i).value.0 && EndsAt(line, Bare(line, i).value.1)
    ensures forall k :: 0 <= k < |Bare(line, i).value.0| ==> !White(Bare(line, i).value.0[k])
    decreases |line| - i
  {
    hide IsSpace, White;
    if i < |line| && !IsSpace(line[i]) {
      BareForm(line, i + 1);
      SpacesAreWhite(line[i]);
      var (text, next) := Bare(line, i).value;
      assert line[i..next] == [line[i]] + line[i + 1..next];
    }
  }

  /** Every token accepted is one spelling, up to white space or the end of the line. */
  lemma TokenForm(line: bytes, i: nat) returns (w: Spelling)
    requires i < |line| && !IsSpace(line[i]) && TokenAt(line, i).Some?
    ensures Spellable(w) && TextOf(w) == TokenAt(line, i).value.0
    ensures line[i..TokenAt(line, i).value.1] == Spelled(w) && EndsAt(line, TokenAt(line, i).value.1)
  {
    hide DoubleQuoted, SingleQuoted, Bare, AllStand, AllMeant, DoubleBody, SingleBody, EndsAt, IsSpace;
    var next := TokenAt(line, i).value.1;
    if line[i] == QUOTE {
      var pieces := DoubleForm(line, i + 1);
      w := Double(pieces);
      assert line[i..next] == [34] + line[i + 1..next];
    } else if line[i] == TICK {
      SingleForm(line, i + 1);
      w := Single(TokenAt(line, i).value.0);
      assert line[i..next] == [39] + line[i + 1..next];
    } else {
      BareForm(line, i);
      w := Plain(TokenAt(line, i).value.0);
    }
  }

  lemma {:induction false} SkippedIsBlank(line: bytes, i: nat)
    requires i <= |line|
    ensures Blank(line[i..SkipSpaces(line, i)])
    decreases |line| - i
  {
    hide IsSpace, White;
    if i < |line| && IsSpace(line[i]) {
      SkippedIsBlank(line, i + 1);
      SpacesAreWhite(line[i]);
      assert line[i..SkipSpaces(line, i)] == [line[i]] + line[i + 1..SkipSpaces(line, i)];
    }
  }

  /** A line that is split is a writing of spelled arguments with white space between them. */
  lemma {:induction false} SplitForm(line: bytes, i: nat) returns (words: seq<Spelling>, gaps: seq<bytes>)
    requires i <= |line| && SplitAt(line, i).Some?
    ensures Separating(words, gaps) && AllSpellable(words) && Texts(words) == SplitAt(line, i).value
    ensures Written(words, gaps) == line[i..]
    ensures words != [] && i < |line| && IsSpace(line[i]) ==> gaps[0] != []
    decreases |line| - i
  {
    hide TokenAt, IsSpace, Spellable, TextOf, Spelled, White;
    var start := SkipSpaces(line, i);
    SkippedIsBlank(line, i);
    if start == |line| {
      words, gaps := [], [line[i..]];
    } else {
      var w := TokenForm(line, start);
      var next := TokenAt(line, start).value.1;
      var moreWords, moreGaps := SplitForm(line, next);
      words, gaps := [w] + moreWords, [line[i..start]] + moreGaps;
      assert words[1..] == moreWords && gaps[1..] == moreGaps;
      assert line[i..] == line[i..start] + (line[start..next] + line[next..]);
      assert Texts(words) == [TextOf(w)] + Texts(moreWords);
    }
  }

  /** `line` is a writing of `args`: each spelled in some style, white space between them and, if any, around them. */
  ghost predicate Writes(line: bytes, args: seq<bytes>) {
    exists words: seq<Spelling>, gaps: seq<bytes> ::
      Separating(words, gaps) && AllSpellable(words) && Written(words, gaps) == line && Texts(words) == args
  }

  /** A line splits into some arguments if and only if it is a writing of them; any other line is a syntax error. */
  lemma SplitIff(line: bytes, args: seq<bytes>)
    ensures SplitAt(line, 0) == Some(args) <==> Writes(line, args)
    ensures SplitAt(line, 0) == None <==> !exists some :: Writes(line, some)
  {
    hide AllSpellable, Written, Texts, SplitAt, Blank;
    forall given | Writes(line, given) ensures SplitAt(line, 0) == Some(given) {
      var words: seq<Spelling>, gaps: seq<bytes> :|
        Separating(words, gaps) && AllSpellable(words) && Written(words, gaps) == line && Texts(words) == given;
      SplitInvertsWriting(words, gaps);
    }
    if SplitAt(line, 0).Some? {
      var words, gaps := SplitForm(line, 0);
      assert line[0..] == line;
      assert Writes(line, SplitAt(line, 0).value);
    }
  }
}
