/** Client requests: arrays of bulk strings, and inline commands. */
module Requests {
  import opened Common
  import opened Text
  import opened Frames
  import opened Parsing
  import opened Wire
  import opened RoundTrip
  import Decoding
  import opened Inline

  const STAR: byte := '*' as int

  /** One argument: a bulk string that is not null. */
  function ArgAt(input: bytes, from: nat, lim: Limits): (r: Parsed<bytes>)
    ensures r.Done? ==> from < r.next <= |input|
  {
    if from >= |input| then NeedMore
    else if input[from] != '$' as int then Err(Malformed)
    else
      match NumberAt(input, from + 1)
      case NeedMore => NeedMore
      case Err(e) => Err(e)
      case Done(len, body) =>
        if len < 0 then Err(Malformed)
        else if len > lim.maxBulkLen then Err(LimitExceeded)
        else PayloadAt(input, body, len)
  }

  function ArgsAt(input: bytes, from: nat, lim: Limits, count: nat): (r: Parsed<seq<bytes>>)
    ensures r.Done? && from <= |input| ==> |r.value| == count && from <= r.next <= |input|
    decreases count
  {
    if count == 0 then Done([], from)
    else
      match ArgAt(input, from, lim)
      case NeedMore => NeedMore
      case Err(e) => Err(e)
      case Done(arg, pos) =>
        match ArgsAt(input, pos, lim, count - 1)
        case NeedMore => NeedMore
        case Err(e) => Err(e)
        case Done(args, next) => Done([arg] + args, next)
  }

  function MultibulkAt(input: bytes, lim: Limits): (r: Parsed<seq<bytes>>)
    ensures r.Done? ==> 0 < r.next <= |input|
  {
    match NumberAt(input, 1)
    case NeedMore => NeedMore
    case Err(e) => Err(e)
    case Done(count, pos) =>
      if count <= 0 then Done([], pos)
      else if count > lim.maxArrayLen then Err(LimitExceeded)
      else ArgsAt(input, pos, lim, count)
  }

  function InlineAt(input: bytes, lim: Limits): (r: Parsed<seq<bytes>>)
    ensures r.Done? ==> 0 < r.next <= |input|
  {
    match LineAt(input, 0)
    case Err(e) => Err(e)
    case NeedMore => if |input| > lim.maxInlineLen then Err(LimitExceeded) else NeedMore
    case Done(line, next) =>
      if |line| > lim.maxInlineLen then Err(LimitExceeded)
      else
        match SplitAt(line, 0)
        case None => Err(InlineSyntax)
        case Some(args) => Done(args, next)
  }

  function CommandAt(input: bytes, lim: Limits): (r: Parsed<seq<bytes>>)
    ensures r.Done? ==> 0 < r.next <= |input|
  {
    if input == [] then NeedMore
    else if input[0] == STAR then MultibulkAt(input, lim)
    else InlineAt(input, lim)
  }

  // ---- The request parser as written ----------------------------------------------------------

  ghost function AfterArgs(args: seq<bytes>, r: Parsed<seq<bytes>>): Parsed<seq<bytes>> {
    if r.Done? then Done(args + r.value, r.next) else r
  }

  lemma AfterNoArgs(args: seq<bytes>, r: Parsed<seq<bytes>>)
    ensures AfterArgs([], r) == r
    ensures args + [] == args
  {
    if r.Done? {
      assert [] + r.value == r.value;
    }
  }

  lemma AfterOneArg(args: seq<bytes>, arg: bytes, r: Parsed<seq<bytes>>)
    ensures AfterArgs(args, AfterArgs([arg], r)) == AfterArgs(args + [arg], r)
  {
    if r.Done? {
      assert args + ([arg] + r.value) == args + [arg] + r.value;
    }
  }

  method ParseMultibulk(input: bytes, lim: Limits) returns (r: Parsed<seq<bytes>>)
    requires input != [] && input[0] == STAR
    ensures r == MultibulkAt(input, lim)
  {
    hide NumberAt;
    var header := Decoding.ReadNumber(input, 1);
    match header {
      case NeedMore => return NeedMore;
      case Err(e) => return Err(e);
      case Done(count, start) =>
        if count <= 0 {
          return Done([], start);
        }
        if count > lim.maxArrayLen {
          return Err(LimitExceeded);
        }
        r := ParseArgs(input, start, lim, count);
    }
  }

  method ParseArg(input: bytes, pos: nat, lim: Limits) returns (r: Parsed<bytes>)
    ensures r == ArgAt(input, pos, lim)
  {
    hide NumberAt;
    if pos >= |input| {
      return NeedMore;
    }
    if input[pos] != '$' as int {
      return Err(Malformed);
    }
    var header := Decoding.ReadNumber(input, pos + 1);
    match header {
      case NeedMore => return NeedMore;
      case Err(e) => return Err(e);
      case Done(len, body) =>
        if len < 0 {
          return Err(Malformed);
        }
        if len > lim.maxBulkLen {
          return Err(LimitExceeded);
        }
        var end := body + len;
        if |input| < end + 2 {
          return NeedMore;
        }
        if !(input[end] == CR && input[end + 1] == LF) {
          return Err(Malformed);
        }
        return Done(input[body..end], end + 2);
    }
  }

  method ParseArgs(input: bytes, start: nat, lim: Limits, count: nat) returns (r: Parsed<seq<bytes>>)
    ensures r == ArgsAt(input, start, lim, count)
  {
    hide ArgAt;
    var args: seq<bytes>, pos: nat, i: nat := [], start, 0;
    AfterNoArgs(args, ArgsAt(input, start, lim, count));
    while i < count
      invariant i <= count
      invariant ArgsAt(input, start, lim, count) == AfterArgs(args, ArgsAt(input, pos, lim, count - i))
    {
      var arg := ParseArg(input, pos, lim);
      match arg {
        case NeedMore => return NeedMore;
        case Err(e) => return Err(e);
        case Done(text, next) =>
          AfterOneArg(args, text, ArgsAt(input, next, lim, count - i - 1));
          args, pos := args + [text], next;
      }
      i := i + 1;
    }
    AfterNoArgs(args, Done([], pos));
    return Done(args, pos);
  }

  // ---- Two parsers, one grammar ------------------------------------------------------------------

  function Bulks(args: seq<bytes>): (items: seq<Frame>)
    ensures |items| == |args|
  {
    seq(|args|, i requires 0 <= i < |args| => Bulk(args[i]))
  }

  lemma ArgAgrees(input: bytes, from: nat, lim: Limits, depth: nat, ft: FloatText, arg: bytes, next: nat)
    requires depth <= lim.maxDepth
    ensures ArgAt(input, from, lim) == Done(arg, next)
        <==> FrameAt(input, from, lim, depth, ft) == Done(Bulk(arg), next)
    ensures ArgAt(input, from, lim).NeedMore? ==> FrameAt(input, from, lim, depth, ft).NeedMore?
  {
    hide NumberAt, LineAt, PayloadAt, ItemsAt, ValidUtf8;
  }

  lemma {:induction false} ArgsAgree(input: bytes, from: nat, lim: Limits, depth: nat, ft: FloatText,
      args: seq<bytes>, next: nat)
    requires depth <= lim.maxDepth
    ensures ArgsAt(input, from, lim, |args|) == Done(args, next)
        <==> ItemsAt(input, from, lim, depth, ft, |args|) == Done(Bulks(args), next)
    decreases |args|
  {
    hide ArgAt, FrameAt;
    if args != [] {
      var item := FrameAt(input, from, lim, depth, ft);
      assert Bulks(args) == [Bulk(args[0])] + Bulks(args[1..]);
      assert args == [args[0]] + args[1..];
      match ArgAt(input, from, lim) {
        case Done(arg, pos) =>
          ArgAgrees(input, from, lim, depth, ft, arg, pos);
          ArgsAgree(input, pos, lim, depth, ft, args[1..], next);
          var more, items := ArgsAt(input, pos, lim, |args| - 1), ItemsAt(input, pos, lim, depth, ft, |args| - 1);
          assert more.Done? ==> ([arg] + more.value)[1..] == more.value;
          assert items.Done? ==>
            ([Bulk(arg)] + items.value)[0] == Bulk(arg) && ([Bulk(arg)] + items.value)[1..] == items.value;
        case _ =>
          var items := ItemsAt(input, from, lim, depth, ft, |args|);
          if items.Done? && items.value == Bulks(args) {
            assert items.value[0] == item.value;
            ArgAgrees(input, from, lim, depth, ft, args[0], item.next);
          }
      }
    }
  }

  /** A request of at least one argument is, to the general parser, an array of its bulk strings, and conversely. */
  lemma TwoParsersAgree(input: bytes, lim: Limits, ft: FloatText, args: seq<bytes>, next: nat)
    requires input != [] && input[0] == STAR && 1 <= lim.maxDepth && args != []
    ensures CommandAt(input, lim) == Done(args, next)
        <==> FrameAt(input, 0, lim, 0, ft) == Done(Array(Bulks(args)), next)
  {
    hide NumberAt, LineAt, ArgsAt, ItemsAt;
    match NumberAt(input, 1)
    case Done(count, pos) =>
      if count == |args| {
        ArgsAgree(input, pos, lim, 1, ft, args, next);
      }
      if 0 < count <= lim.maxArrayLen {
        ArgsLength(input, pos, lim, count);
      }
    case _ =>
  }

  lemma ArgsLength(input: bytes, from: nat, lim: Limits, count: nat)
    ensures var r := ArgsAt(input, from, lim, count); r.Done? ==> |r.value| == count
    decreases count
  {
    hide ArgAt;
    if count > 0 && ArgAt(input, from, lim).Done? {
      ArgsLength(input, ArgAt(input, from, lim).next, lim, count - 1);
    }
  }

  /** Whether a server reads back exactly the arguments a client sent as an array. */
  lemma RequestRoundTripIff(args: seq<bytes>, version: RespVersion, lim: Limits, ft: FloatText, rest: bytes)
    requires Lossless(ft) && args != [] && 1 <= lim.maxDepth
    ensures var wire := Encoded(Array(Bulks(args)), version, ft);
            CommandAt(wire + rest, lim) == Done(args, |wire|) <==>
              LengthFits(|args|, lim.maxArrayLen)
                  && forall i :: 0 <= i < |args| ==> LengthFits(|args[i]|, lim.maxBulkLen)
  {
    hide CommandAt, FrameAt, EncodedAll, FormatI64, Lossless;
    var wire := Encoded(Array(Bulks(args)), version, ft);
    RoundTripIff(Array(Bulks(args)), version, lim, ft, rest);
    TwoParsersAgree(wire + rest, lim, ft, args, |wire|);
    assert forall i :: 0 <= i < |args| ==> Decodable(Bulks(args)[i], lim, 1) == LengthFits(|args[i]|, lim.maxBulkLen);
  }

  // ---- Inline commands ------------------------------------------------------------------------------

  /**
   * Whether a server reads back exactly the arguments of an inline command: the line must not be too
   * long, hold no line end, and not look like an array.
   */
  lemma InlineRoundTripIff(words: seq<Spelling>, gaps: seq<bytes>, lim: Limits, rest: bytes)
    requires Separating(words, gaps) && AllSpellable(words)
    ensures var line := Written(words, gaps);
            CommandAt(line + CRLF + rest, lim) == Done(Texts(words), |line| + 2)
            <==> |line| <= lim.maxInlineLen && CrlfFree(line) && (line != [] ==> line[0] != STAR)
  {
    hide Written, InlineAt, MultibulkAt, SplitAt, Spellable;
    var line := Written(words, gaps);
    SplitInvertsWriting(words, gaps);
    if line != [] && line[0] == STAR {
      ArrayIsNotInline(line, rest, lim, Texts(words));
    } else {
      InlineIff(line, rest, lim, Texts(words));
    }
  }

  lemma InlineIff(line: bytes, rest: bytes, lim: Limits, args: seq<bytes>)
    requires SplitAt(line, 0) == Some(args)
    ensures InlineAt(line + CRLF + rest, lim) == Done(args, |line| + 2)
        <==> |line| <= lim.maxInlineLen && CrlfFree(line)
  {
    hide SplitAt, FindCrlf;
    var input := line + CRLF + rest;
    if CrlfFree(line) {
      assert At(input, 0, line + CRLF);
      LineReads(input, 0, line);
    } else {
      var i: nat :| i < |line| && CrlfAt(line, i);
      assert CrlfAt(input, i);
      if FindCrlf(input, 0).Some? && i < FindCrlf(input, 0).value {
        FindCrlfIsFirst(input, 0, i);
      }
    }
  }

  /** A word that stands for itself on an inline line. */
  predicate Plainly(text: bytes) {
    text != [] && text[0] != QUOTE && text[0] != TICK && forall i :: 0 <= i < |text| ==> !IsSpace(text[i])
  }

  /**
   * A line that looks like an array is never read as its own words, even where it is an array, spread
   * over several lines: of n arguments each would have to be a word of the line, but the line has the
   * count and the n lengths for words as well.
   */
  lemma ArrayIsNotInline(line: bytes, rest: bytes, lim: Limits, words: seq<bytes>)
    requires line != [] && line[0] == STAR && SplitAt(line, 0) == Some(words)
    ensures MultibulkAt(line + CRLF + rest, lim) != Done(words, |line| + 2)
  {
    hide NumberAt, SplitAt, ArgsAt;
    var input := line + CRLF + rest;
    WordFollows(line, 0);
    if NumberAt(input, 1).Done? && NumberAt(input, 1).value > 0 {
      var count, pos := NumberAt(input, 1).value, NumberAt(input, 1).next;
      var args := ArgsAt(input, pos, lim, count);
      if args == Done(words, |line| + 2) {
        ArgsAdvance(input, pos, lim, count);
        NumberIsWord(input, line, 0);
        WordsOutnumber(input, line, words, words, 0, pos, lim);
      }
    }
  }

  /** Where a line goes on with something else than white space, it has a word. */
  lemma WordFollows(line: bytes, i: nat)
    requires i < |line| && !IsSpace(line[i])
    ensures SplitAt(line, i) != Some([])
  {
  }

  /** Each argument takes five bytes at least. */
  lemma {:induction false} ArgsAdvance(input: bytes, from: nat, lim: Limits, count: nat)
    requires ArgsAt(input, from, lim, count).Done?
    ensures from + 5 * count <= ArgsAt(input, from, lim, count).next
    decreases count
  {
    hide NumberAt;
    if count > 0 {
      ArgsAdvance(input, ArgAt(input, from, lim).next, lim, count - 1);
    }
  }

  /** A number after a marker is one word, which ends at its CR. */
  lemma NumberIsWord(input: bytes, line: bytes, from: nat)
    requires line <= input && from < |line| && NumberAt(input, from + 1).Done?
    requires line[from] == STAR || line[from] == '$' as int
    requires NumberAt(input, from + 1).next <= |line|
    ensures var next := NumberAt(input, from + 1).next;
            Plainly(line[from..next - 2]) && SplitAt(line, from) == AfterWord(line[from..next - 2], SplitAt(line, next))
  {
    hide NumberAt, SplitAt, FromStr, IsSpace;
    var next := NumberAt(input, from + 1).next;
    NumberText(input, from + 1);
    var word, digits := line[from..next - 2], input[from + 1..next - 2];
    assert CrlfAt(line, next - 2) && digits == line[from + 1..next - 2];
    NumberHasNoSpace(digits);
    MarkedIsPlain(word, digits);
    EndsAtCr(line, next - 2);
    WordSplits(line, from, word);
    LineEndSkips(line, next - 2);
  }

  lemma NumberText(input: bytes, from: nat)
    requires NumberAt(input, from).Done?
    ensures var next := NumberAt(input, from).next;
            from + 2 <= next <= |input| && FromStr(input[from..next - 2]).Some? && CrlfAt(input, next - 2)
  {
    hide FindCrlf, FromStr, ValidUtf8;
  }

  lemma MarkedIsPlain(word: bytes, digits: bytes)
    requires word != [] && (word[0] == STAR || word[0] == '$' as int) && word[1..] == digits
    requires forall i :: 0 <= i < |digits| ==> !IsSpace(digits[i])
    ensures Plainly(word)
  {
    forall i | 0 <= i < |word| ensures !IsSpace(word[i]) {
      assert i == 0 || word[i] == digits[i - 1];
    }
  }

  lemma EndsAtCr(line: bytes, i: nat)
    requires CrlfAt(line, i)
    ensures EndsAt(line, i)
  {
  }

  lemma NumberHasNoSpace(s: bytes)
    requires FromStr(s).Some?
    ensures forall i :: 0 <= i < |s| ==> !IsSpace(s[i])
  {
    hide Decimal;
    var digits := if s[0] == MINUS || s[0] == PLUS then s[1..] else s;
    assert forall i :: 0 <= i < |digits| ==> IsDigit(digits[i]);
    forall i | 0 <= i < |s| ensures !IsSpace(s[i]) {
      assert digits == s || i == 0 || s[i] == digits[i - 1];
    }
  }

  ghost function AfterWord(word: bytes, more: Option<seq<bytes>>): Option<seq<bytes>> {
    if more.Some? then Some([word] + more.value) else None
  }

  lemma WordSplits(line: bytes, i: nat, word: bytes)
    requires At(line, i, word) && Plainly(word) && EndsAt(line, i + |word|)
    ensures SplitAt(line, i) == AfterWord(word, SplitAt(line, i + |word|))
  {
    hide DoubleQuoted, SingleQuoted, Bare;
    ByteAt(line, i, word, 0);
    BareReads(line, i, word);
  }

  lemma LineEndSkips(line: bytes, i: nat)
    requires CrlfAt(line, i)
    ensures SplitAt(line, i) == SplitAt(line, i + 2)
  {
    hide TokenAt;
    assert SkipSpaces(line, i) == SkipSpaces(line, i + 1) == SkipSpaces(line, i + 2);
  }

  /**
   * The words of a line from the `i`-th argument of an array on, if the arguments are the first
   * words: each adds a word for its length and one for itself.
   */
  lemma {:induction false} WordsOutnumber(input: bytes, line: bytes, words: seq<bytes>, args: seq<bytes>, i: nat,
      pos: nat, lim: Limits)
    requires i < |args| && pos <= |line| && line <= input
    requires ArgsAt(input, pos, lim, |args| - i) == Done(args[i..], |line| + 2)
    requires 2 * i < |words| && SplitAt(line, pos) == Some(words[2 * i + 1..])
    requires forall j :: 0 <= j <= 2 * i ==> Plainly(words[j])
    requires forall j :: 0 <= j < |args| && j < |words| ==> args[j] == words[j]
    ensures |args| < |words|
    decreases |args| - i
  {
    hide NumberAt, SplitAt, Plainly, ArgsAt, ArgAt;
    var later := words[2 * i + 1..];
    FirstArg(input, pos, lim, args, i, |line| + 2);
    LengthIsWord(input, line, pos, lim, later);
    if i + 1 < |args| {
      ArgsTail(input, pos, lim, args, i, |line| + 2);
      var next := ArgAt(input, pos, lim).next;
      ArgsAdvance(input, next, lim, |args| - i - 1);
      assert args[i] == words[i];
      ArgIsWord(input, line, pos, lim, later[1..]);
      assert later[1..][1..] == words[2 * (i + 1) + 1..];
      assert later[0] == words[2 * i + 1] && later[1..][0] == words[2 * i + 2];
      WordsOutnumber(input, line, words, args, i + 1, next, lim);
    }
  }

  /** The length of an argument is the next word. */
  lemma LengthIsWord(input: bytes, line: bytes, pos: nat, lim: Limits, later: seq<bytes>)
    requires ArgAt(input, pos, lim).Done? && ArgAt(input, pos, lim).next <= |line| + 2 && line <= input
    requires SplitAt(line, pos) == Some(later)
    ensures later != [] && Plainly(later[0])
    ensures SplitAt(line, NumberAt(input, pos + 1).next) == Some(later[1..])
  {
    hide NumberAt, SplitAt, Plainly, ArgAt;
    ArgParts(input, pos, lim);
    var body := NumberAt(input, pos + 1).next;
    NumberText(input, pos + 1);
    NumberIsWord(input, line, pos);
    WordTaken(line[pos..body - 2], SplitAt(line, body), later);
  }

  /** The argument itself is the next word, if it is plain and not the last of the line. */
  lemma ArgIsWord(input: bytes, line: bytes, pos: nat, lim: Limits, later: seq<bytes>)
    requires ArgAt(input, pos, lim).Done? && ArgAt(input, pos, lim).next <= |line| && line <= input
    requires Plainly(ArgAt(input, pos, lim).value) && SplitAt(line, NumberAt(input, pos + 1).next) == Some(later)
    ensures later != [] && later[0] == ArgAt(input, pos, lim).value
    ensures SplitAt(line, ArgAt(input, pos, lim).next) == Some(later[1..])
  {
    hide NumberAt, SplitAt, Plainly, ArgAt, At, EndsAt;
    ArgParts(input, pos, lim);
    var arg, body := ArgAt(input, pos, lim), NumberAt(input, pos + 1).next;
    ArgInLine(input, line, pos, lim, arg.value);
    EndsAtCr(line, arg.next - 2);
    WordSplits(line, body, arg.value);
    LineEndSkips(line, arg.next - 2);
    WordTaken(arg.value, SplitAt(line, arg.next), later);
  }

  lemma WordTaken(word: bytes, more: Option<seq<bytes>>, all: seq<bytes>)
    requires AfterWord(word, more) == Some(all)
    ensures all != [] && all[0] == word && more == Some(all[1..])
  {
  }

  lemma FirstArg(input: bytes, from: nat, lim: Limits, args: seq<bytes>, i: nat, end: nat)
    requires i < |args| && ArgsAt(input, from, lim, |args| - i) == Done(args[i..], end) && from <= |input|
    ensures ArgAt(input, from, lim).Done? && ArgAt(input, from, lim).next <= end
  {
    hide ArgAt;
    ArgsAdvance(input, ArgAt(input, from, lim).next, lim, |args| - i - 1);
  }

  lemma ArgParts(input: bytes, from: nat, lim: Limits)
    requires ArgAt(input, from, lim).Done?
    ensures var arg, number := ArgAt(input, from, lim), NumberAt(input, from + 1);
            && from < |input| && input[from] == '$' as int
            && number.Done? && number.next + |arg.value| + 2 == arg.next <= |input|
            && arg.value == input[number.next..number.next + |arg.value|] && CrlfAt(input, arg.next - 2)
  {
    hide NumberAt;
  }

  lemma ArgsTail(input: bytes, from: nat, lim: Limits, args: seq<bytes>, i: nat, end: nat)
    requires i < |args| && ArgsAt(input, from, lim, |args| - i) == Done(args[i..], end)
    ensures ArgAt(input, from, lim).Done? && ArgAt(input, from, lim).value == args[i]
    ensures ArgsAt(input, ArgAt(input, from, lim).next, lim, |args| - i - 1) == Done(args[i + 1..], end)
  {
    hide ArgAt;
    assert args[i..][1..] == args[i + 1..];
  }

  lemma ArgInLine(input: bytes, line: bytes, from: nat, lim: Limits, text: bytes)
    requires line <= input && ArgAt(input, from, lim).Done? && ArgAt(input, from, lim).value == text
    requires ArgAt(input, from, lim).next <= |line|
    ensures At(line, NumberAt(input, from + 1).next, text) && CrlfAt(line, ArgAt(input, from, lim).next - 2)
  {
    hide NumberAt, ArgAt;
    ArgParts(input, from, lim);
  }

  // ---- Which cuts of a stream matter ----------------------------------------------------------------

  lemma ArgStable(a: bytes, b: bytes, from: nat, lim: Limits)
    requires a <= b
    ensures Settles(ArgAt(a, from, lim), ArgAt(b, from, lim))
  {
    hide NumberAt, PayloadAt;
    NumberStable(a, b, from + 1);
    match NumberAt(a, from + 1)
    case Done(len, body) => if len >= 0 { PayloadStable(a, b, body, len); }
    case _ =>
  }

  lemma {:induction false} ArgsStable(a: bytes, b: bytes, from: nat, lim: Limits, count: nat)
    requires a <= b
    ensures Settles(ArgsAt(a, from, lim, count), ArgsAt(b, from, lim, count))
    decreases count
  {
    hide ArgAt;
    if count > 0 {
      ArgStable(a, b, from, lim);
      match ArgAt(a, from, lim)
      case Done(_, pos) => ArgsStable(a, b, pos, lim, count - 1);
      case _ =>
    }
  }

  lemma MultibulkStable(a: bytes, b: bytes, lim: Limits)
    requires a <= b
    ensures Settles(MultibulkAt(a, lim), MultibulkAt(b, lim))
  {
    hide NumberAt, ArgsAt;
    NumberStable(a, b, 1);
    match NumberAt(a, 1)
    case Done(count, pos) => if count > 0 { ArgsStable(a, b, pos, lim, count); }
    case _ =>
  }

  /**
   * The buffer ends between the CR and the LF of an inline line of exactly the maximal length: the
   * CR is counted as part of the line, and the line refused before its LF is seen.
   */
  predicate BadCut(pending: bytes, more: bytes, lim: Limits) {
    && |pending| == lim.maxInlineLen + 1
    && pending[0] != STAR && pending[|pending| - 1] == CR && FindCrlf(pending, 0) == None
    && more != [] && more[0] == LF
  }

  lemma InlineStableIff(a: bytes, b: bytes, lim: Limits)
    requires a != [] && a[0] != STAR
    ensures Settles(InlineAt(a, lim), InlineAt(a + b, lim)) <==> !BadCut(a, b, lim)
    ensures BadCut(a, b, lim) ==> InlineAt(a, lim) == Err(LimitExceeded)
    ensures BadCut(a, b, lim) ==> InlineAt(a + b, lim).Done? || InlineAt(a + b, lim) == Err(InlineSyntax)
  {
    hide SplitAt, FindCrlf;
    LineStable(a, a + b, 0);
    if FindCrlf(a, 0) == None {
      LateLine(a, b);
    }
  }

  /** A line end found only once more bytes have come lies in those bytes, or straddles the cut. */
  lemma LateLine(a: bytes, b: bytes)
    requires a != [] && FindCrlf(a, 0) == None
    ensures var r := FindCrlf(a + b, 0); r.Some? ==> r.value >= |a| - 1
    ensures FindCrlf(a + b, 0) == Some(|a| - 1) <==> a[|a| - 1] == CR && b != [] && b[0] == LF
  {
    hide FindCrlf;
    forall i: nat | i + 1 < |a| ensures !CrlfAt(a + b, i) {
      FindCrlfIsFirst(a, 0, i);
    }
    if a[|a| - 1] == CR && b != [] && b[0] == LF {
      FindCrlfFinds(a + b, 0, |a| - 1);
    }
  }

  /** Further bytes leave the outcome of parsing a request alone, except across a bad cut. */
  lemma CommandStableIff(a: bytes, b: bytes, lim: Limits)
    ensures Settles(CommandAt(a, lim), CommandAt(a + b, lim)) <==> !BadCut(a, b, lim)
    ensures BadCut(a, b, lim) ==> CommandAt(a, lim) == Err(LimitExceeded)
    ensures BadCut(a, b, lim) ==> CommandAt(a + b, lim).Done? || CommandAt(a + b, lim) == Err(InlineSyntax)
  {
    hide MultibulkAt, InlineAt, FindCrlf;
    if a != [] {
      if a[0] == STAR {
        MultibulkStable(a, a + b, lim);
      } else {
        InlineStableIff(a, b, lim);
      }
    }
  }

  /** Any line of exactly the maximal length shows it: whole it is read, cut before its LF it is refused. */
  lemma LongestLineNeedsItsLf(text: bytes, lim: Limits)
    requires |text| == lim.maxInlineLen && CrlfFree(text) && (text != [] ==> text[0] != STAR)
    ensures BadCut(text + [CR], [LF], lim)
    ensures CommandAt(text + [CR], lim) == Err(LimitExceeded)
    ensures CommandAt(text + CRLF, lim) == if SplitAt(text, 0).Some? then Done(SplitAt(text, 0).value, |text| + 2)
        else Err(InlineSyntax)
  {
    hide SplitAt, FindCrlf, MultibulkAt;
    var pending := text + [CR];
    forall i: nat | i < |pending| ensures !CrlfAt(pending, i) {
      assert !CrlfAt(text, i);
    }
    NoLineFound(pending, 0);
    assert text + CRLF == pending + [LF];
    assert At(text + CRLF, 0, text + CRLF);
    LineReads(text + CRLF, 0, text);
    CommandStableIff(pending, [LF], lim);
  }
}
