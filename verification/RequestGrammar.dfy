/** The grammar of client requests, and that decoding accepts and refuses exactly what it says. */
module RequestGrammar {
  import opened Common
  import opened Text
  import opened Frames
  import opened Parsing
  import opened Inline
  import opened InlineSyntax
  import opened Requests
  import opened Grammar
  import opened Acceptance
  import opened Refusals

  /** Bulk strings one behind the other. */
  ghost predicate SpellsArgs(input: bytes, from: nat, args: seq<bytes>, next: nat, lim: Limits)
    decreases |args|
  {
    if args == [] then from == next
    else exists mid ::
      Sized(input, from, 36, args[0], mid, lim.maxBulkLen) && SpellsArgs(input, mid, args[1..], next, lim)
  }

  /** A star, a count and the arguments, where a count of zero or less is a request of none; or a line of words. */
  ghost predicate SpellsRequest(input: bytes, args: seq<bytes>, next: nat, lim: Limits) {
    && input != []
    && if input[0] == 42 then
         exists n, pos :: OnCountLine(input, 0, 42, n, pos) &&
           if n <= 0 then args == [] && next == pos
           else n == |args| <= lim.maxArrayLen && SpellsArgs(input, pos, args, next, lim)
       else exists line :: OneLine(input, 0, line, next) && |line| <= lim.maxInlineLen && Writes(line, args)
  }

  // ---- What is accepted ------------------------------------------------------------------------

  lemma ArgIff(input: bytes, from: nat, arg: bytes, next: nat, lim: Limits)
    ensures ArgAt(input, from, lim) == Done(arg, next) <==> Sized(input, from, 36, arg, next, lim.maxBulkLen)
  {
    hide NumberAt, PayloadAt, Sized;
    SizedIff(input, from, 36, arg, next, lim.maxBulkLen);
  }

  lemma {:induction false} ArgsIff(input: bytes, from: nat, args: seq<bytes>, next: nat, lim: Limits)
    ensures ArgsAt(input, from, lim, |args|) == Done(args, next) <==> SpellsArgs(input, from, args, next, lim)
    decreases args
  {
    hide ArgAt, Sized;
    if args != [] {
      var first := ArgAt(input, from, lim);
      forall mid ensures Sized(input, from, 36, args[0], mid, lim.maxBulkLen) <==> first == Done(args[0], mid) {
        ArgIff(input, from, args[0], mid, lim);
      }
      if first.Done? {
        ArgsIff(input, first.next, args[1..], next, lim);
        var more := ArgsAt(input, first.next, lim, |args| - 1);
        assert args == [args[0]] + args[1..];
        if more.Done? {
          ConsParts(first.value, more.value);
        }
      }
    }
  }

  /** A request is read, as these arguments, up to this byte, if and only if the bytes spell it. */
  lemma RequestIff(input: bytes, args: seq<bytes>, next: nat, lim: Limits)
    ensures CommandAt(input, lim) == Done(args, next) <==> SpellsRequest(input, args, next, lim)
  {
    hide MultibulkAt, InlineAt, OnCountLine, OneLine, Writes, SpellsArgs;
    if input != [] {
      if input[0] == 42 {
        StarIff(input, args, next, lim);
      } else {
        LineRequestIff(input, args, next, lim);
      }
    }
  }

  lemma StarIff(input: bytes, args: seq<bytes>, next: nat, lim: Limits)
    requires input != [] && input[0] == 42
    ensures MultibulkAt(input, lim) == Done(args, next) <==> SpellsRequest(input, args, next, lim)
  {
    hide NumberAt, OnCountLine, SpellsArgs, ArgsAt;
    var r := NumberAt(input, 1);
    forall n, pos ensures OnCountLine(input, 0, 42, n, pos) <==> r.Done? && r.value == n && r.next == pos {
      CountsIff(input, 0, n, pos);
    }
    if r.Done? {
      var n, pos := r.value, r.next;
      assert OnCountLine(input, 0, 42, n, pos);
      ArgsIff(input, pos, args, next, lim);
      if n > 0 {
        ArgsLength(input, pos, lim, n);
        assert n == |args| ==> ArgsAt(input, pos, lim, n) == ArgsAt(input, pos, lim, |args|);
        assert SpellsRequest(input, args, next, lim) <==>
          n == |args| <= lim.maxArrayLen && SpellsArgs(input, pos, args, next, lim);
      }
    }
  }

  lemma LineRequestIff(input: bytes, args: seq<bytes>, next: nat, lim: Limits)
    requires input != [] && input[0] != 42
    ensures InlineAt(input, lim) == Done(args, next) <==> SpellsRequest(input, args, next, lim)
  {
    hide LineAt, OneLine, Writes, SplitAt;
    LinesIff(input, 0, next);
    var line := LineAt(input, 0);
    if line.Done? {
      SplitIff(line.value, args);
    }
  }

  // ---- What is refused -----------------------------------------------------------------------------

  ghost predicate NoNumeral(input: bytes, from: nat, kind: byte, least: int) {
    exists text, next :: OnLine(input, from, kind, text, next) && forall n :: Numeral(text, n) ==> n < least
  }

  ghost predicate Over(input: bytes, from: nat, kind: byte, limit: nat) {
    exists n, next :: OnCountLine(input, from, kind, n, next) && limit < n
  }

  ghost predicate RefusedArg(input: bytes, from: nat, e: ProtocolError, lim: Limits) {
    && from < |input|
    && (|| (e == Malformed && (input[from] != 36 || NoNumeral(input, from, 36, 0) || BadBody(input, from, 36, lim)))
        || (e == LimitExceeded && Over(input, from, 36, lim.maxBulkLen)))
  }

  ghost predicate RefusedAmong(input: bytes, from: nat, e: ProtocolError, count: nat, lim: Limits) {
    exists args, at :: |args| < count && SpellsArgs(input, from, args, at, lim) && RefusedArg(input, at, e, lim)
  }

  /** A count that is none or too large, or an argument at fault; a line that is too long, or no writing of words. */
  ghost predicate RefusedRequest(input: bytes, e: ProtocolError, lim: Limits) {
    && input != []
    && if input[0] == 42 then
         || (e == Malformed && NoNumeral(input, 0, 42, -0x8000_0000_0000_0000))
         || (e == LimitExceeded && Over(input, 0, 42, lim.maxArrayLen))
         || exists n: nat, pos :: OnCountLine(input, 0, 42, n, pos) && n <= lim.maxArrayLen
                                  && RefusedAmong(input, pos, e, n, lim)
       else
         || (e == LimitExceeded && NoLineEnd(input) && lim.maxInlineLen < |input|)
         || (e == LimitExceeded && exists line, next :: OneLine(input, 0, line, next) && lim.maxInlineLen < |line|)
         || (e == InlineSyntax && exists line, next :: OneLine(input, 0, line, next) && |line| <= lim.maxInlineLen
                                                       && forall args :: !Writes(line, args))
  }

  lemma NoNumeralIff(input: bytes, from: nat, kind: byte, least: int)
    requires from < |input| && input[from] == kind
    ensures var r := NumberAt(input, from + 1);
            && (r.Err? ==> r == Err(Malformed))
            && (NoNumeral(input, from, kind, least) <==> r.Err? || (r.Done? && r.value < least))
  {
    hide LineAt, ParseI64, Numeral, OneLine;
    LinesAreNotWrong(input, from + 1);
    var line := LineAt(input, from + 1);
    forall text, next ensures OnLine(input, from, kind, text, next) <==> line == Done(text, next) {
      LineIff(input, from + 1, text, next);
    }
    if line.Done? {
      assert OnLine(input, from, kind, line.value, line.next);
      NumeralsIff(line.value);
      var n := ParseI64(line.value);
      assert n.Some? ==> Numeral(line.value, n.value);
    }
  }

  lemma OverIff(input: bytes, from: nat, kind: byte, limit: nat)
    requires from < |input|
    ensures Over(input, from, kind, limit) <==>
              input[from] == kind && NumberAt(input, from + 1).Done? && limit < NumberAt(input, from + 1).value
  {
    hide NumberAt, OnLine;
    var r := NumberAt(input, from + 1);
    forall n, next ensures OnCountLine(input, from, kind, n, next) <==>
        input[from] == kind && r.Done? && r.value == n && r.next == next
    {
      if OnCountLine(input, from, kind, n, next) {
        KindOfLine(input, from, kind, n, next);
      }
      CountsIff(input, from, n, next);
    }
    if r.Done? && input[from] == kind {
      assert OnCountLine(input, from, kind, r.value, r.next);
    }
  }

  lemma KindOfLine(input: bytes, from: nat, kind: byte, n: int, next: nat)
    requires from < |input| && OnCountLine(input, from, kind, n, next)
    ensures input[from] == kind
  {
  }

  lemma RefusedArgIff(input: bytes, from: nat, e: ProtocolError, lim: Limits)
    ensures ArgAt(input, from, lim) == Err(e) <==> RefusedArg(input, from, e, lim)
  {
    hide NumberAt, PayloadAt, NoNumeral, Over, BadBody;
    if from < |input| {
      OverIff(input, from, 36, lim.maxBulkLen);
    }
    if from < |input| && input[from] == 36 {
      NoNumeralIff(input, from, 36, 0);
      BadBodyIff(input, from, lim);
      var r := NumberAt(input, from + 1);
      if r.Done? && 0 <= r.value {
        PayloadUnfit(input, r.next, r.value);
      }
    }
  }

  lemma {:induction false} RefusedAmongIff(input: bytes, from: nat, e: ProtocolError, count: nat, lim: Limits)
    ensures ArgsAt(input, from, lim, count) == Err(e) <==> RefusedAmong(input, from, e, count, lim)
    decreases count
  {
    hide ArgAt, Sized, RefusedArg;
    if count > 0 {
      var first := ArgAt(input, from, lim);
      RefusedArgIff(input, from, e, lim);
      RefusedAmongStep(input, from, e, count, lim);
      if first.Done? {
        RefusedAmongIff(input, first.next, e, count - 1, lim);
      }
    }
  }

  lemma RefusedAmongStep(input: bytes, from: nat, e: ProtocolError, count: nat, lim: Limits)
    requires count > 0
    ensures RefusedAmong(input, from, e, count, lim) <==>
              var first := ArgAt(input, from, lim);
              RefusedArg(input, from, e, lim) || (first.Done? && RefusedAmong(input, first.next, e, count - 1, lim))
  {
    hide ArgAt, Sized, RefusedArg;
    var first := ArgAt(input, from, lim);
    forall arg, next ensures Sized(input, from, 36, arg, next, lim.maxBulkLen) <==> first == Done(arg, next) {
      ArgIff(input, from, arg, next, lim);
    }
    if RefusedArg(input, from, e, lim) {
      assert SpellsArgs(input, from, [], from, lim);
    }
    if first.Done? && RefusedAmong(input, first.next, e, count - 1, lim) {
      var args, at :| |args| < count - 1 && SpellsArgs(input, first.next, args, at, lim)
          && RefusedArg(input, at, e, lim);
      var more := [first.value] + args;
      assert more[0] == first.value && more[1..] == args;
      assert SpellsArgs(input, from, more, at, lim);
    }
    if RefusedAmong(input, from, e, count, lim) {
      var args, at :| |args| < count && SpellsArgs(input, from, args, at, lim) && RefusedArg(input, at, e, lim);
      if args != [] {
        var mid := ArgsFirst(input, from, args, at, lim);
        assert first == Done(args[0], mid);
      }
    }
  }

  lemma ArgsFirst(input: bytes, from: nat, args: seq<bytes>, next: nat, lim: Limits) returns (mid: nat)
    requires args != [] && SpellsArgs(input, from, args, next, lim)
    ensures Sized(input, from, 36, args[0], mid, lim.maxBulkLen) && SpellsArgs(input, mid, args[1..], next, lim)
  {
    mid :| Sized(input, from, 36, args[0], mid, lim.maxBulkLen) && SpellsArgs(input, mid, args[1..], next, lim);
  }

  /** A request is refused with an error if and only if the bytes are at fault in just that way. */
  lemma RefusedRequestIff(input: bytes, e: ProtocolError, lim: Limits)
    ensures CommandAt(input, lim) == Err(e) <==> RefusedRequest(input, e, lim)
  {
    hide MultibulkAt, InlineAt, OneLine, NoLineEnd, Writes, OnCountLine, RefusedAmong, NoNumeral, Over;
    if input != [] {
      if input[0] == 42 {
        RefusedStarIff(input, e, lim);
      } else {
        RefusedLineIff(input, e, lim);
      }
    }
  }

  lemma RefusedStarIff(input: bytes, e: ProtocolError, lim: Limits)
    requires input != [] && input[0] == 42
    ensures MultibulkAt(input, lim) == Err(e) <==> RefusedRequest(input, e, lim)
  {
    hide NumberAt, OnCountLine, RefusedAmong, NoNumeral, Over;
    NoNumeralIff(input, 0, 42, -0x8000_0000_0000_0000);
    OverIff(input, 0, 42, lim.maxArrayLen);
    var r := NumberAt(input, 1);
    forall n, pos ensures OnCountLine(input, 0, 42, n, pos) <==> r.Done? && r.value == n && r.next == pos {
      CountsIff(input, 0, n, pos);
    }
    if r.Done? && 0 <= r.value {
      var n: nat := r.value;
      assert OnCountLine(input, 0, 42, n, r.next);
      RefusedAmongIff(input, r.next, e, n, lim);
    }
  }

  lemma RefusedLineIff(input: bytes, e: ProtocolError, lim: Limits)
    requires input != [] && input[0] != 42
    ensures InlineAt(input, lim) == Err(e) <==> RefusedRequest(input, e, lim)
  {
    hide LineAt, OneLine, NoLineEnd, Writes, SplitAt;
    LinesAreNotWrong(input, 0);
    LineMissing(input);
    var r := LineAt(input, 0);
    forall line, next ensures OneLine(input, 0, line, next) <==> r == Done(line, next) {
      LineIff(input, 0, line, next);
    }
    if r.Done? {
      assert OneLine(input, 0, r.value, r.next);
      SplitIff(r.value, []);
    }
  }

  lemma LineMissing(input: bytes)
    ensures LineAt(input, 0).NeedMore? <==> NoLineEnd(input)
  {
    hide FindCrlf;
    if FindCrlf(input, 0).None? {
      forall i | 0 <= i < |input| - 1 ensures !(input[i] == 13 && input[i + 1] == 10) {
        FindCrlfIsFirst(input, 0, i);
      }
    }
  }
}
