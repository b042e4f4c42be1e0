/** What is between the tokens: the parser passes just white space and, where they are allowed, comments. */
module JsonGaps {
  import opened JsonGrammar
  import opened JsonMachine

  lemma {:induction false} YieldJoins(a: Gap, b: Gap)
    ensures YieldGap(a + b) == YieldGap(a) + YieldGap(b)
    decreases |a|
  {
    if a == [] {
      assert a + b == b;
    } else {
      assert (a + b)[0] == a[0] && (a + b)[1..] == a[1..] + b;
      YieldJoins(a[1..], b);
      Associate(YieldFiller(a[0]), YieldGap(a[1..]), YieldGap(b));
    }
  }

  /** Gaps one after the other are a gap. */
  lemma GapsJoin(a: Gap, b: Gap, comments: bool)
    requires WfGap(a, comments) && WfGap(b, comments)
    ensures WfGap(a + b, comments) && YieldGap(a + b) == YieldGap(a) + YieldGap(b)
  {
    YieldJoins(a, b);
  }

  /** A filler before a gap. */
  lemma FillerFirst(p: Filler, gap: Gap, comments: bool) returns (all: Gap)
    requires WfFiller(p, comments) && WfGap(gap, comments)
    ensures all == [p] + gap && WfGap(all, comments) && YieldGap(all) == YieldFiller(p) + YieldGap(gap)
  {
    all := [p] + gap;
    assert all[1..] == gap;
  }

  // ----- Comments

  lemma {:induction false} SkipLineSound(s: Text) returns (text: Text)
    ensures s == text + SkipLine(s) && NEWLINE !in text
    ensures SkipLine(s) == [] || SkipLine(s)[0] == NEWLINE
    decreases |s|
  {
    if s != [] && s[0] != NEWLINE {
      var more := SkipLineSound(s[1..]);
      text := [s[0]] + more;
    } else {
      text := [];
    }
  }

  lemma {:induction false} SkipLineComplete(text: Text, rest: Text)
    requires NEWLINE !in text && (rest == [] || rest[0] == NEWLINE)
    ensures SkipLine(text + rest) == rest
    decreases |text|
  {
    if text == [] {
      assert [] + rest == rest;
    } else {
      assert (text + rest)[1..] == text[1..] + rest;
      SkipLineComplete(text[1..], rest);
    }
  }

  lemma {:induction false} SkipBlockSound(s: Text) returns (text: Text)
    requires SkipBlock(s).Done?
    ensures s == text + [ASTERISK, SLASH] + SkipBlock(s).rest && WfFiller(Block(text), true)
    decreases |s|
  {
    if s[0] == ASTERISK && s[1] == SLASH {
      text := [];
    } else {
      var more := SkipBlockSound(s[1..]);
      text := [s[0]] + more;
      assert more != [] ==> more[0] == s[1];
    }
  }

  lemma BlockTail(text: Text)
    requires WfFiller(Block(text), true) && text != []
    ensures WfFiller(Block(text[1..]), true)
  {
    var rest := text[1..];
    forall i | 0 <= i < |rest| - 1 ensures !(rest[i] == ASTERISK && rest[i + 1] == SLASH) {
      assert rest[i] == text[i + 1] && rest[i + 1] == text[i + 2];
    }
  }

  lemma {:induction false} SkipBlockComplete(text: Text, rest: Text)
    requires WfFiller(Block(text), true)
    ensures SkipBlock(text + [ASTERISK, SLASH] + rest) == Done((), rest)
    decreases |text|
  {
    var s := text + [ASTERISK, SLASH] + rest;
    if text == [] {
      assert s[2..] == rest;
    } else {
      assert s[1..] == text[1..] + [ASTERISK, SLASH] + rest;
      BlockTail(text);
      SkipBlockComplete(text[1..], rest);
    }
  }

  // ----- Tokens

  lemma HeadFirst(s: Text, a: Text, b: Text, c: Text)
    requires s != [] && s[1..] == a + b + c
    ensures s == [s[0]] + a + b + c
  {
    assert s == [s[0]] + s[1..];
  }

  /** A token, and the gap before it. */
  lemma {:induction false} TokenSound(s: Text, comments: bool) returns (gap: Gap)
    requires NextToken(s, comments).Done?
    ensures WfGap(gap, comments)
    ensures s == YieldGap(gap) + [NextToken(s, comments).value] + NextToken(s, comments).rest
    decreases |s|
  {
    if IsWs(s[0]) {
      var more := TokenSound(s[1..], comments);
      gap := FillerFirst(Space(s[0]), more, comments);
      HeadFirst(s, YieldGap(more), [NextToken(s, comments).value], NextToken(s, comments).rest);
    } else if comments && s[0] == SLASH {
      gap := CommentSound(s);
    } else {
      gap := [];
    }
  }

  /** The two bytes that open a comment, what it says, and what is behind it. */
  lemma Opened(s: Text, open: Text)
    requires |s| >= 2 && |open| == 2 && s[0] == open[0] && s[1] == open[1]
    ensures s == open + s[2..]
  {
  }

  lemma {:induction false} CommentSound(s: Text) returns (gap: Gap)
    requires NextToken(s, true).Done? && s[0] == SLASH
    ensures WfGap(gap, true) && s == YieldGap(gap) + [NextToken(s, true).value] + NextToken(s, true).rest
    decreases |s|, 1
  {
    if s[1] == SLASH {
      gap := LineSound(s);
    } else {
      gap := BlockSound(s);
    }
  }

  lemma LineSkips(s: Text)
    requires |s| >= 2 && s[0] == s[1] == SLASH
    ensures NextToken(s, true) == NextToken(SkipLine(s[2..]), true)
    ensures Garbage(s, true) == Garbage(SkipLine(s[2..]), true)
  {
    assert SkipComment(s) == Done((), SkipLine(s[2..]));
  }

  lemma NewlineSkips(s: Text)
    requires s != [] && s[0] == NEWLINE
    ensures NextToken(s, true) == NextToken(s[1..], true) && Garbage(s, true) == Garbage(s[1..], true)
    ensures s == [NEWLINE] + s[1..]
  {
  }

  /** A comment to the end of its line, and what is behind the line. */
  lemma LineSkipped(s: Text) returns (text: Text, rest: Text)
    requires NextToken(s, true).Done? && |s| >= 2 && s[0] == s[1] == SLASH
    ensures NEWLINE !in text && s == [SLASH, SLASH] + (text + ([NEWLINE] + rest))
    ensures NextToken(s, true) == NextToken(rest, true)
  {
    var end := SkipLine(s[2..]);
    text := SkipLineSound(s[2..]);
    LineSkips(s);
    rest := end[1..];
    Opened(s, [SLASH, SLASH]);
    NewlineSkips(end);
  }

  lemma {:induction false} LineSound(s: Text) returns (gap: Gap)
    requires NextToken(s, true).Done? && s[0] == SLASH && |s| >= 2 && s[1] == SLASH
    ensures WfGap(gap, true) && s == YieldGap(gap) + [NextToken(s, true).value] + NextToken(s, true).rest
    decreases |s|, 0
  {
    var text, rest := LineSkipped(s);
    var token := NextToken(s, true);
    var more := TokenSound(rest, true);
    gap := FillerFirst(Line(text), more, true);
    RegroupFillers([SLASH, SLASH], text, [NEWLINE], YieldGap(more), [token.value], token.rest);
  }

  lemma {:induction false} BlockSound(s: Text) returns (gap: Gap)
    requires NextToken(s, true).Done? && s[0] == SLASH && |s| >= 2 && s[1] == ASTERISK
    ensures WfGap(gap, true) && s == YieldGap(gap) + [NextToken(s, true).value] + NextToken(s, true).rest
    decreases |s|, 0
  {
    var rest := SkipBlock(s[2..]).rest;
    var token := NextToken(s, true);
    assert token == NextToken(rest, true);
    var text := SkipBlockSound(s[2..]);
    var more := TokenSound(rest, true);
    gap := FillerFirst(Block(text), more, true);
    Opened(s, [SLASH, ASTERISK]);
    Associate(text, [ASTERISK, SLASH], rest);
    RegroupFillers([SLASH, ASTERISK], text, [ASTERISK, SLASH], YieldGap(more), [token.value], token.rest);
  }

  lemma RegroupFillers(open: Text, text: Text, close: Text, more: Text, b: Text, rest: Text)
    ensures open + (text + (close + (more + b + rest))) == open + text + close + more + b + rest
  {
  }

  /** A gap is passed to the token behind it. */
  lemma {:induction false} TokenComplete(gap: Gap, b: byte, s: Text, comments: bool)
    requires WfGap(gap, comments) && !IsWs(b) && b != SLASH
    ensures NextToken(YieldGap(gap) + [b] + s, comments) == Done(b, s)
    decreases |gap|
  {
    if gap == [] {
      assert ([] + [b] + s)[1..] == s;
    } else {
      var rest := YieldGap(gap[1..]) + [b] + s;
      TokenComplete(gap[1..], b, s, comments);
      RegroupFiller(YieldFiller(gap[0]), YieldGap(gap[1..]), [b], s);
      FillerPassed(gap[0], rest, comments);
    }
  }

  lemma RegroupFiller(p: Text, more: Text, b: Text, s: Text)
    ensures p + more + b + s == p + (more + b + s)
  {
  }

  lemma FillerPassed(p: Filler, rest: Text, comments: bool)
    requires WfFiller(p, comments) && rest != []
    ensures NextToken(YieldFiller(p) + rest, comments) == NextToken(rest, comments)
  {
    match p
    case Space(b) => assert (YieldFiller(p) + rest)[1..] == rest;
    case Line(text) => LinePassed(text, rest);
    case Block(text) => BlockPassed(text, rest);
  }

  lemma LinePassed(text: Text, rest: Text)
    requires NEWLINE !in text
    ensures var s := YieldFiller(Line(text)) + rest;
            SkipComment(s) == Done((), [NEWLINE] + rest) && NextToken(s, true) == NextToken(rest, true)
  {
    var s, end := YieldFiller(Line(text)) + rest, [NEWLINE] + rest;
    assert s[2..] == text + end && end[1..] == rest;
    SkipLineComplete(text, end);
    assert NextToken(s, true) == NextToken(end, true);
  }

  lemma BlockPassed(text: Text, rest: Text)
    requires WfFiller(Block(text), true)
    ensures var s := YieldFiller(Block(text)) + rest;
            SkipComment(s) == Done((), rest) && NextToken(s, true) == NextToken(rest, true)
  {
    var s := YieldFiller(Block(text)) + rest;
    assert s[2..] == text + [ASTERISK, SLASH] + rest;
    SkipBlockComplete(text, rest);
  }

  // ----- The end of a text

  lemma {:induction false} GarbageSound(s: Text, comments: bool) returns (gap: Gap, tail: Text)
    requires Garbage(s, comments) == Done((), [])
    ensures WfGap(gap, comments) && IsOpenEnd(tail, comments) && s == YieldGap(gap) + tail
    decreases |s|
  {
    if s == [] {
      gap, tail := [], [];
    } else if IsWs(s[0]) {
      var more;
      more, tail := GarbageSound(s[1..], comments);
      gap := FillerFirst(Space(s[0]), more, comments);
      assert s == [s[0]] + s[1..];
      Associate([s[0]], YieldGap(more), tail);
    } else if s[1] == SLASH {
      gap, tail := LastLine(s);
    } else {
      gap, tail := LastBlock(s);
    }
  }

  lemma {:induction false} LastBlock(s: Text) returns (gap: Gap, tail: Text)
    requires |s| >= 2 && s[0] == SLASH && s[1] != SLASH && Garbage(s, true) == Done((), [])
    ensures WfGap(gap, true) && IsOpenEnd(tail, true) && s == YieldGap(gap) + tail
    decreases |s|, 0
  {
    var rest := SkipBlock(s[2..]).rest;
    var text := SkipBlockSound(s[2..]);
    var more;
    more, tail := GarbageSound(rest, true);
    gap := FillerFirst(Block(text), more, true);
    Opened(s, [SLASH, ASTERISK]);
    Associate(text, [ASTERISK, SLASH], rest);
    RegroupLast([SLASH, ASTERISK], text, [ASTERISK, SLASH], YieldGap(more), tail);
  }

  lemma {:induction false} LastLine(s: Text) returns (gap: Gap, tail: Text)
    requires |s| >= 2 && s[0] == s[1] == SLASH && Garbage(s, true) == Done((), [])
    ensures WfGap(gap, true) && IsOpenEnd(tail, true) && s == YieldGap(gap) + tail
    decreases |s|, 0
  {
    var end := SkipLine(s[2..]);
    var text := SkipLineSound(s[2..]);
    LineSkips(s);
    Opened(s, [SLASH, SLASH]);
    if end == [] {
      gap, tail := [], s;
      assert text + [] == text;
      assert [] + s == s;
    } else {
      NewlineSkips(end);
      var more;
      more, tail := GarbageSound(end[1..], true);
      gap := FillerFirst(Line(text), more, true);
      RegroupLast([SLASH, SLASH], text, [NEWLINE], YieldGap(more), tail);
    }
  }

  lemma RegroupLast(open: Text, text: Text, close: Text, more: Text, tail: Text)
    ensures open + (text + (close + (more + tail))) == open + text + close + more + tail
  {
  }

  /** A gap at the end of a text is passed to the end. */
  lemma {:induction false} GarbageComplete(gap: Gap, tail: Text, comments: bool)
    requires WfGap(gap, comments) && IsOpenEnd(tail, comments)
    ensures Garbage(YieldGap(gap) + tail, comments) == Done((), [])
    decreases |gap|
  {
    if gap == [] {
      assert [] + tail == tail;
      TailEnds(tail, comments);
    } else {
      GarbageComplete(gap[1..], tail, comments);
      Associate(YieldFiller(gap[0]), YieldGap(gap[1..]), tail);
      FillerEnds(gap[0], YieldGap(gap[1..]) + tail, comments);
    }
  }

  lemma TailEnds(tail: Text, comments: bool)
    requires IsOpenEnd(tail, comments)
    ensures Garbage(tail, comments) == Done((), [])
  {
    if tail != [] {
      var text := tail[2..];
      assert text + [] == text;
      SkipLineComplete(text, []);
      LineSkips(tail);
      assert Garbage([], true) == Done((), []);
    }
  }

  lemma FillerEnds(p: Filler, rest: Text, comments: bool)
    requires WfFiller(p, comments) && Garbage(rest, comments) == Done((), [])
    ensures Garbage(YieldFiller(p) + rest, comments) == Done((), [])
  {
    match p
    case Space(b) => assert (YieldFiller(p) + rest)[1..] == rest;
    case Line(text) =>
      LinePassed(text, rest);
      NewlineSkips([NEWLINE] + rest);
      assert ([NEWLINE] + rest)[1..] == rest;
    case Block(text) => BlockPassed(text, rest);
  }

  /** A gap starts with white space or with a comment. */
  lemma GapStarts(gap: Gap, comments: bool)
    requires WfGap(gap, comments) && gap != []
    ensures YieldGap(gap) != [] && (IsWs(YieldGap(gap)[0]) || YieldGap(gap)[0] == SLASH)
  {
    assert WfFiller(gap[0], comments);
  }
}
