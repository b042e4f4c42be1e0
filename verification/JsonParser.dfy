/**
 * The parser as it runs: an index into the text, and a flag and a message for the first failure.
 * Each method is tied to the function it computes on the text that is left.
 */
module JsonParser {
  import opened JsonGrammar
  import opened JsonMachine
  import JsonKeys

  /** A text from an index on. */
  function From(s: Text, i: nat): Text
    requires i <= |s|
  {
    s[i..]
  }

  lemma FromLater(s: Text, i: nat, k: nat)
    requires i + k <= |s|
    ensures From(s, i)[k..] == From(s, i + k) && |From(s, i)| == |s| - i
  {
  }

  class Parser {
    const str: Text
    const comments: bool
    var i: nat
    var failed: bool
    var err: Error

    constructor (text: Text, allowComments: bool, message: Error)
      ensures str == text && comments == allowComments && i == 0 && !failed && err == message
    {
      str, comments := text, allowComments;
      i, failed, err := 0, false, message;
    }

    ghost predicate Valid()
      reads this
    {
      i <= |str|
    }

    ghost function Left(): Text
      requires Valid()
      reads this
    {
      From(str, i)
    }

    /** The parser's state after a step that was to give this result. */
    ghost predicate Agrees<T>(r: Result<T>, v: T)
      requires Valid()
      reads this
    {
      match r
      case Done(x, rest) => !failed && v == x && Left() == rest
      case Failed(e) => failed && err == e
    }

    /** The first failure is kept, and the message changes with it only. */
    twostate predicate Reports()
      reads this
    {
      (old(failed) ==> failed && err == old(err)) && (!failed ==> err == old(err))
    }

    /** A step goes on from a valid state and never back. */
    twostate predicate Goes()
      reads this
    {
      old(i) <= i <= |str| && Reports()
    }

    /** The byte at the index; the terminating zero behind the end. */
    function At(k: nat): byte
      requires k <= |str|
    {
      if k < |str| then str[k] else 0
    }

    lemma LeftStep()
      requires Valid()
      ensures Peek(Left()) == At(i)
      ensures i < |str| ==> Left() != [] && Left()[0] == str[i] && Left()[1..] == From(str, i + 1)
      ensures i == |str| ==> Left() == []
    {
    }

    method Fail(message: Error)
      modifies this
      ensures i == old(i) && failed && err == (if old(failed) then old(err) else message)
    {
      if !failed {
        err := message;
      }
      failed := true;
    }

    method ConsumeWhitespace()
      requires Valid()
      modifies this`i
      ensures Goes() && !IsWs(At(i))
      ensures Garbage(Left(), comments) == old(Garbage(Left(), comments))
    {
      while IsWs(At(i))
        invariant old(i) <= i <= |str|
        invariant Garbage(Left(), comments) == old(Garbage(Left(), comments))
        decreases |str| - i
      {
        LeftStep();
        i := i + 1;
      }
    }

    /** A comment, if one starts here. */
    method ConsumeComment() returns (commentFound: bool)
      requires Valid()
      modifies this
      ensures Goes() && (commentFound ==> i > old(i))
      ensures At(old(i)) != SLASH ==> !commentFound && i == old(i) && failed == old(failed)
      ensures At(old(i)) == SLASH && !old(failed) ==>
                old(Left()) != [] && Agrees(old(CommentAt(i)), ()) && commentFound == !failed
    {
      commentFound := false;
      LeftStep();
      if At(i) == SLASH {
        FromLater(str, i, 1);
        i := i + 1;
        if i == |str| {
          Fail(EndAfterCommentStart);
          return;
        }
        FromLater(str, old(i), 2);
        if At(i) == SLASH {
          i := i + 1;
          ConsumeLine();
          commentFound := true;
        } else if At(i) == ASTERISK {
          i := i + 1;
          commentFound := ConsumeBlock();
        } else {
          Fail(MalformedComment);
        }
      }
    }

    /** What is made of a comment at an index. */
    ghost function CommentAt(k: nat): Result<()>
      requires k <= |str|
    {
      if k == |str| then Done((), []) else SkipComment(From(str, k))
    }

    method ConsumeLine()
      requires Valid()
      modifies this`i
      ensures Goes() && Left() == SkipLine(old(Left()))
    {
      LeftStep();
      while i < |str| && str[i] != NEWLINE
        invariant old(i) <= i <= |str|
        invariant SkipLine(Left()) == SkipLine(old(Left()))
      {
        LeftStep();
        i := i + 1;
      }
      LeftStep();
    }

    /** The inside of a comment and its end. */
    method ConsumeBlock() returns (found: bool)
      requires Valid() && 2 <= |str|
      modifies this
      ensures Goes()
      ensures !old(failed) ==> Agrees(SkipBlock(old(Left())), ()) && found == !failed
    {
      found := false;
      if i > |str| - 2 {
        Fail(EndInComment);
        return;
      }
      while !(str[i] == ASTERISK && str[i + 1] == SLASH)
        invariant old(i) <= i <= |str| - 2 && failed == old(failed) && err == old(err)
        invariant SkipBlock(Left()) == SkipBlock(old(Left()))
        decreases |str| - i
      {
        FromLater(str, i, 1);
        i := i + 1;
        if i > |str| - 2 {
          Fail(EndInComment);
          return;
        }
      }
      FromLater(str, i, 2);
      i := i + 2;
      found := true;
    }

    method ConsumeGarbage()
      requires Valid()
      modifies this
      ensures Goes()
      ensures !old(failed) ==> Agrees(old(Garbage(Left(), comments)), ())
    {
      ConsumeWhitespace();
      if comments {
        var commentFound := true;
        while commentFound
          invariant Goes() && failed == old(failed) && !IsWs(At(i))
          invariant Garbage(Left(), comments) == old(Garbage(Left(), comments))
          invariant !commentFound ==> At(i) != SLASH
          decreases |str| - i, commentFound
        {
          LeftStep();
          commentFound := ConsumeComment();
          if failed {
            return;
          }
          ConsumeWhitespace();
        }
      }
      LeftStep();
    }

    /** The next byte that is neither white space nor in a comment; zero on a failure. */
    method GetNextToken() returns (ch: byte)
      requires Valid()
      modifies this
      ensures Goes() && (failed ==> ch == 0)
      ensures !old(failed) ==> Agrees(old(NextToken(Left(), comments)), ch)
      ensures !failed ==> i > old(i) && str[i - 1] == ch && From(str, i - 1) == [ch] + Left()
    {
      TokenOfGarbage(Left(), comments);
      ConsumeGarbage();
      if failed {
        return 0;
      }
      if i == |str| {
        Fail(UnexpectedEnd);
        return 0;
      }
      LeftStep();
      ch := str[i];
      i := i + 1;
    }

    // ----- Strings

    /** A code point goes to the end of a string as UTF-8; a negative one adds nothing. */
    method EncodeUtf8(pt: int, out: Text) returns (longer: Text)
      requires pt < 0x200000
      ensures longer == out + Flush(pt)
    {
      longer := out;
      if pt < 0 {
        return;
      }
      if pt < 0x80 {
        longer := longer + [pt];
      } else if pt < 0x800 {
        longer := longer + [pt / 0x40 + 0xC0];
        longer := longer + [pt % 0x40 + 0x80];
      } else if pt < 0x10000 {
        longer := longer + [pt / 0x1000 + 0xE0];
        longer := longer + [pt / 0x40 % 0x40 + 0x80];
        longer := longer + [pt % 0x40 + 0x80];
      } else {
        longer := longer + [pt / 0x40000 + 0xF0];
        longer := longer + [pt / 0x1000 % 0x40 + 0x80];
        longer := longer + [pt / 0x40 % 0x40 + 0x80];
        longer := longer + [pt % 0x40 + 0x80];
      }
    }

    /** The four digits of an escape, if they are there. */
    method ParseHex() returns (codepoint: nat)
      requires Valid() && !failed
      modifies this
      ensures i == old(i) && codepoint < 0x10000
      ensures failed <==> !(|Left()| >= 4 && IsHexQuad(Left()[..4]))
      ensures if failed then err == BadUnicodeEscape else err == old(err) && codepoint == HexValue(Left()[..4])
    {
      codepoint := 0;
      var esc := str[i..Min(i + 4, |str|)];
      assert |Left()| >= 4 ==> esc == Left()[..4];
      if |esc| < 4 {
        Fail(BadUnicodeEscape);
        return;
      }
      var j := 0;
      while j < 4
        invariant j <= 4 && !failed && err == old(err)
        invariant forall k | 0 <= k < j :: IsHex(esc[k])
      {
        if !IsHex(esc[j]) {
          Fail(BadUnicodeEscape);
          return;
        }
        j := j + 1;
      }
      codepoint := HexValue(esc);
    }

    /** An escape, from behind its u, with the code point held back before it. */
    method ParseUnicode(out: Text, last: int) returns (longer: Text, pending: int)
      requires Valid() && !failed && i >= 2 && From(str, i - 2)[0] == BACKSLASH && From(str, i - 2)[1] == SMALL_U
      requires -1 <= last < 0x10000
      modifies this
      ensures Goes() && -1 <= pending < 0x10000
      ensures Str(From(str, old(i) - 2), out, last) == if failed then Failed(err) else Str(Left(), longer, pending)
    {
      longer, pending := out, -1;
      ghost var s := From(str, i - 2);
      FromLater(str, i - 2, 2);
      var codepoint := ParseHex();
      assert |s| >= 6 ==> s[2..6] == Left()[..4];
      if failed {
        return;
      }
      if IsLead(last) && IsTrail(codepoint) {
        longer := EncodeUtf8((last - 0xD800) * 0x400 + (codepoint - 0xDC00) + 0x10000, longer);
      } else {
        longer := EncodeUtf8(last, longer);
        pending := codepoint;
      }
      FromLater(str, i - 2, 6);
      i := i + 4;
    }

    /** An escape, from behind its backslash. */
    method ParseEscape(out: Text, last: int) returns (longer: Text, pending: int)
      requires Valid() && !failed && i >= 1 && From(str, i - 1)[0] == BACKSLASH
      requires -1 <= last < 0x10000
      modifies this
      ensures Goes() && -1 <= pending < 0x10000
      ensures Str(From(str, old(i) - 1), out, last) == if failed then Failed(err) else Str(Left(), longer, pending)
    {
      longer, pending := out, -1;
      FromLater(str, i - 1, 1);
      if i == |str| {
        Fail(EndInString);
        return;
      }
      FromLater(str, i - 1, 2);
      var ch := str[i];
      i := i + 1;
      if ch == SMALL_U {
        longer, pending := ParseUnicode(out, last);
        return;
      }
      longer := EncodeUtf8(last, longer);
      if ch == 0x62 {
        longer := longer + [0x08];
      } else if ch == 0x66 {
        longer := longer + [0x0C];
      } else if ch == 0x6E {
        longer := longer + [0x0A];
      } else if ch == 0x72 {
        longer := longer + [0x0D];
      } else if ch == 0x74 {
        longer := longer + [0x09];
      } else if ch == QUOTE || ch == BACKSLASH || ch == SLASH {
        longer := longer + [ch];
      } else {
        Fail(InvalidEscape);
      }
    }

    /** One character of a string, or its end. */
    method ParseChar(out: Text, last: int) returns (longer: Text, pending: int, done: bool)
      requires Valid() && !failed && -1 <= last < 0x10000
      modifies this
      ensures Goes() && -1 <= pending < 0x10000
      ensures !failed ==> i > old(i)
      ensures Str(old(Left()), out, last)
           == if failed then Failed(err) else if done then Done(longer, Left()) else Str(Left(), longer, pending)
    {
      longer, pending, done := out, -1, false;
      LeftStep();
      if i == |str| {
        Fail(EndInString);
        return;
      }
      var ch := str[i];
      i := i + 1;
      if ch == QUOTE {
        longer := EncodeUtf8(last, longer);
        done := true;
      } else if ch <= 0x1F {
        Fail(UnescapedControl);
      } else if ch != BACKSLASH {
        longer := EncodeUtf8(last, longer);
        longer := longer + [ch];
      } else {
        longer, pending := ParseEscape(longer, last);
      }
    }

    /** A string, from behind its first quote. */
    method ParseString() returns (out: Text)
      requires Valid() && !failed
      modifies this
      ensures Goes() && Agrees(old(Str(Left(), [], -1)), out)
    {
      out := [];
      var lastEscapedCodepoint := -1;
      var done := false;
      while !done
        invariant Goes() && !failed && -1 <= lastEscapedCodepoint < 0x10000
        invariant old(Str(Left(), [], -1)) == if done then Done(out, Left()) else Str(Left(), out, lastEscapedCodepoint)
        decreases |str| - i
      {
        out, lastEscapedCodepoint, done := ParseChar(out, lastEscapedCodepoint);
        if failed {
          return;
        }
      }
    }

    // ----- Numbers and literals

    method ConsumeDigits()
      requires Valid()
      modifies this`i
      ensures Goes() && Left() == SkipDigits(old(Left()))
    {
      while IsDigit(At(i))
        invariant old(i) <= i <= |str|
        invariant SkipDigits(Left()) == SkipDigits(old(Left()))
        decreases |str| - i
      {
        LeftStep();
        i := i + 1;
      }
      LeftStep();
    }

    method ParseNumber() returns (res: Json)
      requires Valid() && !failed && (At(i) == MINUS || IsDigit(At(i)))
      modifies this
      ensures Goes() && old(Left()) != [] && Agrees(Num(old(Left())), res)
    {
      var startPos := i;
      LeftStep();
      if At(i) == MINUS {
        i := i + 1;
      }
      res := ParseUnsigned(startPos);
    }

    /** From behind the sign. */
    method ParseUnsigned(startPos: nat) returns (res: Json)
      requires Valid() && !failed && startPos <= i
      modifies this
      ensures Goes() && |old(Left())| <= |From(str, startPos)|
      ensures Agrees(Unsigned(From(str, startPos), old(Left())), res)
    {
      res := Null;
      LeftStep();
      if At(i) == 0x30 {
        i := i + 1;
        LeftStep();
        if IsDigit(At(i)) {
          Fail(LeadingZeros);
          return;
        }
      } else if IsDigit(At(i)) {
        i := i + 1;
        ConsumeDigits();
      } else {
        Fail(InvalidNumber);
        return;
      }
      res := ParseAfterInteger(startPos);
    }

    method ParseAfterInteger(startPos: nat) returns (res: Json)
      requires Valid() && !failed && startPos < i
      modifies this
      ensures Goes() && |old(Left())| < |From(str, startPos)|
      ensures Agrees(AfterInteger(From(str, startPos), old(Left())), res)
    {
      res := Null;
      LeftStep();
      ReadSince(startPos);
      if At(i) != POINT && At(i) != SMALL_E && At(i) != CAPITAL_E && i - startPos <= 9 {
        return Int(Atoi(str[startPos..i]));
      }
      if At(i) == POINT {
        ParseFraction();
        if failed {
          return;
        }
      }
      res := ParseExponent(startPos);
    }

    /** From the point to behind the digits. */
    method ParseFraction()
      requires Valid() && !failed && At(i) == POINT
      modifies this
      ensures Goes() && Left() == old(if IsDigit(Peek(Left()[1..])) then SkipDigits(Left()[1..]) else Left()[1..])
      ensures failed <==> !IsDigit(Peek(old(Left())[1..]))
      ensures failed ==> err == NoFractionDigit
    {
      LeftStep();
      i := i + 1;
      LeftStep();
      if IsDigit(At(i)) {
        ConsumeDigits();
      } else {
        Fail(NoFractionDigit);
      }
    }

    /** The text of a number that has been read. */
    lemma ReadSince(startPos: nat)
      requires Valid() && startPos <= i
      ensures |Left()| <= |From(str, startPos)| && Consumed(From(str, startPos), Left()) == str[startPos..i]
    {
      assert From(str, startPos)[..i - startPos] == str[startPos..i];
    }

    method ParseExponent(startPos: nat) returns (res: Json)
      requires Valid() && !failed && startPos < i
      modifies this
      ensures Goes() && |old(Left())| < |From(str, startPos)|
      ensures Agrees(AfterFraction(From(str, startPos), old(Left())), res)
    {
      res := Null;
      LeftStep();
      if At(i) == SMALL_E || At(i) == CAPITAL_E {
        i := i + 1;
        LeftStep();
        if At(i) == PLUS || At(i) == MINUS {
          i := i + 1;
        }
        res := ParseExponentDigits(startPos);
        return;
      }
      ReadSince(startPos);
      res := Double(str[startPos..i]);
    }

    method ParseExponentDigits(startPos: nat) returns (res: Json)
      requires Valid() && !failed && startPos < i
      modifies this
      ensures Goes() && |old(Left())| < |From(str, startPos)|
      ensures Agrees(Exponent(From(str, startPos), old(Left())), res)
    {
      res := Null;
      LeftStep();
      if !IsDigit(At(i)) {
        Fail(NoExponentDigit);
        return;
      }
      ConsumeDigits();
      ReadSince(startPos);
      res := Double(str[startPos..i]);
    }

    /** The rest of a literal of which the first byte was read. */
    method Expect(expected: Text, res: Json) returns (r: Json)
      requires Valid() && !failed && i > 0 && expected != []
      modifies this
      ensures old(i) - 1 <= i <= |str| && (failed || i >= old(i)) && Reports()
      ensures Agrees(Literal(From(str, old(i) - 1), expected, res), r)
    {
      r := Null;
      i := i - 1;
      if i + |expected| <= |str| && str[i..i + |expected|] == expected {
        assert From(str, i)[..|expected|] == expected;
        FromLater(str, i, |expected|);
        i := i + |expected|;
        r := res;
      } else {
        Fail(WrongLiteral);
      }
    }

    // ----- Values

    function Deeper(depth: nat): nat {
      if depth > MAX_DEPTH then 0 else MAX_DEPTH + 1 - depth
    }

    /** A value. After a failure nothing is read and nothing more is reported. */
    method ParseJson(depth: nat) returns (res: Json)
      requires Valid()
      modifies this
      ensures Goes()
      ensures !old(failed) ==> Agrees(old(Value(Left(), depth, comments)), res)
      decreases Deeper(depth), 4
    {
      res := Null;
      if depth > MAX_DEPTH {
        Fail(TooDeep);
        return;
      }
      var ch := GetNextToken();
      if failed {
        return;
      }
      res := ParseFrom(ch, depth);
    }

    /** A value of which the first byte was read. */
    method ParseFrom(ch: byte, depth: nat) returns (res: Json)
      requires Valid() && !failed && i > 0 && depth <= MAX_DEPTH && From(str, i - 1) == [ch] + Left()
      modifies this
      ensures old(i) - 1 <= i <= |str| && Reports()
      ensures Agrees(old(ValueFrom(ch, Left(), depth, comments)), res)
      decreases Deeper(depth), 3
    {
      res := Null;
      if ch == BEGIN_OBJECT {
        res := ParseObject(depth);
      } else if ch == BEGIN_ARRAY {
        res := ParseArray(depth);
      } else {
        res := ParseScalar(ch);
      }
    }

    method ParseScalar(ch: byte) returns (res: Json)
      requires Valid() && !failed && i > 0 && From(str, i - 1) == [ch] + Left()
      modifies this
      ensures old(i) - 1 <= i <= |str| && Reports()
      ensures Agrees(old(Scalar(ch, Left())), res)
    {
      res := Null;
      assert str[i - 1] == From(str, i - 1)[0];
      if ch == MINUS || IsDigit(ch) {
        i := i - 1;
        res := ParseNumber();
      } else if ch == TRUE_TEXT[0] {
        res := Expect(TRUE_TEXT, Bool(true));
      } else if ch == FALSE_TEXT[0] {
        res := Expect(FALSE_TEXT, Bool(false));
      } else if ch == NULL_TEXT[0] {
        res := Expect(NULL_TEXT, Null);
      } else if ch == QUOTE {
        var s := ParseString();
        res := String(s);
      } else {
        Fail(ExpectedValue);
      }
    }

    /** One member of an object, from behind the quote of its key. */
    method ParseMember(depth: nat) returns (e: Entry)
      requires Valid() && !failed && depth <= MAX_DEPTH
      modifies this
      ensures Goes() && (!failed ==> i > old(i))
      ensures Agrees(old(OneMember(Left(), depth, comments)), e)
      decreases Deeper(depth), 0
    {
      e := Entry([], Null);
      var key := ParseString();
      if failed {
        return;
      }
      var ch := GetNextToken();
      if ch != COLON {
        Fail(ExpectedColon);
        return;
      }
      var value := ParseJson(depth + 1);
      e := Entry(key, value);
    }

    /** One member, and the token behind it; stop is set when the object is done or something failed. */
    method ParseNextMember(token: byte, depth: nat, entries: seq<Entry>)
      returns (data: seq<Entry>, ch: byte, stop: bool)
      requires Valid() && depth <= MAX_DEPTH && (failed ==> token != QUOTE)
      modifies this
      ensures Goes() && (failed ==> ch != QUOTE) && (old(failed) ==> stop)
      ensures !failed ==> i > old(i)
      ensures old(failed) || old(MembersFrom(token, Left(), depth, comments, entries))
                          == (if failed then Failed(err) else if stop then Done(Object(data), Left())
                              else MembersFrom(ch, Left(), depth, comments, data))
      decreases Deeper(depth), 1
    {
      data, ch, stop := entries, 0, true;
      if token != QUOTE {
        Fail(ExpectedQuote);
        return;
      }
      var e := ParseMember(depth);
      if failed {
        return;
      }
      data := Put(data, e.key, e.value);
      ch, stop := ParseAfterMember(depth, data);
    }

    method ParseAfterMember(depth: nat, ghost data: seq<Entry>) returns (ch: byte, stop: bool)
      requires Valid() && !failed
      modifies this
      ensures Goes() && (failed ==> ch != QUOTE)
      ensures AfterMember(old(Left()), depth, comments, data)
           == if failed then Failed(err) else if stop then Done(Object(data), Left())
              else MembersFrom(ch, Left(), depth, comments, data)
    {
      stop := true;
      ch := GetNextToken();
      if ch == END_OBJECT {
        return;
      }
      if ch != COMMA {
        Fail(ExpectedCommaInObject);
        return 0, true;
      }
      ch := GetNextToken();
      stop := false;
    }

    /** An object, from behind its brace. */
    method ParseObject(depth: nat) returns (res: Json)
      requires Valid() && !failed && depth <= MAX_DEPTH
      modifies this
      ensures Goes()
      ensures Agrees(old(Entries(Left(), depth, comments)), res)
      decreases Deeper(depth), 2
    {
      res := Null;
      var data: seq<Entry> := [];
      var ch := GetNextToken();
      if ch == END_OBJECT {
        return Object(data);
      }
      var stop := false;
      while !stop
        invariant Goes() && (failed ==> ch != QUOTE)
        invariant old(Entries(Left(), depth, comments))
               == if failed then Failed(err) else if stop then Done(Object(data), Left())
                  else MembersFrom(ch, Left(), depth, comments, data)
        decreases !failed, !stop, |str| - i
      {
        data, ch, stop := ParseNextMember(ch, depth, data);
      }
      res := Object(data);
    }

    /** What a list gives that is done, has failed or goes on with the value that starts one byte back. */
    ghost predicate Lists(r: Result<Json>, stop: bool, data: seq<Json>, depth: nat)
      requires Valid() && i > 0
      reads this
    {
      r == if failed then Failed(err) else if stop then Done(Array(data), Left())
           else ElementsFrom(From(str, i - 1), depth, comments, data)
    }

    /** One element, and the token behind it; stop is set when the array is done or something failed. */
    method ParseNextElement(depth: nat, items: seq<Json>) returns (data: seq<Json>, stop: bool)
      requires Valid() && i > 0 && depth <= MAX_DEPTH
      modifies this
      ensures old(i) - 1 <= i <= |str| && Reports() && (old(failed) ==> stop)
      ensures !failed ==> i > old(i)
      ensures !old(failed) && failed ==> old(ElementsFrom(From(str, i - 1), depth, comments, items)) == Failed(err)
      ensures !old(failed) && !failed ==>
                Lists(old(ElementsFrom(From(str, i - 1), depth, comments, items)), stop, data, depth)
      decreases Deeper(depth), 1
    {
      data, stop := items, true;
      i := i - 1;
      FirstElement(Left(), depth, items);
      var value := ParseJson(depth + 1);
      data := data + [value];
      if failed {
        return;
      }
      stop := ParseAfterElement(depth, data);
    }

    lemma FirstElement(s: Text, depth: nat, items: seq<Json>)
      ensures var v := Value(s, depth + 1, comments);
              ElementsFrom(s, depth, comments, items)
              == if v.Failed? then v else AfterElement(v.rest, depth, comments, items + [v.value])
    {
    }

    method ParseAfterElement(depth: nat, ghost data: seq<Json>) returns (stop: bool)
      requires Valid() && !failed
      modifies this
      ensures Goes() && (!failed ==> i > old(i)) && (!failed && !stop ==> i > old(i) + 1)
      ensures failed ==> AfterElement(old(Left()), depth, comments, data) == Failed(err)
      ensures !failed ==> Lists(AfterElement(old(Left()), depth, comments, data), stop, data, depth)
    {
      stop := true;
      var ch := GetNextToken();
      if ch == END_ARRAY {
        return;
      }
      if ch != COMMA {
        Fail(ExpectedCommaInList);
        return;
      }
      ch := GetNextToken();
      stop := false;
    }

    /** An array, from behind its bracket. */
    method ParseArray(depth: nat) returns (res: Json)
      requires Valid() && !failed && i > 0 && depth <= MAX_DEPTH
      modifies this
      ensures old(i) - 1 <= i <= |str| && Reports()
      ensures Agrees(old(Elements(Left(), depth, comments)), res)
      decreases Deeper(depth), 2
    {
      res := Null;
      var data: seq<Json> := [];
      var ch := GetNextToken();
      if ch == END_ARRAY {
        return Array(data);
      }
      var stop := false;
      while !stop
        invariant old(i) - 1 <= i <= |str| && Reports() && (!stop ==> i >= old(i))
        invariant !failed && !stop ==> i > old(i)
        invariant old(Elements(Left(), depth, comments))
               == if failed then Failed(err) else if stop then Done(Array(data), Left())
                  else ElementsFrom(From(str, i - 1), depth, comments, data)
        decreases !failed, !stop, |str| - i
      {
        data, stop := ParseNextElement(depth, data);
      }
      res := Array(data);
    }
  }

  /** A whole text is read; the caller's message is left alone unless something fails. */
  method ParseText(text: Text, allowComments: bool, message: Error) returns (res: Json, err: Error)
    ensures var r := Parse(text, allowComments);
            if r.Done? then res == r.value && err == message else res == Null && err == r.error
    ensures JsonKeys.KeysAscend(res)
  {
    JsonKeys.ParsedAscends(text, allowComments);
    var parser := new Parser(text, allowComments, message);
    assert parser.Left() == text;
    res := parser.ParseJson(0);
    parser.ConsumeGarbage();
    if parser.failed {
      return Null, parser.err;
    }
    if parser.i != |text| {
      parser.Fail(TrailingText);
      return Null, parser.err;
    }
    err := parser.err;
  }

  function Min(a: nat, b: nat): nat {
    if a < b then a else b
  }

  lemma {:induction false} TokenOfGarbage(s: Text, comments: bool)
    ensures var g := Garbage(s, comments);
            NextToken(s, comments) == if g.Failed? then Failed(g.error)
                                      else if g.rest == [] then Failed(UnexpectedEnd)
                                      else Done(g.rest[0], g.rest[1..])
    decreases |s|
  {
    if s != [] {
      if IsWs(s[0]) {
        TokenOfGarbage(s[1..], comments);
      } else if comments && s[0] == SLASH && SkipComment(s).Done? {
        TokenOfGarbage(SkipComment(s).rest, comments);
      }
    }
  }
}
