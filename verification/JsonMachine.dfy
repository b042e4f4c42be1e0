/**
 * The parser as a function from the text that is left to a value and the text that is left then,
 * step by step as the parser takes it. Past the end of the input the parser reads a zero byte.
 */
module JsonMachine {
  import opened JsonGrammar

  /** What the parser reports, one for each message. */
  datatype Error =
    | EndAfterCommentStart | EndInComment | MalformedComment
    | UnexpectedEnd | EndInString | UnescapedControl | BadUnicodeEscape | InvalidEscape
    | LeadingZeros | InvalidNumber | NoFractionDigit | NoExponentDigit
    | WrongLiteral | TooDeep | ExpectedQuote | ExpectedColon
    | ExpectedCommaInObject | ExpectedCommaInList | ExpectedValue | TrailingText

  datatype Result<+T> = Done(value: T, rest: Text) | Failed(error: Error)

  const MAX_DEPTH := 200

  function Peek(s: Text): byte {
    if s == [] then 0 else s[0]
  }

  function SkipLine(s: Text): (rest: Text)
    ensures |rest| <= |s|
  {
    if s != [] && s[0] != NEWLINE then SkipLine(s[1..]) else s
  }

  /** The text after the end of a comment in its inside. */
  function SkipBlock(s: Text): (r: Result<()>)
    ensures r.Done? ==> |r.rest| <= |s|
  {
    if |s| < 2 then Failed(EndInComment)
    else if s[0] == ASTERISK && s[1] == SLASH then Done((), s[2..])
    else SkipBlock(s[1..])
  }

  /** Past a comment, from its slash. */
  function SkipComment(s: Text): (r: Result<()>)
    requires s != []
    ensures r.Done? ==> |r.rest| < |s|
  {
    if |s| == 1 then Failed(EndAfterCommentStart)
    else if s[1] == SLASH then Done((), SkipLine(s[2..]))
    else if s[1] == ASTERISK then SkipBlock(s[2..])
    else Failed(MalformedComment)
  }

  /** Past white space, and past comments where they are allowed. */
  function Garbage(s: Text, comments: bool): (r: Result<()>)
    ensures r.Done? ==> |r.rest| <= |s|
    decreases |s|
  {
    if IsWs(Peek(s)) then Garbage(s[1..], comments)
    else if comments && Peek(s) == SLASH then
      var c := SkipComment(s);
      if c.Failed? then Failed(c.error) else Garbage(c.rest, comments)
    else Done((), s)
  }

  /** The first byte behind white space and comments. */
  function NextToken(s: Text, comments: bool): (r: Result<byte>)
    ensures r.Done? ==> |r.rest| < |s|
    decreases |s|
  {
    if s == [] then Failed(UnexpectedEnd)
    else if IsWs(s[0]) then NextToken(s[1..], comments)
    else if comments && s[0] == SLASH then
      var c := SkipComment(s);
      if c.Failed? then Failed(c.error) else NextToken(c.rest, comments)
    else Done(s[0], s[1..])
  }

  /** What a pending code point adds to a string; negative when none is pending. */
  function Flush(pending: int): Text
    requires pending < 0x200000
  {
    if pending < 0 then [] else Utf8(pending)
  }

  /**
   * The rest of a string, from inside the quotes. The code point of an escape is held back until
   * the next character is known, as it may be the first of a pair.
   */
  function Str(s: Text, out: Text, pending: int): (r: Result<Text>)
    requires -1 <= pending < 0x10000
    ensures r.Done? ==> |r.rest| < |s|
    decreases |s|
  {
    if s == [] then Failed(EndInString)
    else if s[0] == QUOTE then Done(out + Flush(pending), s[1..])
    else if s[0] <= 0x1F then Failed(UnescapedControl)
    else if s[0] != BACKSLASH then Str(s[1..], out + Flush(pending) + [s[0]], -1)
    else if |s| == 1 then Failed(EndInString)
    else if s[1] == SMALL_U then
      if |s| < 6 || !IsHexQuad(s[2..6]) then Failed(BadUnicodeEscape)
      else
        var point := HexValue(s[2..6]);
        if IsLead(pending) && IsTrail(point) then Str(s[6..], out + Utf8(Combine(pending, point)), -1)
        else Str(s[6..], out + Flush(pending), point)
    else if WfChar(Short(s[1])) then Str(s[2..], out + Flush(pending) + [ShortMeaning(s[1])], -1)
    else Failed(InvalidEscape)
  }

  function SkipDigits(s: Text): (rest: Text)
    ensures |rest| <= |s| && !IsDigit(Peek(rest))
  {
    if IsDigit(Peek(s)) then SkipDigits(s[1..]) else s
  }

  /** A number, with its sign if it has one. */
  function Num(s: Text): (r: Result<Json>)
    requires s != [] && (s[0] == MINUS || IsDigit(s[0]))
    ensures r.Done? ==> |r.rest| < |s|
  {
    Unsigned(s, if s[0] == MINUS then s[1..] else s)
  }

  /** From behind the sign; s is the whole number and more. */
  function Unsigned(s: Text, a: Text): (r: Result<Json>)
    requires |a| <= |s|
    ensures r.Done? ==> |r.rest| < |s|
  {
    if Peek(a) == 0x30 then
      if IsDigit(Peek(a[1..])) then Failed(LeadingZeros) else AfterInteger(s, a[1..])
    else if IsDigit(Peek(a)) then AfterInteger(s, SkipDigits(a[1..]))
    else Failed(InvalidNumber)
  }

  /** What was read of s when b is left. */
  function Consumed(s: Text, b: Text): (text: Text)
    requires |b| <= |s|
    ensures |text| == |s| - |b|
  {
    s[..|s| - |b|]
  }

  /** From behind the integer part. */
  function AfterInteger(s: Text, b: Text): (r: Result<Json>)
    requires |b| < |s|
    ensures r.Done? ==> |r.rest| <= |b|
  {
    if Peek(b) != POINT && Peek(b) != SMALL_E && Peek(b) != CAPITAL_E && |s| - |b| <= 9 then
      Done(Int(Atoi(Consumed(s, b))), b)
    else if Peek(b) == POINT then
      if !IsDigit(Peek(b[1..])) then Failed(NoFractionDigit) else AfterFraction(s, SkipDigits(b[1..]))
    else AfterFraction(s, b)
  }

  function AfterFraction(s: Text, c: Text): (r: Result<Json>)
    requires |c| < |s|
    ensures r.Done? ==> |r.rest| <= |c|
  {
    if Peek(c) == SMALL_E || Peek(c) == CAPITAL_E then
      Exponent(s, if Peek(c[1..]) == PLUS || Peek(c[1..]) == MINUS then c[2..] else c[1..])
    else Done(Double(Consumed(s, c)), c)
  }

  /** The digits of an exponent. */
  function Exponent(s: Text, d: Text): (r: Result<Json>)
    requires |d| < |s|
    ensures r.Done? ==> |r.rest| <= |d|
  {
    if !IsDigit(Peek(d)) then Failed(NoExponentDigit)
    else Done(Double(Consumed(s, SkipDigits(d))), SkipDigits(d))
  }

  /** The C library's reading of an optional sign and digits. */
  function Atoi(text: Text): int {
    if text != [] && text[0] == MINUS then -Decimal(text[1..]) else Decimal(text)
  }

  function Literal(s: Text, expected: Text, value: Json): (r: Result<Json>)
    requires expected != []
    ensures r.Done? ==> |r.rest| < |s|
  {
    if expected <= s then Done(value, s[|expected|..]) else Failed(WrongLiteral)
  }

  /** A value that is neither an array nor an object, from its first byte on. */
  function Scalar(token: byte, s: Text): (r: Result<Json>)
    ensures r.Done? ==> |r.rest| <= |s|
  {
    if token == MINUS || IsDigit(token) then Num([token] + s)
    else if token == TRUE_TEXT[0] then Literal([token] + s, TRUE_TEXT, Bool(true))
    else if token == FALSE_TEXT[0] then Literal([token] + s, FALSE_TEXT, Bool(false))
    else if token == NULL_TEXT[0] then Literal([token] + s, NULL_TEXT, Null)
    else if token == QUOTE then
      var str := Str(s, [], -1);
      if str.Failed? then Failed(str.error) else Done(String(str.value), str.rest)
    else Failed(ExpectedValue)
  }

  function Value(s: Text, depth: nat, comments: bool): (r: Result<Json>)
    ensures r.Done? ==> |r.rest| < |s|
    decreases |s|, 1
  {
    if depth > MAX_DEPTH then Failed(TooDeep)
    else
      var token := NextToken(s, comments);
      if token.Failed? then Failed(token.error) else ValueFrom(token.value, token.rest, depth, comments)
  }

  function ValueFrom(token: byte, s: Text, depth: nat, comments: bool): (r: Result<Json>)
    ensures r.Done? ==> |r.rest| <= |s|
    decreases |s|, 4
  {
    if token == BEGIN_OBJECT then Entries(s, depth, comments)
    else if token == BEGIN_ARRAY then Elements(s, depth, comments)
    else Scalar(token, s)
  }

  /** An object, from behind its brace. */
  function Entries(s: Text, depth: nat, comments: bool): (r: Result<Json>)
    ensures r.Done? ==> |r.rest| < |s|
    decreases |s|, 3
  {
    var first := NextToken(s, comments);
    if first.Failed? then Failed(first.error)
    else if first.value == END_OBJECT then Done(Object([]), first.rest)
    else MembersFrom(first.value, first.rest, depth, comments, [])
  }

  /** The members of an object, from a token on, with the entries so far. */
  function MembersFrom(token: byte, s: Text, depth: nat, comments: bool, entries: seq<Entry>): (r: Result<Json>)
    ensures r.Done? ==> |r.rest| < |s|
    decreases |s|, 2
  {
    if token != QUOTE then Failed(ExpectedQuote)
    else
      var m := OneMember(s, depth, comments);
      if m.Failed? then Failed(m.error)
      else AfterMember(m.rest, depth, comments, Put(entries, m.value.key, m.value.value))
  }

  function AfterMember(s: Text, depth: nat, comments: bool, entries: seq<Entry>): (r: Result<Json>)
    ensures r.Done? ==> |r.rest| < |s|
    decreases |s|, 1
  {
    var next := NextToken(s, comments);
    if next.Failed? then Failed(next.error)
    else if next.value == END_OBJECT then Done(Object(entries), next.rest)
    else if next.value != COMMA then Failed(ExpectedCommaInObject)
    else NextMember(next.rest, depth, comments, entries)
  }

  function NextMember(s: Text, depth: nat, comments: bool, entries: seq<Entry>): (r: Result<Json>)
    ensures r.Done? ==> |r.rest| < |s|
    decreases |s|, 3
  {
    var token := NextToken(s, comments);
    if token.Failed? then Failed(token.error) else MembersFrom(token.value, token.rest, depth, comments, entries)
  }

  /** One member, from behind its first quote. */
  function OneMember(s: Text, depth: nat, comments: bool): (r: Result<Entry>)
    ensures r.Done? ==> |r.rest| < |s|
    decreases |s|, 1
  {
    var key := Str(s, [], -1);
    if key.Failed? then Failed(key.error)
    else
      var colon := NextToken(key.rest, comments);
      if colon.Failed? then Failed(colon.error)
      else if colon.value != COLON then Failed(ExpectedColon)
      else
        var v := Value(colon.rest, depth + 1, comments);
        if v.Failed? then Failed(v.error) else Done(Entry(key.value, v.value), v.rest)
  }

  /** An array, from behind its bracket. */
  function Elements(s: Text, depth: nat, comments: bool): (r: Result<Json>)
    ensures r.Done? ==> |r.rest| < |s|
    decreases |s|, 3
  {
    var first := NextToken(s, comments);
    if first.Failed? then Failed(first.error)
    else if first.value == END_ARRAY then Done(Array([]), first.rest)
    else ElementsFrom([first.value] + first.rest, depth, comments, [])
  }

  /** The elements of an array, with the elements so far. */
  function ElementsFrom(s: Text, depth: nat, comments: bool, items: seq<Json>): (r: Result<Json>)
    ensures r.Done? ==> |r.rest| < |s|
    decreases |s|, 2
  {
    var v := Value(s, depth + 1, comments);
    if v.Failed? then v else AfterElement(v.rest, depth, comments, items + [v.value])
  }

  function AfterElement(s: Text, depth: nat, comments: bool, items: seq<Json>): (r: Result<Json>)
    ensures r.Done? ==> |r.rest| < |s|
    decreases |s|, 1
  {
    var next := NextToken(s, comments);
    if next.Failed? then Failed(next.error)
    else if next.value == END_ARRAY then Done(Array(items), next.rest)
    else if next.value != COMMA then Failed(ExpectedCommaInList)
    else NextElement(next.rest, depth, comments, items)
  }

  /** A token is read and put back before the next element. */
  function NextElement(s: Text, depth: nat, comments: bool, items: seq<Json>): (r: Result<Json>)
    ensures r.Done? ==> |r.rest| < |s|
    decreases |s|, 3
  {
    var token := NextToken(s, comments);
    if token.Failed? then Failed(token.error) else ElementsFrom([token.value] + token.rest, depth, comments, items)
  }

  /** A whole text. */
  function Parse(s: Text, comments: bool): Result<Json> {
    var v := Value(s, 0, comments);
    if v.Failed? then v
    else
      var g := Garbage(v.rest, comments);
      if g.Failed? then Failed(g.error)
      else if g.rest != [] then Failed(TrailingText)
      else Done(v.value, [])
  }
}
