/**
 * JSON values, and JSON texts as sections 2 to 7 of RFC 8259 define them, with comments where the parser
 * allows them: a syntax tree with what is between its tokens, the bytes it stands for, and the value it
 * means. Strings are taken as bytes.
 */
module JsonGrammar {

  type byte = b: int | 0 <= b < 256

  type Text = seq<byte>

  const QUOTE: byte := 0x22
  const BACKSLASH: byte := 0x5C
  const COMMA: byte := 0x2C
  const COLON: byte := 0x3A
  const BEGIN_ARRAY: byte := 0x5B
  const END_ARRAY: byte := 0x5D
  const BEGIN_OBJECT: byte := 0x7B
  const END_OBJECT: byte := 0x7D
  const MINUS: byte := 0x2D
  const PLUS: byte := 0x2B
  const POINT: byte := 0x2E
  const SMALL_E: byte := 0x65
  const CAPITAL_E: byte := 0x45
  const SMALL_U: byte := 0x75
  const SLASH: byte := 0x2F
  const ASTERISK: byte := 0x2A
  const NEWLINE: byte := 0x0A
  const NULL_TEXT: Text := [0x6E, 0x75, 0x6C, 0x6C]
  const TRUE_TEXT: Text := [0x74, 0x72, 0x75, 0x65]
  const FALSE_TEXT: Text := [0x66, 0x61, 0x6C, 0x73, 0x65]

  lemma Associate(a: Text, b: Text, c: Text)
    ensures a + (b + c) == a + b + c
  {
  }

  // ----- Values

  /**
   * A JSON value. A number that is not read as an int keeps its text: what the library makes of
   * the text is not part of this model. The entries of an object are ordered by key.
   */
  datatype Json =
    | Null
    | Bool(b: bool)
    | Int(n: int)
    | Double(text: Text)
    | String(s: Text)
    | Array(items: seq<Json>)
    | Object(entries: seq<Entry>)

  datatype Entry = Entry(key: Text, value: Json)

  /** The order of keys: bytewise. */
  predicate Less(a: Text, b: Text) {
    b != [] && (a == [] || a[0] < b[0] || (a[0] == b[0] && Less(a[1..], b[1..])))
  }

  predicate Ordered(entries: seq<Entry>) {
    forall i, j | 0 <= i < j < |entries| :: Less(entries[i].key, entries[j].key)
  }

  /** Set a key: an entry with the same key is overwritten, a new one goes to its place. */
  function Put(entries: seq<Entry>, key: Text, value: Json): seq<Entry> {
    if entries == [] then [Entry(key, value)]
    else if entries[0].key == key then [Entry(key, value)] + entries[1..]
    else if Less(key, entries[0].key) then [Entry(key, value)] + entries
    else [entries[0]] + Put(entries[1..], key, value)
  }

  // ----- Tokens

  predicate IsWs(b: byte) {
    b == 0x20 || b == 0x09 || b == 0x0A || b == 0x0D
  }

  // ----- Between tokens

  /** White space, or where comments are allowed a comment to the end of its line, or a block. */
  datatype Filler = Space(b: byte) | Line(text: Text) | Block(text: Text)

  predicate WfFiller(p: Filler, comments: bool) {
    match p
    case Space(b) => IsWs(b)
    case Line(text) => comments && NEWLINE !in text
    case Block(text) => comments && forall i | 0 <= i < |text| - 1 :: !(text[i] == ASTERISK && text[i + 1] == SLASH)
  }

  function YieldFiller(p: Filler): (s: Text)
    ensures s != []
  {
    match p
    case Space(b) => [b]
    case Line(text) => [SLASH, SLASH] + text + [NEWLINE]
    case Block(text) => [SLASH, ASTERISK] + text + [ASTERISK, SLASH]
  }

  type Gap = seq<Filler>

  predicate WfGap(gap: Gap, comments: bool) {
    forall k | 0 <= k < |gap| :: WfFiller(gap[k], comments)
  }

  /** The text of a gap: nothing, or a filler and the text of another gap. */
  function YieldGap(gap: Gap): Text
    decreases |gap|, 1
  {
    if gap == [] then [] else YieldFillers(gap)
  }

  function YieldFillers(gap: Gap): Text
    requires gap != []
    decreases |gap|, 0
  {
    YieldFiller(gap[0]) + YieldGap(gap[1..])
  }

  /** At the end of a text the last comment need not have the end of its line. */
  predicate IsOpenEnd(tail: Text, comments: bool) {
    tail == [] || (comments && |tail| >= 2 && tail[0] == tail[1] == SLASH && NEWLINE !in tail)
  }

  predicate IsDigit(b: byte) {
    0x30 <= b <= 0x39
  }

  predicate AllDigits(s: Text) {
    forall k | 0 <= k < |s| :: IsDigit(s[k])
  }

  predicate IsHex(b: byte) {
    IsDigit(b) || 0x41 <= b <= 0x46 || 0x61 <= b <= 0x66
  }

  /** A character of a string: as it is, escaped by a letter, or by four hexadecimal digits. */
  datatype Char = Plain(b: byte) | Short(letter: byte) | Unicode(hex: Text)

  predicate WfChar(c: Char) {
    match c
    case Plain(b) => b >= 0x20 && b != QUOTE && b != BACKSLASH
    case Short(b) =>
      b == QUOTE || b == BACKSLASH || b == 0x2F || b == 0x62 || b == 0x66 || b == 0x6E || b == 0x72 || b == 0x74
    case Unicode(hex) => IsHexQuad(hex)
  }

  predicate WfChars(cs: seq<Char>) {
    forall k | 0 <= k < |cs| :: WfChar(cs[k])
  }

  function YieldChar(c: Char): Text {
    match c
    case Plain(b) => [b]
    case Short(b) => [BACKSLASH, b]
    case Unicode(hex) => [BACKSLASH, SMALL_U] + hex
  }

  function YieldChars(cs: seq<Char>): Text {
    if cs == [] then [] else YieldChar(cs[0]) + YieldChars(cs[1..])
  }

  /** A number: sign, integer part, fraction with its point, exponent with its letter and sign. */
  datatype Number = Number(minus: bool, digits: Text, frac: Text, exp: Text)

  predicate WfNumber(n: Number) {
    IsInteger(n.digits) && IsFraction(n.frac) && IsExponent(n.exp)
  }

  predicate IsInteger(digits: Text) {
    digits != [] && AllDigits(digits) && (digits[0] == 0x30 ==> |digits| == 1)
  }

  predicate IsFraction(frac: Text) {
    frac == [] || (frac[0] == POINT && |frac| >= 2 && AllDigits(frac[1..]))
  }

  predicate IsExponent(exp: Text) {
    exp == [] || ((exp[0] == SMALL_E || exp[0] == CAPITAL_E) && WfExponent(exp[1..]))
  }

  predicate WfExponent(s: Text) {
    var digits := if s != [] && (s[0] == PLUS || s[0] == MINUS) then s[1..] else s;
    digits != [] && AllDigits(digits)
  }

  function YieldNumber(n: Number): Text {
    (if n.minus then [MINUS] else []) + n.digits + n.frac + n.exp
  }

  // ----- Trees

  datatype Tree =
    | TNull
    | TTrue
    | TFalse
    | TNumber(number: Number)
    | TString(chars: seq<Char>)
    | TEmptyArray(ws: Gap)
    | TArray(before: Gap, items: Items)
    | TEmptyObject(ws: Gap)
    | TObject(before: Gap, members: Members)

  /** The elements of an array, each with what is between it and the next token. */
  datatype Items =
    | LastItem(value: Tree, after: Gap)
    | ItemThen(value: Tree, after: Gap, before: Gap, rest: Items)

  datatype Member = Member(key: seq<Char>, beforeColon: Gap, afterColon: Gap, value: Tree, after: Gap)

  datatype Members =
    | LastMember(m: Member)
    | MemberThen(m: Member, before: Gap, rest: Members)

  predicate Wf(t: Tree) {
    match t
    case TNumber(n) => WfNumber(n)
    case TString(cs) => WfChars(cs)
    case TArray(_, items) => WfItems(items)
    case TObject(_, members) => WfMembers(members)
    case _ => true
  }

  predicate WfItems(items: Items) {
    match items
    case LastItem(v, _) => Wf(v)
    case ItemThen(v, _, _, rest) => Wf(v) && WfItems(rest)
  }

  predicate WfMember(m: Member) {
    WfChars(m.key) && Wf(m.value)
  }

  predicate WfMembers(members: Members) {
    match members
    case LastMember(m) => WfMember(m)
    case MemberThen(m, _, rest) => WfMember(m) && WfMembers(rest)
  }

  /** A tree of which everything between the tokens is white space, with comments where they are allowed. */
  predicate WfIn(t: Tree, comments: bool): (r: bool)
    ensures r ==> Wf(t)
  {
    match t
    case TEmptyArray(ws) => WfGap(ws, comments)
    case TArray(ws, items) => WfGap(ws, comments) && WfItemsIn(items, comments)
    case TEmptyObject(ws) => WfGap(ws, comments)
    case TObject(ws, members) => WfGap(ws, comments) && WfMembersIn(members, comments)
    case _ => Wf(t)
  }

  predicate WfItemsIn(items: Items, comments: bool): (r: bool)
    ensures r ==> WfItems(items)
  {
    match items
    case LastItem(v, after) => WfIn(v, comments) && WfGap(after, comments)
    case ItemThen(v, after, before, rest) =>
      WfIn(v, comments) && WfGap(after, comments) && WfGap(before, comments) && WfItemsIn(rest, comments)
  }

  predicate WfMemberIn(m: Member, comments: bool): (r: bool)
    ensures r ==> WfMember(m)
  {
    && WfChars(m.key) && WfGap(m.beforeColon, comments) && WfGap(m.afterColon, comments)
    && WfIn(m.value, comments) && WfGap(m.after, comments)
  }

  predicate WfMembersIn(members: Members, comments: bool): (r: bool)
    ensures r ==> WfMembers(members)
  {
    match members
    case LastMember(m) => WfMemberIn(m, comments)
    case MemberThen(m, before, rest) =>
      WfMemberIn(m, comments) && WfGap(before, comments) && WfMembersIn(rest, comments)
  }

  /** The text of a tree. */
  function Yield(t: Tree): Text {
    match t
    case TNull => NULL_TEXT
    case TTrue => TRUE_TEXT
    case TFalse => FALSE_TEXT
    case TNumber(n) => YieldNumber(n)
    case TString(cs) => [QUOTE] + YieldChars(cs) + [QUOTE]
    case TEmptyArray(ws) => [BEGIN_ARRAY] + YieldGap(ws) + [END_ARRAY]
    case TArray(ws, items) => [BEGIN_ARRAY] + YieldGap(ws) + YieldItems(items)
    case TEmptyObject(ws) => [BEGIN_OBJECT] + YieldGap(ws) + [END_OBJECT]
    case TObject(ws, members) => [BEGIN_OBJECT] + YieldGap(ws) + YieldMembers(members)
  }

  function YieldItems(items: Items): Text {
    match items
    case LastItem(v, after) => Yield(v) + YieldGap(after) + [END_ARRAY]
    case ItemThen(v, after, before, rest) => Yield(v) + YieldGap(after) + [COMMA] + YieldGap(before) + YieldItems(rest)
  }

  function YieldMember(m: Member): Text {
    [QUOTE] + YieldChars(m.key) + [QUOTE] + YieldGap(m.beforeColon) + [COLON] + YieldGap(m.afterColon)
    + Yield(m.value) + YieldGap(m.after)
  }

  function YieldMembers(members: Members): Text {
    match members
    case LastMember(m) => YieldMember(m) + [END_OBJECT]
    case MemberThen(m, before, rest) => YieldMember(m) + [COMMA] + YieldGap(before) + YieldMembers(rest)
  }

  /** A whole text: a value, and what is before and behind it. */
  datatype Document = Document(before: Gap, value: Tree, after: Gap, tail: Text)

  predicate WfDocument(d: Document, comments: bool) {
    WfGap(d.before, comments) && WfIn(d.value, comments) && WfGap(d.after, comments) && IsOpenEnd(d.tail, comments)
  }

  function YieldDocument(d: Document): Text {
    YieldGap(d.before) + Yield(d.value) + (YieldGap(d.after) + d.tail)
  }

  /** How deeply values are nested. */
  function Depth(t: Tree): nat {
    match t
    case TArray(_, items) => 1 + DepthItems(items)
    case TObject(_, members) => 1 + DepthMembers(members)
    case _ => 0
  }

  function Max(a: nat, b: nat): nat {
    if a < b then b else a
  }

  function DepthItems(items: Items): nat {
    match items
    case LastItem(v, _) => Depth(v)
    case ItemThen(v, _, _, rest) => Max(Depth(v), DepthItems(rest))
  }

  function DepthMembers(members: Members): nat {
    match members
    case LastMember(m) => Depth(m.value)
    case MemberThen(m, _, rest) => Max(Depth(m.value), DepthMembers(rest))
  }

  // ----- Meaning

  /** The value of a run of decimal digits. */
  function Decimal(digits: Text): int {
    if digits == [] then 0 else Decimal(digits[..|digits| - 1]) * 10 + (digits[|digits| - 1] as int - 0x30)
  }

  /** A number without fraction and exponent is an int when it has at most nine characters. */
  function MeaningNumber(n: Number): Json {
    if n.frac == [] && n.exp == [] && |YieldNumber(n)| <= 9 then
      Int(if n.minus then -Decimal(n.digits) else Decimal(n.digits))
    else Double(YieldNumber(n))
  }

  function HexDigit(b: byte): (d: nat)
    requires IsHex(b)
    ensures d < 16
  {
    if b >= 0x61 then b as int - 0x61 + 10 else if b >= 0x41 then b as int - 0x41 + 10 else b as int - 0x30
  }

  predicate IsHexQuad(hex: Text) {
    |hex| == 4 && IsHex(hex[0]) && IsHex(hex[1]) && IsHex(hex[2]) && IsHex(hex[3])
  }

  function HexValue(hex: Text): (v: nat)
    requires IsHexQuad(hex)
    ensures v < 0x10000
  {
    ((HexDigit(hex[0]) * 16 + HexDigit(hex[1])) * 16 + HexDigit(hex[2])) * 16 + HexDigit(hex[3])
  }

  predicate IsLead(point: int) {
    0xD800 <= point <= 0xDBFF
  }

  predicate IsTrail(point: int) {
    0xDC00 <= point <= 0xDFFF
  }

  /** The code point a pair of surrogates stands for. */
  function Combine(lead: int, trail: int): int {
    (lead - 0xD800) * 0x400 + (trail - 0xDC00) + 0x10000
  }

  /** The UTF-8 form of a code point, section 3 of RFC 3629. */
  function Utf8(point: int): Text
    requires 0 <= point < 0x200000
  {
    if point < 0x80 then [point]
    else if point < 0x800 then [0xC0 + point / 0x40, 0x80 + point % 0x40]
    else if point < 0x10000 then [0xE0 + point / 0x1000, 0x80 + point / 0x40 % 0x40, 0x80 + point % 0x40]
    else [0xF0 + point / 0x40000, 0x80 + point / 0x1000 % 0x40, 0x80 + point / 0x40 % 0x40, 0x80 + point % 0x40]
  }

  function ShortMeaning(letter: byte): byte {
    if letter == 0x62 then 0x08
    else if letter == 0x66 then 0x0C
    else if letter == 0x6E then 0x0A
    else if letter == 0x72 then 0x0D
    else if letter == 0x74 then 0x09
    else letter
  }

  predicate StartsPair(cs: seq<Char>)
    requires WfChars(cs)
  {
    && |cs| >= 2 && cs[0].Unicode? && cs[1].Unicode?
    && IsLead(HexValue(cs[0].hex)) && IsTrail(HexValue(cs[1].hex))
  }

  /** The bytes of a string; two escapes that spell a pair of surrogates are one character. */
  function MeaningChars(cs: seq<Char>): Text
    requires WfChars(cs)
  {
    if cs == [] then []
    else if StartsPair(cs) then Utf8(Combine(HexValue(cs[0].hex), HexValue(cs[1].hex))) + MeaningChars(cs[2..])
    else MeaningChar(cs[0]) + MeaningChars(cs[1..])
  }

  function MeaningChar(c: Char): Text
    requires WfChar(c)
  {
    match c
    case Plain(b) => [b]
    case Short(letter) => [ShortMeaning(letter)]
    case Unicode(hex) => Utf8(HexValue(hex))
  }

  /** The value of a tree. */
  function Meaning(t: Tree): Json
    requires Wf(t)
  {
    match t
    case TNull => Null
    case TTrue => Bool(true)
    case TFalse => Bool(false)
    case TNumber(n) => MeaningNumber(n)
    case TString(cs) => String(MeaningChars(cs))
    case TEmptyArray(_) => Array([])
    case TArray(_, items) => Array(MeaningItems(items))
    case TEmptyObject(_) => Object([])
    case TObject(_, members) => Object(MeaningMembers(members, []))
  }

  function MeaningItems(items: Items): seq<Json>
    requires WfItems(items)
  {
    match items
    case LastItem(v, _) => [Meaning(v)]
    case ItemThen(v, _, _, rest) => [Meaning(v)] + MeaningItems(rest)
  }

  /** The members are set one after the other, so the last one with a key wins. */
  function MeaningMembers(members: Members, entries: seq<Entry>): seq<Entry>
    requires WfMembers(members)
  {
    match members
    case LastMember(m) => assert WfMember(m); Put(entries, MeaningChars(m.key), Meaning(m.value))
    case MemberThen(m, _, rest) =>
      assert WfMember(m);
      MeaningMembers(rest, Put(entries, MeaningChars(m.key), Meaning(m.value)))
  }
}
