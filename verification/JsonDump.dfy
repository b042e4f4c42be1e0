/** The printed form of a value, and the characters of a printed string. */
module JsonDump {
  import opened JsonGrammar

  const SPACE: byte := 0x20

  // ----- What is printed

  function Digits(n: nat): Text {
    if n < 10 then [0x30 + n] else Digits(n / 10) + [0x30 + n % 10]
  }

  function IntText(n: int): Text {
    if n < 0 then [MINUS] + Digits(-n) else Digits(n)
  }

  function HexLetter(n: nat): byte
    requires n < 16
  {
    if n < 10 then 0x30 + n else 0x61 + n - 10
  }

  /** Line and paragraph separators, U+2028 and U+2029, as the three bytes of their UTF-8 form. */
  predicate StartsSeparator(s: Text) {
    |s| >= 3 && s[0] == 0xE2 && s[1] == 0x80 && (s[2] == 0xA8 || s[2] == 0xA9)
  }

  /** The character that stands for the first byte of a string, or for a separator. */
  function FirstChar(s: Text): (c: Char)
    requires s != []
  {
    var b := s[0];
    if b == BACKSLASH || b == QUOTE then Short(b)
    else if b == 0x08 then Short(0x62)
    else if b == 0x0C then Short(0x66)
    else if b == 0x0A then Short(0x6E)
    else if b == 0x0D then Short(0x72)
    else if b == 0x09 then Short(0x74)
    else if b <= 0x1F then Unicode([0x30, 0x30, HexLetter(b / 16), HexLetter(b % 16)])
    else if StartsSeparator(s) then Unicode([0x32, 0x30, 0x32, HexLetter(s[2] as int - 0xA0)])
    else Plain(b)
  }

  function FirstWidth(s: Text): (w: nat)
    requires s != []
    ensures 1 <= w <= |s|
  {
    if StartsSeparator(s) then 3 else 1
  }

  function Chars(s: Text): seq<Char> {
    if s == [] then [] else [FirstChar(s)] + Chars(s[FirstWidth(s)..])
  }

  function StringText(s: Text): Text {
    [QUOTE] + YieldChars(Chars(s)) + [QUOTE]
  }

  /** No number that is not an int, and the entries of every object in order. */
  predicate Printable(j: Json) {
    match j
    case Double(_) => false
    case Array(items) => forall v | v in items :: Printable(v)
    case Object(entries) => Ordered(entries) && forall e | e in entries :: Printable(e.value)
    case _ => true
  }

  function Dumped(j: Json): Text
    requires Printable(j)
    decreases j
  {
    match j
    case Null => NULL_TEXT
    case Bool(b) => if b then TRUE_TEXT else FALSE_TEXT
    case Int(n) => IntText(n)
    case String(s) => StringText(s)
    case Array(items) => [BEGIN_ARRAY] + ItemsText(items, true) + [END_ARRAY]
    case Object(entries) => [BEGIN_OBJECT] + EntriesText(entries, true) + [END_OBJECT]
  }

  /** The elements of an array; each but the very first is set off by a comma and a space. */
  function ItemsText(items: seq<Json>, first: bool): Text
    requires forall v | v in items :: Printable(v)
    decreases items
  {
    if items == [] then [] else Separator(first) + (Dumped(items[0]) + ItemsText(items[1..], false))
  }

  function Separator(first: bool): Text {
    if first then [] else [COMMA, SPACE]
  }

  function EntryText(e: Entry): Text
    requires Printable(e.value)
    decreases e
  {
    StringText(e.key) + ([COLON, SPACE] + Dumped(e.value))
  }

  function EntriesText(entries: seq<Entry>, first: bool): Text
    requires forall e | e in entries :: Printable(e.value)
    decreases entries
  {
    if entries == [] then [] else Separator(first) + (EntryText(entries[0]) + EntriesText(entries[1..], false))
  }
}
