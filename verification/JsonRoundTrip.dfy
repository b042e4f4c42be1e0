/** What the parser makes of printed values: the same value, but for ints of more than nine characters. */
module JsonRoundTrip {
  import opened JsonGrammar
  import opened JsonMachine
  import opened JsonDump
  import JsonComplete
  import JsonObjects

  // ----- Ints

  lemma {:induction false} DigitsMeaning(n: nat)
    ensures IsInteger(Digits(n)) && Decimal(Digits(n)) == n
    ensures n > 0 ==> Digits(n)[0] != 0x30
  {
    if n >= 10 {
      DigitsMeaning(n / 10);
      assert Digits(n)[..|Digits(n)| - 1] == Digits(n / 10);
    } else {
      assert Digits(n)[..0] == [];
      assert Decimal(Digits(n)) == Decimal([]) * 10 + n;
    }
  }

  function IntNumber(n: int): Number {
    if n < 0 then Number(true, Digits(-n), [], []) else Number(false, Digits(n), [], [])
  }

  lemma IntNumberText(n: int)
    ensures WfNumber(IntNumber(n)) && YieldNumber(IntNumber(n)) == IntText(n)
    ensures MeaningNumber(IntNumber(n)) == ReadInt(n)
  {
    if n < 0 {
      DigitsMeaning(-n);
    } else {
      DigitsMeaning(n);
    }
  }

  /** What a printed int is read as. */
  function ReadInt(n: int): Json {
    if |IntText(n)| <= 9 then Int(n) else Double(IntText(n))
  }

  /** An int comes back as one just when it has nine digits at most, or eight and a sign. */
  lemma ShortInt(n: int)
    ensures ReadInt(n) == Int(n) <==> -99999999 <= n <= 999999999
  {
    if n < 0 {
      DigitCount(-n, 8);
    } else {
      DigitCount(n, 9);
    }
  }

  function PowerOfTen(k: nat): nat {
    if k == 0 then 1 else 10 * PowerOfTen(k - 1)
  }

  lemma {:induction false} DigitCount(n: nat, k: nat)
    requires k > 0
    ensures |Digits(n)| <= k <==> n < PowerOfTen(k)
    ensures PowerOfTen(8) == 100000000 && PowerOfTen(9) == 1000000000
  {
    if n < 10 {
      TenAtLeast(k);
    } else if k > 1 {
      DigitCount(n / 10, k - 1);
    } else {
      assert PowerOfTen(1) == 10 * PowerOfTen(0);
    }
  }

  lemma {:induction false} TenAtLeast(k: nat)
    requires k > 0
    ensures PowerOfTen(k) >= 10
  {
    if k == 1 {
      assert PowerOfTen(1) == 10 * PowerOfTen(0);
    } else {
      TenAtLeast(k - 1);
    }
  }

  // ----- Strings

  lemma FirstCharMeaning(s: Text)
    requires s != []
    ensures WfChar(FirstChar(s)) && MeaningChar(FirstChar(s)) == s[..FirstWidth(s)]
    ensures FirstChar(s).Unicode? ==> !IsLead(HexValue(FirstChar(s).hex))
  {
    var b := s[0];
    if b <= 0x1F {
      HexPair(b);
    } else if StartsSeparator(s) {
      SeparatorMeaning(s);
    }
  }

  lemma HexPair(b: byte)
    requires b <= 0x1F
    ensures var hex := [0x30, 0x30, HexLetter(b as int / 16), HexLetter(b as int % 16)];
            IsHexQuad(hex) && HexValue(hex) == b as int
  {
  }

  lemma SeparatorMeaning(s: Text)
    requires StartsSeparator(s)
    ensures var hex := [0x32, 0x30, 0x32, HexLetter(s[2] as int - 0xA0)];
            IsHexQuad(hex) && HexValue(hex) == 0x2020 + (s[2] as int - 0xA0) && Utf8(HexValue(hex)) == s[..3]
  {
  }

  lemma CharsSplit(s: Text) returns (c: Char, head: Text, rest: Text)
    requires s != []
    ensures Chars(s) == [c] + Chars(rest) && s == head + rest && |rest| < |s|
    ensures WfChar(c) && MeaningChar(c) == head && (c.Unicode? ==> !IsLead(HexValue(c.hex)))
  {
    c, head, rest := FirstChar(s), s[..FirstWidth(s)], s[FirstWidth(s)..];
    FirstCharMeaning(s);
  }

  /** A printed string means the string, whatever its bytes. */
  lemma {:induction false} CharsMeaning(s: Text)
    ensures WfChars(Chars(s)) && MeaningChars(Chars(s)) == s
    decreases |s|
  {
    if s == [] {
      assert Chars(s) == [];
    } else {
      var c, head, rest := CharsSplit(s);
      CharsMeaning(rest);
      MeaningFirst(c, Chars(rest));
    }
  }

  lemma MeaningFirst(c: Char, cs: seq<Char>)
    requires WfChar(c) && WfChars(cs) && (c.Unicode? ==> !IsLead(HexValue(c.hex)))
    ensures WfChars([c] + cs) && MeaningChars([c] + cs) == MeaningChar(c) + MeaningChars(cs)
  {
    assert ([c] + cs)[1..] == cs;
    assert !StartsPair([c] + cs);
  }

  // ----- Values as trees

  const ONE_SPACE: Gap := [Space(SPACE)]

  lemma PrintedGaps(comments: bool)
    ensures YieldGap([]) == [] && YieldGap(ONE_SPACE) == [SPACE]
    ensures WfGap([], comments) && WfGap(ONE_SPACE, comments)
  {
    assert ONE_SPACE[1..] == [];
    assert YieldFillers(ONE_SPACE) == [SPACE] + YieldGap([]);
  }

  function ToTree(j: Json): Tree
    requires Printable(j)
    decreases j
  {
    match j
    case Null => TNull
    case Bool(b) => if b then TTrue else TFalse
    case Int(n) => TNumber(IntNumber(n))
    case String(s) => TString(Chars(s))
    case Array(items) => if items == [] then TEmptyArray([]) else TArray([], ToItems(items))
    case Object(entries) => if entries == [] then TEmptyObject([]) else TObject([], ToMembers(entries))
  }

  function ToItems(items: seq<Json>): Items
    requires items != [] && forall v | v in items :: Printable(v)
    decreases items
  {
    if |items| == 1 then LastItem(ToTree(items[0]), [])
    else ItemThen(ToTree(items[0]), [], ONE_SPACE, ToItems(items[1..]))
  }

  function ToMember(e: Entry): Member
    requires Printable(e.value)
    decreases e
  {
    Member(Chars(e.key), [], ONE_SPACE, ToTree(e.value), [])
  }

  function ToMembers(entries: seq<Entry>): Members
    requires entries != [] && forall e | e in entries :: Printable(e.value)
    decreases entries
  {
    if |entries| == 1 then LastMember(ToMember(entries[0]))
    else MemberThen(ToMember(entries[0]), ONE_SPACE, ToMembers(entries[1..]))
  }

  /** How deeply a value is nested. */
  function Nesting(j: Json): nat
    decreases j
  {
    match j
    case Array(items) => if items == [] then 0 else 1 + NestingItems(items)
    case Object(entries) => if entries == [] then 0 else 1 + NestingEntries(entries)
    case _ => 0
  }

  function NestingItems(items: seq<Json>): nat
    decreases items
  {
    if items == [] then 0 else Max(Nesting(items[0]), NestingItems(items[1..]))
  }

  function NestingEntries(entries: seq<Entry>): nat
    decreases entries
  {
    if entries == [] then 0 else Max(Nesting(entries[0].value), NestingEntries(entries[1..]))
  }

  lemma {:induction false} TreeText(j: Json, comments: bool)
    requires Printable(j)
    ensures WfIn(ToTree(j), comments) && Yield(ToTree(j)) == Dumped(j) && Depth(ToTree(j)) == Nesting(j)
    decreases j
  {
    PrintedGaps(comments);
    match j
    case Int(n) => IntNumberText(n);
    case String(s) => CharsMeaning(s);
    case Array(items) =>
      if items != [] {
        ItemsTreeText(items, comments);
        Enclosed(BEGIN_ARRAY, ItemsText(items, true), END_ARRAY);
      }
    case Object(entries) =>
      if entries != [] {
        EntriesTreeText(entries, comments);
        Enclosed(BEGIN_OBJECT, EntriesText(entries, true), END_OBJECT);
      }
    case _ =>
  }

  lemma Enclosed(open: byte, body: Text, close: byte)
    ensures [open] + [] + (body + [close]) == [open] + body + [close]
  {
    assert [open] + [] == [open];
    Associate([open], body, [close]);
  }

  lemma {:induction false} ItemsTreeText(items: seq<Json>, comments: bool)
    requires items != [] && forall v | v in items :: Printable(v)
    ensures WfItemsIn(ToItems(items), comments) && DepthItems(ToItems(items)) == NestingItems(items)
    ensures YieldItems(ToItems(items)) == ItemsText(items, true) + [END_ARRAY]
    decreases items
  {
    var rest := items[1..];
    PrintedGaps(comments);
    TreeText(items[0], comments);
    RegroupOne(Dumped(items[0]), [END_ARRAY]);
    if |items| > 1 {
      ItemsTreeText(rest, comments);
      RegroupTwo(Dumped(items[0]), Dumped(rest[0]) + ItemsText(rest[1..], false), [END_ARRAY]);
    }
  }

  lemma RegroupOne(y: Text, end: Text)
    ensures y + [] + end == [] + (y + []) + end
  {
  }

  lemma RegroupTwo(y: Text, z: Text, end: Text)
    ensures y + [] + [COMMA] + [SPACE] + ([] + z + end) == [] + (y + ([COMMA, SPACE] + z)) + end
    ensures y + [COMMA] + [SPACE] + ([] + z + end) == [] + (y + ([COMMA, SPACE] + z)) + end
  {
  }

  lemma {:induction false} MemberText(e: Entry, comments: bool)
    requires Printable(e.value)
    ensures WfMemberIn(ToMember(e), comments) && YieldMember(ToMember(e)) == EntryText(e)
    ensures Depth(ToMember(e).value) == Nesting(e.value)
    decreases e
  {
    PrintedGaps(comments);
    TreeText(e.value, comments);
    CharsMeaning(e.key);
    RegroupEntry(YieldChars(Chars(e.key)), Dumped(e.value));
  }

  lemma RegroupEntry(k: Text, y: Text)
    ensures [QUOTE] + k + [QUOTE] + [] + [COLON] + [SPACE] + y + [] == [QUOTE] + k + [QUOTE] + ([COLON, SPACE] + y)
  {
  }

  lemma {:induction false} EntriesTreeText(entries: seq<Entry>, comments: bool)
    requires entries != [] && forall e | e in entries :: Printable(e.value)
    ensures WfMembersIn(ToMembers(entries), comments) && DepthMembers(ToMembers(entries)) == NestingEntries(entries)
    ensures YieldMembers(ToMembers(entries)) == EntriesText(entries, true) + [END_OBJECT]
    decreases entries
  {
    var rest := entries[1..];
    PrintedGaps(comments);
    MemberText(entries[0], comments);
    if |entries| > 1 {
      EntriesTreeText(rest, comments);
      RegroupTwo(EntryText(entries[0]), EntryText(rest[0]) + EntriesText(rest[1..], false), [END_OBJECT]);
    } else {
      RegroupOne(EntryText(entries[0]), [END_OBJECT]);
    }
  }

  // ----- What is read

  /** A value with its long ints replaced by what the parser reads in their place. */
  function Read(j: Json): Json
    decreases j
  {
    match j
    case Int(n) => ReadInt(n)
    case Array(items) => Array(ReadItems(items))
    case Object(entries) => Object(ReadEntries(entries))
    case _ => j
  }

  function ReadItems(items: seq<Json>): seq<Json>
    decreases items
  {
    if items == [] then [] else [Read(items[0])] + ReadItems(items[1..])
  }

  function ReadEntries(entries: seq<Entry>): (r: seq<Entry>)
    ensures |r| == |entries| && forall k | 0 <= k < |r| :: r[k].key == entries[k].key
    decreases entries
  {
    if entries == [] then [] else [Entry(entries[0].key, Read(entries[0].value))] + ReadEntries(entries[1..])
  }

  lemma {:induction false} TreeMeaning(j: Json)
    requires Printable(j) && Wf(ToTree(j))
    ensures Meaning(ToTree(j)) == Read(j)
    decreases j
  {
    match j
    case Int(n) => IntNumberText(n);
    case String(s) => CharsMeaning(s);
    case Array(items) =>
      if items != [] {
        ItemsMeaning(items);
      }
    case Object(entries) =>
      if entries != [] {
        ReadOrdered(entries);
        EntriesMeaning(entries, []);
      }
    case _ =>
  }

  lemma {:induction false} ItemsMeaning(items: seq<Json>)
    requires items != [] && (forall v | v in items :: Printable(v)) && WfItems(ToItems(items))
    ensures MeaningItems(ToItems(items)) == ReadItems(items)
    decreases items
  {
    TreeMeaning(items[0]);
    if |items| > 1 {
      ItemsMeaning(items[1..]);
    }
  }

  lemma ReadOrdered(entries: seq<Entry>)
    requires Ordered(entries)
    ensures Ordered([] + ReadEntries(entries)) && [] + ReadEntries(entries) == ReadEntries(entries)
  {
    assert [] + ReadEntries(entries) == ReadEntries(entries);
  }

  lemma {:induction false} EntriesMeaning(entries: seq<Entry>, done: seq<Entry>)
    requires entries != [] && (forall e | e in entries :: Printable(e.value)) && WfMembers(ToMembers(entries))
    requires Ordered(done + ReadEntries(entries))
    ensures MeaningMembers(ToMembers(entries), done) == done + ReadEntries(entries)
    decreases entries
  {
    var e, rest := entries[0], entries[1..];
    MemberMeaning(e);
    PutNext(done, Entry(e.key, Read(e.value)), ReadEntries(rest));
    if |entries| > 1 {
      EntriesMeaning(rest, done + [Entry(e.key, Read(e.value))]);
    }
  }

  lemma {:induction false} MemberMeaning(e: Entry)
    requires Printable(e.value) && WfMember(ToMember(e))
    ensures MeaningChars(ToMember(e).key) == e.key && Meaning(ToMember(e).value) == Read(e.value)
    decreases e
  {
    CharsMeaning(e.key);
    TreeMeaning(e.value);
  }

  lemma PutNext(done: seq<Entry>, e: Entry, more: seq<Entry>)
    requires Ordered(done + ([e] + more))
    ensures Put(done, e.key, e.value) == done + [e]
    ensures done + ([e] + more) == (done + [e]) + more
  {
    assert done + ([e] + more) == (done + [e]) + more;
    OrderedPrefix(done + [e], more);
    JsonObjects.PutLast(done, e);
  }

  lemma OrderedPrefix(a: seq<Entry>, b: seq<Entry>)
    requires Ordered(a + b)
    ensures Ordered(a)
  {
    forall i, j | 0 <= i < j < |a| ensures Less(a[i].key, a[j].key) {
      assert (a + b)[i] == a[i] && (a + b)[j] == a[j];
    }
  }

  /** Every int in the value has at most nine characters. */
  predicate ShortInts(j: Json)
    decreases j
  {
    match j
    case Int(n) => -99999999 <= n <= 999999999
    case Array(items) => forall v | v in items :: ShortInts(v)
    case Object(entries) => forall e | e in entries :: ShortInts(e.value)
    case _ => true
  }

  lemma {:induction false} ReadIff(j: Json)
    ensures Read(j) == j <==> ShortInts(j)
    decreases j
  {
    match j
    case Int(n) => ShortInt(n);
    case Array(items) => ReadItemsIff(items);
    case Object(entries) => ReadEntriesIff(entries);
    case _ =>
  }

  lemma {:induction false} ReadItemsIff(items: seq<Json>)
    ensures ReadItems(items) == items <==> forall v | v in items :: ShortInts(v)
    decreases items
  {
    if items != [] {
      var v, rest := items[0], items[1..];
      ReadIff(v);
      ReadItemsIff(rest);
      assert items == [v] + rest;
      assert ReadItems(items)[0] == Read(v) && ReadItems(items)[1..] == ReadItems(rest);
    }
  }

  lemma {:induction false} ReadEntriesIff(entries: seq<Entry>)
    ensures ReadEntries(entries) == entries <==> forall e | e in entries :: ShortInts(e.value)
    decreases entries
  {
    if entries != [] {
      var e, rest := entries[0], entries[1..];
      ReadIff(e.value);
      ReadEntriesIff(rest);
      assert entries == [e] + rest;
      assert ReadEntries(entries)[0] == Entry(e.key, Read(e.value)) && ReadEntries(entries)[1..] == ReadEntries(rest);
    }
  }

  // ----- The round trip

  /** Printed, a value is read in both modes as itself with its long ints made doubles, or refused for its depth. */
  lemma ParseDumped(j: Json, comments: bool)
    requires Printable(j)
    ensures Parse(Dumped(j), comments) == JsonComplete.Outcome(Nesting(j), Read(j), [])
  {
    TreeText(j, comments);
    TreeMeaning(j);
    JsonComplete.ValueAlone(ToTree(j), comments);
  }

  /** Printed and parsed, a value is the same just when it is at most 200 deep and its ints are short. */
  lemma RoundTrip(j: Json, comments: bool)
    requires Printable(j)
    ensures Parse(Dumped(j), comments) == Done(j, []) <==> Nesting(j) <= 200 && ShortInts(j)
  {
    ParseDumped(j, comments);
    ReadIff(j);
  }

  /** The least positive int that does not come back: it is read as a double. */
  lemma LongInt()
    ensures Parse(Dumped(Int(1000000000)), false) == Done(Double(IntText(1000000000)), [])
    ensures Parse(Dumped(Int(999999999)), false) == Done(Int(999999999), [])
  {
    ParseDumped(Int(1000000000), false);
    ParseDumped(Int(999999999), false);
    ShortInt(1000000000);
    ShortInt(999999999);
  }

  // ----- What was parsed can be printed

  predicate NoDoubles(j: Json) {
    match j
    case Double(_) => false
    case Array(items) => forall v | v in items :: NoDoubles(v)
    case Object(entries) => forall e | e in entries :: NoDoubles(e.value)
    case _ => true
  }

  /** What printing asks of a value, and what reading it back does. */
  predicate Fits(j: Json, depth: nat) {
    ShortInts(j) && Nesting(j) <= depth && (NoDoubles(j) ==> Printable(j))
  }

  predicate AllFit(items: seq<Json>, depth: nat) {
    forall v | v in items :: Fits(v, depth)
  }

  predicate EntriesFit(entries: seq<Entry>, depth: nat) {
    Ordered(entries) && forall e | e in entries :: Fits(e.value, depth)
  }

  lemma {:induction false} NestingItemsFit(items: seq<Json>, depth: nat)
    requires AllFit(items, depth)
    ensures NestingItems(items) <= depth
    decreases |items|
  {
    if items != [] {
      assert Fits(items[0], depth);
      NestingItemsFit(items[1..], depth);
    }
  }

  lemma {:induction false} NestingEntriesFit(entries: seq<Entry>, depth: nat)
    requires forall e | e in entries :: Fits(e.value, depth)
    ensures NestingEntries(entries) <= depth
    decreases |entries|
  {
    if entries != [] {
      assert Fits(entries[0].value, depth);
      NestingEntriesFit(entries[1..], depth);
    }
  }

  lemma ArrayFits(items: seq<Json>, depth: nat)
    requires AllFit(items, depth)
    ensures Fits(Array(items), depth + 1)
  {
    NestingItemsFit(items, depth);
  }

  lemma ObjectFits(entries: seq<Entry>, depth: nat)
    requires EntriesFit(entries, depth)
    ensures Fits(Object(entries), depth + 1)
  {
    NestingEntriesFit(entries, depth);
  }

  lemma {:induction false} PutElements(entries: seq<Entry>, key: Text, value: Json)
    ensures forall e | e in Put(entries, key, value) :: e in entries || e.value == value
    decreases |entries|
  {
    if entries != [] {
      PutElements(entries[1..], key, value);
    }
  }

  lemma {:induction false} DecimalBounds(digits: Text)
    requires AllDigits(digits)
    ensures 0 <= Decimal(digits) < PowerOfTen(|digits|)
    decreases |digits|
  {
    if digits != [] {
      DecimalBounds(digits[..|digits| - 1]);
    }
  }

  lemma {:induction false} PowerGrows(a: nat, b: nat)
    requires a <= b
    ensures PowerOfTen(a) <= PowerOfTen(b)
  {
    if a < b {
      PowerGrows(a, b - 1);
    }
  }

  lemma NumberFits(n: Number)
    requires WfNumber(n)
    ensures Fits(MeaningNumber(n), 0)
  {
    if n.frac == [] && n.exp == [] && |YieldNumber(n)| <= 9 {
      DecimalBounds(n.digits);
      DigitCount(0, 1);
      PowerGrows(|n.digits|, if n.minus then 8 else 9);
    }
  }

  lemma {:induction false} MeaningFits(t: Tree)
    requires Wf(t)
    ensures Fits(Meaning(t), Depth(t))
    decreases t
  {
    match t
    case TNumber(n) => NumberFits(n);
    case TArray(_, items) =>
      ItemsFit(items, DepthItems(items));
      ArrayFits(MeaningItems(items), DepthItems(items));
    case TObject(_, members) =>
      MembersFit(members, [], DepthMembers(members));
      ObjectFits(MeaningMembers(members, []), DepthMembers(members));
    case _ =>
  }

  lemma {:induction false} ItemsFit(items: Items, depth: nat)
    requires WfItems(items) && DepthItems(items) <= depth
    ensures AllFit(MeaningItems(items), depth)
    decreases items
  {
    assert Wf(items.value);
    MeaningFits(items.value);
    if items.ItemThen? {
      ItemsFit(items.rest, depth);
    }
  }

  lemma {:induction false} MembersFit(members: Members, entries: seq<Entry>, depth: nat)
    requires WfMembers(members) && DepthMembers(members) <= depth && EntriesFit(entries, depth)
    ensures EntriesFit(MeaningMembers(members, entries), depth)
    decreases members
  {
    var m := members.m;
    assert WfMember(m);
    MeaningFits(m.value);
    JsonObjects.PutOrdered(entries, MeaningChars(m.key), Meaning(m.value));
    PutElements(entries, MeaningChars(m.key), Meaning(m.value));
    if members.MemberThen? {
      MembersFit(members.rest, Put(entries, MeaningChars(m.key), Meaning(m.value)), depth);
    }
  }

  /** Whatever text a value without doubles was parsed from, what is printed for it is parsed as it again. */
  lemma ReprintedParses(s: Text, comments: bool, v: Json)
    requires Parse(s, comments) == Done(v, []) && NoDoubles(v)
    ensures Printable(v) && Parse(Dumped(v), comments) == Done(v, [])
  {
    var d := JsonComplete.ParseSound(s, comments);
    MeaningFits(d.value);
    RoundTrip(v, comments);
  }
}
