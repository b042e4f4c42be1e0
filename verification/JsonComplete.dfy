/**
 * The parser accepts every text of the grammar that is nested no deeper than allowed, in the standard mode
 * and with comments. Together with soundness: it accepts just these.
 */
module JsonComplete {
  import opened JsonGrammar
  import opened JsonMachine
  import JsonGaps
  import JsonNumbers
  import JsonSound
  import JsonStrings

  /** The text of a value starts with a byte that is neither white space nor the end of an array. */
  lemma YieldStarts(t: Tree, comments: bool) returns (b: byte, r: Text)
    requires WfIn(t, comments)
    ensures Yield(t) == [b] + r && !IsWs(b) && b != END_ARRAY && b != SLASH
  {
    var y := Yield(t);
    if t.TNumber? {
      NumberStarts(t.number);
    }
    b, r := y[0], y[1..];
  }

  lemma NumberStarts(n: Number)
    requires WfNumber(n)
    ensures YieldNumber(n) != [] && (YieldNumber(n)[0] == MINUS || IsDigit(YieldNumber(n)[0]))
  {
  }

  lemma LiteralComplete(expected: Text, v: Json, rest: Text)
    requires expected != []
    ensures Literal(expected + rest, expected, v) == Done(v, rest)
  {
    assert (expected + rest)[..|expected|] == expected;
  }

  lemma SameTail(b: byte, r: Text, c: byte, x: Text, y: Text)
    requires [b] + r == [c] + x + y
    ensures b == c && r == x + y
  {
    assert ([b] + r)[1..] == r && ([c] + x + y)[1..] == x + y;
    assert ([b] + r)[0] == b && ([c] + x + y)[0] == c;
  }

  predicate IsScalarTree(t: Tree) {
    t.TNull? || t.TTrue? || t.TFalse? || t.TNumber? || t.TString?
  }

  lemma ScalarComplete(t: Tree, b: byte, r: Text, rest: Text)
    requires Wf(t) && IsScalarTree(t) && Yield(t) == [b] + r && JsonNumbers.Follow(rest)
    ensures Scalar(b, r + rest) == Done(Meaning(t), rest) && b != BEGIN_OBJECT && b != BEGIN_ARRAY
  {
    if t.TString? {
      SameTail(b, r, QUOTE, YieldChars(t.chars), [QUOTE]);
      JsonStrings.StrMeaning(t.chars, rest);
    } else {
      assert [b] + (r + rest) == Yield(t) + rest;
      match t
      case TNull => LiteralComplete(NULL_TEXT, Null, rest);
      case TTrue => LiteralComplete(TRUE_TEXT, Bool(true), rest);
      case TFalse => LiteralComplete(FALSE_TEXT, Bool(false), rest);
      case TNumber(n) =>
        NumberStarts(n);
        JsonNumbers.NumComplete(n, rest);
    }
  }

  /** A text behind white space is found by its first byte. */
  lemma TokenFirst(ws: Gap, y: Text, b: byte, r: Text, rest: Text, comments: bool)
    requires WfGap(ws, comments) && !IsWs(b) && b != SLASH && y == [b] + r
    ensures NextToken(YieldGap(ws) + y + rest, comments) == Done(b, r + rest) && [b] + (r + rest) == y + rest
  {
    JsonGaps.TokenComplete(ws, b, r + rest, comments);
    Associate(YieldGap(ws), [b] + r, rest);
    Associate([b], r, rest);
    Associate(YieldGap(ws), [b], r + rest);
  }

  /** A value is what it means when it is not nested too deeply, and an error otherwise. */
  function Outcome(depth: nat, v: Json, rest: Text): Result<Json> {
    if depth <= MAX_DEPTH then Done(v, rest) else Failed(TooDeep)
  }

  /** What is not too deep by itself does not change how deep the rest is. */
  lemma DeeperOutcome(depth: nat, d: nat, n: nat, v: Json, rest: Text)
    requires depth + d <= MAX_DEPTH
    ensures Outcome(depth + Max(d, n), v, rest) == Outcome(depth + n, v, rest)
  {
  }

  /** A value of the grammar, behind white space, is read to its end, with its meaning. */
  lemma {:induction false} ValueComplete(ws: Gap, t: Tree, rest: Text, depth: nat, comments: bool)
    requires WfGap(ws, comments) && WfIn(t, comments) && JsonNumbers.Follow(rest)
    ensures Value(YieldGap(ws) + Yield(t) + rest, depth, comments) == Outcome(depth + Depth(t), Meaning(t), rest)
    decreases t, 2
  {
    var b, r := YieldStarts(t, comments);
    TokenFirst(ws, Yield(t), b, r, rest, comments);
    if depth <= MAX_DEPTH {
      ValueFromComplete(t, b, r, rest, depth, comments);
    }
  }

  /** What comes of the first byte of a value. */
  lemma ValueFromIs(b: byte, s: Text, depth: nat, comments: bool)
    ensures ValueFrom(b, s, depth, comments) ==
            if b == BEGIN_OBJECT then Entries(s, depth, comments)
            else if b == BEGIN_ARRAY then Elements(s, depth, comments)
            else Scalar(b, s)
  {
  }

  lemma ScalarDepth(t: Tree)
    requires IsScalarTree(t)
    ensures Depth(t) == 0
  {
  }

  lemma {:induction false} ValueFromComplete(t: Tree, b: byte, r: Text, rest: Text, depth: nat, comments: bool)
    requires WfIn(t, comments) && Yield(t) == [b] + r && JsonNumbers.Follow(rest) && depth <= MAX_DEPTH
    ensures ValueFrom(b, r + rest, depth, comments) == Outcome(depth + Depth(t), Meaning(t), rest)
    decreases t, 1
  {
    ValueFromIs(b, r + rest, depth, comments);
    if IsScalarTree(t) {
      ScalarComplete(t, b, r, rest);
      ScalarDepth(t);
    } else if t.TArray? || t.TEmptyArray? {
      ArrayComplete(t, b, r, rest, depth, comments);
    } else {
      ObjectComplete(t, b, r, rest, depth, comments);
    }
  }

  lemma {:induction false} ArrayComplete(t: Tree, b: byte, r: Text, rest: Text, depth: nat, comments: bool)
    requires WfIn(t, comments) && (t.TArray? || t.TEmptyArray?) && Yield(t) == [b] + r && depth <= MAX_DEPTH
    ensures b == BEGIN_ARRAY && Elements(r + rest, depth, comments) == Outcome(depth + Depth(t), Meaning(t), rest)
    decreases t, 0
  {
    match t
    case TEmptyArray(ws) =>
      SameTail(b, r, BEGIN_ARRAY, YieldGap(ws), [END_ARRAY]);
      EmptyComplete(ws, rest, depth, comments);
    case TArray(before, items) =>
      SameTail(b, r, BEGIN_ARRAY, YieldGap(before), YieldItems(items));
      ElementsComplete(before, items, rest, depth, comments);
  }

  lemma {:induction false} ObjectComplete(t: Tree, b: byte, r: Text, rest: Text, depth: nat, comments: bool)
    requires WfIn(t, comments) && (t.TObject? || t.TEmptyObject?) && Yield(t) == [b] + r && depth <= MAX_DEPTH
    ensures b == BEGIN_OBJECT && Entries(r + rest, depth, comments) == Outcome(depth + Depth(t), Meaning(t), rest)
    decreases t, 0
  {
    match t
    case TEmptyObject(ws) =>
      SameTail(b, r, BEGIN_OBJECT, YieldGap(ws), [END_OBJECT]);
      EmptyComplete(ws, rest, depth, comments);
    case TObject(before, members) =>
      SameTail(b, r, BEGIN_OBJECT, YieldGap(before), YieldMembers(members));
      EntriesComplete(before, members, rest, depth, comments);
  }

  lemma EmptyComplete(ws: Gap, rest: Text, depth: nat, comments: bool)
    requires WfGap(ws, comments)
    ensures Elements(YieldGap(ws) + [END_ARRAY] + rest, depth, comments) == Done(Array([]), rest)
    ensures Entries(YieldGap(ws) + [END_OBJECT] + rest, depth, comments) == Done(Object([]), rest)
  {
    JsonGaps.TokenComplete(ws, END_ARRAY, rest, comments);
    JsonGaps.TokenComplete(ws, END_OBJECT, rest, comments);
  }

  /** The elements of an array start as its first element does. */
  lemma ItemsStart(items: Items, comments: bool) returns (b: byte, r: Text)
    requires WfItemsIn(items, comments)
    ensures YieldItems(items) == [b] + r && !IsWs(b) && b != END_ARRAY && b != SLASH
  {
    var v := items.value;
    assert WfIn(v, comments);
    var q;
    b, q := YieldStarts(v, comments);
    r := YieldItems(items)[1..];
  }

  lemma {:induction false} ElementsComplete(before: Gap, items: Items, rest: Text, depth: nat, comments: bool)
    requires WfGap(before, comments) && WfItemsIn(items, comments)
    ensures Elements(YieldGap(before) + YieldItems(items) + rest, depth, comments)
         == Outcome(depth + 1 + DepthItems(items), Array(MeaningItems(items)), rest)
    decreases items, 3
  {
    var b, r := ItemsStart(items, comments);
    TokenFirst(before, YieldItems(items), b, r, rest, comments);
    NextElementComplete(before, items, rest, depth, [], comments);
    assert [] + MeaningItems(items) == MeaningItems(items);
  }

  lemma {:induction false} NextElementComplete(before: Gap, items: Items, rest: Text, depth: nat, acc: seq<Json>,
                                               comments: bool)
    requires WfGap(before, comments) && WfItemsIn(items, comments)
    ensures NextElement(YieldGap(before) + YieldItems(items) + rest, depth, comments, acc)
         == Outcome(depth + 1 + DepthItems(items), Array(acc + MeaningItems(items)), rest)
    decreases items, 2
  {
    var b, r := ItemsStart(items, comments);
    TokenFirst(before, YieldItems(items), b, r, rest, comments);
    ElementsFromComplete(items, rest, depth, acc, comments);
  }

  /** What comes behind the first element. */
  function AfterItem(items: Items): Text {
    match items
    case LastItem(_, after) => YieldGap(after) + [END_ARRAY]
    case ItemThen(_, after, before, tail) => YieldGap(after) + [COMMA] + (YieldGap(before) + YieldItems(tail))
  }

  lemma SplitItems(items: Items, rest: Text)
    ensures YieldItems(items) + rest == [] + Yield(items.value) + (AfterItem(items) + rest)
  {
    var y := Yield(items.value);
    match items
    case LastItem(_, after) => Associate(y, YieldGap(after), [END_ARRAY]);
    case ItemThen(_, after, before, tail) =>
      Associate(y, YieldGap(after) + [COMMA], YieldGap(before) + YieldItems(tail));
      Associate(y + (YieldGap(after) + [COMMA]), YieldGap(before), YieldItems(tail));
      Associate(y, YieldGap(after), [COMMA]);
    assert [] + y == y;
    Associate(y, AfterItem(items), rest);
  }

  /** Nothing in a gap, nor what is behind it, goes on with a number. */
  lemma FollowBehind(gap: Gap, rest: Text, comments: bool)
    requires WfGap(gap, comments) && JsonNumbers.Follow(rest)
    ensures JsonNumbers.Follow(YieldGap(gap) + rest)
  {
    if gap == [] {
      assert [] + rest == rest;
    } else {
      JsonGaps.GapStarts(gap, comments);
    }
  }

  lemma FollowItem(items: Items, rest: Text, comments: bool)
    requires WfItemsIn(items, comments)
    ensures JsonNumbers.Follow(AfterItem(items) + rest)
  {
    var gap := YieldGap(items.after);
    var more := AfterItem(items)[|gap|..];
    Associate(gap, more, rest);
    FollowBehind(items.after, more + rest, comments);
  }

  /** What comes of a value in an array. */
  lemma ElementsFromIs(s: Text, depth: nat, comments: bool, acc: seq<Json>)
    ensures var v := Value(s, depth + 1, comments);
            ElementsFrom(s, depth, comments, acc)
              == if v.Failed? then v else AfterElement(v.rest, depth, comments, acc + [v.value])
  {
  }

  lemma {:induction false} ElementsFromComplete(items: Items, rest: Text, depth: nat, acc: seq<Json>, comments: bool)
    requires WfItemsIn(items, comments)
    ensures ElementsFrom(YieldItems(items) + rest, depth, comments, acc)
         == Outcome(depth + 1 + DepthItems(items), Array(acc + MeaningItems(items)), rest)
    decreases items, 1
  {
    var v := items.value;
    assert WfIn(v, comments) && Depth(v) <= DepthItems(items);
    SplitItems(items, rest);
    FollowItem(items, rest, comments);
    ValueComplete([], v, AfterItem(items) + rest, depth + 1, comments);
    ElementsFromIs(YieldItems(items) + rest, depth, comments, acc);
    if depth + 1 + Depth(v) <= MAX_DEPTH {
      AfterElementComplete(items, rest, depth, acc, acc + [Meaning(v)], comments);
    }
  }

  lemma {:induction false} AfterElementComplete(items: Items, rest: Text, depth: nat, acc: seq<Json>, so: seq<Json>,
                                                comments: bool)
    requires WfItemsIn(items, comments) && WfIn(items.value, comments) && depth + 1 + Depth(items.value) <= MAX_DEPTH
    requires so == acc + [Meaning(items.value)]
    ensures AfterElement(AfterItem(items) + rest, depth, comments, so)
         == Outcome(depth + 1 + DepthItems(items), Array(acc + MeaningItems(items)), rest)
    decreases items, 0
  {
    BehindItem(items, rest, depth, so, comments);
    MeaningFirst(items, acc);
    if items.ItemThen? {
      NextElementComplete(items.before, items.rest, rest, depth, so, comments);
      DeeperOutcome(depth + 1, Depth(items.value), DepthItems(items.rest), Array(so + MeaningItems(items.rest)), rest);
    }
  }

  lemma MeaningFirst(items: Items, acc: seq<Json>)
    requires WfItems(items)
    ensures acc + MeaningItems(items)
         == acc + [Meaning(items.value)] + (if items.ItemThen? then MeaningItems(items.rest) else [])
  {
    if items.ItemThen? {
      JsonSound.Chain(acc, Meaning(items.value), MeaningItems(items.rest));
    }
  }

  /** What is behind the comma. */
  function TextAfter(items: Items, rest: Text): Text
    requires items.ItemThen?
  {
    YieldGap(items.before) + YieldItems(items.rest) + rest
  }

  /** Behind an element an array ends, or another element follows. */
  lemma BehindItem(items: Items, rest: Text, depth: nat, so: seq<Json>, comments: bool)
    requires WfGap(items.after, comments)
    ensures AfterElement(AfterItem(items) + rest, depth, comments, so) ==
            if items.LastItem? then Done(Array(so), rest)
            else NextElement(TextAfter(items, rest), depth, comments, so)
  {
    var s := AfterItem(items) + rest;
    match items
    case LastItem(_, after) =>
      JsonGaps.TokenComplete(after, END_ARRAY, rest, comments);
      AfterElementIs(s, depth, comments, so, END_ARRAY, rest);
    case ItemThen(v, after, before, tail) =>
      SplitAfterItem(v, after, before, tail, rest);
      JsonGaps.TokenComplete(after, COMMA, TextAfter(items, rest), comments);
      AfterElementIs(s, depth, comments, so, COMMA, TextAfter(items, rest));
  }

  /** What comes of the token behind an element. */
  lemma AfterElementIs(s: Text, depth: nat, comments: bool, items: seq<Json>, b: byte, rest: Text)
    requires NextToken(s, comments) == Done(b, rest)
    ensures b == END_ARRAY ==> AfterElement(s, depth, comments, items) == Done(Array(items), rest)
    ensures b == COMMA ==> AfterElement(s, depth, comments, items) == NextElement(rest, depth, comments, items)
  {
  }

  lemma SplitAfterItem(v: Tree, after: Gap, before: Gap, tail: Items, rest: Text)
    ensures AfterItem(ItemThen(v, after, before, tail)) + rest
         == YieldGap(after) + [COMMA] + (YieldGap(before) + YieldItems(tail) + rest)
  {
    Associate(YieldGap(after) + [COMMA], YieldGap(before) + YieldItems(tail), rest);
  }

  // ----- Objects

  lemma MembersStart(members: Members) returns (r: Text)
    ensures YieldMembers(members) == [QUOTE] + r
  {
    r := YieldMembers(members)[1..];
  }

  lemma {:induction false} EntriesComplete(before: Gap, members: Members, rest: Text, depth: nat, comments: bool)
    requires WfGap(before, comments) && WfMembersIn(members, comments)
    ensures Entries(YieldGap(before) + YieldMembers(members) + rest, depth, comments)
         == Outcome(depth + 1 + DepthMembers(members), Object(MeaningMembers(members, [])), rest)
    decreases members, 3
  {
    var r := MembersStart(members);
    TokenFirst(before, YieldMembers(members), QUOTE, r, rest, comments);
    NextMemberComplete(before, members, rest, depth, [], comments);
  }

  lemma {:induction false} NextMemberComplete(before: Gap, members: Members, rest: Text, depth: nat,
                                              entries: seq<Entry>, comments: bool)
    requires WfGap(before, comments) && WfMembersIn(members, comments)
    ensures NextMember(YieldGap(before) + YieldMembers(members) + rest, depth, comments, entries)
         == Outcome(depth + 1 + DepthMembers(members), Object(MeaningMembers(members, entries)), rest)
    decreases members, 2
  {
    var r := MembersStart(members);
    TokenFirst(before, YieldMembers(members), QUOTE, r, rest, comments);
    MembersFromComplete(members, r + rest, rest, depth, entries, comments);
  }

  /** A member behind its first quote, without the white space after it. */
  function MemberTail(m: Member): Text {
    YieldChars(m.key) + [QUOTE] + (YieldGap(m.beforeColon) + [COLON] + (YieldGap(m.afterColon) + Yield(m.value)))
  }

  /** What comes behind the first member. */
  function AfterFirst(members: Members): Text {
    match members
    case LastMember(m) => YieldGap(m.after) + [END_OBJECT]
    case MemberThen(m, before, tail) => YieldGap(m.after) + [COMMA] + (YieldGap(before) + YieldMembers(tail))
  }

  lemma YieldMemberTail(m: Member)
    ensures YieldMember(m) == [QUOTE] + MemberTail(m) + YieldGap(m.after)
  {
    RegroupMember(YieldChars(m.key), YieldGap(m.beforeColon), YieldGap(m.afterColon), Yield(m.value));
  }

  lemma RegroupMember(k: Text, before: Text, after: Text, y: Text)
    ensures [QUOTE] + k + [QUOTE] + before + [COLON] + after + y
            == [QUOTE] + (k + [QUOTE] + (before + [COLON] + (after + y)))
  {
    var start, colon := k + [QUOTE], before + [COLON];
    Associate([QUOTE], start, colon + (after + y));
    Associate([QUOTE] + start, colon, after + y);
    Associate([QUOTE] + start, before, [COLON]);
    Associate([QUOTE] + start + colon, after, y);
    Associate([QUOTE], k, [QUOTE]);
  }

  lemma SplitMembers(members: Members, rest: Text)
    ensures YieldMembers(members) + rest == [QUOTE] + (MemberTail(members.m) + (AfterFirst(members) + rest))
  {
    YieldMemberTail(members.m);
    match members
    case LastMember(m) => RegroupLast(MemberTail(m), YieldGap(m.after), rest);
    case MemberThen(m, before, tail) =>
      RegroupMore(MemberTail(m), YieldGap(m.after), YieldGap(before), YieldMembers(tail), rest);
  }

  lemma RegroupLast(y: Text, after: Text, rest: Text)
    ensures [QUOTE] + y + after + [END_OBJECT] + rest == [QUOTE] + (y + (after + [END_OBJECT] + rest))
  {
  }

  lemma RegroupMore(y: Text, after: Text, before: Text, z: Text, rest: Text)
    ensures [QUOTE] + y + after + [COMMA] + before + z + rest
         == [QUOTE] + (y + (after + [COMMA] + (before + z) + rest))
  {
  }

  lemma FollowFirst(members: Members, rest: Text, comments: bool)
    requires WfMemberIn(members.m, comments)
    ensures JsonNumbers.Follow(AfterFirst(members) + rest)
  {
    var gap := YieldGap(members.m.after);
    var more := AfterFirst(members)[|gap|..];
    Associate(gap, more, rest);
    FollowBehind(members.m.after, more + rest, comments);
  }

  lemma {:induction false} MembersFromComplete(members: Members, s: Text, rest: Text, depth: nat, entries: seq<Entry>,
                                               comments: bool)
    requires WfMembersIn(members, comments)
    requires [QUOTE] + s == YieldMembers(members) + rest
    ensures MembersFrom(QUOTE, s, depth, comments, entries)
         == Outcome(depth + 1 + DepthMembers(members), Object(MeaningMembers(members, entries)), rest)
    decreases members, 1
  {
    var m := members.m;
    assert WfMemberIn(m, comments) && Depth(m.value) <= DepthMembers(members);
    SplitMembers(members, rest);
    FollowFirst(members, rest, comments);
    assert s == ([QUOTE] + s)[1..];
    Behind([QUOTE], MemberTail(m) + (AfterFirst(members) + rest));
    OneMemberComplete(m, AfterFirst(members) + rest, depth, comments);
    if depth + 1 + Depth(m.value) <= MAX_DEPTH {
      AfterMemberComplete(members, rest, depth, entries, Put(entries, MeaningChars(m.key), Meaning(m.value)), comments);
    }
  }

  lemma Behind(b: Text, s: Text)
    requires |b| == 1
    ensures (b + s)[1..] == s
  {
  }

  lemma SplitMember(key: Text, before: Text, after: Text, y: Text, rest: Text)
    ensures key + [QUOTE] + (before + [COLON] + (after + y)) + rest
         == key + [QUOTE] + (before + [COLON] + (after + y + rest))
  {
    Associate(key + [QUOTE], before + [COLON] + (after + y), rest);
    Associate(before + [COLON], after + y, rest);
  }

  /** What is behind the colon of a member. */
  function BehindColon(m: Member, rest: Text): Text {
    YieldGap(m.afterColon) + Yield(m.value) + rest
  }

  /** The key and the colon are read. */
  lemma KeyComplete(m: Member, rest: Text, depth: nat, comments: bool)
    requires WfChars(m.key) && WfGap(m.beforeColon, comments)
    ensures var v := Value(BehindColon(m, rest), depth + 1, comments);
            OneMember(MemberTail(m) + rest, depth, comments)
              == if v.Failed? then Failed(v.error) else Done(Entry(MeaningChars(m.key), v.value), v.rest)
  {
    var v := BehindColon(m, rest);
    var colon := YieldGap(m.beforeColon) + [COLON] + v;
    SplitMember(YieldChars(m.key), YieldGap(m.beforeColon), YieldGap(m.afterColon), Yield(m.value), rest);
    JsonStrings.StrMeaning(m.key, colon);
    JsonGaps.TokenComplete(m.beforeColon, COLON, v, comments);
    OneMemberIs(MemberTail(m) + rest, depth, comments, MeaningChars(m.key), colon, v);
  }

  /** What comes of a key and a colon. */
  lemma OneMemberIs(s: Text, depth: nat, comments: bool, key: Text, more: Text, rest: Text)
    requires Str(s, [], -1) == Done(key, more) && NextToken(more, comments) == Done(COLON, rest)
    ensures var v := Value(rest, depth + 1, comments);
            OneMember(s, depth, comments)
              == if v.Failed? then Failed(v.error) else Done(Entry(key, v.value), v.rest)
  {
  }

  lemma MemberOutcome(v: Result<Json>, key: Text, depth: nat, value: Json, rest: Text)
    requires v == Outcome(depth, value, rest)
    ensures (if v.Failed? then Failed(v.error) else Done(Entry(key, v.value), v.rest))
         == if depth <= MAX_DEPTH then Done(Entry(key, value), rest) else Failed(TooDeep)
  {
  }

  lemma {:induction false} OneMemberComplete(m: Member, rest: Text, depth: nat, comments: bool)
    requires WfMemberIn(m, comments) && JsonNumbers.Follow(rest)
    ensures OneMember(MemberTail(m) + rest, depth, comments)
         == if depth + 1 + Depth(m.value) <= MAX_DEPTH then Done(Entry(MeaningChars(m.key), Meaning(m.value)), rest)
            else Failed(TooDeep)
    decreases m, 0
  {
    KeyComplete(m, rest, depth, comments);
    ValueComplete(m.afterColon, m.value, rest, depth + 1, comments);
    MemberOutcome(Value(BehindColon(m, rest), depth + 1, comments), MeaningChars(m.key), depth + 1 + Depth(m.value),
                  Meaning(m.value), rest);
  }

  /** What comes of the token behind a member. */
  lemma AfterMemberIs(s: Text, depth: nat, comments: bool, put: seq<Entry>, b: byte, rest: Text)
    requires NextToken(s, comments) == Done(b, rest)
    ensures b == END_OBJECT ==> AfterMember(s, depth, comments, put) == Done(Object(put), rest)
    ensures b == COMMA ==> AfterMember(s, depth, comments, put) == NextMember(rest, depth, comments, put)
  {
  }

  /** The first member is set, and then the others. */
  lemma FirstMember(members: Members, entries: seq<Entry>)
    requires WfMembers(members) && WfMember(members.m)
    ensures var d, put := Depth(members.m.value), Put(entries, MeaningChars(members.m.key), Meaning(members.m.value));
            if members.LastMember? then DepthMembers(members) == d && MeaningMembers(members, entries) == put
            else DepthMembers(members) == Max(d, DepthMembers(members.rest))
                 && MeaningMembers(members, entries) == MeaningMembers(members.rest, put)
  {
  }

  /** What is behind the comma. */
  function TextBehind(members: Members, rest: Text): Text
    requires members.MemberThen?
  {
    YieldGap(members.before) + YieldMembers(members.rest) + rest
  }

  /** Behind a member an object ends, or another member follows. */
  lemma BehindMember(members: Members, rest: Text, depth: nat, put: seq<Entry>, comments: bool)
    requires WfGap(members.m.after, comments)
    ensures AfterMember(AfterFirst(members) + rest, depth, comments, put) ==
            if members.LastMember? then Done(Object(put), rest)
            else NextMember(TextBehind(members, rest), depth, comments, put)
  {
    var s, after := AfterFirst(members) + rest, members.m.after;
    match members
    case LastMember(_) =>
      JsonGaps.TokenComplete(after, END_OBJECT, rest, comments);
      AfterMemberIs(s, depth, comments, put, END_OBJECT, rest);
    case MemberThen(m, before, tail) =>
      SplitAfter(m, before, tail, rest);
      JsonGaps.TokenComplete(after, COMMA, TextBehind(members, rest), comments);
      AfterMemberIs(s, depth, comments, put, COMMA, TextBehind(members, rest));
  }

  lemma {:induction false} AfterMemberComplete(members: Members, rest: Text, depth: nat, entries: seq<Entry>,
                                               put: seq<Entry>, comments: bool)
    requires WfMembersIn(members, comments) && depth + 1 + Depth(members.m.value) <= MAX_DEPTH
    requires WfMember(members.m) && put == Put(entries, MeaningChars(members.m.key), Meaning(members.m.value))
    ensures AfterMember(AfterFirst(members) + rest, depth, comments, put)
         == Outcome(depth + 1 + DepthMembers(members), Object(MeaningMembers(members, entries)), rest)
    decreases members, 0
  {
    FirstMember(members, entries);
    BehindMember(members, rest, depth, put, comments);
    if members.MemberThen? {
      NextMemberComplete(members.before, members.rest, rest, depth, put, comments);
      DeeperOutcome(depth + 1, Depth(members.m.value), DepthMembers(members.rest),
                    Object(MeaningMembers(members.rest, put)), rest);
    }
  }

  lemma SplitAfter(m: Member, before: Gap, tail: Members, rest: Text)
    ensures AfterFirst(MemberThen(m, before, tail)) + rest
         == YieldGap(m.after) + [COMMA] + (YieldGap(before) + YieldMembers(tail) + rest)
  {
    Associate(YieldGap(m.after) + [COMMA], YieldGap(before) + YieldMembers(tail), rest);
  }

  // ----- Whole texts

  lemma FollowTail(after: Gap, tail: Text, comments: bool)
    requires WfGap(after, comments) && IsOpenEnd(tail, comments)
    ensures JsonNumbers.Follow(YieldGap(after) + tail)
  {
    FollowBehind(after, tail, comments);
  }

  /** A text of the grammar is read as what it means, or refused because it is nested more than 200 deep. */
  lemma ParseComplete(d: Document, comments: bool)
    requires WfDocument(d, comments)
    ensures Parse(YieldDocument(d), comments) == Outcome(Depth(d.value), Meaning(d.value), [])
  {
    FollowTail(d.after, d.tail, comments);
    ValueComplete(d.before, d.value, YieldGap(d.after) + d.tail, 0, comments);
    JsonGaps.GarbageComplete(d.after, d.tail, comments);
  }

  /** The same of a value with nothing before and behind it. */
  lemma ValueAlone(t: Tree, comments: bool)
    requires WfIn(t, comments)
    ensures Parse(Yield(t), comments) == Outcome(Depth(t), Meaning(t), [])
  {
    var d := Document([], t, [], []);
    ParseComplete(d, comments);
    NothingAround(Yield(t));
    assert YieldDocument(d) == Yield(t);
  }

  lemma NothingAround(y: Text)
    ensures [] + y + ([] + []) == y
  {
  }

  /** What is read is a text of the grammar, nested at most 200 deep, with its meaning. */
  lemma ParseSound(s: Text, comments: bool) returns (d: Document)
    requires Parse(s, comments).Done?
    ensures WfDocument(d, comments) && YieldDocument(d) == s && Depth(d.value) <= MAX_DEPTH
    ensures Parse(s, comments) == Done(Meaning(d.value), [])
  {
    var before, t := JsonSound.ValueSound(s, 0, comments);
    var rest := Value(s, 0, comments).rest;
    var g := Garbage(rest, comments);
    assert g.Done? && g.rest == [] && g.value == ();
    var after, tail := JsonGaps.GarbageSound(rest, comments);
    d := Document(before, t, after, tail);
  }

  /** The text stands for the document. */
  predicate Reads(s: Text, comments: bool, d: Document) {
    WfDocument(d, comments) && YieldDocument(d) == s
  }

  /**
   * In the standard mode the parser accepts exactly the texts of the grammar nested at most 200 deep, with their
   * meaning; in the mode with comments, exactly those that also may have comments between their tokens.
   */
  lemma ParseIff(s: Text, comments: bool, v: Json)
    ensures Parse(s, comments) == Done(v, []) <==>
            exists d :: Reads(s, comments, d) && Depth(d.value) <= 200 && v == Meaning(d.value)
  {
    if Parse(s, comments) == Done(v, []) {
      var d := ParseSound(s, comments);
      assert Reads(s, comments, d);
    }
    forall d | Reads(s, comments, d) && Depth(d.value) <= 200 && v == Meaning(d.value)
      ensures Parse(s, comments) == Done(v, [])
    {
      ParseComplete(d, comments);
    }
  }

  /** However a text is read by the grammar, it means the same and is as deep or too deep. */
  lemma MeaningUnique(s: Text, comments: bool, d: Document, e: Document)
    requires Reads(s, comments, d) && Reads(s, comments, e) && Depth(d.value) <= MAX_DEPTH
    ensures Meaning(d.value) == Meaning(e.value) && Depth(e.value) <= MAX_DEPTH
  {
    ParseComplete(d, comments);
    ParseComplete(e, comments);
  }
}
