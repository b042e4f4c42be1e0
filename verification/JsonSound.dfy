/**
 * In both modes the parser accepts only texts of the grammar, nested no deeper than allowed,
 * and returns what they mean.
 */
module JsonSound {
  import opened JsonGrammar
  import opened JsonMachine
  import JsonGaps
  import JsonNumbers
  import JsonStrings

  lemma LiteralSound(s: Text, expected: Text, v: Json)
    requires expected != [] && Literal(s, expected, v).Done?
    ensures s == expected + Literal(s, expected, v).rest
  {
  }

  predicate IsLeaf(t: Tree) {
    !t.TEmptyArray? && !t.TArray? && !t.TEmptyObject? && !t.TObject?
  }

  /** A value that is neither an array nor an object. */
  lemma ScalarSound(b: byte, s: Text) returns (t: Tree)
    requires Scalar(b, s).Done?
    ensures Wf(t) && IsLeaf(t) && Depth(t) == 0
    ensures [b] + s == Yield(t) + Scalar(b, s).rest
    ensures Meaning(t) == Scalar(b, s).value
  {
    var all := [b] + s;
    if b == MINUS || IsDigit(b) {
      var n := JsonNumbers.NumSound(all);
      t := TNumber(n);
    } else if b == TRUE_TEXT[0] {
      LiteralSound(all, TRUE_TEXT, Bool(true));
      t := TTrue;
    } else if b == FALSE_TEXT[0] {
      LiteralSound(all, FALSE_TEXT, Bool(false));
      t := TFalse;
    } else if b == NULL_TEXT[0] {
      LiteralSound(all, NULL_TEXT, Null);
      t := TNull;
    } else {
      t := StringSound(s);
    }
  }

  lemma StringSound(s: Text) returns (t: Tree)
    requires Str(s, [], -1).Done?
    ensures Wf(t) && IsLeaf(t) && Depth(t) == 0
    ensures [QUOTE] + s == Yield(t) + Str(s, [], -1).rest
    ensures Meaning(t) == String(Str(s, [], -1).value)
  {
    var cs := JsonStrings.StrSound(s, [], -1);
    JsonStrings.StrMeaning(cs, Str(s, [], -1).rest);
    t := TString(cs);
  }

  /** A value the parser accepts is a gap and a value of the grammar. */
  lemma {:induction false} ValueSound(s: Text, depth: nat, comments: bool) returns (ws: Gap, t: Tree)
    requires Value(s, depth, comments).Done?
    ensures WfGap(ws, comments) && WfIn(t, comments) && depth + Depth(t) <= MAX_DEPTH
    ensures s == YieldGap(ws) + Yield(t) + Value(s, depth, comments).rest
    ensures Meaning(t) == Value(s, depth, comments).value
    decreases |s|, 1
  {
    ws := JsonGaps.TokenSound(s, comments);
    var token := NextToken(s, comments);
    t := ValueFromSound(token.value, token.rest, depth, comments);
    var rest := Value(s, depth, comments).rest;
    Associate(YieldGap(ws), [token.value], token.rest);
    Associate(YieldGap(ws), Yield(t), rest);
  }

  lemma {:induction false} ValueFromSound(b: byte, s: Text, depth: nat, comments: bool) returns (t: Tree)
    requires ValueFrom(b, s, depth, comments).Done? && depth <= MAX_DEPTH
    ensures WfIn(t, comments) && depth + Depth(t) <= MAX_DEPTH
    ensures [b] + s == Yield(t) + ValueFrom(b, s, depth, comments).rest
    ensures Meaning(t) == ValueFrom(b, s, depth, comments).value
    decreases |s|, 5
  {
    if b == BEGIN_OBJECT {
      t := ObjectSound(s, depth, comments);
    } else if b == BEGIN_ARRAY {
      t := ArraySound(s, depth, comments);
    } else {
      t := ScalarSound(b, s);
    }
  }

  lemma {:induction false} ArraySound(s: Text, depth: nat, comments: bool) returns (t: Tree)
    requires Elements(s, depth, comments).Done? && depth <= MAX_DEPTH
    ensures WfIn(t, comments) && depth + Depth(t) <= MAX_DEPTH
    ensures [BEGIN_ARRAY] + s == Yield(t) + Elements(s, depth, comments).rest
    ensures Meaning(t) == Elements(s, depth, comments).value
    decreases |s|, 4
  {
    var first := NextToken(s, comments);
    if first.value == END_ARRAY {
      var ws := JsonGaps.TokenSound(s, comments);
      t := EmptyArrayTree(s, ws, first.rest, comments);
    } else {
      assert Elements(s, depth, comments) == NextElement(s, depth, comments, []);
      var ws, items := NextItemsSound(s, depth, [], comments);
      t := ArrayTree(s, ws, items, NextElement(s, depth, comments, []).rest, comments);
    }
  }

  lemma EmptyArrayTree(s: Text, ws: Gap, rest: Text, comments: bool) returns (t: Tree)
    requires WfGap(ws, comments) && s == YieldGap(ws) + [END_ARRAY] + rest
    ensures WfIn(t, comments) && Depth(t) == 0 && Meaning(t) == Array([]) && [BEGIN_ARRAY] + s == Yield(t) + rest
  {
    t := TEmptyArray(ws);
  }

  lemma EmptyObjectTree(s: Text, ws: Gap, rest: Text, comments: bool) returns (t: Tree)
    requires WfGap(ws, comments) && s == YieldGap(ws) + [END_OBJECT] + rest
    ensures WfIn(t, comments) && Depth(t) == 0 && Meaning(t) == Object([]) && [BEGIN_OBJECT] + s == Yield(t) + rest
  {
    t := TEmptyObject(ws);
  }

  lemma ArrayTree(s: Text, ws: Gap, items: Items, rest: Text, comments: bool) returns (t: Tree)
    requires WfGap(ws, comments) && WfItemsIn(items, comments) && s == YieldGap(ws) + YieldItems(items) + rest
    ensures WfIn(t, comments) && Depth(t) == 1 + DepthItems(items) && Meaning(t) == Array([] + MeaningItems(items))
    ensures [BEGIN_ARRAY] + s == Yield(t) + rest
  {
    t := TArray(ws, items);
    assert WfIn(t, comments);
    Behind(BEGIN_ARRAY, YieldGap(ws), YieldItems(items), rest);
    assert [] + MeaningItems(items) == MeaningItems(items);
  }

  lemma {:induction false} ItemsSound(s: Text, depth: nat, acc: seq<Json>, comments: bool)
    returns (ws: Gap, items: Items)
    requires ElementsFrom(s, depth, comments, acc).Done?
    ensures WfGap(ws, comments) && WfItemsIn(items, comments) && depth + 1 + DepthItems(items) <= MAX_DEPTH
    ensures s == YieldGap(ws) + YieldItems(items) + ElementsFrom(s, depth, comments, acc).rest
    ensures ElementsFrom(s, depth, comments, acc).value == Array(acc + MeaningItems(items))
    decreases |s|, 2
  {
    var t;
    ws, t := ValueSound(s, depth + 1, comments);
    var v := Value(s, depth + 1, comments);
    items := ItemsAfter(v.rest, ws, t, depth, acc, acc + [v.value], comments);
  }

  /** An element that is read, and what is read behind it. */
  lemma {:induction false} ItemsAfter(s: Text, ws: Gap, t: Tree, depth: nat, acc: seq<Json>, so: seq<Json>,
                                      comments: bool)
    returns (items: Items)
    requires WfIn(t, comments) && depth + 1 + Depth(t) <= MAX_DEPTH && so == acc + [Meaning(t)]
    requires AfterElement(s, depth, comments, so).Done?
    ensures WfItemsIn(items, comments) && depth + 1 + DepthItems(items) <= MAX_DEPTH
    ensures YieldGap(ws) + Yield(t) + s == YieldGap(ws) + YieldItems(items) + AfterElement(s, depth, comments, so).rest
    ensures AfterElement(s, depth, comments, so).value == Array(acc + MeaningItems(items))
    decreases |s|, 1
  {
    var after := JsonGaps.TokenSound(s, comments);
    var next := NextToken(s, comments);
    if next.value == END_ARRAY {
      items := LastItems(ws, t, after, next.rest, comments);
    } else {
      var before, tail := NextItemsSound(next.rest, depth, so, comments);
      items := MoreItems(ws, t, after, before, tail, NextElement(next.rest, depth, comments, so).rest, comments);
      Chain(acc, Meaning(t), MeaningItems(tail));
    }
  }

  lemma {:induction false} NextItemsSound(s: Text, depth: nat, acc: seq<Json>, comments: bool)
    returns (before: Gap, items: Items)
    requires NextElement(s, depth, comments, acc).Done?
    ensures WfGap(before, comments) && WfItemsIn(items, comments) && depth + 1 + DepthItems(items) <= MAX_DEPTH
    ensures s == YieldGap(before) + YieldItems(items) + NextElement(s, depth, comments, acc).rest
    ensures NextElement(s, depth, comments, acc).value == Array(acc + MeaningItems(items))
    decreases |s|, 3
  {
    var token := NextToken(s, comments);
    var all := [token.value] + token.rest;
    var ws := JsonGaps.TokenSound(s, comments);
    Associate(YieldGap(ws), [token.value], token.rest);
    var more;
    more, items := ItemsSound(all, depth, acc, comments);
    before := TwoGaps(ws, more, YieldItems(items), ElementsFrom(all, depth, comments, acc).rest, comments);
  }

  lemma TwoGaps(ws: Gap, more: Gap, y: Text, rest: Text, comments: bool) returns (gap: Gap)
    requires WfGap(ws, comments) && WfGap(more, comments)
    ensures WfGap(gap, comments) && YieldGap(ws) + (YieldGap(more) + y + rest) == YieldGap(gap) + y + rest
  {
    gap := ws + more;
    JsonGaps.GapsJoin(ws, more, comments);
    RegroupGaps(YieldGap(ws), YieldGap(more), y, rest);
  }

  lemma RegroupGaps(ws: Text, more: Text, y: Text, rest: Text)
    ensures ws + (more + y + rest) == ws + more + y + rest
  {
  }

  lemma Chain(acc: seq<Json>, v: Json, tail: seq<Json>)
    ensures acc + [v] + tail == acc + ([v] + tail)
  {
  }

  lemma LastItems(ws: Gap, t: Tree, after: Gap, rest: Text, comments: bool) returns (items: Items)
    requires WfIn(t, comments) && WfGap(after, comments)
    ensures WfItemsIn(items, comments)
    ensures YieldGap(ws) + Yield(t) + (YieldGap(after) + [END_ARRAY] + rest) == YieldGap(ws) + YieldItems(items) + rest
    ensures DepthItems(items) == Depth(t) && MeaningItems(items) == [Meaning(t)]
  {
    items := LastItem(t, after);
    RegroupLast(YieldGap(ws), Yield(t), YieldGap(after), rest);
  }

  lemma RegroupLast(ws: Text, y: Text, after: Text, rest: Text)
    ensures ws + y + (after + [END_ARRAY] + rest) == ws + (y + after + [END_ARRAY]) + rest
  {
  }

  lemma MoreItems(ws: Gap, t: Tree, after: Gap, before: Gap, tail: Items, rest: Text, comments: bool)
    returns (items: Items)
    requires WfIn(t, comments) && WfGap(after, comments) && WfGap(before, comments) && WfItemsIn(tail, comments)
    ensures WfItemsIn(items, comments)
    ensures YieldGap(ws) + Yield(t) + (YieldGap(after) + [COMMA] + (YieldGap(before) + YieldItems(tail) + rest))
         == YieldGap(ws) + YieldItems(items) + rest
    ensures DepthItems(items) == Max(Depth(t), DepthItems(tail))
    ensures MeaningItems(items) == [Meaning(t)] + MeaningItems(tail)
  {
    items := ItemThen(t, after, before, tail);
    RegroupItems(YieldGap(ws), Yield(t), YieldGap(after), YieldGap(before), YieldItems(tail), rest);
  }

  lemma RegroupItems(ws: Text, y: Text, after: Text, before: Text, z: Text, rest: Text)
    ensures ws + y + (after + [COMMA] + (before + z + rest)) == ws + (y + after + [COMMA] + before + z) + rest
  {
  }

  lemma {:induction false} ObjectSound(s: Text, depth: nat, comments: bool) returns (t: Tree)
    requires Entries(s, depth, comments).Done? && depth <= MAX_DEPTH
    ensures WfIn(t, comments) && depth + Depth(t) <= MAX_DEPTH
    ensures [BEGIN_OBJECT] + s == Yield(t) + Entries(s, depth, comments).rest
    ensures Meaning(t) == Entries(s, depth, comments).value
    decreases |s|, 4
  {
    var first := NextToken(s, comments);
    if first.value == END_OBJECT {
      var ws := JsonGaps.TokenSound(s, comments);
      t := EmptyObjectTree(s, ws, first.rest, comments);
    } else {
      assert Entries(s, depth, comments) == NextMember(s, depth, comments, []);
      var ws, members := NextMembersSound(s, depth, [], comments);
      t := ObjectTree(s, ws, members, NextMember(s, depth, comments, []).rest, comments);
    }
  }

  lemma ObjectTree(s: Text, ws: Gap, members: Members, rest: Text, comments: bool) returns (t: Tree)
    requires WfGap(ws, comments) && WfMembersIn(members, comments) && s == YieldGap(ws) + YieldMembers(members) + rest
    ensures WfIn(t, comments) && Depth(t) == 1 + DepthMembers(members)
    ensures Meaning(t) == Object(MeaningMembers(members, []))
    ensures [BEGIN_OBJECT] + s == Yield(t) + rest
  {
    t := TObject(ws, members);
    assert WfIn(t, comments);
    Behind(BEGIN_OBJECT, YieldGap(ws), YieldMembers(members), rest);
  }

  lemma Behind(b: byte, ws: Text, y: Text, rest: Text)
    ensures [b] + (ws + y + rest) == [b] + ws + y + rest
  {
  }

  /** One member, as far as its value. */
  lemma {:induction false} MemberSound(s: Text, depth: nat, comments: bool) returns (m: Member)
    requires OneMember(s, depth, comments).Done?
    ensures WfMemberIn(m, comments) && m.after == [] && depth + 1 + Depth(m.value) <= MAX_DEPTH
    ensures [QUOTE] + s == YieldMember(m) + OneMember(s, depth, comments).rest
    ensures OneMember(s, depth, comments).value == Entry(MeaningChars(m.key), Meaning(m.value))
    decreases |s|, 1
  {
    var key := Str(s, [], -1);
    var cs := JsonStrings.StrSound(s, [], -1);
    JsonStrings.StrMeaning(cs, key.rest);
    var beforeColon := JsonGaps.TokenSound(key.rest, comments);
    var colon := NextToken(key.rest, comments);
    var afterColon, v := ValueSound(colon.rest, depth + 1, comments);
    m := Member(cs, beforeColon, afterColon, v, []);
    MemberJoin(s, m, Value(colon.rest, depth + 1, comments).rest);
  }

  lemma MemberJoin(s: Text, m: Member, rest: Text)
    requires m.after == []
    requires s == YieldChars(m.key) + [QUOTE]
                  + (YieldGap(m.beforeColon) + [COLON] + (YieldGap(m.afterColon) + Yield(m.value) + rest))
    ensures [QUOTE] + s == YieldMember(m) + rest
  {
    RegroupMember(YieldChars(m.key), YieldGap(m.beforeColon), YieldGap(m.afterColon), Yield(m.value), rest);
  }

  lemma RegroupMember(key: Text, before: Text, after: Text, y: Text, rest: Text)
    ensures [QUOTE] + (key + [QUOTE] + (before + [COLON] + (after + y + rest)))
         == [QUOTE] + key + [QUOTE] + before + [COLON] + after + y + [] + rest
  {
  }

  lemma {:induction false} MembersSound(b: byte, s: Text, depth: nat, entries: seq<Entry>, comments: bool)
    returns (members: Members)
    requires MembersFrom(b, s, depth, comments, entries).Done?
    ensures WfMembersIn(members, comments) && depth + 1 + DepthMembers(members) <= MAX_DEPTH
    ensures [b] + s == YieldMembers(members) + MembersFrom(b, s, depth, comments, entries).rest
    ensures MembersFrom(b, s, depth, comments, entries).value == Object(MeaningMembers(members, entries))
    decreases |s|, 2
  {
    var m := MemberSound(s, depth, comments);
    members := MembersAfter(OneMember(s, depth, comments).rest, m, depth, entries,
      Put(entries, MeaningChars(m.key), Meaning(m.value)), comments);
  }

  /** A member that is read, and what is read behind it. */
  lemma {:induction false} MembersAfter(s: Text, m: Member, depth: nat, entries: seq<Entry>, put: seq<Entry>,
                                        comments: bool)
    returns (members: Members)
    requires WfMemberIn(m, comments) && m.after == [] && depth + 1 + Depth(m.value) <= MAX_DEPTH
    requires put == Put(entries, MeaningChars(m.key), Meaning(m.value))
    requires AfterMember(s, depth, comments, put).Done?
    ensures WfMembersIn(members, comments) && depth + 1 + DepthMembers(members) <= MAX_DEPTH
    ensures YieldMember(m) + s == YieldMembers(members) + AfterMember(s, depth, comments, put).rest
    ensures AfterMember(s, depth, comments, put).value == Object(MeaningMembers(members, entries))
    decreases |s|, 1
  {
    var after := JsonGaps.TokenSound(s, comments);
    var next := NextToken(s, comments);
    if next.value == END_OBJECT {
      members := LastMembers(m, after, next.rest, entries, comments);
    } else {
      var before, tail := NextMembersSound(next.rest, depth, put, comments);
      members := MoreMembers(m, after, before, tail, NextMember(next.rest, depth, comments, put).rest,
                                   entries, comments);
    }
  }

  lemma {:induction false} NextMembersSound(s: Text, depth: nat, entries: seq<Entry>, comments: bool)
    returns (before: Gap, members: Members)
    requires NextMember(s, depth, comments, entries).Done?
    ensures WfGap(before, comments) && WfMembersIn(members, comments) && depth + 1 + DepthMembers(members) <= MAX_DEPTH
    ensures s == YieldGap(before) + YieldMembers(members) + NextMember(s, depth, comments, entries).rest
    ensures NextMember(s, depth, comments, entries).value == Object(MeaningMembers(members, entries))
    decreases |s|, 3
  {
    var token := NextToken(s, comments);
    before := JsonGaps.TokenSound(s, comments);
    members := MembersSound(token.value, token.rest, depth, entries, comments);
    RegroupTail(YieldGap(before), token.value, token.rest, YieldMembers(members),
                NextMember(s, depth, comments, entries).rest);
  }

  lemma RegroupTail(before: Text, b: byte, s: Text, y: Text, rest: Text)
    requires [b] + s == y + rest
    ensures before + [b] + s == before + y + rest
  {
    assert before + [b] + s == before + ([b] + s);
  }

  lemma LastMembers(m: Member, after: Gap, rest: Text, entries: seq<Entry>, comments: bool) returns (members: Members)
    requires WfMemberIn(m, comments) && m.after == [] && WfGap(after, comments)
    ensures WfMembersIn(members, comments) && DepthMembers(members) == Depth(m.value)
    ensures YieldMember(m) + (YieldGap(after) + [END_OBJECT] + rest) == YieldMembers(members) + rest
    ensures MeaningMembers(members, entries) == Put(entries, MeaningChars(m.key), Meaning(m.value))
  {
    var n := SpacedMember(m, after, comments);
    members := LastMember(n);
    var y := YieldMember(m);
    assert y + (YieldGap(after) + [END_OBJECT] + rest) == y + YieldGap(after) + [END_OBJECT] + rest;
  }

  lemma MoreMembers(m: Member, after: Gap, before: Gap, tail: Members, rest: Text, entries: seq<Entry>, comments: bool)
    returns (members: Members)
    requires WfMemberIn(m, comments) && m.after == [] && WfGap(after, comments) && WfGap(before, comments)
    requires WfMembersIn(tail, comments)
    ensures WfMembersIn(members, comments) && DepthMembers(members) == Max(Depth(m.value), DepthMembers(tail))
    ensures YieldMember(m) + (YieldGap(after) + [COMMA] + (YieldGap(before) + YieldMembers(tail) + rest))
         == YieldMembers(members) + rest
    ensures MeaningMembers(members, entries)
         == MeaningMembers(tail, Put(entries, MeaningChars(m.key), Meaning(m.value)))
  {
    var n := SpacedMember(m, after, comments);
    members := MemberThen(n, before, tail);
    RegroupMembers(YieldMember(m), YieldGap(after), YieldGap(before), YieldMembers(tail), rest);
  }

  lemma RegroupMembers(y: Text, after: Text, before: Text, z: Text, rest: Text)
    ensures y + (after + [COMMA] + (before + z + rest)) == y + after + [COMMA] + before + z + rest
  {
  }

  /** White space behind a member belongs to it. */
  lemma SpacedMember(m: Member, after: Gap, comments: bool) returns (n: Member)
    requires WfMemberIn(m, comments) && m.after == [] && WfGap(after, comments)
    ensures n == m.(after := after) && WfMemberIn(n, comments) && YieldMember(n) == YieldMember(m) + YieldGap(after)
  {
    n := m.(after := after);
  }
}
