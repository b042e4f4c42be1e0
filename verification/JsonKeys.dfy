/** The order of the keys of an object, told from their bytes: in what is parsed, and in what is printed. */
module JsonKeys {
  import opened JsonGrammar
  import opened JsonMachine
  import opened JsonDump
  import JsonObjects

  /** The two agree up to a place, where the first ends or has the lower byte. */
  predicate LowerAt(a: Text, b: Text, k: nat) {
    k <= |a| && k < |b| && (forall i | 0 <= i < k :: a[i] == b[i]) && (k == |a| || a[k] < b[k])
  }

  /** A proper prefix, or lower at the first place where they differ. */
  predicate Lower(a: Text, b: Text) {
    exists k :: 0 <= k < |b| && LowerAt(a, b, k)
  }

  lemma {:induction false} LessLower(a: Text, b: Text) returns (k: nat)
    requires Less(a, b)
    ensures k < |b| && LowerAt(a, b, k)
    decreases |a|
  {
    if a == [] || a[0] < b[0] {
      k := 0;
    } else {
      var j := LessLower(a[1..], b[1..]);
      k := j + 1;
      forall i | 0 <= i < k ensures a[i] == b[i] {
        if i > 0 {
          assert a[1..][i - 1] == b[1..][i - 1];
        }
      }
    }
  }

  lemma {:induction false} LowerLess(a: Text, b: Text, k: nat)
    requires LowerAt(a, b, k)
    ensures Less(a, b)
    decreases k
  {
    if k > 0 {
      assert LowerAt(a[1..], b[1..], k - 1);
      LowerLess(a[1..], b[1..], k - 1);
    }
  }

  /** The order by which keys are kept is that of their bytes. */
  lemma LessIff(a: Text, b: Text)
    ensures Less(a, b) <==> Lower(a, b)
  {
    if Less(a, b) {
      var k := LessLower(a, b);
    }
    if Lower(a, b) {
      var k :| 0 <= k < |b| && LowerAt(a, b, k);
      LowerLess(a, b, k);
    }
  }

  predicate Ascending(entries: seq<Entry>) {
    forall i, j | 0 <= i < j < |entries| :: Lower(entries[i].key, entries[j].key)
  }

  /** In every object within a value the keys ascend, and so none comes twice. */
  predicate KeysAscend(j: Json) {
    match j
    case Array(items) => forall v | v in items :: KeysAscend(v)
    case Object(entries) => Ascending(entries) && forall e | e in entries :: KeysAscend(e.value)
    case _ => true
  }

  lemma AscendingIff(entries: seq<Entry>)
    ensures Ordered(entries) <==> Ascending(entries)
  {
    forall i, j | 0 <= i < j < |entries|
      ensures Less(entries[i].key, entries[j].key) <==> Lower(entries[i].key, entries[j].key)
    {
      LessIff(entries[i].key, entries[j].key);
    }
  }

  // ----- What is parsed

  predicate EntriesAscend(entries: seq<Entry>) {
    Ascending(entries) && forall e | e in entries :: KeysAscend(e.value)
  }

  lemma {:induction false} PutValues(entries: seq<Entry>, key: Text, value: Json)
    ensures forall e | e in Put(entries, key, value) :: e in entries || e.value == value
    decreases |entries|
  {
    if entries != [] {
      PutValues(entries[1..], key, value);
    }
  }

  lemma PutAscends(entries: seq<Entry>, key: Text, value: Json)
    requires EntriesAscend(entries) && KeysAscend(value)
    ensures EntriesAscend(Put(entries, key, value))
  {
    AscendingIff(entries);
    JsonObjects.PutOrdered(entries, key, value);
    AscendingIff(Put(entries, key, value));
    PutValues(entries, key, value);
  }

  predicate ResultAscends(r: Result<Json>) {
    r.Done? ==> KeysAscend(r.value)
  }

  lemma {:induction false} ValueAscends(s: Text, depth: nat, comments: bool)
    ensures ResultAscends(Value(s, depth, comments))
    decreases |s|, 1
  {
    var token := NextToken(s, comments);
    if depth <= MAX_DEPTH && token.Done? {
      if token.value == BEGIN_OBJECT {
        EntriesAscends(token.rest, depth, comments);
      } else if token.value == BEGIN_ARRAY {
        ElementsAscends(token.rest, depth, comments);
      } else {
        ScalarAscends(token.value, token.rest);
      }
    }
  }

  predicate IsLeaf(r: Result<Json>) {
    r.Done? ==> !r.value.Array? && !r.value.Object?
  }

  lemma AfterFractionLeaf(s: Text, c: Text)
    requires |c| < |s|
    ensures IsLeaf(AfterFraction(s, c))
  {
  }

  lemma AfterIntegerLeaf(s: Text, b: Text)
    requires |b| < |s|
    ensures IsLeaf(AfterInteger(s, b))
  {
    if Peek(b) == POINT {
      AfterFractionLeaf(s, SkipDigits(b[1..]));
    } else {
      AfterFractionLeaf(s, b);
    }
  }

  lemma NumLeaf(s: Text)
    requires s != [] && (s[0] == MINUS || IsDigit(s[0]))
    ensures IsLeaf(Num(s))
  {
    var a := if s[0] == MINUS then s[1..] else s;
    if IsDigit(Peek(a)) {
      AfterIntegerLeaf(s, a[1..]);
      AfterIntegerLeaf(s, SkipDigits(a[1..]));
    }
  }

  lemma ScalarAscends(token: byte, s: Text)
    ensures ResultAscends(Scalar(token, s))
  {
    assert IsLeaf(Scalar(token, s)) by {
      if token == MINUS || IsDigit(token) {
        NumLeaf([token] + s);
      }
    }
  }

  lemma {:induction false} EntriesAscends(s: Text, depth: nat, comments: bool)
    ensures ResultAscends(Entries(s, depth, comments))
    decreases |s|, 3
  {
    var first := NextToken(s, comments);
    if first.Done? && first.value != END_OBJECT {
      MembersAscend(first.value, first.rest, depth, comments, []);
    }
  }

  lemma {:induction false} MembersAscend(token: byte, s: Text, depth: nat, comments: bool, entries: seq<Entry>)
    requires EntriesAscend(entries)
    ensures ResultAscends(MembersFrom(token, s, depth, comments, entries))
    decreases |s|, 2
  {
    if token == QUOTE {
      MemberAscends(s, depth, comments);
      var m := OneMember(s, depth, comments);
      if m.Done? {
        PutAscends(entries, m.value.key, m.value.value);
        AfterMemberAscends(m.rest, depth, comments, Put(entries, m.value.key, m.value.value));
      }
    }
  }

  lemma {:induction false} AfterMemberAscends(s: Text, depth: nat, comments: bool, entries: seq<Entry>)
    requires EntriesAscend(entries)
    ensures ResultAscends(AfterMember(s, depth, comments, entries))
    decreases |s|, 1
  {
    var next := NextToken(s, comments);
    if next.Done? && next.value == COMMA {
      var token := NextToken(next.rest, comments);
      if token.Done? {
        MembersAscend(token.value, token.rest, depth, comments, entries);
      }
    }
  }

  lemma {:induction false} MemberAscends(s: Text, depth: nat, comments: bool)
    ensures var m := OneMember(s, depth, comments); m.Done? ==> KeysAscend(m.value.value)
    decreases |s|, 1
  {
    var key := Str(s, [], -1);
    if key.Done? {
      var colon := NextToken(key.rest, comments);
      if colon.Done? {
        ValueAscends(colon.rest, depth + 1, comments);
      }
    }
  }

  lemma {:induction false} ElementsAscends(s: Text, depth: nat, comments: bool)
    ensures ResultAscends(Elements(s, depth, comments))
    decreases |s|, 3
  {
    var first := NextToken(s, comments);
    if first.Done? && first.value != END_ARRAY {
      ElementsFromAscends([first.value] + first.rest, depth, comments, []);
    }
  }

  predicate ItemsAscend(items: seq<Json>) {
    forall v | v in items :: KeysAscend(v)
  }

  lemma {:induction false} ElementsFromAscends(s: Text, depth: nat, comments: bool, items: seq<Json>)
    requires ItemsAscend(items)
    ensures ResultAscends(ElementsFrom(s, depth, comments, items))
    decreases |s|, 2
  {
    ValueAscends(s, depth + 1, comments);
    var v := Value(s, depth + 1, comments);
    if v.Done? {
      AfterElementAscends(v.rest, depth, comments, items + [v.value]);
    }
  }

  lemma {:induction false} AfterElementAscends(s: Text, depth: nat, comments: bool, items: seq<Json>)
    requires ItemsAscend(items)
    ensures ResultAscends(AfterElement(s, depth, comments, items))
    decreases |s|, 1
  {
    var next := NextToken(s, comments);
    if next.Done? && next.value == COMMA {
      var token := NextToken(next.rest, comments);
      if token.Done? {
        ElementsFromAscends([token.value] + token.rest, depth, comments, items);
      }
    }
  }

  /** Whatever is parsed, in both modes: in every object the keys ascend by their bytes. */
  lemma ParsedAscends(s: Text, comments: bool)
    ensures Parse(s, comments).Done? ==> KeysAscend(Parse(s, comments).value)
  {
    ValueAscends(s, 0, comments);
  }

  // ----- What is printed

  /** Every printed object has its keys in ascending order. */
  lemma {:induction false} PrintedAscends(j: Json)
    requires Printable(j)
    ensures KeysAscend(j)
    decreases j
  {
    match j
    case Array(items) =>
      forall v | v in items ensures KeysAscend(v) {
        PrintedAscends(v);
      }
    case Object(entries) =>
      AscendingIff(entries);
      forall e | e in entries ensures KeysAscend(e.value) {
        PrintedAscends(e.value);
      }
    case _ =>
  }

  /** A quoted key, a colon and a space, and the value. */
  function Pair(key: Text, value: Text): Text {
    StringText(key) + [0x3A, 0x20] + value
  }

  /** An object of two keys is printed with the lower one first, whichever was set first. */
  lemma TwoKeys(a: Text, v: Json, b: Text, w: Json)
    requires a != b && Printable(v) && Printable(w)
    ensures var j := Object(Put(Put([], a, v), b, w));
            var p, q := Pair(a, Dumped(v)), Pair(b, Dumped(w));
            && Printable(j)
            && Dumped(j) == [0x7B] + (if Lower(a, b) then p + [0x2C, 0x20] + q else q + [0x2C, 0x20] + p) + [0x7D]
  {
    var entries := Put(Put([], a, v), b, w);
    LessIff(a, b);
    JsonObjects.LessTotal(a, b);
    assert entries == if Less(a, b) then [Entry(a, v), Entry(b, w)] else [Entry(b, w), Entry(a, v)];
    TwoEntries(entries[0], entries[1]);
  }

  lemma LastEntry(e: Entry)
    requires Printable(e.value)
    ensures EntriesText([e], false) == [0x2C, 0x20] + Pair(e.key, Dumped(e.value))
  {
    assert [e][1..] == [];
    Associate(StringText(e.key), [COLON, SPACE], Dumped(e.value));
  }

  lemma TwoEntries(first: Entry, second: Entry)
    requires Printable(first.value) && Printable(second.value)
    ensures EntriesText([first, second], true)
         == Pair(first.key, Dumped(first.value)) + [0x2C, 0x20] + Pair(second.key, Dumped(second.value))
  {
    LastEntry(second);
    assert [first, second][1..] == [second];
    Associate(StringText(first.key), [COLON, SPACE], Dumped(first.value));
    Associate(Pair(first.key, Dumped(first.value)), [0x2C, 0x20], Pair(second.key, Dumped(second.value)));
    assert [] + (EntryText(first) + EntriesText([second], false)) == EntryText(first) + EntriesText([second], false);
  }
}
