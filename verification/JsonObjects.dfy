/** Objects: entries are kept in the order of their keys, one for each key, and the last value set wins. */
module JsonObjects {
  import opened JsonGrammar

  lemma {:induction false} LessTotal(a: Text, b: Text)
    ensures a == b || Less(a, b) || Less(b, a)
    ensures !(Less(a, b) && Less(b, a)) && !Less(a, a)
    decreases |a|
  {
    if a != [] && b != [] {
      LessTotal(a[1..], b[1..]);
      assert a == [a[0]] + a[1..] && b == [b[0]] + b[1..];
    }
    if a != [] {
      LessTotal(a[1..], a[1..]);
    }
  }

  lemma {:induction false} LessTransitive(a: Text, b: Text, c: Text)
    requires Less(a, b) && Less(b, c)
    ensures Less(a, c)
    decreases |a|
  {
    if a != [] && a[0] == b[0] && b[0] == c[0] {
      LessTransitive(a[1..], b[1..], c[1..]);
    }
  }

  /** The key comes before every entry. */
  predicate Before(key: Text, entries: seq<Entry>) {
    forall k | 0 <= k < |entries| :: Less(key, entries[k].key)
  }

  lemma OrderedCons(e: Entry, entries: seq<Entry>)
    ensures Ordered([e] + entries) <==> Before(e.key, entries) && Ordered(entries)
  {
    var all := [e] + entries;
    if Ordered(all) {
      forall k | 0 <= k < |entries| ensures Less(e.key, entries[k].key) {
        assert all[0] == e && all[k + 1] == entries[k];
      }
      forall i, j | 0 <= i < j < |entries| ensures Less(entries[i].key, entries[j].key) {
        assert all[i + 1] == entries[i] && all[j + 1] == entries[j];
      }
    }
  }

  lemma BeforeLower(a: Text, b: Text, entries: seq<Entry>)
    requires Less(a, b) && Before(b, entries)
    ensures Before(a, entries)
  {
    forall k | 0 <= k < |entries| ensures Less(a, entries[k].key) {
      LessTransitive(a, b, entries[k].key);
    }
  }

  lemma {:induction false} PutBefore(low: Text, entries: seq<Entry>, key: Text, value: Json)
    requires Before(low, entries) && Less(low, key)
    ensures Before(low, Put(entries, key, value))
    decreases |entries|
  {
    if entries != [] {
      PutBefore(low, entries[1..], key, value);
    }
  }

  /** Setting a key keeps the entries in strict order, so that no key comes twice. */
  lemma {:induction false} PutOrdered(entries: seq<Entry>, key: Text, value: Json)
    requires Ordered(entries)
    ensures Ordered(Put(entries, key, value))
    decreases |entries|
  {
    if entries != [] {
      var first, rest := entries[0], entries[1..];
      assert entries == [first] + rest;
      OrderedCons(first, rest);
      if first.key == key {
        OrderedCons(Entry(key, value), rest);
      } else if Less(key, first.key) {
        BeforeLower(key, first.key, rest);
        OrderedCons(Entry(key, value), entries);
      } else {
        LessTotal(key, first.key);
        PutOrdered(rest, key, value);
        PutBefore(first.key, rest, key, value);
        OrderedCons(first, Put(rest, key, value));
      }
    }
  }

  datatype Found = Found(value: Json) | Absent

  function Lookup(entries: seq<Entry>, key: Text): Found {
    if entries == [] then Absent
    else if entries[0].key == key then Found(entries[0].value)
    else Lookup(entries[1..], key)
  }

  lemma {:induction false} PutLookup(entries: seq<Entry>, key: Text, value: Json, other: Text)
    ensures Lookup(Put(entries, key, value), other) == if other == key then Found(value) else Lookup(entries, other)
    decreases |entries|
  {
    if entries != [] {
      PutLookup(entries[1..], key, value, other);
    }
  }

  /** The value of the last member with a key. */
  function LastNamed(members: Members, key: Text): Found
    requires WfMembers(members)
  {
    match members
    case LastMember(m) => assert WfMember(m); if MeaningChars(m.key) == key then Found(Meaning(m.value)) else Absent
    case MemberThen(m, _, rest) =>
      assert WfMember(m);
      var later := LastNamed(rest, key);
      if later.Absent? && MeaningChars(m.key) == key then Found(Meaning(m.value)) else later
  }

  lemma {:induction false} MembersLookup(members: Members, entries: seq<Entry>, key: Text)
    requires WfMembers(members)
    ensures Lookup(MeaningMembers(members, entries), key)
         == if LastNamed(members, key).Found? then LastNamed(members, key) else Lookup(entries, key)
    decreases members
  {
    var m := members.m;
    assert WfMember(m);
    var put := Put(entries, MeaningChars(m.key), Meaning(m.value));
    PutLookup(entries, MeaningChars(m.key), Meaning(m.value), key);
    if members.MemberThen? {
      MembersLookup(members.rest, put, key);
    }
  }

  /** An object has for each key the value of the last member with that key, and no other entries. */
  lemma LastMemberWins(members: Members, key: Text)
    requires WfMembers(members)
    ensures Lookup(MeaningMembers(members, []), key) == LastNamed(members, key)
    ensures Ordered(MeaningMembers(members, []))
  {
    MembersLookup(members, [], key);
    MembersOrdered(members, []);
  }

  lemma {:induction false} MembersOrdered(members: Members, entries: seq<Entry>)
    requires WfMembers(members) && Ordered(entries)
    ensures Ordered(MeaningMembers(members, entries))
    decreases members
  {
    var m := members.m;
    assert WfMember(m);
    PutOrdered(entries, MeaningChars(m.key), Meaning(m.value));
    if members.MemberThen? {
      MembersOrdered(members.rest, Put(entries, MeaningChars(m.key), Meaning(m.value)));
    }
  }

  /** An entry with a key above all others goes to the end. */
  lemma {:induction false} PutLast(entries: seq<Entry>, e: Entry)
    requires Ordered(entries + [e])
    ensures Put(entries, e.key, e.value) == entries + [e]
    decreases |entries|
  {
    if entries != [] {
      var all := entries + [e];
      var first, rest := entries[0], entries[1..];
      assert all == [first] + (rest + [e]);
      OrderedCons(first, rest + [e]);
      assert (rest + [e])[|rest|] == e;
      LessTotal(first.key, e.key);
      PutLast(rest, e);
    }
  }
}
