/** Video frames that are put together from fragments. An empty part is one that has not come yet. */
module Frames {
  import opened ParityFec
  import Counting

  datatype Frame = Frame(fseq: nat, timestamp: nat, partCount: nat, received: nat,
                         keyframe: bool, rotation: nat, parts: seq<Packet>)

  function Empties(n: nat): (r: seq<Packet>)
    ensures |r| == n
  {
    seq(n, _ => [])
  }

  /** The place of a fragment is still free; otherwise the program stops at an assertion. */
  predicate Free(f: Frame, index: nat) {
    index >= |f.parts| || f.parts[index] == []
  }

  /** The parts with a fragment put in. */
  function PartsWith(parts: seq<Packet>, pkt: Packet, index: nat): seq<Packet> {
    if index < |parts| then parts[index := pkt] else parts + Empties(index - |parts|) + [pkt]
  }

  function WithPart(f: Frame, pkt: Packet, index: nat): Frame {
    f.(parts := PartsWith(f.parts, pkt, index), received := f.received + 1)
  }

  function Filled(parts: seq<Packet>): nat {
    if parts == [] then 0 else (if parts[0] == [] then 0 else 1) + Filled(parts[1..])
  }

  predicate Complete(f: Frame) {
    f.received == f.partCount
  }

  /** The parts one after the other. */
  function Joined(parts: seq<Packet>): Packet {
    if parts == [] then [] else parts[0] + Joined(parts[1..])
  }

  /** A frame counts its parts rightly, and has no more of them than it should. */
  predicate FrameOk(f: Frame) {
    |f.parts| <= f.partCount <= 255 && f.received == Filled(f.parts) && 1 <= f.received
  }

  lemma {:induction false} FilledAtMost(parts: seq<Packet>)
    ensures Filled(parts) <= |parts|
    ensures Filled(parts) == |parts| <==> forall k | 0 <= k < |parts| :: parts[k] != []
  {
    if parts != [] {
      FilledAtMost(parts[1..]);
      assert parts == [parts[0]] + parts[1..];
    }
  }

  lemma {:induction false} FilledPut(parts: seq<Packet>, pkt: Packet, index: nat)
    requires index < |parts| && parts[index] == [] && pkt != []
    ensures Filled(parts[index := pkt]) == Filled(parts) + 1
    decreases |parts|
  {
    if index == 0 {
      assert parts[0 := pkt][1..] == parts[1..];
    } else {
      assert parts[index := pkt][1..] == parts[1..][index - 1 := pkt];
      FilledPut(parts[1..], pkt, index - 1);
    }
  }

  lemma {:induction false} FilledAppend(parts: seq<Packet>, n: nat, pkt: Packet)
    requires pkt != []
    ensures Filled(parts + Empties(n) + [pkt]) == Filled(parts) + 1
    decreases |parts| + n
  {
    var all := parts + Empties(n) + [pkt];
    if parts != [] {
      assert all[1..] == parts[1..] + Empties(n) + [pkt];
      FilledAppend(parts[1..], n, pkt);
    } else if n > 0 {
      assert all[1..] == [] + Empties(n - 1) + [pkt];
      FilledAppend([], n - 1, pkt);
    } else {
      assert all == [pkt];
    }
  }

  /** A fragment in a free place is counted once. */
  lemma PartCounted(f: Frame, pkt: Packet, index: nat)
    requires |f.parts| <= f.partCount <= 255 && f.received == Filled(f.parts)
    requires index < f.partCount && Free(f, index) && pkt != []
    ensures FrameOk(WithPart(f, pkt, index)) && f.received < f.partCount
  {
    if index < |f.parts| {
      FilledPut(f.parts, pkt, index);
    } else {
      FilledAppend(f.parts, index - |f.parts|, pkt);
    }
    FilledAtMost(WithPart(f, pkt, index).parts);
  }

  /** An empty fragment is taken for one that has not come, and so the count is right just without it. */
  lemma CountedIff(f: Frame, pkt: Packet, index: nat)
    requires |f.parts| <= f.partCount <= 255 && f.received == Filled(f.parts)
    requires index < f.partCount && Free(f, index)
    ensures FrameOk(WithPart(f, pkt, index)) <==> pkt != []
  {
    if pkt != [] {
      PartCounted(f, pkt, index);
    } else if index < |f.parts| {
      assert f.parts[index := []] == f.parts;
    } else {
      NothingMore(f.parts, index - |f.parts| + 1);
      assert PartsWith(f.parts, pkt, index) == f.parts + Empties(index - |f.parts| + 1);
    }
  }

  lemma {:induction false} NothingMore(parts: seq<Packet>, n: nat)
    ensures Filled(parts + Empties(n)) == Filled(parts)
    decreases |parts| + n
  {
    var all := parts + Empties(n);
    if parts != [] {
      assert all[1..] == parts[1..] + Empties(n);
      NothingMore(parts[1..], n);
    } else if n > 0 {
      assert all[1..] == [] + Empties(n - 1);
      NothingMore([], n - 1);
    }
  }

  /** A complete frame has all its parts, so that it can be put together. */
  lemma CompleteFull(f: Frame)
    requires FrameOk(f) && Complete(f)
    ensures |f.parts| == f.partCount && forall k | 0 <= k < |f.parts| :: f.parts[k] != []
  {
    FilledAtMost(f.parts);
  }

  // ----- Fragments in any order

  predicate Within(order: seq<nat>, n: nat) {
    forall i | 0 <= i < |order| :: order[i] < n
  }

  /** The frame after fragments of it have come in some order. */
  function AfterOrder(f: Frame, original: seq<Packet>, order: seq<nat>): Frame
    requires Within(order, |original|)
    decreases |order|
  {
    if order == [] then f
    else
      var last := order[|order| - 1];
      WithPart(AfterOrder(f, original, order[..|order| - 1]), original[last], last)
  }

  /** The parts that have come are in their places, and the others are empty. */
  predicate Holds(parts: seq<Packet>, original: seq<Packet>, order: seq<nat>) {
    && |parts| <= |original|
    && (forall k: nat | k < |original| && k in order :: k < |parts| && parts[k] == original[k])
    && (forall k: nat | k < |parts| && k !in order :: parts[k] == [])
  }

  function Fresh(f: Frame): Frame {
    f.(received := 0, parts := [])
  }

  /**
   * However the distinct fragments of a frame come, no place is taken, each is counted, and what
   * has come is in its place.
   */
  lemma {:induction false} AnyOrder(f: Frame, original: seq<Packet>, order: seq<nat>)
    requires |original| == f.partCount <= 255 && NonEmpty(original)
    requires Counting.Distinct(order) && Within(order, |original|)
    ensures var g := AfterOrder(Fresh(f), original, order);
            && g.partCount == f.partCount && g.received == |order| == Filled(g.parts) && |g.parts| <= g.partCount
            && Holds(g.parts, original, order)
    ensures forall index: nat | index < |original| && index !in order ::
              Free(AfterOrder(Fresh(f), original, order), index)
    decreases |order|
  {
    if order != [] {
      var before, last := order[..|order| - 1], order[|order| - 1];
      assert order == before + [last];
      assert last !in before;
      AnyOrder(f, original, before);
      var g := AfterOrder(Fresh(f), original, before);
      PartCounted(g, original[last], last);
      PartPlaced(g.parts, original, before, last);
    }
  }

  lemma PartPlaced(parts: seq<Packet>, original: seq<Packet>, before: seq<nat>, last: nat)
    requires Holds(parts, original, before) && last < |original| && last !in before
    ensures Holds(PartsWith(parts, original[last], last), original, before + [last])
  {
    var now := PartsWith(parts, original[last], last);
    forall k: nat | k < |original| && k in before + [last]
      ensures k < |now| && now[k] == original[k]
    {
    }
  }

  /** When all have come, the frame is complete, and its parts put together are the whole in order. */
  lemma AllCome(f: Frame, original: seq<Packet>, order: seq<nat>)
    requires |original| == f.partCount <= 255 && NonEmpty(original)
    requires Counting.Distinct(order) && Within(order, |original|) && |order| == |original|
    ensures var g := AfterOrder(Fresh(f), original, order);
            Complete(g) && g.parts == original && Joined(g.parts) == Joined(original)
  {
    AnyOrder(f, original, order);
    var g := AfterOrder(Fresh(f), original, order);
    FilledAtMost(g.parts);
    assert |g.parts| == |original|;
    forall k: nat | k < |original| ensures g.parts[k] == original[k] {
      assert g.parts[k] != [];
    }
  }
}
