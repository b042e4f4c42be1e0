/**
 * What a frame of the window holds: over every run just the fragments that came for it since it was let
 * in. A frame of which all fragments came is whole, with its parts in order.
 */
module FrameContents {
  import opened ParityFec
  import opened Frames
  import opened Reassembly
  import opened ReassemblyRuns
  import opened WholeFrames

  // ----- Frames leave the window at its front

  lemma {:induction false} DrainSuffix(s: State) returns (d: nat)
    ensures d <= |s.packets| && Drain(s).packets == s.packets[d..]
    ensures if |s.packets| <= 3 then d == 0 else |s.packets| - d >= 3
    decreases |s.packets|
  {
    d := 0;
    if |s.packets| > 3 && !s.stopped {
      var first := s.packets[0];
      if Complete(first) {
        d := DrainSuffix(Retire(Deliver(s, first)));
        d := d + 1;
      } else if first.partCount - first.received == 1 && !s.waitingForFec {
        var fec := FindFec(s.fecPackets, first);
        if fec.Found? {
          DecodeGrows(s, fec.fec);
          d := DrainSuffix(DropFirst(TryDecode(s, fec.fec)));
          d := d + 1;
        }
      } else {
        d := DrainSuffix(Retire(s.(waitingForFec := false)));
        d := d + 1;
      }
    }
  }

  // ----- What comes for a frame

  /** The fragment is one of the frame. */
  predicate Fits(e: Event, f: Frame) {
    e.FragmentComes? && e.pts == f.timestamp && e.count == f.partCount && e.index < f.partCount
  }

  /** Every fragment of the frame that came since some event is in its place. */
  predicate HasAll(events: seq<Event>, f: Frame, since: nat) {
    forall i | since <= i < |events| && Fits(events[i], f) ::
      events[i].index < |f.parts| && f.parts[events[i].index] == events[i].pkt
  }

  /** A fragment of the frame, with this index, came since some event. */
  predicate CameSince(events: seq<Event>, f: Frame, since: nat, index: nat) {
    exists i :: since <= i < |events| && Fits(events[i], f) && events[i].index == index
  }

  /** A place is filled just when its fragment came. */
  predicate HasOnly(events: seq<Event>, f: Frame, since: nat) {
    forall j: nat | j < f.partCount :: j < |f.parts| && f.parts[j] != [] <==> CameSince(events, f, since, j)
  }

  /** The frame was let in by an event, and holds what came for it since. */
  predicate Holding(events: seq<Event>, f: Frame, since: nat) {
    && since < |events| && Fits(events[since], f) && FrameOk(f)
    && HasAll(events, f, since) && HasOnly(events, f, since)
  }

  /** The same of all frames of the window, with the events that let them in, in order. */
  predicate AllHolding(events: seq<Event>, frames: seq<Frame>, since: seq<nat>) {
    && |since| == |frames| && (forall k | 0 <= k < |frames| :: Holding(events, frames[k], since[k]))
    && Increasing(since, |events|)
  }

  lemma CameMore(events: seq<Event>, e: Event, f: Frame, since: nat, index: nat)
    requires since <= |events|
    ensures CameSince(events + [e], f, since, index) <==>
            CameSince(events, f, since, index) || (Fits(e, f) && e.index == index)
  {
    var all := events + [e];
    if CameSince(events, f, since, index) {
      var i :| since <= i < |events| && Fits(events[i], f) && events[i].index == index;
      assert all[i] == events[i];
    }
    if Fits(e, f) && e.index == index {
      assert all[|events|] == e;
    }
  }

  /** An event that is not for the frame. */
  lemma HoldingLater(events: seq<Event>, e: Event, f: Frame, since: nat)
    requires Holding(events, f, since) && !Fits(e, f)
    ensures Holding(events + [e], f, since)
  {
    forall j: nat | j < f.partCount
      ensures CameSince(events + [e], f, since, j) <==> CameSince(events, f, since, j)
    {
      CameMore(events, e, f, since, j);
    }
  }

  /** A fragment is put into its frame. */
  lemma HoldingPut(events: seq<Event>, e: Event, f: Frame, since: nat)
    requires Holding(events, f, since) && Fits(e, f) && e.pkt != [] && Free(f, e.index)
    ensures Holding(events + [e], WithPart(f, e.pkt, e.index), since)
  {
    var all, now := events + [e], WithPart(f, e.pkt, e.index);
    PartCounted(f, e.pkt, e.index);
    forall j: nat | j < f.partCount
      ensures j < |now.parts| && now.parts[j] != [] <==> CameSince(all, now, since, j)
    {
      CameMore(events, e, f, since, j);
      SameFits(all, f, now, since, j);
    }
    forall i | since <= i < |all| && Fits(all[i], now)
      ensures all[i].index < |now.parts| && now.parts[all[i].index] == all[i].pkt
    {
      if i < |events| {
        assert Fits(events[i], f) && CameSince(events, f, since, events[i].index);
      }
    }
  }

  lemma SameFits(events: seq<Event>, f: Frame, g: Frame, since: nat, index: nat)
    requires f.timestamp == g.timestamp && f.partCount == g.partCount
    ensures CameSince(events, f, since, index) <==> CameSince(events, g, since, index)
  {
  }

  /** The frame that a fragment begins. */
  lemma HoldingNew(events: seq<Event>, s: State, e: Event)
    requires e.FragmentComes? && Admits(s, e) && e.pkt != []
    ensures Holding(events + [e], NewFrame(s, e), |events|)
  {
    var all, f := events + [e], NewFrame(s, e);
    PartCounted(Frame(NextSeq(s.lastFrameSeq, e.fseq), e.pts, e.count, 0, e.keyframe, e.rotation, []), e.pkt, e.index);
    assert all[|events|] == e;
    forall j: nat | j < f.partCount
      ensures j < |f.parts| && f.parts[j] != [] <==> CameSince(all, f, |events|, j)
    {
      CameMore(events, e, f, |events|, j);
    }
  }

  // ----- One step

  lemma AllLater(events: seq<Event>, e: Event, frames: seq<Frame>, since: seq<nat>)
    requires AllHolding(events, frames, since) && forall k | 0 <= k < |frames| :: !Fits(e, frames[k])
    ensures AllHolding(events + [e], frames, since)
  {
    forall k | 0 <= k < |frames| ensures Holding(events + [e], frames[k], since[k]) {
      HoldingLater(events, e, frames[k], since[k]);
    }
  }

  lemma AllPut(events: seq<Event>, e: Event, frames: seq<Frame>, since: seq<nat>, k: nat)
    requires AllHolding(events, frames, since) && k < |frames| && TimesDiffer(frames)
    requires Fits(e, frames[k]) && e.pkt != [] && Free(frames[k], e.index)
    ensures AllHolding(events + [e], frames[k := WithPart(frames[k], e.pkt, e.index)], since)
  {
    var now := frames[k := WithPart(frames[k], e.pkt, e.index)];
    forall j | 0 <= j < |frames| ensures Holding(events + [e], now[j], since[j]) {
      if j == k {
        HoldingPut(events, e, frames[k], since[k]);
      } else {
        assert frames[j].timestamp != frames[k].timestamp;
        HoldingLater(events, e, frames[j], since[j]);
      }
    }
  }

  lemma AllBehind(events: seq<Event>, frames: seq<Frame>, since: seq<nat>, d: nat)
    requires AllHolding(events, frames, since) && d <= |frames|
    ensures AllHolding(events, frames[d..], since[d..])
  {
  }

  lemma StepHolds(s: State, e: Event, events: seq<Event>, since: seq<nat>) returns (now: seq<nat>)
    requires Inv(s) && TimesDiffer(s.packets) && EventOk(e) && !Step(s, e).stopped
    requires AllHolding(events, s.packets, since)
    ensures AllHolding(events + [e], Step(s, e).packets, now)
  {
    if e.FecComes? {
      now := ParityHolds(s, e, events, since);
    } else if LetsIn(s, e) {
      now := NewHolds(s, e, events, since);
    } else {
      now := since;
      PutHolds(s, e, events, since);
    }
  }

  lemma ParityHolds(s: State, e: Event, events: seq<Event>, since: seq<nat>) returns (now: seq<nat>)
    requires Inv(s) && e.FecComes? && !Step(s, e).stopped && AllHolding(events, s.packets, since)
    ensures AllHolding(events + [e], Step(s, e).packets, now)
  {
    AllLater(events, e, s.packets, since);
    now := since;
    if s.waitingForFec && s.packets != [] && Covers(FecOf(s, e), s.packets[0]) {
      DecodeGrows(s, FecOf(s, e));
      AllBehind(events + [e], s.packets, since, 1);
      now := since[1..];
    }
  }

  lemma NewHolds(s: State, e: Event, events: seq<Event>, since: seq<nat>) returns (now: seq<nat>)
    requires Inv(s) && EventOk(e) && LetsIn(s, e) && AllHolding(events, s.packets, since)
    ensures AllHolding(events + [e], Step(s, e).packets, now)
  {
    var f := NewFrame(s, e);
    AllLater(events, e, s.packets, since);
    HoldingNew(events, s, e);
    var all := since + [|events|];
    assert AllHolding(events + [e], s.packets + [f], all);
    var d := DrainSuffix(s.(maxTimestamp := Max(s.maxTimestamp, e.pts), packets := s.packets + [f]));
    AllBehind(events + [e], s.packets + [f], all, d);
    now := all[d..];
  }

  lemma PutHolds(s: State, e: Event, events: seq<Event>, since: seq<nat>)
    requires Inv(s) && TimesDiffer(s.packets) && EventOk(e) && e.FragmentComes? && !LetsIn(s, e)
    requires !Step(s, e).stopped && AllHolding(events, s.packets, since)
    ensures AllHolding(events + [e], Step(s, e).packets, since)
  {
    var k := IndexOf(s.packets, e.pts);
    if k < |s.packets| && Fits(e, s.packets[k]) {
      AllPut(events, e, s.packets, since, k);
    } else {
      forall j | 0 <= j < |s.packets| ensures !Fits(e, s.packets[j]) {
        if k < |s.packets| && j > k {
          assert s.packets[j].timestamp != s.packets[k].timestamp;
        }
      }
      AllLater(events, e, s.packets, since);
    }
  }

  // ----- Runs

  /**
   * Over every run each frame of the window holds all fragments of it that came since it was let in, each in
   * its place, and nothing else.
   */
  lemma {:induction false} KeptSince(events: seq<Event>) returns (since: seq<nat>)
    requires AllEventsOk(events) && !Run(INITIAL, events).stopped
    ensures AllHolding(events, Run(INITIAL, events).packets, since)
    decreases |events|
  {
    since := [];
    if events != [] {
      var before, e := events[..|events| - 1], events[|events| - 1];
      since := KeptSince(before);
      RunKeeps(before);
      RunTimes(before);
      since := StepHolds(Run(INITIAL, before), e, before, since);
      assert before + [e] == events;
    }
  }

  lemma {:induction false} RunTimes(events: seq<Event>)
    ensures TimesDiffer(Run(INITIAL, events).packets)
    decreases |events|
  {
    if events != [] {
      RunTimes(events[..|events| - 1]);
      StepTimes(Run(INITIAL, events[..|events| - 1]), events[|events| - 1]);
    }
  }

  /** A frame of the window is whole if and only if every fragment of it came since it was let in. */
  lemma WholeIff(events: seq<Event>, f: Frame, since: nat)
    requires Holding(events, f, since)
    ensures Complete(f) <==> forall j: nat | j < f.partCount :: CameSince(events, f, since, j)
  {
    FilledAtMost(f.parts);
    if Complete(f) {
      CompleteFull(f);
    } else {
      if |f.parts| == f.partCount {
        var j :| 0 <= j < |f.parts| && f.parts[j] == [];
        assert !CameSince(events, f, since, j);
      } else {
        assert !CameSince(events, f, since, |f.parts|);
      }
    }
  }

  predicate CameAs(events: seq<Event>, f: Frame, since: nat, index: nat, pkt: Packet) {
    exists i :: since <= i < |events| && Fits(events[i], f) && events[i].index == index && events[i].pkt == pkt
  }

  /** The fragments, by their index, that came for a frame since some event. */
  predicate AllCame(events: seq<Event>, f: Frame, since: nat, original: seq<Packet>) {
    |original| == f.partCount && forall j: nat | j < |original| :: CameAs(events, f, since, j, original[j])
  }

  /** Then the frame is whole, and its parts are these fragments in order. */
  lemma AllCameWhole(events: seq<Event>, f: Frame, since: nat, original: seq<Packet>)
    requires Holding(events, f, since) && AllCame(events, f, since, original)
    ensures Complete(f) && f.parts == original && DeliveryOf(f).data == Joined(original)
  {
    forall j: nat | j < |original|
      ensures CameSince(events, f, since, j) && j < |f.parts| && f.parts[j] == original[j]
    {
      assert CameAs(events, f, since, j, original[j]);
      var i :| since <= i < |events| && Fits(events[i], f) && events[i].index == j && events[i].pkt == original[j];
    }
    WholeIff(events, f, since);
    CompleteFull(f);
  }

  /**
   * A frame of the window of which all fragments came is handed over as these in order, or still in the
   * window, at the end of every run in which no parity packet discards it.
   */
  lemma AllCameSafe(events: seq<Event>, states: seq<State>, n: nat, f: Frame, since: nat, original: seq<Packet>)
    requires IsTrace(events, states) && AllEventsOk(events) && !states[|events|].stopped && n <= |events|
    requires f in states[n].packets && Holding(events[..n], f, since) && AllCame(events[..n], f, since, original)
    requires forall j | n <= j < |events| :: !DiscardsFrame(states[j], events[j], f)
    ensures Stays(states[n], states[|events|], f)
    ensures DeliveryOf(f) == Delivery(Joined(original), f.fseq, f.keyframe, f.rotation)
  {
    AllCameWhole(events[..n], f, since, original);
    WholeFrameSafe(events, states, n, f);
  }

  // ----- What is let in

  /** The parts of a frame of which one fragment has come. */
  predicate OnlyPart(parts: seq<Packet>, index: nat, pkt: Packet) {
    |parts| == index + 1 && parts[index] == pkt && forall j | 0 <= j < index :: parts[j] == []
  }

  /** The newest frame of the window is the one that the fragment begins. */
  predicate Begun(t: State, e: Event)
    requires e.FragmentComes?
  {
    && t.packets != []
    && var f := t.packets[|t.packets| - 1];
       && f.timestamp == e.pts && f.partCount == e.count && f.received == 1 && OnlyPart(f.parts, e.index, e.pkt)
       && f.keyframe == e.keyframe && f.rotation == e.rotation && f.fseq == t.lastFrameSeq
  }

  /**
   * A fragment with a new time stamp begins a frame if and only if its index is below its count, the count is
   * at most 255, and its number is not more than three below the last one; otherwise nothing changes. The
   * frame is in the window then, whatever leaves it.
   */
  lemma BeginsIff(s: State, e: Event)
    requires !s.stopped && e.FragmentComes? && forall k | 0 <= k < |s.packets| :: s.packets[k].timestamp != e.pts
    ensures var fseq := NextSeq(s.lastFrameSeq, e.fseq);
            if e.index < e.count <= 255 && (fseq + 3 >= s.lastFrameSeq || s.lastFrameSeq <= 3) then
              Begun(Step(s, e), e) && Step(s, e).lastFrameSeq == fseq
            else Step(s, e) == s
  {
    if Admits(s, e) {
      var f := NewFrame(s, e);
      var t := s.(maxTimestamp := Max(s.maxTimestamp, e.pts), packets := s.packets + [f]);
      var d := DrainSuffix(t);
      assert Step(s, e).packets[|Step(s, e).packets| - 1] == f;
    }
  }
}
