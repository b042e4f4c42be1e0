/** What becomes of a frame once all its fragments are in the window: it is handed over, or thrown away. */
module WholeFrames {
  import opened ParityFec
  import opened Frames
  import opened Reassembly
  import opened ReassemblyRuns

  function DeliveryOf(f: Frame): Delivery {
    Delivery(Joined(f.parts), f.fseq, f.keyframe, f.rotation)
  }

  /** Handed over between two states, with its own fragments in order. */
  predicate HandedOver(s: State, t: State, f: Frame) {
    s.delivered <= t.delivered && DeliveryOf(f) in t.delivered[|s.delivered|..]
  }

  predicate Stays(s: State, t: State, f: Frame) {
    f in t.packets || HandedOver(s, t, f)
  }

  /** The parity packet that the oldest frame is waited for comes. */
  predicate Discards(s: State, e: Event, k: nat) {
    && e.FecComes? && s.waitingForFec && k == 0 && s.packets != [] && Covers(FecOf(s, e), s.packets[0])
  }

  // ----- The window drains

  lemma HandedLater(s: State, t: State, u: State, f: Frame)
    requires s.delivered <= t.delivered <= u.delivered && HandedOver(s, t, f)
    ensures HandedOver(s, u, f)
  {
    var n := |s.delivered|;
    var i :| 0 <= i < |t.delivered[n..]| && t.delivered[n..][i] == DeliveryOf(f);
    assert u.delivered[n..][i] == t.delivered[n..][i];
  }

  lemma HandedSince(s: State, t: State, u: State, f: Frame)
    requires s.delivered <= t.delivered && HandedOver(t, u, f)
    ensures HandedOver(s, u, f)
  {
    var n := |t.delivered|;
    var i :| 0 <= i < |u.delivered[n..]| && u.delivered[n..][i] == DeliveryOf(f);
    assert u.delivered[|s.delivered|..][n - |s.delivered| + i] == DeliveryOf(f);
  }

  lemma StaysSince(s: State, t: State, u: State, f: Frame)
    requires s.delivered <= t.delivered && Stays(t, u, f)
    ensures Stays(s, u, f)
  {
    if f !in u.packets {
      HandedSince(s, t, u, f);
    }
  }

  lemma DecodeGrows(s: State, fec: Fec)
    requires s.packets != []
    ensures s.delivered <= TryDecode(s, fec).delivered && TryDecode(s, fec).packets[1..] == s.packets[1..]
  {
  }

  lemma {:induction false} DrainGrows(s: State)
    ensures s.delivered <= Drain(s).delivered
    decreases |s.packets|
  {
    if |s.packets| > 3 && !s.stopped {
      var first := s.packets[0];
      if Complete(first) {
        DrainGrows(Retire(Deliver(s, first)));
      } else if first.partCount - first.received == 1 && !s.waitingForFec {
        var fec := FindFec(s.fecPackets, first);
        if fec.Found? {
          DecodeGrows(s, fec.fec);
          DrainGrows(DropFirst(TryDecode(s, fec.fec)));
        }
      } else {
        DrainGrows(Retire(s.(waitingForFec := false)));
      }
    }
  }

  /** Draining hands over every whole frame that it takes out of the window. */
  lemma {:induction false} DrainHandsOver(s: State, k: nat)
    requires !s.stopped && AllOk(s.packets) && k < |s.packets| && Complete(s.packets[k])
    ensures Stays(s, Drain(s), s.packets[k])
    decreases |s.packets|
  {
    if |s.packets| > 3 {
      var first := s.packets[0];
      if Complete(first) {
        CompleteFull(first);
        DrainComplete(s, k);
      } else if first.partCount - first.received == 1 && !s.waitingForFec {
        var fec := FindFec(s.fecPackets, first);
        if fec.Found? {
          DrainRecovered(s, fec.fec, k);
        }
      } else {
        DrainHandsOver(Retire(s.(waitingForFec := false)), k - 1);
      }
    }
  }

  /** The oldest frame lacks a fragment and a parity packet for it is kept. */
  lemma {:induction false} DrainRecovered(s: State, fec: Fec, k: nat)
    requires !s.stopped && AllOk(s.packets) && k < |s.packets| && Complete(s.packets[k])
    requires s.packets[0].received == s.packets[0].partCount - 1
    ensures Stays(s, Drain(DropFirst(TryDecode(s, fec))), s.packets[k])
    decreases |s.packets|, 0
  {
    var t := DropFirst(TryDecode(s, fec));
    DecodeGrows(s, fec);
    DecodeKeeps(s, fec);
    assert t.packets[k - 1] == s.packets[k];
    DrainHandsOver(t, k - 1);
    StaysSince(s, t, Drain(t), s.packets[k]);
  }

  /** The oldest frame is whole. */
  lemma {:induction false} DrainComplete(s: State, k: nat)
    requires !s.stopped && AllOk(s.packets) && k < |s.packets| && Complete(s.packets[k])
    requires |s.packets| > 3 && Complete(s.packets[0]) && |s.packets[0].parts| == s.packets[0].partCount
    ensures Stays(s, Drain(s), s.packets[k])
    decreases |s.packets|, 0
  {
    var t := Retire(Deliver(s, s.packets[0]));
    DrainGrows(t);
    if k == 0 {
      assert t.delivered[|s.delivered|..] == [DeliveryOf(s.packets[0])];
      HandedLater(s, t, Drain(t), s.packets[0]);
    } else {
      assert t.packets[k - 1] == s.packets[k];
      DrainHandsOver(t, k - 1);
      StaysSince(s, t, Drain(t), s.packets[k]);
    }
  }

  // ----- One step

  /** A fragment that comes never throws a whole frame away. */
  lemma FragmentHandsOver(s: State, e: Event, k: nat)
    requires Inv(s) && EventOk(e) && e.FragmentComes? && !Step(s, e).stopped
    requires k < |s.packets| && Complete(s.packets[k])
    ensures Stays(s, Step(s, e), s.packets[k])
  {
    var i := IndexOf(s.packets, e.pts);
    if i < |s.packets| {
      if i == k && e.count == s.packets[k].partCount && e.index < e.count {
        CompleteFull(s.packets[k]);
      } else {
        assert Step(s, e).packets[k] == s.packets[k];
      }
    } else if Admits(s, e) {
      var f := Frame(NextSeq(s.lastFrameSeq, e.fseq), e.pts, e.count, 0, e.keyframe, e.rotation, []);
      PartCounted(f, e.pkt, e.index);
      var t := s.(maxTimestamp := Max(s.maxTimestamp, e.pts), packets := s.packets + [NewFrame(s, e)]);
      DrainHandsOver(t, k);
    }
  }

  /** No two frames of the window have one time stamp. */
  predicate TimesDiffer(frames: seq<Frame>) {
    forall i, j | 0 <= i < j < |frames| :: frames[i].timestamp != frames[j].timestamp
  }

  lemma {:induction false} DrainTimes(s: State)
    requires TimesDiffer(s.packets)
    ensures TimesDiffer(Drain(s).packets)
    decreases |s.packets|
  {
    if |s.packets| > 3 && !s.stopped {
      var first := s.packets[0];
      if Complete(first) {
        DrainTimes(Retire(Deliver(s, first)));
      } else if first.partCount - first.received == 1 && !s.waitingForFec {
        var fec := FindFec(s.fecPackets, first);
        if fec.Found? {
          DecodeGrows(s, fec.fec);
          DrainTimes(DropFirst(TryDecode(s, fec.fec)));
        }
      } else {
        DrainTimes(Retire(s.(waitingForFec := false)));
      }
    }
  }

  lemma StepTimes(s: State, e: Event)
    requires TimesDiffer(s.packets)
    ensures TimesDiffer(Step(s, e).packets)
  {
    if !s.stopped {
      if e.FecComes? {
        if s.packets != [] {
          DecodeGrows(s, FecOf(s, e));
        }
      } else if IndexOf(s.packets, e.pts) == |s.packets| && Admits(s, e) {
        DrainTimes(s.(maxTimestamp := Max(s.maxTimestamp, e.pts), packets := s.packets + [NewFrame(s, e)]));
      }
    }
  }

  /**
   * A whole frame leaves the window without being handed over if and only if it is the oldest, the wait
   * flag is set and a parity packet comes that covers it.
   */
  lemma WholeFrameDropped(s: State, e: Event, k: nat)
    requires Inv(s) && TimesDiffer(s.packets) && EventOk(e) && !Step(s, e).stopped
    requires k < |s.packets| && Complete(s.packets[k])
    ensures !Stays(s, Step(s, e), s.packets[k]) <==> Discards(s, e, k)
  {
    if e.FragmentComes? {
      FragmentHandsOver(s, e, k);
    } else {
      ParityDrops(s, e, k);
    }
  }

  lemma ParityDrops(s: State, e: Event, k: nat)
    requires Inv(s) && TimesDiffer(s.packets) && EventOk(e) && e.FecComes? && !Step(s, e).stopped
    requires k < |s.packets| && Complete(s.packets[k])
    ensures !Stays(s, Step(s, e), s.packets[k]) <==> Discards(s, e, k)
  {
    var t := Step(s, e);
    StepKeeps(s, e);
    DecodeGrows(s, FecOf(s, e));
    if Discards(s, e, 0) {
      assert t.packets == s.packets[1..];
      if k == 0 {
        assert t.delivered[|s.delivered|..] == [];
      } else {
        assert t.packets[k - 1] == s.packets[k];
      }
    } else {
      assert t.packets[k] == s.packets[k];
    }
  }

  // ----- Runs

  /** The states of a run, from the start on. */
  predicate IsTrace(events: seq<Event>, states: seq<State>) {
    && |states| == |events| + 1 && states[0] == INITIAL
    && forall i | 0 <= i < |events| :: states[i + 1] == Step(states[i], events[i])
  }

  lemma {:induction false} TraceOf(events: seq<Event>) returns (states: seq<State>)
    ensures IsTrace(events, states)
    decreases |events|
  {
    if events == [] {
      states := [INITIAL];
    } else {
      var n := |events| - 1;
      states := TraceOf(events[..n]);
      states := states + [Step(states[n], events[n])];
    }
  }

  lemma {:induction false} TraceIsRun(events: seq<Event>, states: seq<State>)
    requires IsTrace(events, states)
    ensures states[|events|] == Run(INITIAL, events)
    decreases |events|
  {
    if events != [] {
      TraceIsRun(events[..|events| - 1], states[..|events|]);
    }
  }

  /** Once stopped, always stopped; until then everything is as it should be. */
  lemma {:induction false} TraceKeeps(events: seq<Event>, states: seq<State>, i: nat)
    requires IsTrace(events, states) && AllEventsOk(events) && i <= |events| && !states[i].stopped
    ensures Inv(states[i]) && TimesDiffer(states[i].packets)
    decreases i
  {
    if i > 0 {
      TraceKeeps(events, states, i - 1);
      StepKeeps(states[i - 1], events[i - 1]);
      StepTimes(states[i - 1], events[i - 1]);
    }
  }

  lemma {:induction false} NeverStopped(events: seq<Event>, states: seq<State>, i: nat)
    requires IsTrace(events, states) && i <= |events| && !states[|events|].stopped
    ensures !states[i].stopped
    decreases |events| - i
  {
    if i < |events| {
      NeverStopped(events, states, i + 1);
    }
  }

  lemma StepGrows(s: State, e: Event)
    ensures s.delivered <= Step(s, e).delivered
  {
    if !s.stopped {
      if e.FecComes? {
        if s.packets != [] {
          DecodeGrows(s, FecOf(s, e));
        }
      } else if IndexOf(s.packets, e.pts) == |s.packets| && Admits(s, e) {
        DrainGrows(s.(maxTimestamp := Max(s.maxTimestamp, e.pts), packets := s.packets + [NewFrame(s, e)]));
      }
    }
  }

  lemma {:induction false} TraceGrows(events: seq<Event>, states: seq<State>, i: nat, j: nat)
    requires IsTrace(events, states) && i <= j <= |events|
    ensures states[i].delivered <= states[j].delivered
    decreases j - i
  {
    if i < j {
      StepGrows(states[i], events[i]);
      TraceGrows(events, states, i + 1, j);
    }
  }

  lemma {:induction false} LastPending(states: seq<State>, i: nat, n: nat, f: Frame) returns (j: nat)
    requires i <= n < |states| && f in states[i].packets && f !in states[n].packets
    ensures i <= j < n && f !in states[j + 1].packets && forall m | i <= m <= j :: f in states[m].packets
    decreases n - i
  {
    if f in states[i + 1].packets {
      j := LastPending(states, i + 1, n, f);
    } else {
      j := i;
    }
  }

  /** The event discards the frame. */
  predicate DiscardsFrame(s: State, e: Event, f: Frame) {
    Discards(s, e, 0) && s.packets[0] == f
  }

  /** The frame is not in the window any more: it was handed over unless the event discards it. */
  lemma LeavesWith(s: State, e: Event, f: Frame)
    requires Inv(s) && TimesDiffer(s.packets) && EventOk(e) && !Step(s, e).stopped
    requires f in s.packets && Complete(f) && f !in Step(s, e).packets
    ensures !HandedOver(s, Step(s, e), f) <==> DiscardsFrame(s, e, f)
  {
    var k :| 0 <= k < |s.packets| && s.packets[k] == f;
    WholeFrameDropped(s, e, k);
  }

  /**
   * Over every run a frame that is whole in the window stays in it as it is until an event with which it
   * leaves, and this event does not hand it over if and only if it discards it.
   */
  lemma WholeFrameLeaves(events: seq<Event>, states: seq<State>, i: nat, f: Frame) returns (j: nat)
    requires IsTrace(events, states) && AllEventsOk(events) && !states[|events|].stopped && i <= |events|
    requires f in states[i].packets && Complete(f) && f !in states[|events|].packets
    ensures i <= j < |events| && f !in states[j + 1].packets && forall m | i <= m <= j :: f in states[m].packets
    ensures !HandedOver(states[j], states[j + 1], f) <==> DiscardsFrame(states[j], events[j], f)
  {
    j := LastPending(states, i, |events|, f);
    NeverStopped(events, states, j);
    NeverStopped(events, states, j + 1);
    TraceKeeps(events, states, j);
    assert f in states[j].packets;
    LeavesWith(states[j], events[j], f);
  }

  /** A frame that is whole in the window is handed over or still there, when no event discards it. */
  lemma WholeFrameSafe(events: seq<Event>, states: seq<State>, i: nat, f: Frame)
    requires IsTrace(events, states) && AllEventsOk(events) && !states[|events|].stopped && i <= |events|
    requires f in states[i].packets && Complete(f)
    requires forall j | i <= j < |events| :: !DiscardsFrame(states[j], events[j], f)
    ensures Stays(states[i], states[|events|], f)
  {
    if f !in states[|events|].packets {
      var j := WholeFrameLeaves(events, states, i, f);
      TraceGrows(events, states, i, j);
      TraceGrows(events, states, j + 1, |events|);
      StepGrows(states[j], events[j]);
      HandedSince(states[i], states[j], states[j + 1], f);
      HandedLater(states[i], states[j + 1], states[|events|], f);
    }
  }
}
