/** What holds over every run of the window: its size, the order of what is handed over, and how often. */
module ReassemblyRuns {
  import opened ParityFec
  import opened Frames
  import opened Reassembly

  predicate AllEventsOk(events: seq<Event>) {
    forall k | 0 <= k < |events| :: EventOk(events[k])
  }

  /** Over every run, of any events, the window has its bounds until an assertion fails. */
  lemma {:induction false} RunWindow(events: seq<Event>)
    requires !Run(INITIAL, events).stopped
    ensures WindowOk(Run(INITIAL, events))
    decreases |events|
  {
    if events != [] {
      RunWindow(events[..|events| - 1]);
      StepWindow(Run(INITIAL, events[..|events| - 1]), events[|events| - 1]);
    }
  }

  /** After any run that was not stopped the window is as it should be. */
  lemma {:induction false} RunKeeps(events: seq<Event>)
    requires AllEventsOk(events) && !Run(INITIAL, events).stopped
    ensures Inv(Run(INITIAL, events))
    decreases |events|
  {
    if events != [] {
      var before, e := events[..|events| - 1], events[|events| - 1];
      RunKeeps(before);
      StepKeeps(Run(INITIAL, before), e);
    }
  }

  // ----- Order

  predicate SortedFrames(frames: seq<Frame>) {
    forall i, j | 0 <= i < j < |frames| :: frames[i].fseq <= frames[j].fseq
  }

  predicate SortedDeliveries(delivered: seq<Delivery>) {
    forall i, j | 0 <= i < j < |delivered| :: delivered[i].fseq <= delivered[j].fseq
  }

  /** Frames are pending in order, and none comes before one that was handed over. */
  predicate InOrder(s: State, last: nat) {
    && SortedFrames(s.packets) && SortedDeliveries(s.delivered)
    && (forall k | 0 <= k < |s.packets| :: s.packets[k].fseq <= last)
    && (forall k | 0 <= k < |s.delivered| :: s.delivered[k].fseq <= last)
    && (forall i, k | 0 <= i < |s.delivered| && 0 <= k < |s.packets| :: s.delivered[i].fseq <= s.packets[k].fseq)
  }

  lemma DeliverOrder(s: State, f: Frame, last: nat)
    requires s.packets != [] && InOrder(s, last) && f.fseq == s.packets[0].fseq
    ensures InOrder(DropFirst(Deliver(s, f)), last)
  {
  }

  lemma DecodeOrder(s: State, fec: Fec, last: nat)
    requires s.packets != [] && InOrder(s, last)
    ensures InOrder(DropFirst(TryDecode(s, fec)), last)
  {
    var p := Decoded(Group(s, fec), fec.data);
    if fec.scheme == FEC_SCHEME_XOR && p != [] {
      var f := WithRecovered(s.packets[0], p);
      var t := s.(packets := s.packets[0 := f]);
      assert InOrder(t, last);
      DeliverOrder(t, f, last);
    }
  }

  lemma {:induction false} DrainOrder(s: State, last: nat)
    requires InOrder(s, last)
    ensures InOrder(Drain(s), last)
    decreases |s.packets|
  {
    if |s.packets| > 3 && !s.stopped {
      var first := s.packets[0];
      if Complete(first) {
        DeliverOrder(s, first, last);
        DrainOrder(Retire(Deliver(s, first)), last);
      } else if first.partCount - first.received == 1 && !s.waitingForFec {
        var fec := FindFec(s.fecPackets, first);
        if fec.Found? {
          DecodeOrder(s, fec.fec, last);
          DrainOrder(DropFirst(TryDecode(s, fec.fec)), last);
        }
      } else {
        DrainOrder(Retire(s.(waitingForFec := false)), last);
      }
    }
  }

  /** Short of the end of the numbers, the next frame's number is no lower than the last one's. */
  lemma NextSeqHigher(last: nat, fseq: nat)
    requires last < M32 && fseq < 256
    ensures last <= NextSeq(last, fseq) <==> last / 256 * 256 + fseq + (if last % 256 > fseq then 256 else 0) < M32
    ensures last <= NextSeq(last, fseq) ==> NextSeq(last, fseq) < last + 256 && NextSeq(last, fseq) % 256 == fseq
  {
    var n := last / 256 * 256 + fseq + (if last % 256 > fseq then 256 else 0);
    assert last == last / 256 * 256 + last % 256;
    assert last <= n < last + 256;
    if n >= M32 {
      assert n % M32 == n - M32;
    } else {
      assert n % M32 == n;
    }
    LowByte(last / 256, fseq);
    LowByte(last / 256 + 1, fseq);
  }

  lemma LowByte(high: nat, low: nat)
    requires low < 256
    ensures (high * 256 + low) % 256 == low
  {
  }

  /** The numbers do not come to their end. */
  predicate NoWrap(s: State, e: Event) {
    e.FragmentComes? ==> s.lastFrameSeq <= NextSeq(s.lastFrameSeq, e.fseq)
  }

  /** A frame is turned away as late only when the numbers have come to their end. */
  lemma NeverLate(s: State, e: Event)
    requires e.FragmentComes? && NoWrap(s, e)
    ensures Admits(s, e) <==> e.index < e.count <= 255
  {
  }

  lemma StepOrder(s: State, e: Event)
    requires InOrder(s, s.lastFrameSeq) && NoWrap(s, e)
    ensures InOrder(Step(s, e), Step(s, e).lastFrameSeq)
  {
    if s.stopped {
    } else if e.FragmentComes? {
      FragmentOrder(s, e);
    } else {
      var fec := FecOf(s, e);
      if s.waitingForFec && s.packets != [] && Covers(fec, s.packets[0]) {
        DecodeOrder(s, fec, s.lastFrameSeq);
      }
    }
  }

  lemma FragmentOrder(s: State, e: Event)
    requires e.FragmentComes? && InOrder(s, s.lastFrameSeq) && NoWrap(s, e)
    ensures InOrder(AddFragment(s, e), AddFragment(s, e).lastFrameSeq)
  {
    var k := IndexOf(s.packets, e.pts);
    if k < |s.packets| {
      PartOrder(s, k, e);
    } else if Admits(s, e) {
      var last := NextSeq(s.lastFrameSeq, e.fseq);
      var t := s.(maxTimestamp := Max(s.maxTimestamp, e.pts), packets := s.packets + [NewFrame(s, e)]);
      PushOrder(s, t, NewFrame(s, e), last);
      DrainOrder(t, last);
    }
  }

  lemma PushOrder(s: State, t: State, f: Frame, last: nat)
    requires InOrder(s, s.lastFrameSeq) && f.fseq == last && s.lastFrameSeq <= last
    requires t.packets == s.packets + [f] && t.delivered == s.delivered
    ensures InOrder(t, last)
  {
  }

  lemma PartOrder(s: State, k: nat, e: Event)
    requires e.FragmentComes? && k < |s.packets| && InOrder(s, s.lastFrameSeq)
    ensures InOrder(s.(packets := s.packets[k := WithPart(s.packets[k], e.pkt, e.index)]), s.lastFrameSeq)
  {
  }

  predicate NeverWraps(s: State, events: seq<Event>)
    decreases |events|
  {
    events == []
    || (NeverWraps(s, events[..|events| - 1]) && NoWrap(Run(s, events[..|events| - 1]), events[|events| - 1]))
  }

  /** Over any run before the numbers come to their end, frames are handed over in their order. */
  lemma {:induction false} RunInOrder(events: seq<Event>)
    requires NeverWraps(INITIAL, events)
    ensures var s := Run(INITIAL, events); InOrder(s, s.lastFrameSeq)
    decreases |events|
  {
    if events != [] {
      RunInOrder(events[..|events| - 1]);
      StepOrder(Run(INITIAL, events[..|events| - 1]), events[|events| - 1]);
    }
  }

  // ----- Each frame is handed over at most once

  predicate LetsIn(s: State, e: Event) {
    !s.stopped && e.FragmentComes? && IndexOf(s.packets, e.pts) == |s.packets| && Admits(s, e)
  }

  /** The frames that were let into the window, each as it was then. */
  function Admitted(s: State, events: seq<Event>): seq<Frame>
    decreases |events|
  {
    if events == [] then []
    else
      var before, e := events[..|events| - 1], events[|events| - 1];
      var t := Run(s, before);
      Admitted(s, before) + (if LetsIn(t, e) then [NewFrame(t, e)] else [])
  }

  /** A fragment came with this time stamp, count and index. */
  predicate Came(events: seq<Event>, pts: nat, count: nat, index: nat, pkt: Packet) {
    exists i :: 0 <= i < |events| && IsFragment(events[i], pts, count, index, pkt)
  }

  predicate IsFragment(e: Event, pts: nat, count: nat, index: nat, pkt: Packet) {
    e.FragmentComes? && e.pts == pts && e.count == count && e.index == index && e.pkt == pkt
  }

  /** The parts of a frame are the fragments that came for it, but one that may be another. */
  predicate PartsCame(events: seq<Event>, pts: nat, count: nat, parts: seq<Packet>, other: int) {
    forall j: nat | j < |parts| && parts[j] != [] && j != other :: Came(events, pts, count, j, parts[j])
  }

  predicate FrameCame(events: seq<Event>, f: Frame) {
    PartsCame(events, f.timestamp, f.partCount, f.parts, -1)
  }

  /**
   * What is handed over is the fragments that came for the frame, in order, with at most one rebuilt
   * fragment among them.
   */
  ghost predicate IsMade(events: seq<Event>, d: Delivery, start: Frame) {
    exists parts: seq<Packet>, other: int :: Made(events, d, start, parts, other)
  }

  predicate Made(events: seq<Event>, d: Delivery, start: Frame, parts: seq<Packet>, other: int) {
    && |parts| == start.partCount && d.data == Joined(parts) && NonEmpty(parts)
    && PartsCame(events, start.timestamp, start.partCount, parts, other)
  }

  lemma CameLater(events: seq<Event>, e: Event, pts: nat, count: nat, parts: seq<Packet>, other: int)
    requires PartsCame(events, pts, count, parts, other)
    ensures PartsCame(events + [e], pts, count, parts, other)
  {
    forall j: nat | j < |parts| && parts[j] != [] && j != other
      ensures Came(events + [e], pts, count, j, parts[j])
    {
      assert Came(events, pts, count, j, parts[j]);
      var i :| 0 <= i < |events| && IsFragment(events[i], pts, count, j, parts[j]);
      assert (events + [e])[i] == events[i];
    }
  }

  lemma MadeLater(events: seq<Event>, e: Event, d: Delivery, start: Frame)
    requires IsMade(events, d, start)
    ensures IsMade(events + [e], d, start)
  {
    var parts: seq<Packet>, other: int :| Made(events, d, start, parts, other);
    CameLater(events, e, start.timestamp, start.partCount, parts, other);
    assert Made(events + [e], d, start, parts, other);
  }

  /** The same frame, with more parts than it had. */
  predicate IsSame(f: Frame, start: Frame) {
    && f.fseq == start.fseq && f.timestamp == start.timestamp && f.partCount == start.partCount
    && f.keyframe == start.keyframe && f.rotation == start.rotation
  }

  predicate IsOf(d: Delivery, start: Frame) {
    d.fseq == start.fseq && d.keyframe == start.keyframe && d.rotation == start.rotation
  }

  predicate Increasing(s: seq<nat>, n: nat) {
    && (forall i, j | 0 <= i < j < |s| :: s[i] < s[j])
    && (forall i | 0 <= i < |s| :: s[i] < n)
  }

  /**
   * handed says of each frame that was handed over which one it is of those let in, pending the same of
   * the window.
   */
  predicate Traced(s: State, admitted: seq<Frame>, handed: seq<nat>, pending: seq<nat>) {
    && |handed| == |s.delivered| && |pending| == |s.packets| && Increasing(handed + pending, |admitted|)
    && (forall i | 0 <= i < |handed| :: handed[i] < |admitted| && IsOf(s.delivered[i], admitted[handed[i]]))
    && (forall k | 0 <= k < |pending| :: pending[k] < |admitted| && IsSame(s.packets[k], admitted[pending[k]]))
  }

  /** Every delivery is made of fragments that came, and so are the frames of the window. */
  ghost predicate Contents(s: State, events: seq<Event>, admitted: seq<Frame>, handed: seq<nat>) {
    && |handed| == |s.delivered|
    && (forall i | 0 <= i < |handed| :: handed[i] < |admitted| && IsMade(events, s.delivered[i], admitted[handed[i]]))
    && (forall k | 0 <= k < |s.packets| :: FrameOk(s.packets[k]) && FrameCame(events, s.packets[k]))
  }

  lemma {:induction false} IncreasingSize(s: seq<nat>, n: nat)
    requires Increasing(s, n)
    ensures |s| <= n
    decreases |s|
  {
    if s != [] {
      IncreasingSize(s[..|s| - 1], s[|s| - 1]);
    }
  }

  /** The oldest frame leaves without being handed over. */
  lemma DropTraced(s: State, admitted: seq<Frame>, handed: seq<nat>, pending: seq<nat>)
    requires Traced(s, admitted, handed, pending) && s.packets != []
    ensures Traced(DropFirst(s), admitted, handed, pending[1..])
  {
    Skipped(handed, pending, |admitted|);
  }

  lemma Skipped(a: seq<nat>, b: seq<nat>, n: nat)
    requires Increasing(a + b, n) && b != []
    ensures Increasing(a + b[1..], n)
  {
    var all, less := a + b, a + b[1..];
    forall i | 0 <= i < |less| ensures less[i] == all[if i < |a| then i else i + 1] {
    }
  }

  /**
   * The oldest frame is handed over and leaves, or the program stops. In the lemmas that follow ok says
   * that fragments are not empty and nothing has stopped, so that the contents are known too.
   */
  lemma DeliverTraced(s: State, f: Frame, ok: bool, events: seq<Event>, admitted: seq<Frame>, handed: seq<nat>,
                      pending: seq<nat>, other: int)
    returns (more: seq<nat>)
    requires Traced(s, admitted, handed, pending) && s.packets != [] && IsSame(f, s.packets[0])
    requires ok ==> Contents(s.(packets := s.packets[1..]), events, admitted, handed)
    requires ok ==> FrameOk(f) && PartsCame(events, f.timestamp, f.partCount, f.parts, other)
    ensures Traced(DropFirst(Deliver(s, f)), admitted, more, pending[1..])
    ensures ok ==> Contents(DropFirst(Deliver(s, f)), events, admitted, more)
  {
    if Complete(f) && |f.parts| == f.partCount {
      more := handed + [pending[0]];
      assert more + pending[1..] == handed + pending;
      FilledAtMost(f.parts);
      var d := Delivery(Joined(f.parts), f.fseq, f.keyframe, f.rotation);
      assert ok ==> Made(events, d, admitted[pending[0]], f.parts, other);
    } else {
      more := handed;
      DropTraced(s, admitted, handed, pending);
    }
  }

  /** The rebuilt fragment is the one of a frame that did not come. */
  lemma RecoveredCame(f: Frame, p: Packet, events: seq<Event>) returns (other: nat)
    requires FrameCame(events, f)
    ensures PartsCame(events, f.timestamp, f.partCount, WithRecovered(f, p).parts, other)
  {
    if |f.parts| < f.partCount {
      other := |f.parts|;
    } else {
      other := FirstEmpty(f.parts, p);
    }
    var now := WithRecovered(f, p).parts;
    forall j: nat | j < |now| && now[j] != [] && j != other
      ensures Came(events, f.timestamp, f.partCount, j, now[j])
    {
      assert now[j] == f.parts[j];
    }
  }

  lemma {:induction false} FirstEmpty(parts: seq<Packet>, p: Packet) returns (m: nat)
    ensures |FillFirst(parts, p)| == |parts|
    ensures forall j | 0 <= j < |parts| && j != m :: FillFirst(parts, p)[j] == parts[j]
    decreases |parts|
  {
    if parts == [] || parts[0] == [] {
      m := 0;
    } else {
      var rest := FirstEmpty(parts[1..], p);
      m := rest + 1;
    }
  }

  lemma DecodeTraced(s: State, fec: Fec, ok: bool, events: seq<Event>, admitted: seq<Frame>, handed: seq<nat>,
                     pending: seq<nat>)
    returns (more: seq<nat>)
    requires Traced(s, admitted, handed, pending) && s.packets != []
    requires ok ==> Contents(s, events, admitted, handed)
    requires ok ==> s.packets[0].received == s.packets[0].partCount - 1 || Decoded(Group(s, fec), fec.data) == []
    ensures Traced(DropFirst(TryDecode(s, fec)), admitted, more, pending[1..])
    ensures ok ==> Contents(DropFirst(TryDecode(s, fec)), events, admitted, more)
  {
    var p := Decoded(Group(s, fec), fec.data);
    if fec.scheme == FEC_SCHEME_XOR && p != [] {
      var f := WithRecovered(s.packets[0], p);
      var other: int := -1;
      if ok {
        RecoveredWhole(s.packets[0], p);
        other := RecoveredCame(s.packets[0], p, events);
      }
      more := DeliverTraced(s.(packets := s.packets[0 := f]), f, ok, events, admitted, handed, pending, other);
    } else {
      more := handed;
      DropTraced(s, admitted, handed, pending);
    }
  }

  lemma {:induction false} DrainTraced(s: State, ok: bool, events: seq<Event>, admitted: seq<Frame>,
                                       handed: seq<nat>, pending: seq<nat>)
    returns (more: seq<nat>, left: seq<nat>)
    requires Traced(s, admitted, handed, pending) && (ok ==> Contents(s, events, admitted, handed))
    ensures Traced(Drain(s), admitted, more, left) && (ok ==> Contents(Drain(s), events, admitted, more))
    decreases |s.packets|
  {
    more, left := handed, pending;
    if |s.packets| > 3 && !s.stopped {
      var first := s.packets[0];
      if Complete(first) {
        more := DeliverTraced(s, first, ok, events, admitted, handed, pending, -1);
        more, left := DrainTraced(Retire(Deliver(s, first)), ok, events, admitted, more, pending[1..]);
      } else if first.partCount - first.received == 1 && !s.waitingForFec {
        var fec := FindFec(s.fecPackets, first);
        if fec.Found? {
          more := DecodeTraced(s, fec.fec, ok, events, admitted, handed, pending);
          more, left := DrainTraced(DropFirst(TryDecode(s, fec.fec)), ok, events, admitted, more, pending[1..]);
        }
      } else {
        DropTraced(s, admitted, handed, pending);
        more, left := DrainTraced(Retire(s.(waitingForFec := false)), ok, events, admitted, handed, pending[1..]);
      }
    }
  }

  lemma LetInTraced(s: State, t: State, f: Frame, admitted: seq<Frame>, handed: seq<nat>, pending: seq<nat>)
    requires Traced(s, admitted, handed, pending) && t.packets == s.packets + [f] && t.delivered == s.delivered
    ensures Traced(t, admitted + [f], handed, pending + [|admitted|])
  {
    var all := handed + (pending + [|admitted|]);
    assert all == handed + pending + [|admitted|];
  }

  lemma ContentsLater(s: State, events: seq<Event>, e: Event, admitted: seq<Frame>, handed: seq<nat>)
    requires Contents(s, events, admitted, handed)
    ensures Contents(s, events + [e], admitted, handed)
  {
    forall i | 0 <= i < |handed| ensures IsMade(events + [e], s.delivered[i], admitted[handed[i]]) {
      MadeLater(events, e, s.delivered[i], admitted[handed[i]]);
    }
    forall k | 0 <= k < |s.packets| ensures FrameCame(events + [e], s.packets[k]) {
      var f := s.packets[k];
      CameLater(events, e, f.timestamp, f.partCount, f.parts, -1);
    }
  }

  /** A fragment that has just come is put into its frame. */
  lemma PartCame(f: Frame, events: seq<Event>, e: Event)
    requires e.FragmentComes? && FrameCame(events, f) && f.timestamp == e.pts && f.partCount == e.count
    ensures FrameCame(events + [e], WithPart(f, e.pkt, e.index))
  {
    var all, now := events + [e], WithPart(f, e.pkt, e.index);
    CameLater(events, e, f.timestamp, f.partCount, f.parts, -1);
    forall j: nat | j < |now.parts| && now.parts[j] != []
      ensures Came(all, f.timestamp, f.partCount, j, now.parts[j])
    {
      if j == e.index {
        assert IsFragment(all[|events|], f.timestamp, f.partCount, j, now.parts[j]);
      } else {
        assert j < |f.parts| && now.parts[j] == f.parts[j];
      }
    }
  }

  lemma StepTraced(s: State, e: Event, ok: bool, events: seq<Event>, admitted: seq<Frame>, handed: seq<nat>,
                   pending: seq<nat>)
    returns (more: seq<nat>, left: seq<nat>)
    requires Traced(s, admitted, handed, pending) && (ok ==> Contents(s, events, admitted, handed))
    requires ok ==> Inv(s) && EventOk(e) && !Step(s, e).stopped
    ensures var now := admitted + (if LetsIn(s, e) then [NewFrame(s, e)] else []);
            Traced(Step(s, e), now, more, left) && (ok ==> Contents(Step(s, e), events + [e], now, more))
  {
    assert admitted + [] == admitted;
    if ok {
      ContentsLater(s, events, e, admitted, handed);
    }
    more, left := handed, pending;
    if s.stopped {
    } else if e.FecComes? {
      more, left := FecTraced(s, e, ok, events + [e], admitted, handed, pending);
    } else if LetsIn(s, e) {
      more, left := NewTraced(s, e, ok, events, admitted, handed, pending);
    } else {
      PutTraced(s, e, ok, events, admitted, handed, pending);
    }
  }

  lemma FecTraced(s: State, e: Event, ok: bool, events: seq<Event>, admitted: seq<Frame>, handed: seq<nat>,
                  pending: seq<nat>)
    returns (more: seq<nat>, left: seq<nat>)
    requires Traced(s, admitted, handed, pending) && (ok ==> Contents(s, events, admitted, handed))
    requires e.FecComes? && !s.stopped && (ok ==> Inv(s) && EventOk(e) && !Step(s, e).stopped)
    ensures Traced(Step(s, e), admitted, more, left)
    ensures ok ==> Contents(Step(s, e), events, admitted, more)
  {
    more, left := handed, pending;
    var fec := FecOf(s, e);
    if s.waitingForFec && s.packets != [] && Covers(fec, s.packets[0]) {
      if ok && s.packets[0].received != s.packets[0].partCount - 1 {
        NothingRebuilt(s, e);
      }
      more := UsedTraced(s, fec, ok, events, admitted, handed, pending);
      left := pending[1..];
      assert Step(s, e).packets == DropFirst(TryDecode(s, fec)).packets;
      assert Step(s, e).delivered == TryDecode(s, fec).delivered;
    }
  }

  lemma UsedTraced(s: State, fec: Fec, ok: bool, events: seq<Event>, admitted: seq<Frame>, handed: seq<nat>,
                   pending: seq<nat>)
    returns (more: seq<nat>)
    requires Traced(s, admitted, handed, pending) && s.packets != []
    requires ok ==> Contents(s, events, admitted, handed)
    requires ok ==> s.packets[0].received == s.packets[0].partCount - 1 || fec.scheme != FEC_SCHEME_XOR
                    || Decoded(Group(s, fec), fec.data) == []
    ensures Traced(DropFirst(TryDecode(s, fec)), admitted, more, pending[1..])
    ensures ok ==> Contents(DropFirst(TryDecode(s, fec)), events, admitted, more)
  {
    if fec.scheme == FEC_SCHEME_XOR {
      more := DecodeTraced(s, fec, ok, events, admitted, handed, pending);
    } else {
      more := handed;
      DropTraced(s, admitted, handed, pending);
    }
  }

  /** A parity packet that is used does nothing to a frame that does not lack just one fragment. */
  lemma NothingRebuilt(s: State, e: Event)
    requires Inv(s) && EventOk(e) && e.FecComes? && !Step(s, e).stopped
    requires s.waitingForFec && Covers(FecOf(s, e), s.packets[0]) && s.packets[0].received != s.packets[0].partCount - 1
    ensures FecOf(s, e).scheme != FEC_SCHEME_XOR || Decoded(Group(s, FecOf(s, e)), FecOf(s, e).data) == []
  {
    StepKeeps(s, e);
    FilledAtMost(s.packets[0].parts);
    if s.packets[0].received + 1 < s.packets[0].partCount {
      MissingMore(s, FecOf(s, e));
    }
  }

  lemma NewTraced(s: State, e: Event, ok: bool, events: seq<Event>, admitted: seq<Frame>, handed: seq<nat>,
                  pending: seq<nat>)
    returns (more: seq<nat>, left: seq<nat>)
    requires Traced(s, admitted, handed, pending) && (ok ==> Contents(s, events + [e], admitted, handed))
    requires e.FragmentComes? && LetsIn(s, e) && (ok ==> EventOk(e))
    ensures Traced(Step(s, e), admitted + [NewFrame(s, e)], more, left)
    ensures ok ==> Contents(Step(s, e), events + [e], admitted + [NewFrame(s, e)], more)
  {
    var f := NewFrame(s, e);
    var t := s.(maxTimestamp := Max(s.maxTimestamp, e.pts), packets := s.packets + [f]);
    LetInTraced(s, t, f, admitted, handed, pending);
    if ok {
      NewContents(s, t, e, events, admitted, handed);
    }
    more, left := DrainTraced(t, ok, events + [e], admitted + [f], handed, pending + [|admitted|]);
  }

  lemma NewContents(s: State, t: State, e: Event, events: seq<Event>, admitted: seq<Frame>, handed: seq<nat>)
    requires Contents(s, events + [e], admitted, handed) && e.FragmentComes? && LetsIn(s, e) && EventOk(e)
    requires t.packets == s.packets + [NewFrame(s, e)] && t.delivered == s.delivered
    ensures Contents(t, events + [e], admitted + [NewFrame(s, e)], handed)
  {
    var start := Frame(NextSeq(s.lastFrameSeq, e.fseq), e.pts, e.count, 0, e.keyframe, e.rotation, []);
    PartCounted(start, e.pkt, e.index);
    PartCame(start, events, e);
  }

  lemma PutTraced(s: State, e: Event, ok: bool, events: seq<Event>, admitted: seq<Frame>, handed: seq<nat>,
                  pending: seq<nat>)
    requires Traced(s, admitted, handed, pending) && !s.stopped && e.FragmentComes? && !LetsIn(s, e)
    requires ok ==> Contents(s, events, admitted, handed) && Contents(s, events + [e], admitted, handed)
    requires ok ==> EventOk(e) && !Step(s, e).stopped
    ensures Traced(Step(s, e), admitted, handed, pending)
    ensures ok ==> Contents(Step(s, e), events + [e], admitted, handed)
  {
    var k := IndexOf(s.packets, e.pts);
    if ok && k < |s.packets| && e.count == s.packets[k].partCount && e.index < e.count && Free(s.packets[k], e.index) {
      PartCounted(s.packets[k], e.pkt, e.index);
      PartCame(s.packets[k], events, e);
    }
  }

  /**
   * Over any run the frames that were handed over are different ones of those let in, in that order, and
   * none of them is pending. With fragments that are not empty and no assertion failed, what was handed
   * over is the fragments that came for the frame, in order, with at most one of them rebuilt.
   */
  lemma {:induction false} HandledOnce(events: seq<Event>) returns (handed: seq<nat>, pending: seq<nat>)
    ensures var s, admitted := Run(INITIAL, events), Admitted(INITIAL, events);
            && Traced(s, admitted, handed, pending) && |s.delivered| + |s.packets| <= |admitted|
            && (AllEventsOk(events) && !s.stopped ==> Contents(s, events, admitted, handed))
    decreases |events|
  {
    if events == [] {
      handed, pending := [], [];
    } else {
      handed, pending := HandledOnce(events[..|events| - 1]);
      handed, pending := OneEventMore(events[..|events| - 1], events[|events| - 1], events, handed, pending);
    }
    IncreasingSize(handed + pending, |Admitted(INITIAL, events)|);
  }

  lemma OneEventMore(before: seq<Event>, e: Event, events: seq<Event>, handed: seq<nat>, pending: seq<nat>)
    returns (more: seq<nat>, left: seq<nat>)
    requires events == before + [e]
    requires var s, admitted := Run(INITIAL, before), Admitted(INITIAL, before);
             Traced(s, admitted, handed, pending)
             && (AllEventsOk(before) && !s.stopped ==> Contents(s, before, admitted, handed))
    ensures var s, admitted := Run(INITIAL, events), Admitted(INITIAL, events);
            Traced(s, admitted, more, left)
            && (AllEventsOk(events) && !s.stopped ==> Contents(s, events, admitted, more))
  {
    var s := Run(INITIAL, before);
    assert events[..|events| - 1] == before;
    var ok := AllEventsOk(events) && !Step(s, e).stopped;
    if ok {
      assert AllEventsOk(before) && EventOk(e) by {
        assert events[|before|] == e;
      }
      RunKeeps(before);
    }
    more, left := StepTraced(s, e, ok, before, Admitted(INITIAL, before), handed, pending);
  }
}
