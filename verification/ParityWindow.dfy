/**
 * Parity packets in the window: which frames one covers, which ones are kept, what is collected for one, and
 * how a fragment that is lost comes back with the parity packet or with the next frame.
 */
module ParityWindow {
  import opened ParityFec
  import opened Frames
  import opened Reassembly
  import opened ReassemblyRuns
  import opened WholeFrames
  import opened FrameRecovery

  // ----- Numbers

  /** A parity packet covers the last so many frames up to its number, and none when it counts beyond the first. */
  lemma CoversIff(fec: Fec, f: Frame)
    requires fec.fseq < M32 && fec.frameCount < M32
    ensures Covers(fec, f) <==> fec.frameCount <= fec.fseq && 0 <= fec.fseq - f.fseq < fec.frameCount
  {
    if fec.frameCount <= fec.fseq {
      assert Sub32(fec.fseq, fec.frameCount) == fec.fseq - fec.frameCount;
    } else {
      assert Sub32(fec.fseq, fec.frameCount) == fec.fseq - fec.frameCount + M32;
    }
  }

  /**
   * The byte of a parity packet's number is taken to be in the same run of 256 as the last frame. The number
   * is right if and only if that is so; when the frames have gone on to the next run it is 256 too high.
   */
  lemma ParityNumberIff(s: State, e: Event, number: nat)
    requires e.FecComes? && s.lastFrameSeq < M32 && number <= s.lastFrameSeq < number + 256 && e.fseq == number % 256
    ensures FecOf(s, e).fseq == number <==> number / 256 == s.lastFrameSeq / 256
    ensures FecOf(s, e).fseq != number && number + 256 < M32 ==> FecOf(s, e).fseq == number + 256
  {
    var high := s.lastFrameSeq / 256;
    assert number == number / 256 * 256 + number % 256;
    assert s.lastFrameSeq == high * 256 + s.lastFrameSeq % 256;
    assert number / 256 == high || number / 256 == high - 1;
    var n := high * 256 + e.fseq;
    assert n < M32;
    assert n % M32 == n;
  }

  /** The parity packet of frames 253 to 255 comes when frame 256 has begun: it is filed as that of 509 to 511. */
  lemma ParityNumberWrong(s: State, data: Packet)
    requires s.lastFrameSeq == 256
    ensures FecOf(s, FecComes(data, 255, 3, FEC_SCHEME_XOR)).fseq == 511
    ensures forall f: Frame | f.fseq <= 508 :: !Covers(FecOf(s, FecComes(data, 255, 3, FEC_SCHEME_XOR)), f)
  {
    ParityNumberIff(s, FecComes(data, 255, 3, FEC_SCHEME_XOR), 255);
  }

  // ----- Which are kept

  /** The parity packets that came, each with its full number. */
  function Parities(events: seq<Event>): seq<Fec>
    decreases |events|
  {
    if events == [] then []
    else
      var before, e := events[..|events| - 1], events[|events| - 1];
      Parities(before)
      + (if e.FecComes? && !Run(INITIAL, before).stopped then [FecOf(Run(INITIAL, before), e)] else [])
  }

  /** The last ten of a sequence. */
  function LastTen(all: seq<Fec>): seq<Fec> {
    if |all| <= 10 then all else all[|all| - 10..]
  }

  lemma TenMore(all: seq<Fec>, fec: Fec)
    ensures Last(LastTen(all) + [fec], NUM_FEC_PACKETS) == LastTen(all + [fec])
  {
  }

  lemma {:induction false} DrainKeepsParity(s: State)
    ensures Drain(s).fecPackets == s.fecPackets
    decreases |s.packets|
  {
    if |s.packets| > 3 && !s.stopped {
      var first := s.packets[0];
      if Complete(first) {
        DrainKeepsParity(Retire(Deliver(s, first)));
      } else if first.partCount - first.received == 1 && !s.waitingForFec {
        var fec := FindFec(s.fecPackets, first);
        if fec.Found? {
          DrainKeepsParity(DropFirst(TryDecode(s, fec.fec)));
        }
      } else {
        DrainKeepsParity(Retire(s.(waitingForFec := false)));
      }
    }
  }

  lemma StepParity(s: State, e: Event)
    requires !s.stopped
    ensures Step(s, e).fecPackets ==
            if e.FecComes? then Last(s.fecPackets + [FecOf(s, e)], NUM_FEC_PACKETS) else s.fecPackets
  {
    if e.FragmentComes? && LetsIn(s, e) {
      DrainKeepsParity(s.(maxTimestamp := Max(s.maxTimestamp, e.pts), packets := s.packets + [NewFrame(s, e)]));
    }
  }

  /** Over every run the last ten parity packets are kept, in the order in which they came. */
  lemma {:induction false} ParitiesKept(events: seq<Event>)
    ensures Run(INITIAL, events).fecPackets == LastTen(Parities(events))
    decreases |events|
  {
    if events != [] {
      var before, e := events[..|events| - 1], events[|events| - 1];
      var s := Run(INITIAL, before);
      ParitiesKept(before);
      if !s.stopped {
        StepParity(s, e);
      }
      if e.FecComes? {
        TenMore(Parities(before), FecOf(s, e));
      }
    }
  }

  // ----- What is collected for one

  /** The parts of a frame, in a multiset, with an empty one for each that has not come. */
  function PartsOf(f: Frame): multiset<Packet> {
    var all := multiset(f.parts[..if |f.parts| < f.partCount then |f.parts| else f.partCount]);
    if |f.parts| < f.partCount then all[[] := all[[]] + (f.partCount - |f.parts|)] else all
  }

  /** The parts of those frames whose numbers are among the last so many. */
  function GroupOf(frames: seq<Frame>, fseq: nat, frameCount: nat): multiset<Packet>
    decreases |frames|
  {
    if frames == [] then multiset{}
    else
      var f := frames[|frames| - 1];
      GroupOf(frames[..|frames| - 1], fseq, frameCount)
      + (if 0 <= fseq - f.fseq < frameCount then PartsOf(f) else multiset{})
  }

  lemma {:induction false} RepeatedCount(n: nat, p: Packet)
    ensures multiset(Empties(n))[p] == if p == [] then n else 0
  {
    if n > 0 {
      assert Empties(n) == Empties(n - 1) + [[]];
      RepeatedCount(n - 1, p);
    }
  }

  lemma PaddedParts(f: Frame)
    ensures multiset(Padded(f)) == PartsOf(f)
  {
    if |f.parts| < f.partCount {
      var n := f.partCount - |f.parts|;
      assert Padded(f) == f.parts + Empties(n) && f.parts[..|f.parts|] == f.parts;
      forall p: Packet ensures multiset(Padded(f))[p] == PartsOf(f)[p] {
        RepeatedCount(n, p);
      }
    } else {
      assert Padded(f) == f.parts[..f.partCount];
    }
  }

  lemma {:induction false} CollectedJoins(a: seq<Frame>, b: seq<Frame>, fec: Fec)
    ensures Collected(a + b, fec) == Collected(a, fec) + Collected(b, fec)
    decreases |a|
  {
    if a == [] {
      assert a + b == b;
    } else {
      assert (a + b)[1..] == a[1..] + b;
      CollectedJoins(a[1..], b, fec);
    }
  }

  lemma {:induction false} CollectedIs(frames: seq<Frame>, fec: Fec)
    requires fec.fseq < M32 && fec.frameCount <= fec.fseq
    ensures multiset(Collected(frames, fec)) == GroupOf(frames, fec.fseq, fec.frameCount)
    decreases |frames|
  {
    if frames != [] {
      var front, f := frames[..|frames| - 1], frames[|frames| - 1];
      assert frames == front + [f];
      CollectedJoins(front, [f], fec);
      CollectedIs(front, fec);
      CoversIff(fec, f);
      PaddedParts(f);
      assert [f][1..] == [];
      assert Collected([f], fec) == if Covers(fec, f) then Padded(f) else [];
    }
  }

  /**
   * What is collected for a parity packet are the parts of all frames of its group, of those in the window and
   * of those kept behind it, with an empty one for each that is missing.
   */
  lemma GroupIs(s: State, fec: Fec)
    requires fec.fseq < M32 && fec.frameCount <= fec.fseq
    ensures multiset(Group(s, fec)) == GroupOf(s.oldPackets + s.packets, fec.fseq, fec.frameCount)
  {
    CollectedJoins(s.oldPackets, s.packets, fec);
    CollectedIs(s.oldPackets + s.packets, fec);
  }

  // ----- How a lost fragment comes back

  /** What the recovery needs: everything else of the group is held, and the parity packet is that of the group. */
  predicate Rebuildable(s: State, fec: Fec, m: nat, lost: Packet, sent: seq<Packet>) {
    && s.packets != [] && Lacks(s.packets[0], m) && Covers(fec, s.packets[0]) && fec.scheme == FEC_SCHEME_XOR
    && LostIndex(s, fec, m) < |Group(s, fec)| && fec.data == Encoded(sent)
    && var group := Group(s, fec)[LostIndex(s, fec, m) := lost];
       NonEmpty(group) && multiset(sent) == multiset(group)
  }

  predicate ShortEnough(s: State, fec: Fec, lost: Packet) {
    |lost| <= MaxSize(Group(s, fec)) && |lost| < 0x10000
  }

  /**
   * The oldest frame waits and its parity packet comes: the frame leaves, handed over as it was sent if and
   * only if the lost fragment is short enough.
   */
  lemma ParityRecovers(s: State, e: Event, m: nat, lost: Packet, sent: seq<Packet>)
    requires !s.stopped && e.FecComes? && s.waitingForFec && Rebuildable(s, FecOf(s, e), m, lost, sent)
    ensures HandsOver(s, Step(s, e), m, lost) <==> ShortEnough(s, FecOf(s, e), lost)
    ensures Step(s, e).packets == s.packets[1..] && !Step(s, e).waitingForFec
  {
    RecoveryIff(s, FecOf(s, e), m, lost, sent);
    DecodeGrows(s, FecOf(s, e));
  }

  /** The parity packet is the first of those kept that covers the oldest frame. */
  predicate FirstKept(s: State, k: nat) {
    && s.packets != [] && k < |s.fecPackets| && Covers(s.fecPackets[k], s.packets[0])
    && forall j | 0 <= j < k :: !Covers(s.fecPackets[j], s.packets[0])
  }

  lemma {:induction false} FoundFirst(fecs: seq<Fec>, f: Frame, k: nat)
    requires k < |fecs| && Covers(fecs[k], f) && forall j | 0 <= j < k :: !Covers(fecs[j], f)
    ensures FindFec(fecs, f) == Found(fecs[k])
    decreases k
  {
    if k > 0 {
      FoundFirst(fecs[1..], f, k - 1);
    }
  }

  /** The window with one frame more. */
  function WithNew(s: State, e: Event): State
    requires e.FragmentComes?
  {
    s.(maxTimestamp := Max(s.maxTimestamp, e.pts), packets := s.packets + [NewFrame(s, e)])
  }

  /**
   * A fourth frame begins while the oldest lacks one fragment and its parity packet is there: the oldest
   * leaves, handed over as it was sent if and only if the lost fragment is short enough.
   */
  lemma KeptParityRecovers(s: State, e: Event, k: nat, m: nat, lost: Packet, sent: seq<Packet>)
    requires LetsIn(s, e) && |s.packets| == 3 && !s.waitingForFec && FirstKept(s, k)
    requires Rebuildable(WithNew(s, e), s.fecPackets[k], m, lost, sent)
    ensures HandsOver(s, Step(s, e), m, lost) <==> ShortEnough(WithNew(s, e), s.fecPackets[k], lost)
    ensures Step(s, e).packets == s.packets[1..] + [NewFrame(s, e)]
  {
    var t, fec := WithNew(s, e), s.fecPackets[k];
    assert t.packets[0] == s.packets[0];
    FoundFirst(s.fecPackets, s.packets[0], k);
    RecoveryIff(t, fec, m, lost, sent);
    LacksOne(s.packets[0], m);
    FourthLeaves(t, fec);
    SameHandsOver(s, t, TryDecode(t, fec), Step(s, e), m, lost);
    assert t.packets[1..] == s.packets[1..] + [NewFrame(s, e)];
  }

  lemma LacksOne(f: Frame, m: nat)
    requires Lacks(f, m)
    ensures f.received == f.partCount - 1
  {
    RecoveredPlace(f, m, [0]);
  }

  /** Of four frames the oldest lacks one fragment, and its parity packet is kept. */
  lemma FourthLeaves(t: State, fec: Fec)
    requires !t.stopped && |t.packets| == 4 && !t.waitingForFec && t.packets[0].received == t.packets[0].partCount - 1
    requires FindFec(t.fecPackets, t.packets[0]) == Found(fec)
    ensures Drain(t) == DropFirst(TryDecode(t, fec)) && Drain(t).packets == t.packets[1..]
  {
    DecodeGrows(t, fec);
    var u := DropFirst(TryDecode(t, fec));
    assert |u.packets| == 3;
    assert Drain(u) == u;
  }

  lemma SameHandsOver(s: State, t: State, u: State, v: State, m: nat, lost: Packet)
    requires s.packets != [] && t.packets != [] && s.packets[0] == t.packets[0] && s.delivered == t.delivered
    requires u.delivered == v.delivered && m < s.packets[0].partCount
    ensures HandsOver(s, v, m, lost) <==> HandsOver(t, u, m, lost)
  {
  }

  // ----- What a new frame moves

  /** The last three of a sequence. */
  function LastThree(all: seq<Frame>): seq<Frame> {
    if |all| <= 3 then all else all[|all| - 3..]
  }

  /** A frame has left the window for those kept behind it. */
  predicate PutBehind(s: State, t: State) {
    s.packets != [] && t.packets == s.packets[1..] && t.oldPackets == LastThree(s.oldPackets + [s.packets[0]])
  }

  /** A whole frame leaves, and is handed over. */
  predicate LeavesWhole(s: State, t: State) {
    && PutBehind(s, t) && t.delivered == s.delivered + [DeliveryOf(s.packets[0])]
    && t.waitingForFec == s.waitingForFec && !t.stopped
  }

  /** A frame is given up, and no frame waits any more. */
  predicate LeavesGivenUp(s: State, t: State) {
    PutBehind(s, t) && t.delivered == s.delivered && !t.waitingForFec && !t.stopped
  }

  /** The oldest frame waits for its parity packet. */
  predicate BeginsToWait(s: State, t: State) {
    && t.packets == s.packets && t.oldPackets == s.oldPackets && t.delivered == s.delivered
    && t.waitingForFec && !t.stopped
  }

  predicate NoneKept(s: State) {
    s.packets != [] && forall j | 0 <= j < |s.fecPackets| :: !Covers(s.fecPackets[j], s.packets[0])
  }

  lemma {:induction false} FoundNone(fecs: seq<Fec>, f: Frame)
    requires forall j | 0 <= j < |fecs| :: !Covers(fecs[j], f)
    ensures FindFec(fecs, f) == None
    decreases |fecs|
  {
    if fecs != [] {
      FoundNone(fecs[1..], f);
    }
  }

  /** A window with room takes a frame, and nothing else changes. */
  lemma WindowFills(s: State, e: Event)
    requires LetsIn(s, e) && |s.packets| < 3
    ensures Step(s, e) == WithNew(s, e).(lastFrameSeq := NewFrame(s, e).fseq)
  {
  }

  /**
   * A fourth frame begins: the oldest is handed over when it is whole; it waits when just one fragment is missing,
   * none has waited before it and no parity packet for it is kept; otherwise, but for a parity packet, it is given
   * up.
   */
  lemma WindowFull(s: State, e: Event)
    requires Inv(s) && EventOk(e) && LetsIn(s, e) && |s.packets| == 3
    ensures var f, t, u := s.packets[0], WithNew(s, e), Step(s, e);
            && (f.received == f.partCount ==> LeavesWhole(t, u))
            && (f.received + 1 == f.partCount && !s.waitingForFec && NoneKept(s) ==> BeginsToWait(t, u))
            && (f.received + 1 == f.partCount && s.waitingForFec ==> LeavesGivenUp(t, u))
            && (f.received + 1 < f.partCount ==> LeavesGivenUp(t, u))
  {
    var f, t := s.packets[0], WithNew(s, e);
    assert t.packets[0] == f;
    assert FrameOk(f);
    if Complete(f) {
      CompleteFull(f);
      ThreeLeft(Retire(Deliver(t, f)));
    } else if f.received + 1 == f.partCount && !s.waitingForFec {
      if NoneKept(s) {
        FoundNone(s.fecPackets, f);
      }
    } else {
      ThreeLeft(Retire(t.(waitingForFec := false)));
    }
  }

  lemma ThreeLeft(s: State)
    requires |s.packets| <= 3
    ensures Drain(s) == s
  {
  }

  /** Four frames, of which the oldest waits: it leaves first, and the rest is as with the other three. */
  lemma WindowOver(s: State, e: Event)
    requires Inv(s) && EventOk(e) && LetsIn(s, e) && |s.packets| == 4
    ensures var r := if Complete(s.packets[0]) then Retire(Deliver(s, s.packets[0]))
                     else Retire(s.(waitingForFec := false));
            && LetsIn(r, e) && |r.packets| == 3 && Step(s, e) == Step(r, e)
            && (if Complete(s.packets[0]) then LeavesWhole(s, r) else LeavesGivenUp(s, r))
  {
    var f, t := s.packets[0], WithNew(s, e);
    var r := if Complete(f) then Retire(Deliver(s, f)) else Retire(s.(waitingForFec := false));
    assert FrameOk(f);
    if Complete(f) {
      CompleteFull(f);
    }
    assert t.packets[0] == f && t.packets[1..] == r.packets + [NewFrame(s, e)];
    assert NewFrame(r, e) == NewFrame(s, e);
    assert forall k | 0 <= k < |r.packets| :: r.packets[k] == s.packets[k + 1];
    assert WithNew(r, e) == if Complete(f) then Retire(Deliver(t, f)) else Retire(t.(waitingForFec := false));
  }
}
