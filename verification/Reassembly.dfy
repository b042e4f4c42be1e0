/**
 * The window of frames that are being put together, as a state and the steps that change it: a
 * fragment comes, or a parity packet comes. Sequence numbers and counts are unsigned 32-bit numbers.
 */
module Reassembly {
  import opened ParityFec
  import opened Frames

  const M32 := 0x1_0000_0000
  const NUM_OLD_PACKETS := 3
  const NUM_FEC_PACKETS := 10
  const FEC_SCHEME_XOR := 1

  /** A parity packet over the frames up to fseq, as many as frameCount. */
  datatype Fec = Fec(fseq: nat, frameCount: nat, scheme: nat, data: Packet)

  datatype Delivery = Delivery(data: Packet, fseq: nat, keyframe: bool, rotation: nat)

  /** stopped is set when an assertion of the program fails. */
  datatype State = State(packets: seq<Frame>, oldPackets: seq<Frame>, fecPackets: seq<Fec>,
                         maxTimestamp: nat, lastFrameSeq: nat, waitingForFec: bool,
                         delivered: seq<Delivery>, stopped: bool)

  const INITIAL := State([], [], [], 0, 0, false, [], false)

  datatype Event =
    | FragmentComes(pkt: Packet, index: nat, count: nat, pts: nat, fseq: nat, keyframe: bool, rotation: nat)
    | FecComes(data: Packet, fseq: nat, frameCount: nat, scheme: nat)

  /** A fragment is not empty; the short form of a sequence number is a byte. */
  predicate EventOk(e: Event) {
    e.fseq < 256 && (e.FragmentComes? ==> e.pkt != [])
  }

  // ----- Parity

  function Sub32(a: int, b: int): nat {
    (a - b) % M32
  }

  predicate Covers(fec: Fec, f: Frame) {
    f.fseq <= fec.fseq && f.fseq > Sub32(fec.fseq, fec.frameCount)
  }

  /** All parts of a frame, with empty ones for those that are not there yet. */
  function Padded(f: Frame): (r: seq<Packet>)
    ensures |r| == f.partCount
  {
    seq(f.partCount, i requires 0 <= i < f.partCount => if i < |f.parts| then f.parts[i] else [])
  }

  function Collected(frames: seq<Frame>, fec: Fec): seq<Packet> {
    if frames == [] then []
    else (if Covers(fec, frames[0]) then Padded(frames[0]) else []) + Collected(frames[1..], fec)
  }

  /** What is held of a group. */
  function Group(s: State, fec: Fec): seq<Packet> {
    Collected(s.oldPackets, fec) + Collected(s.packets, fec)
  }

  function FillFirst(parts: seq<Packet>, p: Packet): seq<Packet> {
    if parts == [] then [] else if parts[0] == [] then [p] + parts[1..] else [parts[0]] + FillFirst(parts[1..], p)
  }

  /** The rebuilt fragment in its frame. */
  function WithRecovered(f: Frame, p: Packet): Frame {
    f.(parts := if |f.parts| < f.partCount then f.parts + [p] else FillFirst(f.parts, p), received := f.received + 1)
  }

  /** The whole frame is handed over; the program stops when it is not whole. */
  function Deliver(s: State, f: Frame): State {
    if Complete(f) && |f.parts| == f.partCount then
      s.(delivered := s.delivered + [Delivery(Joined(f.parts), f.fseq, f.keyframe, f.rotation)])
    else s.(stopped := true)
  }

  /** The oldest frame gets the rebuilt fragment and is handed over. */
  function UseRecovered(s: State, p: Packet): (r: State)
    requires s.packets != []
    ensures |r.packets| == |s.packets|
  {
    var f := WithRecovered(s.packets[0], p);
    Deliver(s.(packets := s.packets[0 := f]), f)
  }

  function TryDecode(s: State, fec: Fec): (r: State)
    requires s.packets != []
    ensures |r.packets| == |s.packets|
  {
    if fec.scheme != FEC_SCHEME_XOR then s
    else
      var p := Decoded(Group(s, fec), fec.data);
      if p == [] then s else UseRecovered(s, p)
  }

  // ----- Steps

  function Last<T>(s: seq<T>, n: nat): (r: seq<T>)
    ensures |r| <= n
    ensures forall x | x in r :: x in s
  {
    if |s| > n then s[|s| - n..] else s
  }

  /** The oldest frame leaves the window. */
  function DropFirst(s: State): State
    requires s.packets != []
  {
    s.(packets := s.packets[1..])
  }

  function Retire(s: State): State
    requires s.packets != []
  {
    s.(packets := s.packets[1..], oldPackets := Last(s.oldPackets + [s.packets[0]], NUM_OLD_PACKETS))
  }

  datatype Found = Found(fec: Fec) | None

  function FindFec(fecs: seq<Fec>, f: Frame): Found {
    if fecs == [] then None else if Covers(fecs[0], f) then Found(fecs[0]) else FindFec(fecs[1..], f)
  }

  /** Frames leave the window until three are left, or one waits for a parity packet. */
  function Drain(s: State): State
    decreases |s.packets|
  {
    if |s.packets| <= 3 || s.stopped then s
    else
      var first := s.packets[0];
      if Complete(first) then Drain(Retire(Deliver(s, first)))
      else if first.partCount - first.received == 1 && !s.waitingForFec then
        var fec := FindFec(s.fecPackets, first);
        if fec.Found? then Drain(DropFirst(TryDecode(s, fec.fec)))
        else s.(waitingForFec := true)
      else Drain(Retire(s.(waitingForFec := false)))
  }

  /** The full sequence number behind a byte: a smaller byte is taken for a wrap. */
  function NextSeq(last: nat, fseq: nat): nat {
    (last / 256 * 256 + fseq + (if last % 256 > fseq then 256 else 0)) % M32
  }

  /** The first frame of the window with a time stamp; the length when there is none. */
  function IndexOf(packets: seq<Frame>, pts: nat): (k: nat)
    ensures k <= |packets|
    ensures k < |packets| ==> packets[k].timestamp == pts
    ensures forall j | 0 <= j < k :: packets[j].timestamp != pts
  {
    if packets == [] || packets[0].timestamp == pts then 0 else 1 + IndexOf(packets[1..], pts)
  }

  /** A fragment of a frame that is not in the window yet is let in. */
  predicate Admits(s: State, e: Event)
    requires e.FragmentComes?
  {
    var fseq := NextSeq(s.lastFrameSeq, e.fseq);
    !(s.lastFrameSeq > 3 && fseq < s.lastFrameSeq - 3) && e.index < e.count <= 255
  }

  function NewFrame(s: State, e: Event): Frame
    requires e.FragmentComes?
  {
    WithPart(Frame(NextSeq(s.lastFrameSeq, e.fseq), e.pts, e.count, 0, e.keyframe, e.rotation, []), e.pkt, e.index)
  }

  function AddFragment(s: State, e: Event): State
    requires e.FragmentComes?
  {
    var k := IndexOf(s.packets, e.pts);
    if k < |s.packets| then
      if e.count != s.packets[k].partCount || e.index >= s.packets[k].partCount then s
      else if !Free(s.packets[k], e.index) then s.(stopped := true)
      else s.(packets := s.packets[k := WithPart(s.packets[k], e.pkt, e.index)])
    else if !Admits(s, e) then s
    else LetIn(s, e.pts, NewFrame(s, e))
  }

  /** A new frame comes into the window, and others may leave it. */
  function LetIn(s: State, pts: nat, f: Frame): State {
    Drain(s.(maxTimestamp := Max(s.maxTimestamp, pts), packets := s.packets + [f])).(lastFrameSeq := f.fseq)
  }

  function FecOf(s: State, e: Event): Fec
    requires e.FecComes?
  {
    Fec((s.lastFrameSeq / 256 * 256 + e.fseq) % M32, e.frameCount, e.scheme, e.data)
  }

  /** The waiting frame is tried with a parity packet that covers it, and leaves the window. */
  function UseFec(s: State, fec: Fec): State {
    if !s.waitingForFec then s
    else if s.packets == [] then s.(stopped := true)
    else if !Covers(fec, s.packets[0]) then s
    else DropFirst(TryDecode(s, fec)).(waitingForFec := false)
  }

  function AddFec(s: State, e: Event): State
    requires e.FecComes?
  {
    var t := UseFec(s, FecOf(s, e));
    t.(fecPackets := Last(t.fecPackets + [FecOf(s, e)], NUM_FEC_PACKETS))
  }

  function Step(s: State, e: Event): State {
    if s.stopped then s else if e.FragmentComes? then AddFragment(s, e) else AddFec(s, e)
  }

  function Run(s: State, events: seq<Event>): State
    decreases |events|
  {
    if events == [] then s else Step(Run(s, events[..|events| - 1]), events[|events| - 1])
  }

  // ----- What every step keeps

  predicate AllOk(frames: seq<Frame>) {
    forall k | 0 <= k < |frames| :: FrameOk(frames[k])
  }

  /** No more than four frames, and four only while one waits; there is a frame when one waits. */
  predicate WindowOk(s: State) {
    && |s.packets| <= 4 && (|s.packets| == 4 ==> s.waitingForFec) && (s.waitingForFec ==> |s.packets| >= 3)
    && |s.oldPackets| <= NUM_OLD_PACKETS && |s.fecPackets| <= NUM_FEC_PACKETS
  }

  predicate Inv(s: State) {
    !s.stopped && WindowOk(s) && AllOk(s.packets)
  }

  lemma {:induction false} DrainWindow(s: State)
    requires !Drain(s).stopped && |s.oldPackets| <= NUM_OLD_PACKETS && |s.fecPackets| <= NUM_FEC_PACKETS
    requires |s.packets| <= 5 && (|s.packets| == 5 ==> s.waitingForFec) && (s.waitingForFec ==> |s.packets| >= 3)
    ensures WindowOk(Drain(s))
    decreases |s.packets|
  {
    if |s.packets| > 3 && !s.stopped {
      var first := s.packets[0];
      if Complete(first) {
        DrainWindow(Retire(Deliver(s, first)));
      } else if first.partCount - first.received == 1 && !s.waitingForFec {
        var fec := FindFec(s.fecPackets, first);
        if fec.Found? {
          DrainWindow(DropFirst(TryDecode(s, fec.fec)));
        }
      } else {
        DrainWindow(Retire(s.(waitingForFec := false)));
      }
    }
  }

  /** The window keeps its bounds with every event, whatever it holds, also with empty fragments. */
  lemma StepWindow(s: State, e: Event)
    requires WindowOk(s) && !Step(s, e).stopped
    ensures WindowOk(Step(s, e))
  {
    if !s.stopped && e.FragmentComes? && IndexOf(s.packets, e.pts) == |s.packets| && Admits(s, e) {
      DrainWindow(s.(maxTimestamp := Max(s.maxTimestamp, e.pts), packets := s.packets + [NewFrame(s, e)]));
    }
  }

  lemma {:induction false} FillFirstFilled(parts: seq<Packet>, p: Packet)
    requires p != [] && Filled(parts) < |parts|
    ensures |FillFirst(parts, p)| == |parts| && Filled(FillFirst(parts, p)) == Filled(parts) + 1
  {
    if parts[0] != [] {
      FillFirstFilled(parts[1..], p);
    }
  }

  /** One part is missing: the rebuilt one makes the frame whole. */
  lemma RecoveredWhole(f: Frame, p: Packet)
    requires FrameOk(f) && f.received == f.partCount - 1 && p != []
    ensures FrameOk(WithRecovered(f, p)) && Complete(WithRecovered(f, p)) && |WithRecovered(f, p).parts| == f.partCount
  {
    FilledAtMost(f.parts);
    if |f.parts| < f.partCount {
      FilledAppend(f.parts, 0, p);
      assert f.parts + Empties(0) + [p] == f.parts + [p];
    } else {
      FillFirstFilled(f.parts, p);
    }
  }

  /** The window drains without an assertion failing, to three frames or four with one that waits. */
  lemma {:induction false} DrainKeeps(s: State)
    requires !s.stopped && AllOk(s.packets) && |s.oldPackets| <= NUM_OLD_PACKETS && |s.fecPackets| <= NUM_FEC_PACKETS
    requires |s.packets| <= 5 && (|s.packets| == 5 ==> s.waitingForFec) && (s.waitingForFec ==> |s.packets| >= 3)
    ensures Inv(Drain(s))
    decreases |s.packets|
  {
    if |s.packets| > 3 {
      var first := s.packets[0];
      assert FrameOk(first);
      if Complete(first) {
        CompleteFull(first);
        DrainKeeps(Retire(Deliver(s, first)));
      } else if first.partCount - first.received == 1 && !s.waitingForFec {
        var fec := FindFec(s.fecPackets, first);
        if fec.Found? {
          DecodeKeeps(s, fec.fec);
          DrainKeeps(DropFirst(TryDecode(s, fec.fec)));
        }
      } else {
        DrainKeeps(Retire(s.(waitingForFec := false)));
      }
    }
  }

  lemma DecodeKeeps(s: State, fec: Fec)
    requires !s.stopped && s.packets != [] && AllOk(s.packets) && s.packets[0].received == s.packets[0].partCount - 1
    ensures var t := TryDecode(s, fec);
            && !t.stopped && AllOk(t.packets) && t.waitingForFec == s.waitingForFec
            && t.oldPackets == s.oldPackets && t.fecPackets == s.fecPackets
  {
    var p := Decoded(Group(s, fec), fec.data);
    if p != [] {
      RecoveredWhole(s.packets[0], p);
    }
  }

  /** A fragment that has come already. */
  predicate Repeats(s: State, e: Event) {
    && e.FragmentComes?
    && var k := IndexOf(s.packets, e.pts);
       k < |s.packets| && e.count == s.packets[k].partCount && e.index < e.count && !Free(s.packets[k], e.index)
  }

  /** A frame that waits for a parity packet has become whole, and the packet rebuilds some other frame's fragment. */
  predicate RebuildsWhole(s: State, e: Event) {
    && e.FecComes? && s.waitingForFec && s.packets != [] && Complete(s.packets[0])
    && var fec := FecOf(s, e);
       Covers(fec, s.packets[0]) && fec.scheme == FEC_SCHEME_XOR && Decoded(Group(s, fec), fec.data) != []
  }

  /** Everything is kept as it should be, and the program stops in just two cases. */
  lemma StepKeeps(s: State, e: Event)
    requires Inv(s) && EventOk(e)
    ensures Step(s, e).stopped <==> Repeats(s, e) || RebuildsWhole(s, e)
    ensures !Step(s, e).stopped ==> Inv(Step(s, e))
  {
    if e.FragmentComes? {
      FragmentKeeps(s, e);
    } else {
      FecKeeps(s, e);
    }
  }

  lemma FragmentKeeps(s: State, e: Event)
    requires Inv(s) && EventOk(e) && e.FragmentComes?
    ensures AddFragment(s, e).stopped <==> Repeats(s, e)
    ensures !AddFragment(s, e).stopped ==> Inv(AddFragment(s, e))
  {
    var k := IndexOf(s.packets, e.pts);
    if k < |s.packets| {
      if e.count == s.packets[k].partCount && e.index < e.count && Free(s.packets[k], e.index) {
        PartCounted(s.packets[k], e.pkt, e.index);
      }
    } else if Admits(s, e) {
      var f := Frame(NextSeq(s.lastFrameSeq, e.fseq), e.pts, e.count, 0, e.keyframe, e.rotation, []);
      PartCounted(f, e.pkt, e.index);
      DrainKeeps(s.(maxTimestamp := Max(s.maxTimestamp, e.pts), packets := s.packets + [NewFrame(s, e)]));
    }
  }

  lemma {:induction false} EmptyCountJoins(a: seq<Packet>, b: seq<Packet>)
    ensures EmptyCount(a + b) == EmptyCount(a) + EmptyCount(b)
    decreases |a|
  {
    if a == [] {
      assert a + b == b;
    } else {
      assert (a + b)[1..] == a[1..] + b;
      EmptyCountJoins(a[1..], b);
    }
  }

  lemma {:induction false} EmptyCountFilled(parts: seq<Packet>)
    ensures EmptyCount(parts) + Filled(parts) == |parts|
  {
    if parts != [] {
      EmptyCountFilled(parts[1..]);
    }
  }

  lemma {:induction false} EmptyCountEmpties(n: nat)
    ensures EmptyCount(Empties(n)) == n
  {
    if n > 0 {
      assert Empties(n)[1..] == Empties(n - 1);
      EmptyCountEmpties(n - 1);
    }
  }

  /** The empty parts of a frame are those that have not come. */
  lemma PaddedEmpty(f: Frame)
    requires FrameOk(f)
    ensures EmptyCount(Padded(f)) == f.partCount - f.received
  {
    var n := f.partCount - |f.parts|;
    assert Padded(f) == f.parts + Empties(n);
    EmptyCountJoins(f.parts, Empties(n));
    EmptyCountFilled(f.parts);
    EmptyCountEmpties(n);
  }

  /** A frame that lacks more than one part is not rebuilt. */
  lemma MissingMore(s: State, fec: Fec)
    requires s.packets != [] && FrameOk(s.packets[0]) && Covers(fec, s.packets[0])
    requires s.packets[0].received + 1 < s.packets[0].partCount
    ensures Decoded(Group(s, fec), fec.data) == []
  {
    var own, later := Padded(s.packets[0]), Collected(s.packets[1..], fec);
    PaddedEmpty(s.packets[0]);
    EmptyCountJoins(own, later);
    EmptyCountJoins(Collected(s.oldPackets, fec), own + later);
  }

  lemma FecKeeps(s: State, e: Event)
    requires Inv(s) && EventOk(e) && e.FecComes?
    ensures AddFec(s, e).stopped <==> RebuildsWhole(s, e)
    ensures !AddFec(s, e).stopped ==> Inv(AddFec(s, e))
  {
    var fec := FecOf(s, e);
    if s.waitingForFec && Covers(fec, s.packets[0]) && fec.scheme == FEC_SCHEME_XOR {
      var f := s.packets[0];
      var p := Decoded(Group(s, fec), fec.data);
      if p != [] {
        if f.received == f.partCount - 1 {
          RecoveredWhole(f, p);
        } else if !Complete(f) {
          FilledAtMost(f.parts);
          MissingMore(s, fec);
        }
      }
    }
  }
}
