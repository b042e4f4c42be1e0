/**
 * When a parity packet gives back the fragment that the oldest frame lacks, and two runs that show
 * what a forgotten wait does.
 */
module FrameRecovery {
  import opened ParityFec
  import opened Frames
  import opened Reassembly

  // ----- The order in which a group is collected does not matter

  lemma {:induction false} ColumnTakeOut(packets: seq<Packet>, j: nat, size: nat, i: nat)
    requires Fit(packets, size) && j < |packets| && i < size + 2
    ensures Fit(packets[..j] + packets[j + 1..], size)
    ensures Column(packets, size, i) == Stamp(packets[j], size)[i] ^ Column(packets[..j] + packets[j + 1..], size, i)
    decreases j
  {
    var without := packets[..j] + packets[j + 1..];
    forall p | p in without ensures |p| <= size {
      assert p in packets;
    }
    if j == 0 {
      assert without == packets[1..];
    } else {
      var rest := packets[1..];
      assert without[1..] == rest[..j - 1] + rest[j..];
      assert without[0] == packets[0];
      ColumnTakeOut(rest, j - 1, size, i);
      XorExchange(Stamp(packets[0], size)[i], Stamp(packets[j], size)[i], Column(without[1..], size, i));
    }
  }

  lemma XorExchange(a: bv8, b: bv8, c: bv8)
    ensures a ^ (b ^ c) == b ^ (a ^ c)
  {
  }

  lemma {:induction false} ColumnSame(a: seq<Packet>, b: seq<Packet>, size: nat, i: nat)
    requires multiset(a) == multiset(b) && Fit(a, size) && Fit(b, size) && i < size + 2
    ensures Column(a, size, i) == Column(b, size, i)
    decreases |a|
  {
    if a == [] {
      assert |multiset(b)| == 0;
    } else {
      var j := TakeOut(a, b);
      ColumnTakeOut(b, j, size, i);
      ColumnSame(a[1..], b[..j] + b[j + 1..], size, i);
    }
  }

  lemma TakeOut(a: seq<Packet>, b: seq<Packet>) returns (j: nat)
    requires a != [] && multiset(a) == multiset(b)
    ensures j < |b| && b[j] == a[0] && multiset(a[1..]) == multiset(b[..j] + b[j + 1..])
  {
    assert a == [a[0]] + a[1..];
    assert a[0] in multiset(b);
    j :| 0 <= j < |b| && b[j] == a[0];
    var without := b[..j] + b[j + 1..];
    assert b == b[..j] + [b[j]] + b[j + 1..];
    assert multiset(b) == multiset(without) + multiset{b[j]};
    assert multiset(a) == multiset(a[1..]) + multiset{a[0]};
    SameLess(multiset(a[1..]), multiset(without), a[0]);
  }

  lemma SameLess(a: multiset<Packet>, b: multiset<Packet>, p: Packet)
    requires a + multiset{p} == b + multiset{p}
    ensures a == b
  {
    assert a == a + multiset{p} - multiset{p};
    assert b == b + multiset{p} - multiset{p};
  }

  lemma {:induction false} MaxSizeReached(packets: seq<Packet>) returns (p: Packet)
    requires packets != []
    ensures p in packets && |p| == MaxSize(packets)
    decreases |packets|
  {
    if |packets| == 1 {
      p := packets[0];
    } else {
      p := MaxSizeReached(packets[1..]);
      if |packets[0]| > |p| {
        p := packets[0];
      }
    }
  }

  lemma MaxSizeSame(a: seq<Packet>, b: seq<Packet>)
    requires multiset(a) == multiset(b)
    ensures MaxSize(a) <= MaxSize(b)
  {
    if a != [] {
      var p := MaxSizeReached(a);
      assert p in multiset(a);
      MaxSizeFits(b);
    }
  }

  /** The encoder makes the same of a group in any order. */
  lemma EncodedSame(a: seq<Packet>, b: seq<Packet>)
    requires multiset(a) == multiset(b)
    ensures Encoded(a) == Encoded(b)
  {
    MaxSizeSame(a, b);
    MaxSizeSame(b, a);
    MaxSizeFits(a);
    MaxSizeFits(b);
    var size := MaxSize(a);
    forall i | 0 <= i < size + 2 ensures Encoded(a)[i] == Encoded(b)[i] {
      ParityColumn(a, size, Zeros(size + 2), i);
      ParityColumn(b, size, Zeros(size + 2), i);
      ColumnSame(a, b, size, i);
    }
  }

  // ----- The oldest frame lacks one fragment

  /** The frame lacks just the fragment at index m. */
  predicate Lacks(f: Frame, m: nat) {
    FrameOk(f) && m < f.partCount && forall k: nat | k < f.partCount :: Padded(f)[k] == [] <==> k == m
  }

  lemma {:induction false} FilledButOne(parts: seq<Packet>, m: nat)
    requires m < |parts| && forall k: nat | k < |parts| :: parts[k] == [] <==> k == m
    ensures Filled(parts) == |parts| - 1
    decreases |parts|
  {
    if m == 0 {
      FilledAtMost(parts[1..]);
    } else {
      FilledButOne(parts[1..], m - 1);
    }
  }

  lemma {:induction false} FillsPlace(parts: seq<Packet>, m: nat, p: Packet)
    requires m < |parts| && forall k: nat | k < |parts| :: parts[k] == [] <==> k == m
    ensures FillFirst(parts, p) == parts[m := p]
    decreases |parts|
  {
    if m > 0 {
      FillsPlace(parts[1..], m - 1, p);
      assert [parts[0]] + parts[1..][m - 1 := p] == parts[m := p];
    }
  }

  /** The rebuilt fragment goes to the place of the one that is missing. */
  lemma RecoveredPlace(f: Frame, m: nat, p: Packet)
    requires Lacks(f, m) && p != []
    ensures WithRecovered(f, p).parts == Padded(f)[m := p] && f.received == f.partCount - 1
  {
    PartsPadded(f);
    if |f.parts| == f.partCount {
      FilledButOne(f.parts, m);
      FillsPlace(f.parts, m, p);
    } else {
      FilledAtMost(f.parts);
      assert Padded(f)[|f.parts|] == [] && Padded(f)[f.partCount - 1] == [];
      forall k: nat | k < |f.parts| ensures f.parts[k] != [] {
        assert Padded(f)[k] == f.parts[k];
      }
    }
  }

  lemma PartsPadded(f: Frame)
    requires FrameOk(f)
    ensures |f.parts| == f.partCount ==> Padded(f) == f.parts
    ensures forall k: nat | k < |f.parts| :: Padded(f)[k] == f.parts[k]
    ensures forall k: nat | |f.parts| <= k < f.partCount :: Padded(f)[k] == []
  {
  }

  /** Where the missing fragment of the oldest frame is in what is collected. */
  function LostIndex(s: State, fec: Fec, m: nat): nat {
    |Collected(s.oldPackets, fec)| + m
  }

  lemma GroupSplit(s: State, fec: Fec, m: nat)
    requires s.packets != [] && Covers(fec, s.packets[0]) && m < s.packets[0].partCount
    ensures LostIndex(s, fec, m) < |Group(s, fec)| && Group(s, fec)[LostIndex(s, fec, m)] == Padded(s.packets[0])[m]
  {
    var gone, own, later := Collected(s.oldPackets, fec), Padded(s.packets[0]), Collected(s.packets[1..], fec);
    assert Group(s, fec) == gone + (own + later);
  }

  lemma {:induction false} JoinedAppend(a: seq<Packet>, b: seq<Packet>)
    ensures Joined(a + b) == Joined(a) + Joined(b)
    decreases |a|
  {
    if a == [] {
      assert a + b == b;
    } else {
      assert (a + b)[1..] == a[1..] + b;
      JoinedAppend(a[1..], b);
    }
  }

  /** Two frames that differ in one part only are different as a whole. */
  lemma JoinedDiffers(parts: seq<Packet>, m: nat, p: Packet, q: Packet)
    requires m < |parts| && Joined(parts[m := p]) == Joined(parts[m := q])
    ensures p == q
  {
    var a, b := parts[..m], parts[m + 1..];
    assert parts[m := p] == a + ([p] + b) && parts[m := q] == a + ([q] + b);
    JoinedAppend(a, [p] + b);
    JoinedAppend(a, [q] + b);
    assert ([p] + b)[1..] == b && ([q] + b)[1..] == b;
    Cancel(Joined(a), p, q, Joined(b));
  }

  lemma Cancel(a: Packet, p: Packet, q: Packet, b: Packet)
    requires a + (p + b) == a + (q + b)
    ensures p == q
  {
    assert (a + (p + b))[|a|..] == p + b && (a + (q + b))[|a|..] == q + b;
    assert |p| == |q|;
    assert (p + b)[..|p|] == p && (q + b)[..|q|] == q;
  }

  /** The frame as it was sent is handed over. */
  predicate HandsOver(s: State, t: State, m: nat, lost: Packet)
    requires s.packets != [] && m < s.packets[0].partCount
  {
    var f := s.packets[0];
    t.delivered == s.delivered + [Delivery(Joined(Padded(f)[m := lost]), f.fseq, f.keyframe, f.rotation)]
  }

  /**
   * The oldest frame lacks one fragment, and everything else of the group is held, in frames that
   * have left the window or in frames that are still there. Then the frame is handed over as it
   * was sent just when the lost fragment is no longer than the longest other one and its length
   * fits into sixteen bits.
   */
  lemma RecoveryIff(s: State, fec: Fec, m: nat, lost: Packet, sent: seq<Packet>)
    requires s.packets != [] && Lacks(s.packets[0], m) && Covers(fec, s.packets[0]) && fec.scheme == FEC_SCHEME_XOR
    requires LostIndex(s, fec, m) < |Group(s, fec)|
    requires var group := Group(s, fec)[LostIndex(s, fec, m) := lost];
             NonEmpty(group) && multiset(sent) == multiset(group)
    requires fec.data == Encoded(sent)
    ensures HandsOver(s, TryDecode(s, fec), m, lost) <==>
            |lost| <= MaxSize(Group(s, fec)) && |lost| < 0x10000
  {
    var j := LostIndex(s, fec, m);
    var group := Group(s, fec)[j := lost];
    GroupSplit(s, fec, m);
    assert group[j := []] == Group(s, fec);
    EncodedSame(sent, group);
    RebuiltIff(group, j);
    assert lost != [];
    DecodedHandsOver(s, fec, m, lost);
  }

  /** The frame is handed over as it was sent just when the lost fragment is rebuilt. */
  lemma DecodedHandsOver(s: State, fec: Fec, m: nat, lost: Packet)
    requires s.packets != [] && Lacks(s.packets[0], m) && fec.scheme == FEC_SCHEME_XOR && lost != []
    ensures HandsOver(s, TryDecode(s, fec), m, lost) <==> Decoded(Group(s, fec), fec.data) == lost
  {
    var f, p := s.packets[0], Decoded(Group(s, fec), fec.data);
    if p != [] {
      RecoveredPlace(f, m, p);
      RecoveredWhole(f, p);
      var data := Joined(WithRecovered(f, p).parts);
      assert TryDecode(s, fec).delivered == s.delivered + [Delivery(data, f.fseq, f.keyframe, f.rotation)];
      if HandsOver(s, TryDecode(s, fec), m, lost) {
        assert TryDecode(s, fec).delivered[|s.delivered|].data == data;
        JoinedDiffers(Padded(f), m, p, lost);
      }
    } else {
      assert TryDecode(s, fec).delivered == s.delivered;
    }
  }

  // ----- A wait that is forgotten

  /** The only fragment of a frame, or one of two. */
  function Part(b: bv8, index: nat, count: nat, frame: nat): Event {
    FragmentComes([b], index, count, frame, frame, false, 0)
  }

  function OneFrame(frame: nat, count: nat, received: nat, parts: seq<Packet>): Frame {
    Frame(frame, frame, count, received, false, 0, parts)
  }

  /** Three fragments of one frame and two more frames, of which the first frame lacks a fragment. */
  function Opening(second: Event): seq<Event> {
    [Part(1, 0, 2, 1), second, Part(3, 0, 1, 3), Part(4, 0, 1, 4), Part(5, 1, 2, 1)]
  }

  function Opened(second: Frame): State {
    State([OneFrame(1, 2, 2, [[1], [5]]), second, OneFrame(3, 1, 1, [[3]]), OneFrame(4, 1, 1, [[4]])],
          [], [], 4, 4, true, [], false)
  }

  lemma RunLast(events: seq<Event>, e: Event)
    ensures Run(INITIAL, events + [e]) == Step(Run(INITIAL, events), e)
  {
    assert (events + [e])[..|events|] == events;
  }

  lemma RunFive(e: seq<Event>, s: seq<State>)
    requires |e| == 5 && |s| == 6 && s[0] == INITIAL
    requires forall k | 0 <= k < 5 :: Step(s[k], e[k]) == s[k + 1]
    ensures Run(INITIAL, e) == s[5]
  {
    RunPrefix(e, s, 5);
    assert e[..5] == e;
  }

  lemma {:induction false} RunPrefix(e: seq<Event>, s: seq<State>, k: nat)
    requires k <= |e| && |s| == |e| + 1 && s[0] == INITIAL
    requires forall k | 0 <= k < |e| :: Step(s[k], e[k]) == s[k + 1]
    ensures Run(INITIAL, e[..k]) == s[k]
  {
    if k > 0 {
      RunPrefix(e, s, k - 1);
      RunLast(e[..k - 1], e[k - 1]);
      assert e[..k] == e[..k - 1] + [e[k - 1]];
    }
  }

  /** The states of the opening: a frame comes, three more come, and the fragment comes late. */
  function OpeningState(k: nat, second: Frame): State
    requires k <= 5
  {
    var f1, f3, f4 := OneFrame(1, 2, 1, [[1]]), OneFrame(3, 1, 1, [[3]]), OneFrame(4, 1, 1, [[4]]);
    match k
    case 0 => INITIAL
    case 1 => State([f1], [], [], 1, 1, false, [], false)
    case 2 => State([f1, second], [], [], 2, 2, false, [], false)
    case 3 => State([f1, second, f3], [], [], 3, 3, false, [], false)
    case 4 => State([f1, second, f3, f4], [], [], 4, 4, true, [], false)
    case _ => Opened(second)
  }

  lemma OpeningStep(k: nat, count: nat)
    requires k < 5 && 1 <= count <= 2
    ensures Step(OpeningState(k, OneFrame(2, count, 1, [[2]])), Opening(Part(2, 0, count, 2))[k])
         == OpeningState(k + 1, OneFrame(2, count, 1, [[2]]))
  {
    var f2 := OneFrame(2, count, 1, [[2]]);
    match k
    case 0 => OpeningNew(0, 1, 2, OneFrame(1, 2, 1, [[1]]), f2);
    case 1 => OpeningNew(1, 2, count, f2, f2);
    case 2 => OpeningNew(2, 3, 1, OneFrame(3, 1, 1, [[3]]), f2);
    case 3 => OpeningWaits(f2);
    case 4 => OpeningLate(f2);
  }

  lemma OpeningNew(k: nat, b: bv8, count: nat, f: Frame, second: Frame)
    requires k < 3 && 1 <= count <= 2 && f == OneFrame(k + 1, count, 1, [[b]])
    requires second.timestamp == second.fseq == 2 && OpeningState(k + 1, second).packets[k] == f
    ensures Step(OpeningState(k, second), Part(b, 0, count, k + 1)) == OpeningState(k + 1, second)
  {
    var s := OpeningState(k, second);
    FirstComes(s, b, count, k + 1);
    NewInWindow(s, Part(b, 0, count, k + 1), f, OpeningState(k + 1, second));
  }

  lemma OpeningWaits(second: Frame)
    requires second.timestamp == 2
    ensures Step(OpeningState(3, second), Part(4, 0, 1, 4)) == OpeningState(4, second)
  {
    var s := OpeningState(3, second);
    FirstComes(s, 4, 1, 4);
    FourthWaits(s, Part(4, 0, 1, 4), OneFrame(4, 1, 1, [[4]]), OpeningState(4, second));
  }

  lemma OpeningLate(second: Frame)
    ensures Step(OpeningState(4, second), Part(5, 1, 2, 1)) == OpeningState(5, second)
  {
    assert PartsWith([[1]], [5], 1) == [[1], [5]];
    LateFragment(OpeningState(4, second), Part(5, 1, 2, 1), OpeningState(5, second));
  }

  /** The first frame waits for a parity packet, and its fragment comes late. */
  lemma OpeningRun(count: nat)
    requires 1 <= count <= 2
    ensures Run(INITIAL, Opening(Part(2, 0, count, 2))) == Opened(OneFrame(2, count, 1, [[2]]))
  {
    var f2 := OneFrame(2, count, 1, [[2]]);
    forall k | 0 <= k < 5
      ensures Step(OpeningState(k, f2), Opening(Part(2, 0, count, 2))[k]) == OpeningState(k + 1, f2)
    {
      OpeningStep(k, count);
    }
    RunFive(Opening(Part(2, 0, count, 2)), seq(6, k requires 0 <= k < 6 => OpeningState(k, f2)));
  }

  /** The event brings the first fragment of a new frame. */
  predicate Comes(s: State, e: Event, f: Frame) {
    && e.FragmentComes? && e.index < e.count <= 255 && e.fseq == f.fseq && s.lastFrameSeq < e.fseq < 256
    && (forall k | 0 <= k < |s.packets| :: s.packets[k].timestamp != e.pts)
    && f == NewFrame(s, e)
  }

  lemma FirstComes(s: State, b: bv8, count: nat, frame: nat)
    requires s.lastFrameSeq < frame < 256 && 1 <= count <= 255
    requires forall k | 0 <= k < |s.packets| :: s.packets[k].timestamp != frame
    ensures Comes(s, Part(b, 0, count, frame), OneFrame(frame, count, 1, [[b]]))
  {
    assert [] + Empties(0) + [[b]] == [[b]];
  }

  /** A frame comes into a window that has room. */
  lemma NewInWindow(s: State, e: Event, f: Frame, t: State)
    requires e.FragmentComes? && !s.stopped && |s.packets| < 3 && Comes(s, e, f)
    requires t == s.(packets := s.packets + [f], maxTimestamp := Max(s.maxTimestamp, e.pts),
                     lastFrameSeq := NextSeq(s.lastFrameSeq, e.fseq))
    ensures Step(s, e) == t
  {
  }

  /** A fourth frame comes while the oldest lacks one fragment and no parity packet is there. */
  lemma FourthWaits(s: State, e: Event, f: Frame, t: State)
    requires e.FragmentComes? && !s.stopped && |s.packets| == 3 && Comes(s, e, f)
    requires s.packets[0].partCount - s.packets[0].received == 1 && !s.waitingForFec && s.fecPackets == []
    requires t == s.(packets := s.packets + [f], maxTimestamp := Max(s.maxTimestamp, e.pts),
                     lastFrameSeq := NextSeq(s.lastFrameSeq, e.fseq), waitingForFec := true)
    ensures Step(s, e) == t
  {
  }

  lemma LateFragment(s: State, e: Event, t: State)
    requires e.FragmentComes? && !s.stopped && s.packets != [] && s.packets[0].timestamp == e.pts
    requires e.count == s.packets[0].partCount && e.index < e.count && Free(s.packets[0], e.index)
    requires t == s.(packets := [WithPart(s.packets[0], e.pkt, e.index)] + s.packets[1..])
    ensures Step(s, e) == t
  {
    assert s.packets[0 := WithPart(s.packets[0], e.pkt, e.index)] == t.packets;
  }

  /** A parity packet for a group of which nothing is missing gives nothing. */
  lemma NothingMissing(packets: seq<Packet>, fec: Packet)
    requires NonEmpty(packets)
    ensures Decoded(packets, fec) == []
  {
    NoneEmpty(packets);
  }

  /** A whole frame that waits is thrown away when nothing is missing in the group. */
  lemma WholeGroupDrops(s: State, e: Event)
    requires !s.stopped && e.FecComes? && s.waitingForFec && s.packets != [] && Covers(FecOf(s, e), s.packets[0])
    requires NonEmpty(Group(s, FecOf(s, e)))
    ensures Step(s, e).packets == s.packets[1..] && Step(s, e).delivered == s.delivered && !Step(s, e).stopped
  {
    NothingMissing(Group(s, FecOf(s, e)), e.data);
  }

  /** The waiting frame is whole, nothing of the group is missing, and its parity packet comes. */
  lemma DropStep(data: Packet) returns (t: State)
    ensures t == Step(Opened(OneFrame(2, 1, 1, [[2]])), FecComes(data, 3, 3, FEC_SCHEME_XOR))
    ensures !t.stopped && t.delivered == [] && |t.packets| == 3 && t.packets[0].fseq == 2
  {
    var f2 := OneFrame(2, 1, 1, [[2]]);
    var s, e := Opened(f2), FecComes(data, 3, 3, FEC_SCHEME_XOR);
    t := Step(s, e);
    GroupOfThree(s, FecOf(s, e), f2);
    assert Padded(f2) == [[2]];
    WholeGroupDrops(s, e);
  }

  lemma RunThen(events: seq<Event>, e: Event, s: State, t: State)
    requires Run(INITIAL, events) == s && Step(s, e) == t
    ensures Run(INITIAL, events + [e]) == t
  {
    RunLast(events, e);
  }

  /** A frame of which every fragment came is never handed over: the parity packet throws it away. */
  lemma WholeFrameLost(data: Packet)
    ensures var s := Run(INITIAL, Opening(Part(2, 0, 1, 2)) + [FecComes(data, 3, 3, FEC_SCHEME_XOR)]);
            !s.stopped && s.delivered == [] && |s.packets| == 3 && s.packets[0].fseq == 2
  {
    var t := DropStep(data);
    OpeningRun(1);
    RunThen(Opening(Part(2, 0, 1, 2)), FecComes(data, 3, 3, FEC_SCHEME_XOR), Opened(OneFrame(2, 1, 1, [[2]])), t);
  }

  /** The fragments of three frames, of which the second has a fragment that does not come. */
  predicate IsSent(sent: seq<Packet>, data: Packet) {
    sent == [[1], [5], [2], [9], [3]] && data == Encoded(sent)
  }

  lemma SentRebuilt(sent: seq<Packet>, data: Packet)
    requires IsSent(sent, data)
    ensures Decoded(sent[3 := []], data) == [9]
  {
    MaxSizeFits(sent[3 := []]);
    assert sent[3 := []][0] in sent[3 := []];
    RebuiltIff(sent, 3);
  }

  /** The waiting frame is whole, another frame of the group is not, and the parity packet comes. */
  lemma StopStep(sent: seq<Packet>, data: Packet) returns (t: State)
    requires IsSent(sent, data)
    ensures t == Step(Opened(OneFrame(2, 2, 1, [[2]])), FecComes(data, 3, 3, FEC_SCHEME_XOR))
    ensures t.stopped
  {
    var f2 := OneFrame(2, 2, 1, [[2]]);
    var s, e := Opened(f2), FecComes(data, 3, 3, FEC_SCHEME_XOR);
    t := Step(s, e);
    StopGroup(s, FecOf(s, e), sent, data);
    SentRebuilt(sent, data);
    WholeStops(s, e);
  }

  lemma StopGroup(s: State, fec: Fec, sent: seq<Packet>, data: Packet)
    requires IsSent(sent, data) && s == Opened(OneFrame(2, 2, 1, [[2]])) && fec.fseq == 3 && fec.frameCount == 3
    ensures Group(s, fec) == sent[3 := []]
  {
    var f2 := OneFrame(2, 2, 1, [[2]]);
    GroupOfThree(s, fec, f2);
    assert Padded(f2) == [[2], []];
  }

  /** The program stops at an assertion: the frame that waited is whole, and another frame's fragment is rebuilt. */
  lemma WholeFrameStops(sent: seq<Packet>, data: Packet)
    requires IsSent(sent, data)
    ensures Run(INITIAL, Opening(Part(2, 0, 2, 2)) + [FecComes(data, 3, 3, FEC_SCHEME_XOR)]).stopped
  {
    var t := StopStep(sent, data);
    OpeningRun(2);
    RunThen(Opening(Part(2, 0, 2, 2)), FecComes(data, 3, 3, FEC_SCHEME_XOR), Opened(OneFrame(2, 2, 1, [[2]])), t);
  }

  lemma WholeStops(s: State, e: Event)
    requires !s.stopped && RebuildsWhole(s, e)
    ensures Step(s, e).stopped
  {
  }

  lemma GroupOfThree(s: State, fec: Fec, second: Frame)
    requires s == Opened(second) && second.fseq == 2 && fec.fseq == 3 && fec.frameCount == 3
    ensures Group(s, fec) == [[1], [5]] + Padded(second) + [[3]]
  {
    var f1, f3, f4 := s.packets[0], s.packets[2], s.packets[3];
    assert Padded(f1) == [[1], [5]] && Padded(f3) == [[3]];
    assert s.packets[1..] == [second, f3, f4] && [second, f3, f4][1..] == [f3, f4] && [f3, f4][1..] == [f4]
        && [f4][1..] == [];
    assert Collected([f4], fec) == [];
    assert Collected([f3, f4], fec) == [[3]];
    assert Collected([second, f3, f4], fec) == Padded(second) + [[3]];
  }
}
