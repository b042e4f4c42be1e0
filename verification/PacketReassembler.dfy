/** The reassembler as it runs: frames are objects that change as fragments come. */
module PacketReassembler {
  import opened ParityFec
  import opened Frames
  import opened Reassembly

  /** A frame in the window or behind it. */
  class FrameObject {
    const fseq: nat
    const timestamp: nat
    const partCount: nat
    const isKeyframe: bool
    const rotation: nat
    var receivedPartCount: nat
    var parts: seq<Packet>

    constructor (fseq: nat, timestamp: nat, partCount: nat, receivedPartCount: nat, keyframe: bool, rotation: nat)
      ensures Value() == Frame(fseq, timestamp, partCount, receivedPartCount, keyframe, rotation, [])
    {
      this.fseq, this.timestamp, this.partCount := fseq, timestamp, partCount;
      this.isKeyframe, this.rotation := keyframe, rotation;
      this.receivedPartCount, this.parts := receivedPartCount, [];
    }

    ghost function Value(): Frame
      reads this
    {
      Frame(fseq, timestamp, partCount, receivedPartCount, isKeyframe, rotation, parts)
    }

    method AddFragment(pkt: Packet, fragmentIndex: nat)
      requires Free(Value(), fragmentIndex)
      modifies this
      ensures Value() == WithPart(old(Value()), pkt, fragmentIndex)
    {
      if |parts| == fragmentIndex {
        parts := parts + [pkt];
        assert parts == old(parts) + Empties(0) + [pkt];
      } else if |parts| > fragmentIndex {
        parts := parts[fragmentIndex := pkt];
      } else {
        while |parts| < fragmentIndex
          invariant |old(parts)| <= |parts| <= fragmentIndex
          invariant parts == old(parts) + Empties(|parts| - |old(parts)|)
          invariant receivedPartCount == old(receivedPartCount)
        {
          parts := parts + [[]];
        }
        parts := parts + [pkt];
      }
      receivedPartCount := receivedPartCount + 1;
    }

    method Reassemble() returns (data: Packet)
      requires Complete(Value()) && |parts| == partCount
      ensures data == Joined(parts)
    {
      if partCount == 1 {
        assert parts == [parts[0]];
        return parts[0];
      }
      data := [];
      var i := 0;
      while i < partCount
        invariant i <= partCount && data + Joined(parts[i..]) == Joined(parts)
      {
        assert parts[i..][1..] == parts[i + 1..];
        data := data + parts[i];
        i := i + 1;
      }
    }
  }

  ghost function Contents(objects: seq<FrameObject>): (r: seq<Frame>)
    reads objects
    ensures |r| == |objects|
  {
    seq(|objects|, i requires 0 <= i < |objects| reads objects => objects[i].Value())
  }

  class Reassembler {
    var packets: seq<FrameObject>
    var oldPackets: seq<FrameObject>
    var fecPackets: seq<Fec>
    var maxTimestamp: nat
    var lastFrameSeq: nat
    var waitingForFec: bool
    /** What the callback was given. */
    var delivered: seq<Delivery>
    /** Set when an assertion fails. */
    var stopped: bool

    constructor ()
      ensures Valid() && State() == INITIAL && fresh(packets) && fresh(oldPackets)
    {
      packets, oldPackets, fecPackets := [], [], [];
      maxTimestamp, lastFrameSeq, waitingForFec := 0, 0, false;
      delivered, stopped := [], false;
    }

    /** No frame is twice in the window, and none that has left it is still there. */
    ghost predicate Valid()
      reads this
    {
      && (forall i, j | 0 <= i < j < |packets| :: packets[i] != packets[j])
      && (forall p | p in packets :: p !in oldPackets)
    }

    ghost function State(): State
      reads this, packets, oldPackets
    {
      Reassembly.State(Contents(packets), Contents(oldPackets), fecPackets, maxTimestamp, lastFrameSeq, waitingForFec,
                       delivered, stopped)
    }

    /** The callback is given a whole frame. */
    method HandOver(p: FrameObject)
      requires Valid() && !stopped
      modifies this`delivered, this`stopped
      ensures Valid() && State() == Deliver(old(State()), p.Value())
    {
      if !(p.partCount == p.receivedPartCount && |p.parts| == p.partCount) {
        stopped := true;
        return;
      }
      var data := p.Reassemble();
      delivered := delivered + [Delivery(data, p.fseq, p.isKeyframe, p.rotation)];
    }

    method EraseFirst()
      requires Valid() && packets != []
      modifies this`packets
      ensures Valid() && packets == old(packets[1..]) && State() == DropFirst(old(State()))
    {
      packets := packets[1..];
    }

    /** The oldest frame goes to the old ones, of which the last three are kept. */
    method RetireFirst()
      requires Valid() && packets != []
      modifies this`packets, this`oldPackets
      ensures Valid() && packets == old(packets[1..]) && State() == Retire(old(State()))
    {
      var p := packets[0];
      packets := packets[1..];
      oldPackets := oldPackets + [p];
      ghost var all := oldPackets;
      while |oldPackets| > NUM_OLD_PACKETS
        invariant packets == old(packets[1..])
        invariant |oldPackets| <= |all| && oldPackets == all[|all| - |oldPackets|..]
        invariant |oldPackets| < |all| ==> |oldPackets| >= NUM_OLD_PACKETS
      {
        oldPackets := oldPackets[1..];
      }
      forall q | q in packets ensures q !in all {
        var i :| 0 <= i < |packets| && packets[i] == q;
        assert q == old(packets)[i + 1] && q in old(packets);
      }
      LastContents(all, oldPackets);
      assert Contents(all) == old(State().oldPackets) + [old(State().packets[0])];
    }

    /** What of a group is in these frames; an empty buffer for a fragment that has not come. */
    method Collect(frames: seq<FrameObject>, fec: Fec) returns (collected: seq<Packet>)
      ensures collected == Collected(Contents(frames), fec)
    {
      collected := [];
      var k := 0;
      assert frames[0..] == frames;
      while k < |frames|
        invariant k <= |frames|
        invariant collected + Collected(Contents(frames[k..]), fec) == Collected(Contents(frames), fec)
      {
        CollectStep(frames, k, fec, collected);
        var own := CollectFrame(frames[k], fec);
        collected := collected + own;
        k := k + 1;
      }
      assert Contents(frames[k..]) == [];
    }

    method CollectFrame(p: FrameObject, fec: Fec) returns (own: seq<Packet>)
      ensures own == if Covers(fec, p.Value()) then Padded(p.Value()) else []
    {
      own := [];
      if p.fseq <= fec.fseq && p.fseq > Sub32(fec.fseq, fec.frameCount) {
        own := CollectParts(p);
      }
    }

    method CollectParts(p: FrameObject) returns (collected: seq<Packet>)
      ensures collected == Padded(p.Value())
    {
      collected := [];
      var i := 0;
      while i < p.partCount
        invariant i <= p.partCount && collected == Padded(p.Value())[..i]
      {
        collected := collected + [if i < |p.parts| then p.parts[i] else []];
        i := i + 1;
      }
    }

    /** The first empty part is filled. */
    method Fill(p: FrameObject, recovered: Packet)
      modifies p
      ensures p.Value() == old(p.Value()).(parts := FillFirst(old(p.parts), recovered))
    {
      var k := 0;
      assert p.parts[0..] == p.parts;
      while k < |p.parts|
        invariant k <= |p.parts| && p.Value() == old(p.Value())
        invariant p.parts[..k] + FillFirst(p.parts[k..], recovered) == FillFirst(p.parts, recovered)
      {
        FillStep(p.parts, k, recovered);
        if p.parts[k] == [] {
          p.parts := p.parts[k := recovered];
          return;
        }
        k := k + 1;
      }
    }

    method TryDecodeFec(fec: Fec)
      requires Valid() && !stopped && packets != []
      modifies this`delivered, this`stopped, packets[0]
      ensures Valid() && State() == TryDecode(old(State()), fec)
    {
      if fec.scheme != FEC_SCHEME_XOR {
        return;
      }
      var held := Collect(oldPackets, fec);
      var pending := Collect(packets, fec);
      var recovered := Decode(held + pending, fec.data);
      if recovered != [] {
        UseRecoveredPart(recovered);
      }
    }

    method UseRecoveredPart(recovered: Packet)
      requires Valid() && !stopped && packets != []
      modifies this`delivered, this`stopped, packets[0]
      ensures Valid() && State() == UseRecovered(old(State()), recovered)
    {
      AddRecovered(recovered);
      assert packets[0].Value() == State().packets[0];
      HandOver(packets[0]);
    }

    /** The rebuilt fragment goes into the oldest frame. */
    method AddRecovered(recovered: Packet)
      requires Valid() && packets != []
      modifies packets[0]
      ensures Valid()
      ensures var s := old(State()); State() == s.(packets := s.packets[0 := WithRecovered(s.packets[0], recovered)])
    {
      var pkt := packets[0];
      ghost var f := pkt.Value();
      if |pkt.parts| < pkt.partCount {
        pkt.parts := pkt.parts + [recovered];
      } else {
        Fill(pkt, recovered);
      }
      pkt.receivedPartCount := pkt.receivedPartCount + 1;
      assert pkt.Value() == WithRecovered(f, recovered);
      assert pkt in packets;
      assert Contents(oldPackets) == old(Contents(oldPackets));
      assert Contents(packets) == old(Contents(packets))[0 := pkt.Value()];
    }

    // ----- The window

    /** A parity packet that covers the oldest frame, if one is kept. */
    method FindFecPacket() returns (found: bool, fec: Fec)
      requires packets != []
      ensures FindFec(fecPackets, packets[0].Value()) == if found then Found(fec) else None
    {
      found, fec := false, Fec(0, 0, 0, []);
      var k := 0;
      assert fecPackets[0..] == fecPackets;
      while k < |fecPackets|
        invariant k <= |fecPackets| && !found
        invariant FindFec(fecPackets[k..], packets[0].Value()) == FindFec(fecPackets, packets[0].Value())
      {
        fec := fecPackets[k];
        assert fecPackets[k..][1..] == fecPackets[k + 1..];
        if packets[0].fseq <= fec.fseq && packets[0].fseq > Sub32(fec.fseq, fec.frameCount) {
          found := true;
          return;
        }
        k := k + 1;
      }
    }

    /** One round of the loop over the window; goOn is unset when a frame is to wait. */
    method DrainOne() returns (goOn: bool)
      requires Valid() && !stopped && |packets| > 3
      modifies this, packets
      ensures Valid() && packets == if goOn then old(packets[1..]) else old(packets)
      ensures goOn ==> Drain(State()) == old(Drain(State()))
      ensures !goOn ==> State() == old(Drain(State()))
    {
      goOn := true;
      var first := packets[0];
      if first.receivedPartCount == first.partCount {
        HandOver(first);
        RetireFirst();
      } else if first.partCount as int - first.receivedPartCount as int == 1 && !waitingForFec {
        var found, fec := FindFecPacket();
        if found {
          TryDecodeFec(fec);
          EraseFirst();
        } else {
          waitingForFec := true;
          goOn := false;
        }
      } else {
        waitingForFec := false;
        RetireFirst();
      }
    }

    /** Frames leave the window while there are more than three, unless one is to wait. */
    method DrainWindow()
      requires Valid() && !stopped
      modifies this, packets
      ensures Valid() && State() == Drain(old(State()))
      ensures forall p | p in packets :: p in old(packets)
    {
      var goOn := true;
      while |packets| > 3 && goOn && !stopped
        invariant Valid() && (forall k | 0 <= k < |packets| :: packets[k] in old(packets))
        invariant if goOn then Drain(State()) == old(Drain(State())) else State() == old(Drain(State()))
        decreases |packets|, goOn
      {
        goOn := DrainOne();
      }
    }

    method Find(pts: nat) returns (k: nat)
      ensures k == IndexOf(Contents(packets), pts)
    {
      k := 0;
      assert packets[0..] == packets;
      while k < |packets|
        invariant k <= |packets| && IndexOf(Contents(packets), pts) == k + IndexOf(Contents(packets[k..]), pts)
      {
        assert Contents(packets[k..])[1..] == Contents(packets[k + 1..]);
        if packets[k].timestamp == pts {
          return;
        }
        k := k + 1;
      }
    }

    method AddFragment(pkt: Packet, fragmentIndex: nat, fragmentCount: nat, pts: nat, fseq8: nat, keyframe: bool,
                       rotation: nat)
      requires Valid() && !stopped
      modifies this, packets
      ensures Valid()
      ensures State() ==
              Step(old(State()), FragmentComes(pkt, fragmentIndex, fragmentCount, pts, fseq8, keyframe, rotation))
      ensures forall p | p in packets :: p in old(packets) || fresh(p)
    {
      var k := Find(pts);
      if k < |packets| {
        if fragmentCount != packets[k].partCount || fragmentIndex >= packets[k].partCount {
          return;
        }
        AddToFrame(k, pkt, fragmentIndex);
        return;
      }
      AddNewFrame(pkt, fragmentIndex, fragmentCount, pts, fseq8, keyframe, rotation);
    }

    /** The full number behind a byte. */
    method ExtendSeq(fseq8: nat) returns (fseq: nat)
      ensures fseq == NextSeq(lastFrameSeq, fseq8)
    {
      fseq := lastFrameSeq / 256 * 256 + fseq8;
      if lastFrameSeq % 256 > fseq8 {
        fseq := fseq + 256;
      }
      fseq := fseq % M32;
    }

    /** A fragment of a frame that is not in the window. */
    method AddNewFrame(pkt: Packet, fragmentIndex: nat, fragmentCount: nat, pts: nat, fseq8: nat, keyframe: bool,
                       rotation: nat)
      requires Valid() && !stopped && IndexOf(Contents(packets), pts) == |packets|
      modifies this, packets
      ensures Valid()
      ensures State() ==
              Step(old(State()), FragmentComes(pkt, fragmentIndex, fragmentCount, pts, fseq8, keyframe, rotation))
      ensures forall p | p in packets :: p in old(packets) || fresh(p)
    {
      ghost var s := State();
      var fseq := ExtendSeq(fseq8);
      if lastFrameSeq > 3 && fseq < lastFrameSeq - 3 {
        return;
      }
      if fragmentIndex >= fragmentCount || fragmentCount > 255 {
        return;
      }
      LetInFrame(pkt, fragmentIndex, fragmentCount, pts, fseq, keyframe, rotation);
    }

    method LetInFrame(pkt: Packet, fragmentIndex: nat, fragmentCount: nat, pts: nat, fseq: nat, keyframe: bool,
                      rotation: nat)
      requires Valid() && !stopped
      modifies this, packets
      ensures Valid()
      ensures var f := Frame(fseq, pts, fragmentCount, 0, keyframe, rotation, []);
              State() == LetIn(old(State()), pts, WithPart(f, pkt, fragmentIndex))
      ensures forall p | p in packets :: p in old(packets) || fresh(p)
    {
      ghost var s := State();
      ghost var f := WithPart(Frame(fseq, pts, fragmentCount, 0, keyframe, rotation, []), pkt, fragmentIndex);
      maxTimestamp := Max(maxTimestamp, pts);
      PushFrame(pkt, fragmentIndex, fragmentCount, pts, fseq, keyframe, rotation);
      assert State() == s.(maxTimestamp := maxTimestamp, packets := s.packets + [f]);
      DrainWindow();
      lastFrameSeq := fseq;
    }

    /** A fragment of a frame in the window; the assertion fails when its place is taken. */
    method AddToFrame(k: nat, pkt: Packet, fragmentIndex: nat)
      requires Valid() && !stopped && k < |packets|
      modifies this`stopped, packets[k]
      ensures Valid()
      ensures var s := old(State());
              State() == if !Free(s.packets[k], fragmentIndex) then s.(stopped := true)
                         else s.(packets := s.packets[k := WithPart(s.packets[k], pkt, fragmentIndex)])
    {
      var p := packets[k];
      if fragmentIndex < |p.parts| && p.parts[fragmentIndex] != [] {
        stopped := true;
        return;
      }
      p.AddFragment(pkt, fragmentIndex);
      assert p in packets;
      assert Contents(oldPackets) == old(Contents(oldPackets));
      assert Contents(packets) == old(Contents(packets))[k := p.Value()];
    }

    /** A new frame with its first fragment. */
    method PushFrame(pkt: Packet, fragmentIndex: nat, fragmentCount: nat, pts: nat, fseq: nat, keyframe: bool,
                     rotation: nat)
      requires Valid()
      modifies this`packets
      ensures Valid() && |packets| == |old(packets)| + 1 && packets[..|old(packets)|] == old(packets)
      ensures fresh(packets[|packets| - 1])
      ensures var s, f := old(State()), Frame(fseq, pts, fragmentCount, 0, keyframe, rotation, []);
              State() == s.(packets := s.packets + [WithPart(f, pkt, fragmentIndex)])
    {
      var p := new FrameObject(fseq, pts, fragmentCount, 0, keyframe, rotation);
      p.AddFragment(pkt, fragmentIndex);
      packets := packets + [p];
      assert Contents(packets) == old(Contents(packets)) + [p.Value()];
    }

    method AddFec(data: Packet, fseq8: nat, frameCount: nat, fecScheme: nat)
      requires Valid() && !stopped && (waitingForFec ==> packets != [])
      modifies this, packets
      ensures Valid()
      ensures State() == Step(old(State()), FecComes(data, fseq8, frameCount, fecScheme))
      ensures forall p | p in packets :: p in old(packets)
    {
      var fec := Fec((lastFrameSeq / 256 * 256 + fseq8) % M32, frameCount, fecScheme, data);
      if waitingForFec {
        if packets[0].fseq <= fec.fseq && packets[0].fseq > Sub32(fec.fseq, fec.frameCount) {
          DropWaiting(fec);
        }
      }
      KeepFec(fec);
    }

    /** The frame that waits is tried with a parity packet, and leaves. */
    method DropWaiting(fec: Fec)
      requires Valid() && !stopped && packets != []
      modifies this, packets[0]
      ensures Valid() && packets == old(packets[1..])
      ensures State() == DropFirst(TryDecode(old(State()), fec)).(waitingForFec := false)
    {
      TryDecodeFec(fec);
      EraseFirst();
      waitingForFec := false;
    }

    /** A parity packet is kept; the last ten are. */
    method KeepFec(fec: Fec)
      requires Valid()
      modifies this`fecPackets
      ensures State() == old(State()).(fecPackets := Last(old(fecPackets) + [fec], NUM_FEC_PACKETS))
    {
      fecPackets := fecPackets + [fec];
      ghost var all := fecPackets;
      while |fecPackets| > NUM_FEC_PACKETS
        invariant |fecPackets| <= |all| && fecPackets == all[|all| - |fecPackets|..]
        invariant |fecPackets| < |all| ==> |fecPackets| >= NUM_FEC_PACKETS
      {
        fecPackets := fecPackets[1..];
      }
    }
  }

  lemma CollectStep(frames: seq<FrameObject>, k: nat, fec: Fec, before: seq<Packet>)
    requires k < |frames|
    ensures before + Collected(Contents(frames[k..]), fec)
         == before + (if Covers(fec, frames[k].Value()) then Padded(frames[k].Value()) else [])
            + Collected(Contents(frames[k + 1..]), fec)
  {
    assert Contents(frames[k..])[1..] == Contents(frames[k + 1..]);
  }

  lemma FillStep(parts: seq<Packet>, k: nat, p: Packet)
    requires k < |parts|
    ensures parts[k] == [] ==> parts[..k] + FillFirst(parts[k..], p) == parts[k := p]
    ensures parts[k] != [] ==> parts[..k] + FillFirst(parts[k..], p) == parts[..k + 1] + FillFirst(parts[k + 1..], p)
  {
    assert parts[k..][1..] == parts[k + 1..];
    assert parts[..k] + [parts[k]] == parts[..k + 1];
    assert parts[k := p] == parts[..k] + ([p] + parts[k + 1..]);
  }

  lemma LastContents(all: seq<FrameObject>, last: seq<FrameObject>)
    requires last == if |all| > NUM_OLD_PACKETS then all[|all| - NUM_OLD_PACKETS..] else all
    ensures Contents(last) == Last(Contents(all), NUM_OLD_PACKETS)
  {
  }
}
