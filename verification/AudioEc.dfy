/** The sender's deque of second encodings and the receiver's loop over the slots. */
module AudioEc {
  import opened AudioFrames

  class AudioPacketSender {
    var ecAudioPackets: seq<Secondary>
    /** All frames so far. */
    ghost var history: seq<Frame>

    constructor ()
      ensures Valid() && history == []
    {
      ecAudioPackets, history := [], [];
    }

    ghost predicate Valid()
      reads this
    {
      ecAudioPackets == Kept(history)
    }

    /** The slots of the packet for a frame; what the frame carries itself goes to the deque. */
    method SendFrame(f: Frame, shittyInternetMode: bool, extraEcLevel: nat, acked: set<int>)
      returns (extraEc: seq<Slot>)
      requires Valid() && f.seqNo >= 1
      modifies this
      ensures Valid() && history == old(history) + [f]
      ensures extraEc == if f.hasSecondary && shittyInternetMode
              then SlotsOf(Kept(old(history)), f.seqNo, extraEcLevel, acked)
                         else seq(SLOTS, _ => Empty)
    {
      extraEc := seq(SLOTS, _ => Empty);
      if f.hasSecondary {
        if shittyInternetMode {
          extraEc := FillSlots(f.seqNo, extraEcLevel, acked);
        }
        ecAudioPackets := ecAudioPackets + [Secondary(f.secondary, f.seqNo)];
        if |ecAudioPackets| == 9 {
          ecAudioPackets := ecAudioPackets[1..];
        }
      }
      history := history + [f];
      assert history[..|history| - 1] == old(history);
    }

    /** Every index of a slot lies from zero to seven. */
    method FillSlots(seqNo: nat, extraEcLevel: nat, acked: set<int>) returns (slots: seq<Slot>)
      requires |ecAudioPackets| <= SLOTS && seqNo >= 1
      ensures slots == SlotsOf(ecAudioPackets, seqNo, extraEcLevel, acked)
    {
      slots := seq(SLOTS, _ => Empty);
      var maxEc := Min(Min(|ecAudioPackets|, (seqNo - 1) % 256), extraEcLevel);
      var ecPkt := |ecAudioPackets| - maxEc;
      while ecPkt != |ecAudioPackets|
        invariant |ecAudioPackets| - maxEc <= ecPkt <= |ecAudioPackets| && |slots| == SLOTS
        invariant forall i | 0 <= i < SLOTS ::
                    slots[i] == if SLOTS - i > |ecAudioPackets| - ecPkt
                                then SlotAt(ecAudioPackets, seqNo, extraEcLevel, acked, SLOTS - i) else Empty
        decreases |ecAudioPackets| - ecPkt
      {
        var distance := |ecAudioPackets| - ecPkt;
        if (seqNo - distance) !in acked {
          slots := slots[SLOTS - distance := Filled(ecAudioPackets[ecPkt])];
        }
        ecPkt := ecPkt + 1;
      }
    }
  }

  /** The frames of the slots are handed to the jitter buffer, each with its time stamp. */
  method FileExtra(packetSeq: nat, extraEc: seq<Slot>) returns (handled: seq<Filed>)
    requires |extraEc| == SLOTS && packetSeq >= 1
    ensures handled == FiledOf(extraEc, packetSeq, SLOTS)
  {
    handled := [];
    var seqNo := packetSeq - 1;
    var i := 0;
    while i < 8
      invariant 0 <= i <= 8 && handled == FiledOf(extraEc, packetSeq, i)
    {
      if extraEc[i].Filled? {
        handled := handled + [Filed(seqNo - (8 - i), extraEc[i].frame)];
      }
      i := i + 1;
    }
  }
}
