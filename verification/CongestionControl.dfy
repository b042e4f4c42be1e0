/** Loss accounting over a fixed number of slots that are changed in place. */
module CongestionControl {
  import opened InFlight

  const SLOTS := 100

  class CongestionControl {
    const inflightPackets: array<Slot>
    var lossCount: nat
    var lastSentSeq: map<nat, nat>
    var inflightDataSize: nat
    var tmpRtt: real
    var tmpRttCount: nat
    /** What became of the packets. */
    ghost var book: Book

    constructor ()
      ensures Valid() && fresh(inflightPackets)
      ensures lossCount == 0 && inflightDataSize == 0 && lastSentSeq == map[] && book == EMPTY_BOOK
      ensures forall k | 0 <= k < SLOTS :: !Occupied(inflightPackets[k])
    {
      inflightPackets := new Slot[SLOTS](_ => Slot(0, 0, 0.0, 0));
      lossCount, inflightDataSize, lastSentSeq := 0, 0, map[];
      tmpRtt, tmpRttCount, book := 0.0, 0, EMPTY_BOOK;
      new;
      NoneOccupied(inflightPackets[..]);
    }

    ghost function Slots(): seq<Slot>
      reads inflightPackets
    {
      inflightPackets[..]
    }

    /** The bytes in flight are those of the occupied slots. */
    ghost predicate Sized()
      reads this`inflightDataSize, inflightPackets
    {
      && inflightPackets.Length == SLOTS
      && inflightDataSize == DataSize(Slots())
      && forall k | 0 <= k < SLOTS :: inflightPackets[k].sendTime >= 0.0
    }

    /** And every accepted packet was acknowledged or given up, which is counted, or is in a slot, just once. */
    ghost predicate Valid()
      reads this`inflightDataSize, this`lossCount, this`book, inflightPackets
    {
      Sized() && Balanced(book, Slots()) && lossCount == |book.lost|
    }

    /** A new packet: in order, and not sent before. */
    predicate Accepts(seqNo: nat, streamId: nat)
      reads this
    {
      var last := if streamId in lastSentSeq then lastSentSeq[streamId] else 0;
      SeqGt(seqNo, last) && seqNo != last
    }

    /** A number is accepted when it is ahead of the last one by less than half of them; a stream starts at zero. */
    lemma AcceptsIff(seqNo: nat, streamId: nat)
      requires seqNo < M32 && (streamId in lastSentSeq ==> lastSentSeq[streamId] < M32)
      ensures var last := if streamId in lastSentSeq then lastSentSeq[streamId] else 0;
              var ahead := (seqNo - last) % M32;
              Accepts(seqNo, streamId) <==> 1 <= ahead < 0x8000_0000 || (ahead == 0x8000_0000 && seqNo < last)
    {
      SeqGtIff(seqNo, if streamId in lastSentSeq then lastSentSeq[streamId] else 0);
    }

    /** A free slot, or else the one sent first. */
    method ChooseSlot() returns (slot: nat)
      requires inflightPackets.Length == SLOTS
      ensures Takes(Slots(), slot)
    {
      slot := 0;
      if inflightPackets[0].sendTime == 0.0 {
        return;
      }
      var smallestSendTime := inflightPackets[0].sendTime;
      var k := 1;
      while k < SLOTS
        invariant slot < k <= SLOTS && smallestSendTime == inflightPackets[slot].sendTime
        invariant forall i | 0 <= i < k ::
                    Occupied(inflightPackets[i]) && smallestSendTime <= inflightPackets[i].sendTime
        invariant forall i | 0 <= i < slot :: smallestSendTime < inflightPackets[i].sendTime
      {
        if inflightPackets[k].sendTime == 0.0 {
          slot := k;
          return;
        }
        if smallestSendTime > inflightPackets[k].sendTime {
          slot := k;
          smallestSendTime := inflightPackets[k].sendTime;
        }
        k := k + 1;
      }
    }

    /** A sent packet takes a slot; a packet that is still in it then counts as lost. */
    method PacketSent(seqNo: nat, streamId: nat, size: nat, now: real) returns (ghost slot: nat)
      requires Valid() && now > 0.0
      modifies this`inflightDataSize, this`lossCount, this`book, this`lastSentSeq, inflightPackets
      ensures Valid()
      ensures if old(Accepts(seqNo, streamId)) then
                && lastSentSeq == old(lastSentSeq)[streamId := seqNo]
                && lossCount == old(lossCount) + (if OccupiedCount(old(Slots())) == SLOTS then 1 else 0)
                && Took(old(Slots()), Slots(), old(book), book, Slot(seqNo, streamId, now, size), slot)
              else Slots() == old(Slots()) && lossCount == old(lossCount) && book == old(book)
    {
      ghost var slots := Slots();
      slot := 0;
      var inOrder := Advance(seqNo, streamId);
      if !inOrder {
        return;
      }
      slot := TakeSlot(Slot(seqNo, streamId, now, size), slots, book);
    }

    /** The last number of the stream, which starts at zero, is moved on by a packet in order. */
    method Advance(seqNo: nat, streamId: nat) returns (inOrder: bool)
      requires Valid()
      modifies this`lastSentSeq
      ensures inOrder == old(Accepts(seqNo, streamId))
      ensures Valid() && Slots() == old(Slots())
      ensures inOrder ==> lastSentSeq == old(lastSentSeq)[streamId := seqNo]
      ensures !inOrder ==>
                lastSentSeq == old(if streamId in lastSentSeq then lastSentSeq else lastSentSeq[streamId := 0])
    {
      if streamId !in lastSentSeq {
        lastSentSeq := lastSentSeq[streamId := 0];
      }
      if !SeqGt(seqNo, lastSentSeq[streamId]) || seqNo == lastSentSeq[streamId] {
        return false;
      }
      lastSentSeq := lastSentSeq[streamId := seqNo];
      return true;
    }

    /** The packet takes its slot; just when all are taken another one is given up for it. */
    method TakeSlot(packet: Slot, ghost slots: seq<Slot>, ghost before: Book) returns (slot: nat)
      requires Valid() && packet.sendTime > 0.0 && slots == Slots() && before == book
      modifies this`inflightDataSize, this`lossCount, this`book, inflightPackets
      ensures Valid() && Took(slots, Slots(), before, book, packet, slot)
      ensures lossCount == old(lossCount) + (if OccupiedCount(slots) == SLOTS then 1 else 0)
    {
      slot := ChooseSlot();
      GivesUpWhenFull(Slots(), slot);
      UseSlot(slot, packet);
    }

    method UseSlot(slot: nat, packet: Slot)
      requires Valid() && slot < SLOTS && packet.sendTime > 0.0
      modifies this`inflightDataSize, this`lossCount, this`book, inflightPackets
      ensures Valid() && book == Sent(old(book), old(Slots())[slot], packet)
      ensures Slots() == old(Slots())[slot := packet] && lossCount == old(lossCount) + CountOf(old(Slots())[slot])
    {
      PutPacket(slot, packet);
      SentBalanced(book, old(Slots()), slot, packet);
      SentCount(book, old(Slots())[slot], packet);
      book := Sent(book, old(Slots())[slot], packet);
    }

    method PutPacket(slot: nat, packet: Slot)
      requires Sized() && slot < SLOTS && packet.sendTime > 0.0
      modifies this`inflightDataSize, this`lossCount, inflightPackets
      ensures Sized()
      ensures Slots() == old(Slots())[slot := packet] && lossCount == old(lossCount) + CountOf(old(Slots())[slot])
    {
      SlotChanged(Slots(), slot, packet);
      if inflightPackets[slot].sendTime > 0.0 {
        SlotCounted(Slots(), slot);
        inflightDataSize := inflightDataSize - inflightPackets[slot].size;
        lossCount := lossCount + 1;
      }
      inflightPackets[slot] := packet;
      inflightDataSize := inflightDataSize + packet.size;
      assert Slots() == old(Slots())[slot := packet];
    }

    /** The first slot with a packet is freed. */
    method FreeFirst(seqNo: nat, streamId: nat) returns (k: nat)
      requires Sized()
      modifies this`inflightDataSize, inflightPackets
      ensures Sized() && k == Find(old(Slots()), seqNo, streamId)
      ensures Slots() == if k < SLOTS then old(Slots())[k := Freed(old(Slots())[k])] else old(Slots())
      ensures inflightDataSize == old(inflightDataSize) - (if k < SLOTS then old(Slots())[k].size else 0)
    {
      k := 0;
      assert Slots()[0..] == Slots();
      while k < SLOTS
        invariant k <= SLOTS && Slots() == old(Slots()) && inflightDataSize == old(inflightDataSize)
        invariant Find(Slots(), seqNo, streamId) == k + Find(Slots()[k..], seqNo, streamId)
      {
        assert Slots()[k..][1..] == Slots()[k + 1..];
        var packet := inflightPackets[k];
        if packet.seqNo == seqNo && packet.streamId == streamId && packet.sendTime > 0.0 {
          SlotChanged(Slots(), k, Freed(packet));
          SlotCounted(Slots(), k);
          inflightPackets[k] := Freed(packet);
          inflightDataSize := inflightDataSize - packet.size;
          assert Slots() == old(Slots())[k := Freed(packet)];
          return;
        }
        k := k + 1;
      }
    }

    /** An acknowledged packet leaves its slot, and its round trip is noted. */
    method PacketAcknowledged(seqNo: nat, streamId: nat, now: real)
      requires Valid()
      modifies this`inflightDataSize, this`tmpRtt, this`tmpRttCount, this`book, inflightPackets
      ensures Valid()
      ensures var k := Find(old(Slots()), seqNo, streamId);
              if k < SLOTS then
                && Slots() == old(Slots())[k := Freed(old(Slots())[k])]
                && book == Acknowledged(old(book), old(Slots())[k])
                && inflightDataSize == old(inflightDataSize) - old(Slots())[k].size
                && tmpRtt == old(tmpRtt) + (now - old(Slots())[k].sendTime) && tmpRttCount == old(tmpRttCount) + 1
              else
                Slots() == old(Slots()) && book == old(book) && tmpRttCount == old(tmpRttCount)
    {
      var sent := SendTimeOf(seqNo, streamId);
      var k := FreeFirst(seqNo, streamId);
      if k < SLOTS {
        tmpRtt := tmpRtt + (now - sent);
        tmpRttCount := tmpRttCount + 1;
        AcknowledgedBalanced(book, old(Slots()), k);
        book := Acknowledged(book, old(Slots())[k]);
      }
    }

    method SendTimeOf(seqNo: nat, streamId: nat) returns (t: real)
      requires Valid()
      ensures var k := Find(Slots(), seqNo, streamId); k < SLOTS ==> t == Slots()[k].sendTime
    {
      t := 0.0;
      var k := 0;
      assert Slots()[0..] == Slots();
      while k < SLOTS
        invariant k <= SLOTS
        invariant Find(Slots(), seqNo, streamId) == k + Find(Slots()[k..], seqNo, streamId)
      {
        assert Slots()[k..][1..] == Slots()[k + 1..];
        var packet := inflightPackets[k];
        if packet.seqNo == seqNo && packet.streamId == streamId && packet.sendTime > 0.0 {
          return packet.sendTime;
        }
        k := k + 1;
      }
    }

    method PacketLost(seqNo: nat, streamId: nat)
      requires Valid()
      modifies this`inflightDataSize, this`lossCount, this`book, inflightPackets
      ensures Valid()
      ensures var k := Find(old(Slots()), seqNo, streamId);
              if k < SLOTS then
                && Slots() == old(Slots())[k := Freed(old(Slots())[k])]
                && book == GivenUp(old(book), old(Slots())[k]) && lossCount == old(lossCount) + 1
                && inflightDataSize == old(inflightDataSize) - old(Slots())[k].size
              else Slots() == old(Slots()) && book == old(book) && lossCount == old(lossCount)
    {
      var k := FreeFirst(seqNo, streamId);
      if k < SLOTS {
        lossCount := lossCount + 1;
        GivenUpBalanced(book, old(Slots()), k);
        book := GivenUp(book, old(Slots())[k]);
      }
    }

    /** Packets without an answer for more than two seconds are given up. */
    method Tick(now: real)
      requires Valid()
      modifies this`inflightDataSize, this`lossCount, this`book, this`tmpRtt, this`tmpRttCount, inflightPackets
      ensures Valid() && tmpRttCount == 0
      ensures Slots() == Swept(old(Slots()), now) && lossCount == old(lossCount) + OldCount(old(Slots()), now)
      ensures book == old(book).(lost := old(book).lost + OldOf(old(Slots()), now))
      ensures forall k | 0 <= k < SLOTS ::
                var was := old(Slots())[k].sendTime;
                Slots()[k].sendTime == if was != 0.0 && now - was > 2.0 then 0.0 else was
    {
      if tmpRttCount > 0 {
        tmpRtt := 0.0;
        tmpRttCount := 0;
      }
      SweepAll(now);
      SweptBalanced(book, old(Slots()), now);
      book := book.(lost := book.lost + OldOf(old(Slots()), now));
    }

    method SweepAll(now: real)
      requires Sized()
      modifies this`inflightDataSize, this`lossCount, inflightPackets
      ensures Sized()
      ensures Slots() == Swept(old(Slots()), now) && lossCount == old(lossCount) + OldCount(old(Slots()), now)
    {
      var k := 0;
      assert Slots()[0..] == Slots();
      while k < SLOTS
        invariant k <= SLOTS && Sized()
        invariant lossCount >= old(lossCount) && SweptTo(old(Slots()), Slots(), k, lossCount - old(lossCount), now)
      {
        SweptStep(old(Slots()), Slots(), k, lossCount - old(lossCount), now);
        SweepSlot(k, now);
        k := k + 1;
      }
    }

    method SweepSlot(k: nat, now: real)
      requires Sized() && k < SLOTS
      modifies this`inflightDataSize, this`lossCount, inflightPackets
      ensures Sized()
      ensures var s := old(Slots())[k];
              && Slots() == old(Slots())[k := if TooOld(s, now) then Freed(s) else s]
              && lossCount == old(lossCount) + (if TooOld(s, now) then 1 else 0)
    {
      var packet := inflightPackets[k];
      if packet.sendTime != 0.0 && now - packet.sendTime > LOST_AFTER {
        SlotChanged(Slots(), k, Freed(packet));
        SlotCounted(Slots(), k);
        inflightPackets[k] := Freed(packet);
        inflightDataSize := inflightDataSize - packet.size;
        lossCount := lossCount + 1;
        assert Slots() == old(Slots())[k := Freed(packet)];
      }
    }
  }

  lemma {:induction false} NoneOccupied(slots: seq<Slot>)
    requires forall k | 0 <= k < |slots| :: !Occupied(slots[k])
    ensures DataSize(slots) == 0 && Held(slots) == multiset{}
  {
    if slots != [] {
      NoneOccupied(slots[1..]);
    }
  }
}
