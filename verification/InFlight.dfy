/** Packets in flight: the slots, what they hold, and which slot a new packet takes. */
module InFlight {

  const M32 := 0x1_0000_0000
  const SEQ_MAX := 0xFFFF_FFFF

  /** The order of sequence numbers that wrap around. */
  predicate SeqGt(s1: nat, s2: nat) {
    (s1 > s2 && s1 - s2 <= SEQ_MAX / 2) || (s1 < s2 && s2 - s1 > SEQ_MAX / 2)
  }

  /** Of two different numbers just one comes after the other; the next numbers come after, across the wrap too. */
  lemma SeqOrder(a: nat, b: nat, n: nat)
    requires a < M32 && b < M32 && 1 <= n < 0x8000_0000
    ensures a != b ==> (SeqGt(a, b) <==> !SeqGt(b, a))
    ensures !SeqGt(a, a) && SeqGt((a + n) % M32, a)
  {
    if a + n >= M32 {
      assert (a + n) % M32 == a + n - M32;
    } else {
      assert (a + n) % M32 == a + n;
    }
  }

  /** A number comes after another when it is ahead by less than half of all, or by just half across the wrap. */
  lemma SeqGtIff(a: nat, b: nat)
    requires a < M32 && b < M32
    ensures var ahead := (a - b) % M32;
            SeqGt(a, b) <==> 1 <= ahead < 0x8000_0000 || (ahead == 0x8000_0000 && a < b)
  {
    if a >= b {
      assert (a - b) % M32 == a - b;
    } else {
      assert (a - b) % M32 == a - b + M32;
    }
  }

  /** A slot is free when its time is zero. */
  datatype Slot = Slot(seqNo: nat, streamId: nat, sendTime: real, size: nat)

  predicate Occupied(s: Slot) {
    s.sendTime != 0.0
  }

  /** The bytes in flight. */
  function DataSize(slots: seq<Slot>): nat {
    if slots == [] then 0 else (if Occupied(slots[0]) then slots[0].size else 0) + DataSize(slots[1..])
  }

  function OccupiedCount(slots: seq<Slot>): nat {
    if slots == [] then 0 else (if Occupied(slots[0]) then 1 else 0) + OccupiedCount(slots[1..])
  }

  function SizeOf(s: Slot): nat {
    if Occupied(s) then s.size else 0
  }

  function CountOf(s: Slot): nat {
    if Occupied(s) then 1 else 0
  }

  /** Changing one slot changes the sums by that slot. */
  lemma {:induction false} SlotChanged(slots: seq<Slot>, k: nat, s: Slot)
    requires k < |slots|
    ensures DataSize(slots[k := s]) + SizeOf(slots[k]) == DataSize(slots) + SizeOf(s)
    ensures OccupiedCount(slots[k := s]) + CountOf(slots[k]) == OccupiedCount(slots) + CountOf(s)
    decreases |slots|
  {
    if k == 0 {
      assert slots[0 := s][1..] == slots[1..];
    } else {
      assert slots[k := s][1..] == slots[1..][k - 1 := s];
      SlotChanged(slots[1..], k - 1, s);
    }
  }

  lemma {:induction false} SlotCounted(slots: seq<Slot>, k: nat)
    requires k < |slots| && Occupied(slots[k])
    ensures DataSize(slots) >= slots[k].size && OccupiedCount(slots) >= 1
    decreases |slots|
  {
    if k > 0 {
      SlotCounted(slots[1..], k - 1);
    }
  }

  lemma {:induction false} OccupiedAtMost(slots: seq<Slot>)
    ensures OccupiedCount(slots) <= |slots|
    ensures OccupiedCount(slots) == |slots| <==> forall k | 0 <= k < |slots| :: Occupied(slots[k])
  {
    if slots != [] {
      OccupiedAtMost(slots[1..]);
      assert slots == [slots[0]] + slots[1..];
    }
  }

  /** The slot a new packet takes: the first free one; when all are taken, the first of the oldest. */
  predicate Takes(slots: seq<Slot>, k: nat) {
    && k < |slots|
    && if exists i :: 0 <= i < |slots| && !Occupied(slots[i])
       then !Occupied(slots[k]) && forall i | 0 <= i < k :: Occupied(slots[i])
       else (forall i | 0 <= i < |slots| :: slots[k].sendTime <= slots[i].sendTime)
            && (forall i | 0 <= i < k :: slots[k].sendTime < slots[i].sendTime)
  }

  /** Only one slot fits that. */
  lemma TakesUnique(slots: seq<Slot>, j: nat, k: nat)
    requires Takes(slots, j) && Takes(slots, k)
    ensures j == k
  {
  }

  predicate Matches(s: Slot, seqNo: nat, streamId: nat) {
    s.seqNo == seqNo && s.streamId == streamId && Occupied(s)
  }

  /** The first slot with a packet; the number of slots when there is none. */
  function Find(slots: seq<Slot>, seqNo: nat, streamId: nat): (k: nat)
    ensures k <= |slots| && (k < |slots| ==> Matches(slots[k], seqNo, streamId))
    ensures forall i | 0 <= i < k :: !Matches(slots[i], seqNo, streamId)
  {
    if slots == [] || Matches(slots[0], seqNo, streamId) then 0 else 1 + Find(slots[1..], seqNo, streamId)
  }

  const LOST_AFTER := 2.0

  predicate TooOld(s: Slot, now: real) {
    Occupied(s) && now - s.sendTime > LOST_AFTER
  }

  function Freed(s: Slot): Slot {
    s.(sendTime := 0.0)
  }

  /** The slots after packets without an answer for too long are given up. */
  function Swept(slots: seq<Slot>, now: real): (r: seq<Slot>)
    ensures |r| == |slots|
    ensures forall k | 0 <= k < |slots| :: r[k] == if TooOld(slots[k], now) then Freed(slots[k]) else slots[k]
  {
    if slots == [] then [] else [if TooOld(slots[0], now) then Freed(slots[0]) else slots[0]] + Swept(slots[1..], now)
  }

  function OldCount(slots: seq<Slot>, now: real): nat {
    if slots == [] then 0 else (if TooOld(slots[0], now) then 1 else 0) + OldCount(slots[1..], now)
  }

  /** The first k slots have been swept, which gave up so many packets. */
  predicate SweptTo(before: seq<Slot>, slots: seq<Slot>, k: nat, lost: nat, now: real) {
    && k <= |before| == |slots|
    && (forall i | 0 <= i < k :: slots[i] == Swept(before, now)[i])
    && (forall i | k <= i < |before| :: slots[i] == before[i])
    && lost + OldCount(before[k..], now) == OldCount(before, now)
  }

  lemma SweptStep(before: seq<Slot>, slots: seq<Slot>, k: nat, lost: nat, now: real)
    requires SweptTo(before, slots, k, lost, now) && k < |before|
    ensures slots[k] == before[k]
    ensures SweptTo(before, slots[k := if TooOld(before[k], now) then Freed(before[k]) else before[k]], k + 1,
                    lost + (if TooOld(before[k], now) then 1 else 0), now)
  {
    assert before[k..][1..] == before[k + 1..];
  }

  // ----- Every packet by itself

  /** The packet of a slot. */
  function Packet(s: Slot): multiset<Slot> {
    if Occupied(s) then multiset{s} else multiset{}
  }

  /** The packets in flight. */
  function Held(slots: seq<Slot>): (r: multiset<Slot>)
    ensures |r| == OccupiedCount(slots)
  {
    if slots == [] then multiset{} else Packet(slots[0]) + Held(slots[1..])
  }

  /** The packets that are too old. */
  function OldOf(slots: seq<Slot>, now: real): (r: multiset<Slot>)
    ensures |r| == OldCount(slots, now)
  {
    if slots == [] then multiset{}
    else (if TooOld(slots[0], now) then multiset{slots[0]} else multiset{}) + OldOf(slots[1..], now)
  }

  /** The packets that were taken into account, those of them that were acknowledged, and those given up. */
  datatype Book = Book(accepted: multiset<Slot>, acknowledged: multiset<Slot>, lost: multiset<Slot>)

  const EMPTY_BOOK := Book(multiset{}, multiset{}, multiset{})

  /** Every packet that was taken into account was acknowledged or given up or is in a slot, just once. */
  predicate Balanced(book: Book, slots: seq<Slot>) {
    book.accepted == book.acknowledged + book.lost + Held(slots)
  }

  /** A packet takes a slot; what is in it is given up. */
  function Sent(book: Book, before: Slot, packet: Slot): Book {
    Book(book.accepted + multiset{packet}, book.acknowledged, book.lost + Packet(before))
  }

  function Acknowledged(book: Book, packet: Slot): Book {
    book.(acknowledged := book.acknowledged + multiset{packet})
  }

  function GivenUp(book: Book, packet: Slot): Book {
    book.(lost := book.lost + multiset{packet})
  }

  lemma {:induction false} HeldChanged(slots: seq<Slot>, k: nat, s: Slot)
    requires k < |slots|
    ensures Held(slots[k := s]) + Packet(slots[k]) == Held(slots) + Packet(s)
    decreases |slots|
  {
    var now := slots[k := s];
    if k == 0 {
      assert now[1..] == slots[1..];
    } else {
      assert now[1..] == slots[1..][k - 1 := s];
      HeldChanged(slots[1..], k - 1, s);
      Carried(Packet(slots[0]), Held(now[1..]), Packet(slots[k]), Held(slots[1..]), Packet(s));
    }
  }

  lemma Carried(a: multiset<Slot>, b: multiset<Slot>, c: multiset<Slot>, d: multiset<Slot>, e: multiset<Slot>)
    requires b + c == d + e
    ensures a + b + c == a + d + e
  {
    assert a + b + c == a + (b + c);
    assert a + d + e == a + (d + e);
  }

  /** One thing comes into the balance, and another goes over to the other side. */
  lemma Moved(all: multiset<Slot>, settled: multiset<Slot>, held: multiset<Slot>, now: multiset<Slot>,
              added: multiset<Slot>, gone: multiset<Slot>)
    requires all == settled + held && now + gone == held + added
    ensures all + added == settled + gone + now
  {
    assert all + added == settled + (held + added);
    assert settled + gone + now == settled + (now + gone);
  }

  lemma SentBalanced(book: Book, slots: seq<Slot>, k: nat, packet: Slot)
    requires Balanced(book, slots) && k < |slots| && Occupied(packet)
    ensures Balanced(Sent(book, slots[k], packet), slots[k := packet])
  {
    HeldChanged(slots, k, packet);
    var settled, gone := book.acknowledged + book.lost, Packet(slots[k]);
    Moved(book.accepted, settled, Held(slots), Held(slots[k := packet]), multiset{packet}, gone);
    assert book.acknowledged + (book.lost + gone) == settled + gone;
  }

  /** A packet has taken the slot that is chosen for it. */
  predicate Took(slots: seq<Slot>, now: seq<Slot>, before: Book, after: Book, packet: Slot, k: nat) {
    Takes(slots, k) && now == slots[k := packet] && after == Sent(before, slots[k], packet)
  }

  lemma GivesUpWhenFull(slots: seq<Slot>, k: nat)
    requires Takes(slots, k)
    ensures CountOf(slots[k]) == if OccupiedCount(slots) == |slots| then 1 else 0
  {
    OccupiedAtMost(slots);
  }

  lemma SentCount(book: Book, before: Slot, packet: Slot)
    ensures |Sent(book, before, packet).lost| == |book.lost| + CountOf(before)
  {
  }

  lemma AcknowledgedBalanced(book: Book, slots: seq<Slot>, k: nat)
    requires Balanced(book, slots) && k < |slots| && Occupied(slots[k])
    ensures Balanced(Acknowledged(book, slots[k]), slots[k := Freed(slots[k])])
  {
    HeldChanged(slots, k, Freed(slots[k]));
    var settled, gone := book.acknowledged + book.lost, multiset{slots[k]};
    Moved(book.accepted, settled, Held(slots), Held(slots[k := Freed(slots[k])]), multiset{}, gone);
    assert book.acknowledged + gone + book.lost == settled + gone;
    assert book.accepted + multiset{} == book.accepted;
  }

  lemma GivenUpBalanced(book: Book, slots: seq<Slot>, k: nat)
    requires Balanced(book, slots) && k < |slots| && Occupied(slots[k])
    ensures Balanced(GivenUp(book, slots[k]), slots[k := Freed(slots[k])])
  {
    HeldChanged(slots, k, Freed(slots[k]));
    var settled, gone := book.acknowledged + book.lost, multiset{slots[k]};
    Moved(book.accepted, settled, Held(slots), Held(slots[k := Freed(slots[k])]), multiset{}, gone);
    assert book.acknowledged + (book.lost + gone) == settled + gone;
    assert book.accepted + multiset{} == book.accepted;
  }

  /** With everything too old given up, what is left is what was left. */
  lemma {:induction false} SweptHeld(slots: seq<Slot>, now: real)
    ensures Held(slots) == OldOf(slots, now) + Held(Swept(slots, now))
    decreases |slots|
  {
    if slots != [] {
      SweptHeld(slots[1..], now);
      assert Swept(slots, now)[1..] == Swept(slots[1..], now);
    }
  }

  lemma SweptBalanced(book: Book, slots: seq<Slot>, now: real)
    requires Balanced(book, slots)
    ensures Balanced(book.(lost := book.lost + OldOf(slots, now)), Swept(slots, now))
  {
    SweptHeld(slots, now);
  }

  /** The counts are those of the packets. */
  lemma BalancedCounts(book: Book, slots: seq<Slot>)
    requires Balanced(book, slots)
    ensures |book.accepted| == |book.acknowledged| + |book.lost| + OccupiedCount(slots)
  {
  }

  /** Sweeping gives up just the occupied slots that are too old. */
  lemma {:induction false} SweptCounts(slots: seq<Slot>, now: real)
    ensures OccupiedCount(Swept(slots, now)) + OldCount(slots, now) == OccupiedCount(slots)
    ensures DataSize(Swept(slots, now)) <= DataSize(slots)
    ensures forall k | 0 <= k < |slots| :: !TooOld(Swept(slots, now)[k], now)
  {
    if slots != [] {
      SweptCounts(slots[1..], now);
      assert Swept(slots, now)[1..] == Swept(slots[1..], now);
    }
  }
}
