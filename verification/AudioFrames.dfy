/**
 * Redundant audio: a packet carries older frames in a second encoding, in eight slots by their
 * distance, and the receiver files them under the time stamps of their frames.
 */
module AudioFrames {

  type Data = seq<bv8>

  /** A frame that was sent: its sequence number, and its second encoding if it has one. */
  datatype Frame = Frame(seqNo: nat, hasSecondary: bool, secondary: Data)

  /** A second encoding with the number of its frame; the number is there to say where it belongs. */
  datatype Secondary = Secondary(data: Data, origin: nat)

  datatype Slot = Empty | Filled(frame: Secondary)

  const SLOTS := 8

  function Min(a: nat, b: nat): nat {
    if a < b then a else b
  }

  /** The second encodings the sender keeps: the last eight. */
  function Kept(history: seq<Frame>): (r: seq<Secondary>)
    ensures |r| <= SLOTS
    decreases |history|
  {
    if history == [] then []
    else
      var before, f := Kept(history[..|history| - 1]), history[|history| - 1];
      if !f.hasSecondary then before else Pushed(before, Secondary(f.secondary, f.seqNo))
  }

  function Pushed(q: seq<Secondary>, s: Secondary): (r: seq<Secondary>)
    requires |q| <= SLOTS
    ensures |r| <= SLOTS
  {
    var all := q + [s];
    if |all| == SLOTS + 1 then all[1..] else all
  }

  /** How many older frames a packet carries; the sequence number is cut to a byte. */
  function MaxEc(q: seq<Secondary>, seqNo: nat, level: nat): nat
    requires seqNo >= 1
  {
    Min(Min(|q|, (seqNo - 1) % 256), level)
  }

  /** At a distance, what was pushed so many places ago, if its frame is not acknowledged. */
  function SlotAt(q: seq<Secondary>, seqNo: nat, level: nat, acked: set<int>, distance: nat): Slot
    requires seqNo >= 1 && distance >= 1
  {
    if distance <= MaxEc(q, seqNo, level) && (seqNo - distance) !in acked then Filled(q[|q| - distance]) else Empty
  }

  /** The slots of a packet; the last is for the frame just before. */
  function SlotsOf(q: seq<Secondary>, seqNo: nat, level: nat, acked: set<int>): (r: seq<Slot>)
    requires seqNo >= 1 && |q| <= SLOTS
    ensures |r| == SLOTS && forall i | 0 <= i < SLOTS :: r[i] == SlotAt(q, seqNo, level, acked, SLOTS - i)
  {
    seq(SLOTS, i requires 0 <= i < SLOTS => SlotAt(q, seqNo, level, acked, SLOTS - i))
  }

  /** A frame that the receiver hands to its buffer. */
  datatype Filed = Filed(timestamp: int, frame: Secondary)

  /** Sequence numbers start at one, time stamps at zero. */
  function FiledOf(slots: seq<Slot>, seqNo: nat, n: nat): (r: seq<Filed>)
    requires n <= |slots|
  {
    if n == 0 then []
    else
      var before := FiledOf(slots, seqNo, n - 1);
      if slots[n - 1].Filled? then before + [Filed(seqNo - 1 - (SLOTS - (n - 1)), slots[n - 1].frame)] else before
  }

  // ----- Both ends

  /** Sequence numbers go up. */
  predicate Rising(history: seq<Frame>) {
    forall i, j | 0 <= i < j < |history| :: history[i].seqNo < history[j].seqNo
  }

  /** The kept encodings are in the order of their frames, and all from frames that were sent. */
  predicate KeptRising(q: seq<Secondary>, below: nat) {
    && (forall i, j | 0 <= i < j < |q| :: q[i].origin < q[j].origin)
    && (forall i | 0 <= i < |q| :: q[i].origin < below)
  }

  predicate Below(history: seq<Frame>, seqNo: nat) {
    forall i | 0 <= i < |history| :: history[i].seqNo < seqNo
  }

  lemma {:induction false} KeptInOrder(history: seq<Frame>, seqNo: nat)
    requires Rising(history) && Below(history, seqNo)
    ensures KeptRising(Kept(history), seqNo)
    decreases |history|
  {
    if history != [] {
      var before, f := history[..|history| - 1], history[|history| - 1];
      KeptInOrder(before, f.seqNo);
    }
  }

  /** What was kept at distance d is no newer than its slot says. */
  lemma {:induction false} NotNewer(q: seq<Secondary>, seqNo: nat, d: nat)
    requires KeptRising(q, seqNo) && 1 <= d <= |q|
    ensures q[|q| - d].origin + d <= seqNo
    decreases d
  {
    if d > 1 {
      NotNewer(q, seqNo, d - 1);
    }
  }

  /** The frame d places before a packet had a second encoding and was sent. */
  predicate Sent(history: seq<Frame>, seqNo: nat, d: nat) {
    exists k :: 0 <= k < |history| && history[k].seqNo + d == seqNo && history[k].hasSecondary
  }

  lemma {:induction false} KeptComesFrom(history: seq<Frame>, i: nat)
    requires i < |Kept(history)|
    ensures exists k :: 0 <= k < |history| && history[k].hasSecondary && history[k].seqNo == Kept(history)[i].origin
                   && history[k].secondary == Kept(history)[i].data
    decreases |history|
  {
    var before, f := history[..|history| - 1], history[|history| - 1];
    var q := Kept(before);
    var shift := if f.hasSecondary && |q| == SLOTS then 1 else 0;
    if i + shift < |q| {
      KeptComesFrom(before, i + shift);
      var k :| 0 <= k < |before| && before[k].hasSecondary && before[k].seqNo == q[i + shift].origin
               && before[k].secondary == q[i + shift].data;
      assert history[k] == before[k];
    }
  }

  /** With every one of the last d frames sent with a second encoding, distance d holds the right one. */
  lemma {:induction false} RightWhenSent(history: seq<Frame>, seqNo: nat, d: nat)
    requires Rising(history) && Below(history, seqNo) && 1 <= d <= |Kept(history)|
    requires forall e: nat | 1 <= e <= d :: Sent(history, seqNo, e)
    ensures Kept(history)[|Kept(history)| - d].origin + d == seqNo
    decreases |history|
  {
    var before, f := history[..|history| - 1], history[|history| - 1];
    LastSent(history, seqNo);
    if d > 1 {
      forall e: nat | 1 <= e <= d - 1 ensures Sent(before, f.seqNo, e) {
        SentBefore(history, seqNo, e + 1);
      }
      RightWhenSent(before, f.seqNo, d - 1);
    }
  }

  lemma LastSent(history: seq<Frame>, seqNo: nat)
    requires Rising(history) && Below(history, seqNo) && Sent(history, seqNo, 1)
    ensures history != [] && history[|history| - 1].seqNo + 1 == seqNo && history[|history| - 1].hasSecondary
  {
    var k :| 0 <= k < |history| && history[k].seqNo + 1 == seqNo && history[k].hasSecondary;
    assert history[k].seqNo <= history[|history| - 1].seqNo < seqNo;
  }

  lemma SentBefore(history: seq<Frame>, seqNo: nat, e: nat)
    requires Rising(history) && Below(history, seqNo) && e >= 2 && Sent(history, seqNo, 1) && Sent(history, seqNo, e)
    ensures Sent(history[..|history| - 1], history[|history| - 1].seqNo, e - 1)
  {
    LastSent(history, seqNo);
    var k :| 0 <= k < |history| && history[k].seqNo + e == seqNo && history[k].hasSecondary;
    var before := history[..|history| - 1];
    assert k < |before| && before[k] == history[k];
  }

  /** Distance d holds the right encoding just when each of the last d frames was sent with one. */
  lemma RightIff(history: seq<Frame>, seqNo: nat, d: nat)
    requires Rising(history) && Below(history, seqNo) && 1 <= d <= |Kept(history)|
    ensures Kept(history)[|Kept(history)| - d].origin + d == seqNo
            <==> forall e: nat | 1 <= e <= d :: Sent(history, seqNo, e)
  {
    var q := Kept(history);
    if q[|q| - d].origin + d == seqNo {
      KeptInOrder(history, seqNo);
      forall e: nat | 1 <= e <= d ensures Sent(history, seqNo, e) {
        Between(q, seqNo, d, e);
        KeptComesFrom(history, |q| - e);
      }
    } else if forall e: nat | 1 <= e <= d :: Sent(history, seqNo, e) {
      RightWhenSent(history, seqNo, d);
    }
  }

  /** There is no room for a gap. */
  lemma {:induction false} Between(q: seq<Secondary>, seqNo: nat, d: nat, e: nat)
    requires KeptRising(q, seqNo) && 1 <= e <= d <= |q| && q[|q| - d].origin + d == seqNo
    ensures q[|q| - e].origin + e == seqNo
    decreases d - e
  {
    NotNewer(q, seqNo, e);
    if e < d {
      Between(q, seqNo, d, e + 1);
    }
  }

  lemma {:induction false} FiledFrom(slots: seq<Slot>, seqNo: nat, n: nat, j: nat)
    requires n <= |slots| && j < |FiledOf(slots, seqNo, n)|
    ensures exists i :: 0 <= i < n && slots[i].Filled?
                   && FiledOf(slots, seqNo, n)[j] == Filed(seqNo - 1 - (SLOTS - i), slots[i].frame)
  {
    if j < |FiledOf(slots, seqNo, n - 1)| {
      FiledFrom(slots, seqNo, n - 1, j);
    }
  }

  /** What the receiver files for a packet, behind its own frame. */
  function FiledFor(history: seq<Frame>, seqNo: nat, level: nat, acked: set<int>): seq<Filed>
    requires seqNo >= 1
  {
    FiledOf(SlotsOf(Kept(history), seqNo, level, acked), seqNo, SLOTS)
  }

  /** The frame with this number had this second encoding. */
  predicate Encodes(history: seq<Frame>, s: Secondary) {
    exists k :: 0 <= k < |history| && history[k].hasSecondary && history[k].seqNo == s.origin
                && history[k].secondary == s.data
  }

  /**
   * Whatever numbers were used and whichever frames had a second encoding: each frame that is filed is the
   * second encoding of one that was sent, from one to eight places back, and it is filed under the time
   * stamp of its own frame if and only if each frame from that one on was sent with a second encoding.
   */
  lemma FiledIff(history: seq<Frame>, seqNo: nat, level: nat, acked: set<int>, j: nat)
    requires Rising(history) && Below(history, seqNo) && seqNo >= 1
    requires j < |FiledFor(history, seqNo, level, acked)|
    ensures var f := FiledFor(history, seqNo, level, acked)[j];
            var d := seqNo - 1 - f.timestamp;
            && 1 <= d <= SLOTS && Encodes(history, f.frame)
            && (f.frame.origin - 1 == f.timestamp <==> forall e: nat | 1 <= e <= d :: Sent(history, seqNo, e))
  {
    var q := Kept(history);
    var slots := SlotsOf(q, seqNo, level, acked);
    FiledFrom(slots, seqNo, SLOTS, j);
    var i :| 0 <= i < SLOTS && slots[i].Filled?
             && FiledFor(history, seqNo, level, acked)[j] == Filed(seqNo - 1 - (SLOTS - i), slots[i].frame);
    FilledSlot(q, seqNo, level, acked, i);
    KeptComesFrom(history, |q| - (SLOTS - i));
    RightIff(history, seqNo, SLOTS - i);
  }

  // ----- Which are kept, and which are filed

  /** How many frames were sent with a second encoding. */
  function Encodings(history: seq<Frame>): nat
    decreases |history|
  {
    if history == [] then 0
    else Encodings(history[..|history| - 1]) + (if history[|history| - 1].hasSecondary then 1 else 0)
  }

  /** How many after a frame. */
  function After(history: seq<Frame>, k: nat): nat
    requires k < |history|
    decreases |history|
  {
    if k == |history| - 1 then 0
    else After(history[..|history| - 1], k) + (if history[|history| - 1].hasSecondary then 1 else 0)
  }

  /** All second encodings are kept, up to eight. */
  lemma {:induction false} KeptCount(history: seq<Frame>)
    ensures |Kept(history)| == if Encodings(history) <= 8 then Encodings(history) else 8
    decreases |history|
  {
    if history != [] {
      KeptCount(history[..|history| - 1]);
    }
  }

  /** Those kept are the last ones, in order: a frame's is as far from the end as there were later ones. */
  lemma {:induction false} KeptLast(history: seq<Frame>, k: nat)
    requires k < |history| && history[k].hasSecondary && After(history, k) < 8
    ensures var q, n := Kept(history), After(history, k);
            n < |q| && q[|q| - 1 - n] == Secondary(history[k].secondary, history[k].seqNo)
    decreases |history|
  {
    if k < |history| - 1 {
      KeptLast(history[..|history| - 1], k);
    }
  }

  lemma {:induction false} FiledIn(slots: seq<Slot>, seqNo: nat, n: nat, i: nat) returns (j: nat)
    requires i < n <= |slots| && slots[i].Filled?
    ensures j < |FiledOf(slots, seqNo, n)|
    ensures FiledOf(slots, seqNo, n)[j] == Filed(seqNo - 1 - (SLOTS - i), slots[i].frame)
  {
    if i < n - 1 {
      j := FiledIn(slots, seqNo, n - 1, i);
    } else {
      j := |FiledOf(slots, seqNo, n - 1)|;
    }
  }

  /** Something is filed under the time stamp d frames back. */
  predicate FiledAt(filed: seq<Filed>, seqNo: nat, d: nat) {
    exists j :: 0 <= j < |filed| && filed[j].timestamp == seqNo - 1 - d
  }

  /**
   * The receiver files something for d frames back if and only if so many second encodings were kept, the level
   * and the byte of the number go so far, and the packet with that number was not acknowledged.
   */
  lemma FiledWhen(history: seq<Frame>, seqNo: nat, level: nat, acked: set<int>, d: nat)
    requires seqNo >= 1 && 1 <= d <= 8
    ensures FiledAt(FiledFor(history, seqNo, level, acked), seqNo, d) <==>
            d <= Encodings(history) && d <= level && d <= (seqNo - 1) % 256 && (seqNo - d) !in acked
  {
    var slots, filed := SlotsOf(Kept(history), seqNo, level, acked), FiledFor(history, seqNo, level, acked);
    KeptCount(history);
    var i := 8 - d;
    if slots[i].Filled? {
      var j := FiledIn(slots, seqNo, SLOTS, i);
      assert filed[j].timestamp == seqNo - 1 - d;
    }
    if FiledAt(filed, seqNo, d) {
      var j :| 0 <= j < |filed| && filed[j].timestamp == seqNo - 1 - d;
      FiledFrom(slots, seqNo, SLOTS, j);
    }
  }

  /** Numbers follow each other from one on, and every frame has a second encoding. */
  predicate Consecutive(history: seq<Frame>) {
    forall k | 0 <= k < |history| :: history[k].seqNo == k + 1 && history[k].hasSecondary
  }

  /**
   * When every frame has a second encoding and numbers are consecutive, what is filed under a time
   * stamp is the second encoding of the frame with that time stamp.
   */
  lemma FiledRight(history: seq<Frame>, level: nat, acked: set<int>, j: nat)
    requires Consecutive(history)
    requires j < |FiledFor(history, |history| + 1, level, acked)|
    ensures var f := FiledFor(history, |history| + 1, level, acked)[j];
            0 <= f.timestamp < |history| && f.frame.data == history[f.timestamp].secondary
            && history[f.timestamp].seqNo - 1 == f.timestamp
  {
    var seqNo := |history| + 1;
    var q := Kept(history);
    var slots := SlotsOf(q, seqNo, level, acked);
    FiledFrom(slots, seqNo, SLOTS, j);
    var i :| 0 <= i < SLOTS && slots[i].Filled?
             && FiledFor(history, seqNo, level, acked)[j] == Filed(seqNo - 1 - (SLOTS - i), slots[i].frame);
    FilledSlot(q, seqNo, level, acked, i);
    KeptAt(history, SLOTS - i);
  }

  /** What a filled slot holds, and how far back it reaches. */
  lemma FilledSlot(q: seq<Secondary>, seqNo: nat, level: nat, acked: set<int>, i: nat)
    requires seqNo >= 1 && |q| <= SLOTS && i < SLOTS && SlotsOf(q, seqNo, level, acked)[i].Filled?
    ensures 1 <= SLOTS - i <= |q| && SLOTS - i <= seqNo - 1
    ensures SlotsOf(q, seqNo, level, acked)[i] == Filled(q[|q| - (SLOTS - i)])
  {
    assert (seqNo - 1) % 256 <= seqNo - 1;
  }

  lemma KeptAt(history: seq<Frame>, d: nat)
    requires Consecutive(history) && 1 <= d <= |Kept(history)| && d <= |history|
    ensures Kept(history)[|Kept(history)| - d] == Secondary(history[|history| - d].secondary, |history| - d + 1)
  {
    var seqNo, q := |history| + 1, Kept(history);
    forall e: nat | 1 <= e <= d ensures Sent(history, seqNo, e) {
      assert history[seqNo - e - 1].seqNo + e == seqNo;
    }
    RightIff(history, seqNo, d);
    KeptComesFrom(history, |q| - d);
    var k :| 0 <= k < |history| && history[k].hasSecondary && history[k].seqNo == q[|q| - d].origin
             && history[k].secondary == q[|q| - d].data;
  }

  /** A frame without a second encoding makes the receiver file the one before it under its time stamp. */
  lemma FiledWrong(data: Data)
    ensures var history := [Frame(1, true, data), Frame(2, false, [])];
            FiledFor(history, 3, 1, {}) == [Filed(1, Secondary(data, 1))]
  {
    var history := [Frame(1, true, data), Frame(2, false, [])];
    KeptOne(data);
    var slots := SlotsOf([Secondary(data, 1)], 3, 1, {});
    assert MaxEc([Secondary(data, 1)], 3, 1) == 1;
    assert slots[7] == Filled(Secondary(data, 1));
    FirstEmpty(slots, 3, 7);
  }

  lemma KeptOne(data: Data)
    ensures Kept([Frame(1, true, data), Frame(2, false, [])]) == [Secondary(data, 1)]
  {
    var history := [Frame(1, true, data), Frame(2, false, [])];
    assert history[..1] == [Frame(1, true, data)];
    assert [Frame(1, true, data)][..0] == [];
    assert Kept([]) == [];
  }

  lemma {:induction false} FirstEmpty(slots: seq<Slot>, seqNo: nat, n: nat)
    requires n <= |slots| && forall i | 0 <= i < n :: slots[i].Empty?
    ensures FiledOf(slots, seqNo, n) == []
  {
    if n > 0 {
      FirstEmpty(slots, seqNo, n - 1);
    }
  }
}
