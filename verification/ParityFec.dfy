/**
 * Parity over packets of different lengths: one packet more, from which one lost packet can be
 * rebuilt. An empty packet stands for a lost one.
 */
module ParityFec {
  import opened Bytes

  type Packet = seq<bv8>

  function Max(a: nat, b: nat): nat {
    if a < b then b else a
  }

  /** The length of the longest packet. */
  function MaxSize(packets: seq<Packet>): nat {
    if packets == [] then 0 else Max(|packets[0]|, MaxSize(packets[1..]))
  }

  /** The lower and the upper byte of a length kept in sixteen bits. */
  function Lower(n: nat): bv8 {
    Byte(n % 0x10000 % 0x100)
  }

  function Upper(n: nat): bv8 {
    Byte(n % 0x10000 / 0x100)
  }

  /** A packet filled up with zeros, and its length. */
  function Stamp(p: Packet, size: nat): (s: Packet)
    requires |p| <= size
    ensures |s| == size + 2
  {
    p + seq(size - |p|, _ => 0) + [Lower(|p|), Upper(|p|)]
  }

  function Xor(a: Packet, b: Packet): (c: Packet)
    requires |b| <= |a|
    ensures |c| == |a|
  {
    seq(|a|, i requires 0 <= i < |a| => if i < |b| then a[i] ^ b[i] else a[i])
  }

  predicate Fit(packets: seq<Packet>, size: nat) {
    forall p | p in packets :: |p| <= size
  }

  /** What becomes of a buffer when all packets are added to it, with their lengths. */
  function Parity(packets: seq<Packet>, size: nat, start: Packet): (r: Packet)
    requires Fit(packets, size) && |start| >= size + 2
    ensures |r| == |start|
    decreases |packets|
  {
    if packets == [] then start else Parity(packets[1..], size, Xor(start, Stamp(packets[0], size)))
  }

  function Zeros(n: nat): (z: Packet)
    ensures |z| == n
  {
    seq(n, _ => 0)
  }

  /** What the encoder makes of a group. */
  function Encoded(packets: seq<Packet>): Packet {
    MaxSizeFits(packets);
    Parity(packets, MaxSize(packets), Zeros(MaxSize(packets) + 2))
  }

  function EmptyCount(packets: seq<Packet>): nat {
    if packets == [] then 0 else (if packets[0] == [] then 1 else 0) + EmptyCount(packets[1..])
  }

  function LengthIn(r: Packet, size: nat): nat
    requires |r| >= size + 2
  {
    Value(r[size]) + 0x100 * Value(r[size + 1])
  }

  /** What the decoder makes of a group and a parity packet; empty when it gives up. */
  function Decoded(packets: seq<Packet>, fec: Packet): Packet {
    var size := MaxSize(packets);
    if |fec| < size + 2 then []
    else
      MaxSizeFits(packets);
      var r := Parity(packets, size, fec);
      if EmptyCount(packets) != 1 || LengthIn(r, size) > size then [] else r[..LengthIn(r, size)]
  }

  lemma {:induction false} MaxSizeFits(packets: seq<Packet>)
    ensures Fit(packets, MaxSize(packets))
  {
    if packets != [] {
      MaxSizeFits(packets[1..]);
      assert packets == [packets[0]] + packets[1..];
    }
  }

  // ----- The loops

  /** The bytes of a packet are added to a buffer in place, and its length behind them. */
  method AddPacket(result: array<bv8>, p: Packet, maxSize: nat)
    requires |p| <= maxSize && maxSize + 2 <= result.Length
    modifies result
    ensures result[..] == Xor(old(result[..]), Stamp(p, maxSize))
  {
    ghost var was := result[..];
    var i := 0;
    while i < |p|
      invariant 0 <= i <= |p|
      invariant forall k | 0 <= k < i :: result[k] == was[k] ^ p[k]
      invariant forall k | i <= k < result.Length :: result[k] == was[k]
    {
      result[i] := result[i] ^ p[i];
      i := i + 1;
    }
    result[maxSize] := result[maxSize] ^ Lower(|p|);
    result[maxSize + 1] := result[maxSize + 1] ^ Upper(|p|);
    StampAdded(was, p, maxSize, result[..]);
  }

  /** What is behind a packet in its stamp. */
  lemma StampAt(p: Packet, size: nat, k: nat)
    requires |p| <= size && k < size + 2
    ensures Stamp(p, size)[k] == if k < |p| then p[k] else if k < size then 0
                                 else if k == size then Lower(|p|) else Upper(|p|)
  {
  }

  lemma StampAdded(was: Packet, p: Packet, size: nat, now: Packet)
    requires |p| <= size && size + 2 <= |was| && |now| == |was|
    requires forall k | 0 <= k < |p| :: now[k] == was[k] ^ p[k]
    requires forall k | |p| <= k < |was| && k != size && k != size + 1 :: now[k] == was[k]
    requires now[size] == was[size] ^ Lower(|p|) && now[size + 1] == was[size + 1] ^ Upper(|p|)
    ensures now == Xor(was, Stamp(p, size))
  {
    forall k | 0 <= k < |was| ensures now[k] == Xor(was, Stamp(p, size))[k] {
      if k < size + 2 {
        StampAt(p, size, k);
        XorZero(was[k]);
      }
    }
  }

  lemma XorZero(a: bv8)
    ensures a ^ 0 == a
  {
  }

  method MaxLength(packets: seq<Packet>) returns (maxSize: nat)
    ensures maxSize == MaxSize(packets)
  {
    maxSize := 0;
    var k := 0;
    while k < |packets|
      invariant 0 <= k <= |packets|
      invariant Max(maxSize, MaxSize(packets[k..])) == MaxSize(packets)
    {
      assert packets[k..][1..] == packets[k + 1..];
      maxSize := Max(maxSize, |packets[k]|);
      k := k + 1;
    }
  }

  method Encode(packets: seq<Packet>) returns (fec: Packet)
    ensures fec == Encoded(packets)
  {
    var maxSize := MaxLength(packets);
    MaxSizeFits(packets);
    var result := new bv8[maxSize + 2](_ => 0);
    assert result[..] == Zeros(maxSize + 2);
    var k := 0;
    while k < |packets|
      invariant 0 <= k <= |packets|
      invariant Parity(packets[k..], maxSize, result[..]) == Encoded(packets)
    {
      assert packets[k..][1..] == packets[k + 1..];
      AddPacket(result, packets[k], maxSize);
      k := k + 1;
    }
    fec := result[..];
  }

  method CopyOf(p: Packet) returns (copy: array<bv8>)
    ensures fresh(copy) && copy[..] == p
  {
    copy := new bv8[|p|];
    var i := 0;
    while i < |p|
      invariant 0 <= i <= |p| && copy[..i] == p[..i]
    {
      copy[i] := p[i];
      i := i + 1;
    }
  }

  method Decode(dataPackets: seq<Packet>, fecPacket: Packet) returns (packet: Packet)
    ensures packet == Decoded(dataPackets, fecPacket)
  {
    var maxSize := MaxLength(dataPackets);
    if |fecPacket| < maxSize + 2 {
      return [];
    }
    MaxSizeFits(dataPackets);
    var result := CopyOf(fecPacket);
    var emptyCount := AddPresent(dataPackets, maxSize, result);
    if emptyCount != 1 {
      return [];
    }
    var len := LengthIn(result[..], maxSize);
    if len > maxSize {
      return [];
    }
    packet := result[..len];
  }

  /** The packets that are there are added to the parity packet; those that are not are counted. */
  method AddPresent(dataPackets: seq<Packet>, maxSize: nat, result: array<bv8>) returns (emptyCount: nat)
    requires Fit(dataPackets, maxSize) && maxSize + 2 <= result.Length
    modifies result
    ensures result[..] == Parity(dataPackets, maxSize, old(result[..]))
    ensures emptyCount == EmptyCount(dataPackets)
  {
    emptyCount := 0;
    var k := 0;
    while k < |dataPackets|
      invariant 0 <= k <= |dataPackets|
      invariant Parity(dataPackets[k..], maxSize, result[..]) == Parity(dataPackets, maxSize, old(result[..]))
      invariant emptyCount + EmptyCount(dataPackets[k..]) == EmptyCount(dataPackets)
    {
      assert dataPackets[k..][1..] == dataPackets[k + 1..];
      if |dataPackets[k]| == 0 {
        emptyCount := emptyCount + 1;
        NothingAdded(result[..], maxSize);
      } else {
        AddPacket(result, dataPackets[k], maxSize);
      }
      k := k + 1;
    }
  }

  /** An empty packet adds nothing. */
  lemma NothingAdded(a: Packet, size: nat)
    requires |a| >= size + 2
    ensures Xor(a, Stamp([], size)) == a
  {
    forall k | 0 <= k < size + 2 ensures Stamp([], size)[k] == 0 {
    }
    forall k | 0 <= k < size + 2 ensures Xor(a, Stamp([], size))[k] == a[k] {
      XorZero(a[k]);
    }
  }

  // ----- What is rebuilt

  /** What the packets add at one place. */
  function Column(packets: seq<Packet>, size: nat, i: nat): bv8
    requires Fit(packets, size) && i < size + 2
    decreases |packets|
  {
    if packets == [] then 0 else Stamp(packets[0], size)[i] ^ Column(packets[1..], size, i)
  }

  lemma {:induction false} ParityColumn(packets: seq<Packet>, size: nat, start: Packet, i: nat)
    requires Fit(packets, size) && |start| >= size + 2 && i < size + 2
    ensures Parity(packets, size, start)[i] == start[i] ^ Column(packets, size, i)
    decreases |packets|
  {
    if packets == [] {
      XorZero(start[i]);
    } else {
      var s := Stamp(packets[0], size);
      ParityColumn(packets[1..], size, Xor(start, s), i);
      XorAssociates(start[i], s[i], Column(packets[1..], size, i));
    }
  }

  lemma XorAssociates(a: bv8, b: bv8, c: bv8)
    ensures (a ^ b) ^ c == a ^ (b ^ c)
  {
  }

  /** Leaving one packet out takes what it adds away. */
  lemma {:induction false} ColumnWithout(packets: seq<Packet>, k: nat, size: nat, i: nat)
    requires Fit(packets, size) && k < |packets| && i < size + 2
    ensures Fit(packets[k := []], size)
    ensures Column(packets, size, i) == Column(packets[k := []], size, i) ^ Stamp(packets[k], size)[i]
    decreases |packets|
  {
    var rest := packets[1..];
    var s := Stamp(packets[0], size)[i];
    FitWithout(packets, k, size);
    if k == 0 {
      assert packets[0 := []][1..] == rest;
      assert Stamp([], size)[i] == 0;
      XorSwap(0, Column(rest, size, i), s);
    } else {
      assert packets[k := []][1..] == rest[k - 1 := []];
      ColumnWithout(rest, k - 1, size, i);
      XorAssociates(s, Column(rest[k - 1 := []], size, i), Stamp(packets[k], size)[i]);
    }
  }

  lemma FitWithout(packets: seq<Packet>, k: nat, size: nat)
    requires Fit(packets, size) && k < |packets|
    ensures Fit(packets[k := []], size)
  {
  }

  lemma XorSwap(z: bv8, a: bv8, b: bv8)
    requires z == 0
    ensures b ^ a == (z ^ a) ^ b
  {
  }

  lemma XorCancels(a: bv8, b: bv8)
    ensures (0 ^ (a ^ b)) ^ a == b
  {
  }

  /** Added to the parity of the whole group, what is left of the group gives the packet that is gone. */
  lemma ParityRebuilds(packets: seq<Packet>, k: nat, size: nat)
    requires Fit(packets, size) && k < |packets|
    ensures Fit(packets[k := []], size)
    ensures Parity(packets[k := []], size, Parity(packets, size, Zeros(size + 2))) == Stamp(packets[k], size)
  {
    var without := packets[k := []];
    FitWithout(packets, k, size);
    var all := Parity(packets, size, Zeros(size + 2));
    forall i | 0 <= i < size + 2
      ensures Parity(without, size, all)[i] == Stamp(packets[k], size)[i]
    {
      ParityColumn(packets, size, Zeros(size + 2), i);
      ParityColumn(without, size, all, i);
      ColumnWithout(packets, k, size, i);
      XorCancels(Column(without, size, i), Stamp(packets[k], size)[i]);
    }
  }

  lemma StampLength(p: Packet, size: nat)
    requires |p| <= size
    ensures LengthIn(Stamp(p, size), size) == |p| % 0x10000
    ensures Stamp(p, size)[..|p|] == p
  {
    ValueByte(|p| % 0x10000 % 0x100);
    ValueByte(|p| % 0x10000 / 0x100);
  }

  predicate NonEmpty(packets: seq<Packet>) {
    forall k | 0 <= k < |packets| :: packets[k] != []
  }

  lemma {:induction false} OneEmpty(packets: seq<Packet>, k: nat)
    requires k < |packets| && NonEmpty(packets)
    ensures EmptyCount(packets[k := []]) == 1
    decreases |packets|
  {
    if k == 0 {
      assert packets[0 := []][1..] == packets[1..];
      NoneEmpty(packets[1..]);
    } else {
      assert packets[k := []][1..] == packets[1..][k - 1 := []];
      OneEmpty(packets[1..], k - 1);
    }
  }

  lemma {:induction false} NoneEmpty(packets: seq<Packet>)
    requires NonEmpty(packets)
    ensures EmptyCount(packets) == 0
  {
    if packets != [] {
      NoneEmpty(packets[1..]);
    }
  }

  lemma {:induction false} MaxSizeWithout(packets: seq<Packet>, k: nat)
    requires k < |packets|
    ensures MaxSize(packets) == Max(MaxSize(packets[k := []]), |packets[k]|)
    decreases |packets|
  {
    if k == 0 {
      assert packets[0 := []][1..] == packets[1..];
    } else {
      assert packets[k := []][1..] == packets[1..][k - 1 := []];
      MaxSizeWithout(packets[1..], k - 1);
    }
  }

  /**
   * A lost packet is rebuilt from the others and the parity packet just when it is no longer than
   * the longest of the others, and its length fits into sixteen bits.
   */
  lemma RebuiltIff(packets: seq<Packet>, k: nat)
    requires k < |packets| && NonEmpty(packets)
    ensures Decoded(packets[k := []], Encoded(packets)) == packets[k] <==>
            |packets[k]| <= MaxSize(packets[k := []]) && |packets[k]| < 0x10000
  {
    MaxSizeWithout(packets, k);
    if |packets[k]| <= MaxSize(packets[k := []]) {
      ShortRebuilt(packets, k);
    }
  }

  /** A packet of two bytes is lost, and the other one has only one byte. */
  lemma LongerLost()
    ensures Decoded([[7], []], Encoded([[7], [1, 2]])) != [1, 2]
    ensures Decoded([[], [1, 2]], Encoded([[7], [1, 2]])) == [7]
  {
    var packets: seq<Packet> := [[7], [1, 2]];
    RebuiltIff(packets, 0);
    RebuiltIff(packets, 1);
    assert packets[0 := []] == [[], [1, 2]] && packets[1 := []] == [[7], []];
    assert MaxSize(packets[0 := []]) == 2 && MaxSize(packets[1 := []]) == 1;
  }

  lemma ShortRebuilt(packets: seq<Packet>, k: nat)
    requires k < |packets| && NonEmpty(packets) && |packets[k]| <= MaxSize(packets) == MaxSize(packets[k := []])
    ensures Decoded(packets[k := []], Encoded(packets)) == packets[k] <==> |packets[k]| < 0x10000
  {
    var size := MaxSize(packets);
    MaxSizeFits(packets);
    OneEmpty(packets, k);
    ParityRebuilds(packets, k, size);
    ReadStamp(packets[k], size);
  }

  /** What the decoder reads out of a stamp. */
  lemma ReadStamp(p: Packet, size: nat)
    requires p != [] && |p| <= size
    ensures var s := Stamp(p, size);
            (if LengthIn(s, size) > size then [] else s[..LengthIn(s, size)]) == p <==> |p| < 0x10000
  {
    StampLength(p, size);
    ReadPrefix(Stamp(p, size), LengthIn(Stamp(p, size), size), p, size);
  }

  lemma ReadPrefix(s: Packet, n: nat, p: Packet, size: nat)
    requires p != [] && |p| <= size < |s| && s[..|p|] == p && n == |p| % 0x10000
    ensures (if n > size then [] else s[..n]) == p <==> |p| < 0x10000
  {
    if |p| >= 0x10000 {
      assert n < |p|;
    }
  }

  // ----- The parity packet, byte by byte

  /** What a packet adds at a place: its byte, or behind the longest packet its length, the lower byte first. */
  function Added(p: Packet, size: nat, i: nat): bv8 {
    if i < |p| then p[i]
    else if i < size then 0
    else if i == size then Byte(|p| % 0x100)
    else Byte(|p| / 0x100 % 0x100)
  }

  function AddedAll(packets: seq<Packet>, size: nat, i: nat): bv8 {
    if packets == [] then 0 else Added(packets[0], size, i) ^ AddedAll(packets[1..], size, i)
  }

  lemma StampBytes(p: Packet, size: nat, i: nat)
    requires |p| <= size && i < size + 2
    ensures Stamp(p, size)[i] == Added(p, size, i)
  {
    StampAt(p, size, i);
    LengthBytes(|p|);
  }

  lemma LengthBytes(n: nat)
    ensures n % 0x10000 % 0x100 == n % 0x100 && n % 0x10000 / 0x100 == n / 0x100 % 0x100
  {
  }

  lemma {:induction false} ColumnBytes(packets: seq<Packet>, size: nat, i: nat)
    requires Fit(packets, size) && i < size + 2
    ensures Column(packets, size, i) == AddedAll(packets, size, i)
    decreases |packets|
  {
    if packets != [] {
      StampBytes(packets[0], size, i);
      ColumnBytes(packets[1..], size, i);
    }
  }

  lemma ZeroXor(a: bv8)
    ensures 0 ^ a == a
  {
  }

  /** The parity packet is two bytes longer than the longest packet; each byte is the sum of what the packets add. */
  lemma EncodedBytes(packets: seq<Packet>, i: nat)
    requires i < |Encoded(packets)|
    ensures |Encoded(packets)| == MaxSize(packets) + 2
    ensures Encoded(packets)[i] == AddedAll(packets, MaxSize(packets), i)
  {
    var size := MaxSize(packets);
    MaxSizeFits(packets);
    ParityColumn(packets, size, Zeros(size + 2), i);
    ColumnBytes(packets, size, i);
    ZeroXor(AddedAll(packets, size, i));
  }
}
