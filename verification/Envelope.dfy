/**
 * The encrypted packet: what is sealed and what is opened, for the layouts of MTProto 2 with a short
 * and a long header and for MTProto 1. Hashes, the block cipher and the padding bytes are not looked
 * into.
 */
module Envelope {
  import opened Bytes
  import opened Ige

  type Hash20 = b: Text | |b| == 20 witness seq(20, _ => 0)

  type Hash32 = b: Text | |b| == 32 witness seq(32, _ => 0)

  datatype Primitives = Primitives(sha1: Text -> Hash20, sha256: Text -> Hash32, aes: Hash32 -> Cipher)

  ghost predicate Lawful(p: Primitives) {
    forall key: Hash32 :: Inverse(p.aes(key))
  }

  // ----- Numbers in little-endian order

  function Le16(n: nat): (r: Text)
    ensures |r| == 2
  {
    [Byte(n % 0x100), Byte(n / 0x100 % 0x100)]
  }

  function Le32(n: nat): (r: Text)
    ensures |r| == 4
  {
    Le16(n % 0x10000) + Le16(n / 0x10000)
  }

  function Read16(s: Text): (n: nat)
    requires |s| >= 2
    ensures n < 0x10000
  {
    Value(s[0]) + 0x100 * Value(s[1])
  }

  function Read32(s: Text): (n: nat)
    requires |s| >= 4
    ensures n < 0x1_0000_0000
  {
    Read16(s) + 0x10000 * Read16(s[2..])
  }

  lemma TwoDigits(n: nat)
    requires n < 0x10000
    ensures n == n % 0x100 + 0x100 * (n / 0x100 % 0x100)
  {
  }

  lemma Read16Back(n: nat, s: Text)
    requires n < 0x10000
    ensures Read16(Le16(n) + s) == n
  {
    var a, b := n % 0x100, n / 0x100 % 0x100;
    TwoDigits(n);
    ValueByte(a);
    ValueByte(b);
    assert (Le16(n) + s)[0] == Byte(a) && (Le16(n) + s)[1] == Byte(b);
  }

  lemma Read32Back(n: nat, s: Text)
    requires n < 0x1_0000_0000
    ensures Read32(Le32(n) + s) == n
  {
    var a, b := Le16(n % 0x10000), Le16(n / 0x10000);
    assert Le32(n) + s == a + (b + s);
    assert (a + (b + s))[2..] == b + s;
    Read16Back(n % 0x10000, b + s);
    Read16Back(n / 0x10000, s);
  }

  /** A 16-bit number read as a signed one and widened to 32 bits without sign. */
  function Widened(n: nat): nat {
    if n < 0x8000 then n else n + 0xFFFF0000
  }

  /** A 32-bit number read as a signed one. */
  function Signed(n: nat): int {
    if n < 0x8000_0000 then n else n - 0x1_0000_0000
  }

  // ----- Keys

  datatype KeyIv = KeyIv(key: Hash32, iv: Hash32)

  predicate IsKey(key: Text) {
    |key| == 256
  }

  function Kdf(p: Primitives, ek: Text, msgKey: Text, x: nat): KeyIv
    requires IsKey(ek) && |msgKey| == 16 && x <= 8
  {
    var sA := p.sha1(msgKey + ek[x..x + 32]);
    var sB := p.sha1(ek[32 + x..48 + x] + msgKey + ek[48 + x..64 + x]);
    var sC := p.sha1(ek[64 + x..96 + x] + msgKey);
    var sD := p.sha1(msgKey + ek[96 + x..128 + x]);
    KeyIv(sA[..8] + sB[8..20] + sC[4..16], sA[8..20] + sB[..8] + sC[16..20] + sD[..8])
  }

  function Kdf2(p: Primitives, ek: Text, msgKey: Text, x: nat): KeyIv
    requires IsKey(ek) && |msgKey| == 16 && x <= 8
  {
    var sA := p.sha256(msgKey + ek[x..x + 36]);
    var sB := p.sha256(ek[40 + x..76 + x] + msgKey);
    KeyIv(sA[..8] + sB[8..24] + sA[24..32], sB[..8] + sA[8..24] + sB[24..32])
  }

  /** The slice of the key for what this side sends, and for what it receives. */
  function SendSlice(isOutgoing: bool): (x: nat)
    ensures x <= 8
  {
    if isOutgoing then 0 else 8
  }

  function ReceiveSlice(isOutgoing: bool): (x: nat)
    ensures x <= 8
  {
    if isOutgoing then 8 else 0
  }

  function Encrypted(p: Primitives, k: KeyIv, inner: Text): Text
    requires Whole(inner)
  {
    Seal(p.aes(k.key), inner, ChainOf(k.iv)).text
  }

  function Decrypted(p: Primitives, k: KeyIv, body: Text): (r: Text)
    ensures |r| == |body|
  {
    Open(p.aes(k.key), Filled(body), ChainOf(k.iv)).text[..|body|]
  }

  lemma DecryptedBack(p: Primitives, k: KeyIv, inner: Text)
    requires Lawful(p) && Whole(inner)
    ensures Decrypted(p, k, Encrypted(p, k, inner)) == inner
  {
    var body := Encrypted(p, k, inner);
    assert Filled(body) == body;
    assert Inverse(p.aes(k.key));
    OpenSeal(p.aes(k.key), inner, ChainOf(k.iv));
  }

  // ----- MTProto 2

  function Header(short: bool, len: nat): Text {
    if short then Le16(len) else Le32(len)
  }

  /** How many padding bytes follow n bytes: sixteen at least, to whole blocks. */
  function PadLen2(n: nat): (k: nat)
    ensures 16 <= k <= 31 && (n + k) % 16 == 0
  {
    var k := 16 - n % 16;
    if k < 16 then k + 16 else k
  }

  function Inner2(short: bool, data: Text, random: Text): (r: Text)
    requires |random| >= 32
    ensures Whole(r)
  {
    var plain := Header(short, |data|) + data;
    plain + random[..PadLen2(|plain|)]
  }

  function SizeSize(short: bool): nat {
    if short then 0 else 4
  }

  function MsgKey2(p: Primitives, ek: Text, x: nat, inner: Text, short: bool): (r: Text)
    requires IsKey(ek) && x <= 8 && |inner| >= SizeSize(short)
    ensures |r| == 16
  {
    p.sha256(ek[88 + x..120 + x] + inner[SizeSize(short)..])[8..24]
  }

  function Packet2(p: Primitives, ek: Text, fingerprint: Text, x: nat, short: bool, data: Text, random: Text): Text
    requires IsKey(ek) && x <= 8 && |random| >= 32
  {
    var inner := Inner2(short, data, random);
    var msgKey := MsgKey2(p, ek, x, inner, short);
    (if short then [] else fingerprint) + msgKey + Encrypted(p, Kdf2(p, ek, msgKey, x), inner)
  }

  datatype Received = Received(len: int, bytes: Text) | Rejected

  function InnerLen(short: bool, decrypted: Text): nat
    requires |decrypted| >= 4
  {
    if short then Widened(Read16(decrypted)) else Read32(decrypted)
  }

  /** What is made of decrypted bytes that have the right hash. */
  function Unwrapped(short: bool, decrypted: Text): Received
    requires |decrypted| >= 16
  {
    var n := InnerLen(short, decrypted);
    if n > |decrypted| - SizeSize(short) then Rejected
    else if |decrypted| - n < (if short then 16 else 12) then Rejected
    else
      var start := if short then 2 else 4;
      Received(n, decrypted[start..start + n])
  }

  const MAX_DECRYPTED := 1500

  /** The decrypted bytes of a packet that has the right fingerprint, length and hash. */
  function Checked2(p: Primitives, ek: Text, fingerprint: Text, x: nat, short: bool, packet: Text): (r: Received)
    requires IsKey(ek) && x <= 8 && |packet| >= 40
    ensures r.Received? ==> 16 <= |r.bytes| <= |packet| - 16
  {
    if !short && packet[..8] != fingerprint then Rejected
    else
      var start := if short then 0 else 8;
      var msgKey, body := packet[start..start + 16], packet[start + 16..];
      if |body| > MAX_DECRYPTED || |body| % 16 != 0 then Rejected
      else
        var decrypted := Decrypted(p, Kdf2(p, ek, msgKey, x), body);
        if msgKey != MsgKey2(p, ek, x, decrypted, short) then Rejected else Received(|decrypted|, decrypted)
  }

  function Open2(p: Primitives, ek: Text, fingerprint: Text, x: nat, short: bool, packet: Text): Received
    requires IsKey(ek) && x <= 8 && |packet| >= 40
  {
    var r := Checked2(p, ek, fingerprint, x, short, packet);
    if r.Rejected? then Rejected else Unwrapped(short, r.bytes)
  }

  lemma UnwrappedBack(short: bool, data: Text, random: Text)
    requires |random| >= 32 && |Inner2(short, data, random)| <= MAX_DECRYPTED
    ensures Unwrapped(short, Inner2(short, data, random)) == Received(|data|, data)
  {
    var n := |data|;
    var inner := Inner2(short, data, random);
    var tail := random[..PadLen2(|Header(short, n)| + n)];
    assert inner == Header(short, n) + (data + tail);
    if short {
      Read16Back(n, data + tail);
    } else {
      Read32Back(n, data + tail);
    }
    var start := if short then 2 else 4;
    assert inner[start..] == data + tail;
    assert inner[start..start + n] == data;
  }

  lemma Packet2Parts(fingerprint: Text, short: bool, msgKey: Text, body: Text)
    requires |fingerprint| == 8 && |msgKey| == 16
    ensures var packet := (if short then [] else fingerprint) + msgKey + body;
            var start := if short then 0 else 8;
            && packet[start..start + 16] == msgKey && packet[start + 16..] == body
            && (!short ==> packet[..8] == fingerprint)
  {
  }

  lemma Checked2Parts(p: Primitives, ek: Text, fingerprint: Text, x: nat, short: bool, msgKey: Text, inner: Text,
                      packet: Text)
    requires Lawful(p) && IsKey(ek) && |fingerprint| == 8 && x <= 8 && Whole(inner) && |inner| >= 24
    requires msgKey == MsgKey2(p, ek, x, inner, short)
    requires packet == (if short then [] else fingerprint) + msgKey + Encrypted(p, Kdf2(p, ek, msgKey, x), inner)
    ensures |packet| >= 40
    ensures Checked2(p, ek, fingerprint, x, short, packet)
         == if |inner| <= MAX_DECRYPTED then Received(|inner|, inner) else Rejected
  {
    var k := Kdf2(p, ek, msgKey, x);
    Packet2Parts(fingerprint, short, msgKey, Encrypted(p, k, inner));
    DecryptedBack(p, k, inner);
  }

  /** The other side takes what was sealed in a packet, whatever the padding, just when it is not too long. */
  lemma Open2Packet2(p: Primitives, ek: Text, fingerprint: Text, isOutgoing: bool, short: bool, data: Text,
                     random: Text)
    requires Lawful(p) && IsKey(ek) && |fingerprint| == 8 && |random| >= 32
    ensures var packet := Packet2(p, ek, fingerprint, SendSlice(isOutgoing), short, data, random);
            |packet| >= 40 &&
            Open2(p, ek, fingerprint, ReceiveSlice(!isOutgoing), short, packet)
              == if |Inner2(short, data, random)| <= MAX_DECRYPTED then Received(|data|, data) else Rejected
  {
    var x := SendSlice(isOutgoing);
    var inner := Inner2(short, data, random);
    InnerSize(short, data, random);
    var msgKey := MsgKey2(p, ek, x, inner, short);
    var packet := Packet2(p, ek, fingerprint, x, short, data, random);
    Checked2Parts(p, ek, fingerprint, x, short, msgKey, inner, packet);
    if |inner| <= MAX_DECRYPTED {
      UnwrappedBack(short, data, random);
    }
  }

  lemma InnerSize(short: bool, data: Text, random: Text)
    requires |random| >= 32
    ensures |Inner2(short, data, random)| >= 32
    ensures |data| + 18 <= |Inner2(short, data, random)| <= |data| + 35
  {
    var plain := Header(short, |data|) + data;
    HeaderSize(short, |data|);
    assert |Inner2(short, data, random)| == |plain| + PadLen2(|plain|);
    WholeBlocks(|plain| + PadLen2(|plain|));
  }

  lemma HeaderSize(short: bool, n: nat)
    ensures |Header(short, n)| == if short then 2 else 4
  {
  }

  lemma WholeBlocks(n: nat)
    requires n % 16 == 0 && n > 16
    ensures n >= 32
  {
  }

  // ----- MTProto 1

  function PadLen1(n: nat): (k: nat)
    ensures k < 16 && (n + k) % 16 == 0
  {
    if n % 16 != 0 then 16 - n % 16 else 0
  }

  function Inner1(data: Text, random: Text): (r: Text)
    requires |random| >= 32
    ensures Whole(r)
  {
    var plain := Le32(|data|) + data;
    plain + random[..PadLen1(|plain|)]
  }

  function Packet1(p: Primitives, ek: Text, fingerprint: Text, x: nat, data: Text, random: Text): Text
    requires IsKey(ek) && x <= 8 && |random| >= 32
  {
    var inner := Inner1(data, random);
    var msgHash := p.sha1(inner[..|data| + 4])[4..20];
    fingerprint + msgHash + Encrypted(p, Kdf(p, ek, msgHash, x), inner)
  }

  function Open1(p: Primitives, ek: Text, x: nat, packet: Text): Received
    requires IsKey(ek) && x <= 8 && |packet| >= 40
  {
    Checked1(p, packet[8..24], Decrypted(p, Kdf(p, ek, packet[8..24], x), packet[24..]))
  }

  /** What is made of decrypted bytes and the hash they came with. */
  function Checked1(p: Primitives, msgHash: Text, decrypted: Text): (r: Received)
    requires |decrypted| >= 4
    ensures r.Received? ==> r == Received(Signed(Read32(decrypted)), decrypted[4..])
  {
    var n := Read32(decrypted);
    var m := if n > |decrypted| - 4 then |decrypted| - 4 else n;
    if msgHash != p.sha1(decrypted[..m + 4])[4..20] then Rejected
    else Received(Signed(n), decrypted[4..])
  }

  lemma Inner1Parts(data: Text, random: Text)
    requires |random| >= 32 && |data| < 0x8000_0000
    ensures var inner := Inner1(data, random);
            && Read32(inner) == |data| && |inner| >= |data| + 4
            && inner[4..] == data + random[..PadLen1(|data| + 4)]
  {
    var tail := random[..PadLen1(|data| + 4)];
    assert Inner1(data, random) == Le32(|data|) + (data + tail);
    Read32Back(|data|, data + tail);
  }

  lemma Packet1Parts(fingerprint: Text, msgHash: Text, body: Text)
    requires |fingerprint| == 8 && |msgHash| == 16
    ensures var packet := fingerprint + msgHash + body; packet[8..24] == msgHash && packet[24..] == body
  {
  }

  /** The other side takes what was sealed; the bytes it reads next are the data and then the padding. */
  lemma Open1Packet1(p: Primitives, ek: Text, fingerprint: Text, isOutgoing: bool, data: Text, random: Text)
    requires Lawful(p) && IsKey(ek) && |fingerprint| == 8 && |random| >= 32 && |data| < 0x8000_0000
    ensures var packet := Packet1(p, ek, fingerprint, SendSlice(isOutgoing), data, random);
            |packet| >= 40 &&
            Open1(p, ek, ReceiveSlice(!isOutgoing), packet)
              == Received(|data|, data + random[..PadLen1(|data| + 4)])
  {
    var x := SendSlice(isOutgoing);
    var inner := Inner1(data, random);
    var msgHash := p.sha1(inner[..|data| + 4])[4..20];
    var k := Kdf(p, ek, msgHash, x);
    Packet1Parts(fingerprint, msgHash, Encrypted(p, k, inner));
    DecryptedBack(p, k, inner);
    Inner1Parts(data, random);
  }

  // ----- Both together

  /** What a receiver makes of a packet, and whether it is in the new format from then on. */
  datatype Opening = Opening(received: Received, useMTProto2: bool)

  /** In the old format; a packet with a wrong hash is tried in the new one while the call is set up. */
  function Opened(p: Primitives, ek: Text, fingerprint: Text, isOutgoing: bool, short: bool, waiting: bool,
      useMTProto2: bool, packet: Text): Opening
    requires IsKey(ek) && |packet| >= 40
  {
    var x := ReceiveSlice(isOutgoing);
    if !useMTProto2 && Open1(p, ek, x, packet).Received? then Opening(Open1(p, ek, x, packet), false)
    else if !useMTProto2 && !waiting then Opening(Rejected, false)
    else
      var r := Open2(p, ek, fingerprint, x, short, packet);
      Opening(r, useMTProto2 || r.Received?)
  }

  /** While the call is set up, a receiver in the old format takes a packet in the new one and changes over. */
  lemma FallbackUpgrades(p: Primitives, ek: Text, fingerprint: Text, isOutgoing: bool, short: bool, data: Text,
                         random: Text)
    requires Lawful(p) && IsKey(ek) && |fingerprint| == 8 && |random| >= 32
    requires |Inner2(short, data, random)| <= MAX_DECRYPTED
    requires var packet := Packet2(p, ek, fingerprint, SendSlice(isOutgoing), short, data, random);
             |packet| >= 40 && Open1(p, ek, ReceiveSlice(!isOutgoing), packet).Rejected?
    ensures var packet := Packet2(p, ek, fingerprint, SendSlice(isOutgoing), short, data, random);
            Opened(p, ek, fingerprint, !isOutgoing, short, true, false, packet) == Opening(Received(|data|, data), true)
  {
    Open2Packet2(p, ek, fingerprint, isOutgoing, short, data, random);
  }
}
