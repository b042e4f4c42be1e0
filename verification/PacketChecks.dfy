/** Which packets are opened and which are rejected, and what a sealed packet holds, told from the bytes. */
module PacketChecks {
  import opened Bytes
  import opened Ige
  import opened Envelope

  // ----- Keys

  /** The first two hashes are cut up between key and vector; of the other two the vector and the key get a part. */
  lemma KdfParts(p: Primitives, ek: Text, msgKey: Text, x: nat)
    requires IsKey(ek) && |msgKey| == 16 && x <= 8
    ensures var k := Kdf(p, ek, msgKey, x);
            && k.key[..8] + k.iv[..12] == p.sha1(msgKey + ek[x..x + 32])
            && k.iv[12..20] + k.key[8..20] == p.sha1(ek[x + 32..x + 48] + msgKey + ek[x + 48..x + 64])
            && k.key[20..] + k.iv[20..24] == p.sha1(ek[x + 64..x + 96] + msgKey)[4..]
            && k.iv[24..] == p.sha1(msgKey + ek[x + 96..x + 128])[..8]
  {
  }

  /** Key and vector are the two hashes with their middle parts exchanged. */
  lemma Kdf2Parts(p: Primitives, ek: Text, msgKey: Text, x: nat)
    requires IsKey(ek) && |msgKey| == 16 && x <= 8
    ensures var k := Kdf2(p, ek, msgKey, x);
            && k.key[..8] + k.iv[8..24] + k.key[24..] == p.sha256(msgKey + ek[x..x + 36])
            && k.iv[..8] + k.key[8..24] + k.iv[24..] == p.sha256(ek[x + 40..x + 76] + msgKey)
  {
  }

  // ----- The body

  /** What a body of whole blocks decrypts to is chained to it by the cipher under the key, from the vector on. */
  lemma DecryptedChains(p: Primitives, k: KeyIv, body: Text)
    requires Whole(body)
    ensures Chains(p.aes(k.key).dec, body, Decrypted(p, k, body), k.iv[16..], k.iv[..16])
  {
    assert Filled(body) == body;
    OpenChains(p.aes(k.key), body, ChainOf(k.iv));
    assert Open(p.aes(k.key), body, ChainOf(k.iv)).text == Decrypted(p, k, body);
  }

  lemma EncryptedChains(p: Primitives, k: KeyIv, inner: Text)
    requires Whole(inner)
    ensures Chains(p.aes(k.key).enc, inner, Encrypted(p, k, inner), k.iv[..16], k.iv[16..])
  {
    SealChains(p.aes(k.key), inner, ChainOf(k.iv));
  }

  // ----- The new format

  /** A number in little-endian order, of two or of four bytes. */
  function Number(short: bool, d: Text): (n: nat)
    requires |d| >= 4
  {
    var low := Value(d[0]) + 0x100 * Value(d[1]);
    if short then low else low + 0x1_0000 * Value(d[2]) + 0x100_0000 * Value(d[3])
  }

  lemma NumberRead(short: bool, d: Text)
    requires |d| >= 4
    ensures Number(short, d) == if short then Read16(d) else Read32(d)
  {
  }

  /** Where the message key begins: behind the fingerprint in the long layout. */
  function KeyAt(short: bool): nat {
    if short then 0 else 8
  }

  /** The packet decrypts to d, has the right fingerprint if any, and its message key is the hash of d. */
  predicate Genuine2(p: Primitives, ek: Text, fingerprint: Text, x: nat, short: bool, packet: Text, d: Text)
    requires IsKey(ek) && x <= 8 && |packet| >= 40
  {
    var msgKey, body := packet[KeyAt(short)..KeyAt(short) + 16], packet[KeyAt(short) + 16..];
    && d == Decrypted(p, Kdf2(p, ek, msgKey, x), body)
    && (short || packet[..8] == fingerprint)
    && p.sha256(ek[88 + x..120 + x] + (if short || |d| < 4 then d else d[4..]))[8..24] == msgKey
  }

  /** The packet is of whole blocks and not too long. */
  predicate Sized2(d: Text) {
    |d| <= 1500 && |d| % 16 == 0 && |d| >= 16
  }

  /** The packet gives n bytes of payload: it is genuine, of whole blocks and not too long, and padded enough. */
  predicate Gives2(p: Primitives, ek: Text, fingerprint: Text, x: nat, short: bool, packet: Text, d: Text, n: nat,
                   data: Text)
    requires IsKey(ek) && x <= 8 && |packet| >= 40
  {
    && Genuine2(p, ek, fingerprint, x, short, packet, d)
    && Sized2(d) && n == Number(short, d) && n + (if short then 16 else 12) <= |d|
    && data == if short then d[2..2 + n] else d[4..4 + n]
  }

  /** What the packet decrypts to. */
  function Inside2(p: Primitives, ek: Text, x: nat, short: bool, packet: Text): Text
    requires IsKey(ek) && x <= 8 && |packet| >= 40
  {
    Decrypted(p, Kdf2(p, ek, packet[KeyAt(short)..KeyAt(short) + 16], x), packet[KeyAt(short) + 16..])
  }

  /** Read as a signed number and widened, the short length is the same unless it is far too large. */
  lemma NumberIsLen(short: bool, d: Text)
    requires 16 <= |d| <= 1500
    ensures var n, m := Number(short, d), InnerLen(short, d); n == m || (n > |d| && m > |d|)
  {
  }

  /** What is unwrapped is told from the length alone. */
  lemma UnwrappedIs(short: bool, d: Text)
    requires 16 <= |d| <= 1500
    ensures var n, pad, start := Number(short, d), if short then 16 else 12, if short then 2 else 4;
            Unwrapped(short, d) == if n + pad <= |d| then Received(n, d[start..start + n]) else Rejected
  {
    NumberIsLen(short, d);
  }

  lemma InsideSize(p: Primitives, ek: Text, x: nat, short: bool, packet: Text)
    requires IsKey(ek) && x <= 8 && |packet| >= 40
    ensures |Inside2(p, ek, x, short, packet)| == |packet| - KeyAt(short) - 16 >= 16
  {
  }

  lemma KeyOf(p: Primitives, ek: Text, x: nat, short: bool, d: Text)
    requires IsKey(ek) && x <= 8 && |d| >= 4
    ensures MsgKey2(p, ek, x, d, short) == p.sha256(ek[88 + x..120 + x] + (if short then d else d[4..]))[8..24]
  {
    assert d[0..] == d;
  }

  lemma Checked2Iff(p: Primitives, ek: Text, fingerprint: Text, x: nat, short: bool, packet: Text)
    requires IsKey(ek) && x <= 8 && |packet| >= 40
    ensures var d := Inside2(p, ek, x, short, packet);
            Checked2(p, ek, fingerprint, x, short, packet) ==
            if Genuine2(p, ek, fingerprint, x, short, packet, d) && Sized2(d) then Received(|d|, d) else Rejected
  {
    var d := Inside2(p, ek, x, short, packet);
    InsideSize(p, ek, x, short, packet);
    KeyOf(p, ek, x, short, d);
  }

  /** In the new format a packet gives a payload if and only if all its checks hold. */
  lemma Open2Iff(p: Primitives, ek: Text, fingerprint: Text, x: nat, short: bool, packet: Text, n: nat, data: Text)
    requires IsKey(ek) && x <= 8 && |packet| >= 40
    ensures Open2(p, ek, fingerprint, x, short, packet) == Received(n, data) <==>
            Gives2(p, ek, fingerprint, x, short, packet, Inside2(p, ek, x, short, packet), n, data)
  {
    var d := Inside2(p, ek, x, short, packet);
    Checked2Iff(p, ek, fingerprint, x, short, packet);
    if Sized2(d) {
      UnwrappedIs(short, d);
    }
  }

  // ----- The old format

  /** What the packet decrypts to. */
  function Inside1(p: Primitives, ek: Text, x: nat, packet: Text): (d: Text)
    requires IsKey(ek) && x <= 8 && |packet| >= 40
    ensures |d| == |packet| - 24
  {
    Decrypted(p, Kdf(p, ek, packet[8..24], x), packet[24..])
  }

  /** The message key is the hash of the length and the payload, or of everything when the length is too large. */
  predicate Genuine1(p: Primitives, ek: Text, x: nat, packet: Text)
    requires IsKey(ek) && x <= 8 && |packet| >= 40
  {
    var d := Inside1(p, ek, x, packet);
    var n := Number(false, d);
    p.sha1(if n + 4 <= |d| then d[..n + 4] else d)[4..] == packet[8..24]
  }

  /** The packet gives the length and all that follows it; the fingerprint is not looked at. */
  predicate Gives1(p: Primitives, ek: Text, x: nat, packet: Text, n: int, data: Text)
    requires IsKey(ek) && x <= 8 && |packet| >= 40
  {
    var d := Inside1(p, ek, x, packet);
    && Genuine1(p, ek, x, packet)
    && n == (if Number(false, d) < 0x8000_0000 then Number(false, d) else Number(false, d) - 0x1_0000_0000)
    && data == d[4..]
  }

  /** What the hash is taken of: a length that is too large is cut down. */
  lemma HashedPart(d: Text, n: nat)
    requires |d| >= 4
    ensures d[..(if n > |d| - 4 then |d| - 4 else n) + 4] == if n + 4 <= |d| then d[..n + 4] else d
  {
  }

  lemma WholeHash(h: Hash20)
    ensures h[4..20] == h[4..]
  {
  }

  lemma Checked1Is(p: Primitives, msgHash: Text, d: Text)
    requires |d| >= 4
    ensures var n := Number(false, d);
            Checked1(p, msgHash, d) ==
            if p.sha1(if n + 4 <= |d| then d[..n + 4] else d)[4..] == msgHash then Received(Signed(n), d[4..])
            else Rejected
  {
    var n := Number(false, d);
    NumberRead(false, d);
    HashedPart(d, n);
    WholeHash(p.sha1(if n + 4 <= |d| then d[..n + 4] else d));
  }

  lemma Open1Is(p: Primitives, ek: Text, x: nat, packet: Text)
    requires IsKey(ek) && x <= 8 && |packet| >= 40
    ensures var r := Open1(p, ek, x, packet);
            if Genuine1(p, ek, x, packet) then
              r.Received? && Gives1(p, ek, x, packet, r.len, r.bytes)
            else r.Rejected?
  {
    Checked1Is(p, packet[8..24], Inside1(p, ek, x, packet));
  }

  // ----- Both together

  /** What a packet gives to a side of the call. */
  predicate Gives(p: Primitives, ek: Text, fingerprint: Text, isOutgoing: bool, short: bool, waiting: bool,
                  useMTProto2: bool, packet: Text, n: int, data: Text)
    requires IsKey(ek) && |packet| >= 40
  {
    var x := if isOutgoing then 8 else 0;
    if !useMTProto2 && Genuine1(p, ek, x, packet) then Gives1(p, ek, x, packet, n, data)
    else
      && (useMTProto2 || waiting) && n >= 0
      && Gives2(p, ek, fingerprint, x, short, packet, Inside2(p, ek, x, short, packet), n, data)
  }

  /**
   * A side takes just those packets whose message key is right, with the rest of the checks of the format:
   * in the old format when that is in use, else in the new one, which is tried in the old format while the
   * call is set up, and is kept once it has given a payload.
   */
  lemma OpenedIff(p: Primitives, ek: Text, fingerprint: Text, isOutgoing: bool, short: bool, waiting: bool,
                  useMTProto2: bool, packet: Text, n: int, data: Text)
    requires IsKey(ek) && |packet| >= 40
    ensures var o := Opened(p, ek, fingerprint, isOutgoing, short, waiting, useMTProto2, packet);
            && (o.received == Received(n, data) <==>
                Gives(p, ek, fingerprint, isOutgoing, short, waiting, useMTProto2, packet, n, data))
            && (o.useMTProto2 <==>
                useMTProto2 || (o.received.Received? && !Genuine1(p, ek, if isOutgoing then 8 else 0, packet)))
  {
    var x := if isOutgoing then 8 else 0;
    Open1Is(p, ek, x, packet);
    if n >= 0 {
      Open2Iff(p, ek, fingerprint, x, short, packet, n, data);
    }
    ReceivedNat(p, ek, fingerprint, x, short, packet);
  }

  lemma ReceivedNat(p: Primitives, ek: Text, fingerprint: Text, x: nat, short: bool, packet: Text)
    requires IsKey(ek) && x <= 8 && |packet| >= 40
    ensures var r := Open2(p, ek, fingerprint, x, short, packet); r.Received? ==> r.len >= 0
  {
  }

  // ----- Sealing

  /** Sixteen to 31 bytes of padding, to whole blocks. */
  predicate Padded2(inner: Text, plain: Text, random: Text) {
    && 16 <= |inner| - |plain| <= 31 && |inner| % 16 == 0
    && |random| >= 32 && inner == plain + random[..|inner| - |plain|]
  }

  /** How far the length field counts. */
  function FieldLimit(short: bool): (m: nat)
    ensures m > 0
  {
    if short then 0x1_0000 else 0x1_0000_0000
  }

  /** The packet holds length, data and padding, under the keys of this side, with the right message key. */
  predicate Holds2(p: Primitives, ek: Text, fingerprint: Text, isOutgoing: bool, short: bool, packet: Text,
                   data: Text, random: Text)
    requires IsKey(ek) && |packet| >= 40
  {
    var x := if isOutgoing then 0 else 8;
    var inner := Inside2(p, ek, x, short, packet);
    && Genuine2(p, ek, fingerprint, x, short, packet, inner)
    && |inner| >= |data| + (if short then 18 else 20)
    && var start := if short then 2 else 4;
       Padded2(inner, inner[..start] + data, random) && Number(short, inner) == |data| % FieldLimit(short)
  }

  lemma Header16(n: nat, rest: Text)
    ensures Read16(Le16(n) + rest) == n % 0x1_0000
  {
    LowDigits(n);
    Read16Back(n % 0x1_0000, rest);
  }

  lemma LowDigits(n: nat)
    ensures n % 0x1_0000 % 0x100 == n % 0x100 && n % 0x1_0000 / 0x100 % 0x100 == n / 0x100 % 0x100
  {
  }

  lemma TwoHeaders(low: nat, high: nat, rest: Text)
    ensures Read32(Le16(low) + Le16(high) + rest) == low % 0x1_0000 + 0x1_0000 * (high % 0x1_0000)
  {
    var a, b := Le16(low), Le16(high) + rest;
    assert Le16(low) + Le16(high) + rest == a + b;
    assert (a + b)[2..] == b;
    Header16(low, b);
    Header16(high, rest);
  }

  lemma Header32(n: nat, rest: Text)
    ensures Read32(Le32(n) + rest) == n % 0x1_0000_0000
  {
    TwoHeaders(n % 0x1_0000, n / 0x1_0000, rest);
    HighDigits(n);
  }

  lemma HighDigits(n: nat)
    ensures n % 0x1_0000 + 0x1_0000 * (n / 0x1_0000 % 0x1_0000) == n % 0x1_0000_0000
  {
  }

  lemma Inner2Holds(short: bool, data: Text, random: Text)
    requires |random| >= 32
    ensures var inner, start := Inner2(short, data, random), if short then 2 else 4;
            && |inner| >= |data| + (if short then 18 else 20)
            && Padded2(inner, inner[..start] + data, random) && Number(short, inner) == |data| % FieldLimit(short)
  {
    var header := Header(short, |data|);
    var inner := Inner2(short, data, random);
    var pad := random[..PadLen2(|header + data|)];
    assert inner == header + (data + pad);
    assert inner[..if short then 2 else 4] == header;
    NumberRead(short, inner);
    if short {
      Header16(|data|, data + pad);
    } else {
      Header32(|data|, data + pad);
    }
  }

  /** A sealed packet in the new format, told from its bytes. */
  lemma Packet2Holds(p: Primitives, ek: Text, fingerprint: Text, isOutgoing: bool, short: bool, data: Text,
                     random: Text)
    requires Lawful(p) && IsKey(ek) && |fingerprint| == 8 && |random| >= 32
    ensures var packet := Packet2(p, ek, fingerprint, SendSlice(isOutgoing), short, data, random);
            |packet| >= 40 && Holds2(p, ek, fingerprint, isOutgoing, short, packet, data, random)
  {
    var x := SendSlice(isOutgoing);
    var inner := Inner2(short, data, random);
    var msgKey := MsgKey2(p, ek, x, inner, short);
    Inner2Holds(short, data, random);
    InnerSize(short, data, random);
    Packet2Parts(fingerprint, short, msgKey, Encrypted(p, Kdf2(p, ek, msgKey, x), inner));
    DecryptedBack(p, Kdf2(p, ek, msgKey, x), inner);
    assert short ==> inner[0..] == inner;
  }

  /** Up to fifteen bytes of padding, to whole blocks. */
  predicate Padded1(inner: Text, plain: Text, random: Text) {
    && 0 <= |inner| - |plain| < 16 && |inner| % 16 == 0
    && |random| >= 32 && inner == plain + random[..|inner| - |plain|]
  }

  /** The packet holds length, data and padding; the message key is the hash of length and data. */
  predicate Holds1(p: Primitives, ek: Text, fingerprint: Text, isOutgoing: bool, packet: Text, data: Text,
                   random: Text)
    requires IsKey(ek) && |packet| >= 40
  {
    var inner := Inside1(p, ek, if isOutgoing then 0 else 8, packet);
    && packet[..8] == fingerprint && |inner| >= |data| + 4
    && p.sha1(inner[..|data| + 4])[4..] == packet[8..24]
    && Padded1(inner, inner[..4] + data, random) && Number(false, inner) == |data| % FieldLimit(false)
  }

  lemma Inner1Holds(data: Text, random: Text)
    requires |random| >= 32
    ensures var inner := Inner1(data, random);
            && |inner| >= |data| + 4 && |inner| >= 16
            && Padded1(inner, inner[..4] + data, random) && Number(false, inner) == |data| % FieldLimit(false)
  {
    var inner := Inner1Is(data, random);
    NumberRead(false, inner);
    Header32(|data|, inner[4..]);
  }

  /** Length, data and the front of the random bytes. */
  lemma Inner1Is(data: Text, random: Text) returns (inner: Text)
    requires |random| >= 32
    ensures inner == Inner1(data, random) == Le32(|data|) + inner[4..] && |inner| >= |data| + 4 && |inner| >= 16
    ensures inner[..4] == Le32(|data|) && Padded1(inner, inner[..4] + data, random)
  {
    var header := Le32(|data|);
    var pad := random[..PadLen1(|header + data|)];
    inner := Inner1(data, random);
    assert inner == header + (data + pad);
    assert inner[..4] == header && inner[4..] == data + pad;
    WholeAbove(|inner|);
  }

  lemma WholeAbove(n: nat)
    requires n % 16 == 0 && n > 0
    ensures n >= 16
  {
  }

  /** A sealed packet in the old format, told from its bytes. */
  lemma Packet1Holds(p: Primitives, ek: Text, fingerprint: Text, isOutgoing: bool, data: Text, random: Text)
    requires Lawful(p) && IsKey(ek) && |fingerprint| == 8 && |random| >= 32
    ensures var packet := Packet1(p, ek, fingerprint, SendSlice(isOutgoing), data, random);
            |packet| >= 40 && Holds1(p, ek, fingerprint, isOutgoing, packet, data, random)
  {
    var x, inner := SendSlice(isOutgoing), Inner1(data, random);
    Inner1Holds(data, random);
    var msgHash := p.sha1(inner[..|data| + 4])[4..20];
    var body := Encrypted(p, Kdf(p, ek, msgHash, x), inner);
    Packet1Parts(fingerprint, msgHash, body);
    assert (fingerprint + msgHash + body)[..8] == fingerprint;
    DecryptedBack(p, Kdf(p, ek, msgHash, x), inner);
    WholeHash(p.sha1(inner[..|data| + 4]));
  }
}
