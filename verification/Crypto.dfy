/** Sealing and opening packets as the controller does it, with streams, arrays and a vector that is overwritten. */
module Crypto {
  import opened Ige
  import opened Envelope
  import opened PacketChecks

  /** Bytes that are written one after the other. */
  class OutputStream {
    var bytes: Text

    constructor ()
      ensures bytes == []
    {
      bytes := [];
    }

    method WriteBytes(b: Text)
      modifies this
      ensures bytes == old(bytes) + b
    {
      bytes := bytes + b;
    }

    method WriteInt16(n: nat)
      modifies this
      ensures bytes == old(bytes) + Le16(n)
    {
      bytes := bytes + Le16(n);
    }

    method WriteInt32(n: nat)
      modifies this
      ensures bytes == old(bytes) + Le32(n)
    {
      bytes := bytes + Le32(n);
    }

    method Reset()
      modifies this
      ensures bytes == []
    {
      bytes := [];
    }

    /** From the start again, with two pieces. */
    method Rewrite(a: Text, b: Text)
      modifies this
      ensures bytes == a + b
    {
      Reset();
      WriteBytes(a);
      WriteBytes(b);
      assert [] + a == a;
    }
  }

  lemma Pieces(before: Text, a: Text, b: Text, c: Text)
    ensures before + a + b + c == before + (a + b + c)
    ensures a == [] ==> before + b + c == before + (a + b + c)
  {
  }

  /** A whole array is overwritten. */
  method Fill(to: array<bv8>, b: Text)
    requires |b| == to.Length
    modifies to
    ensures to[..] == b
  {
    Copy(to, 0, b);
  }

  method Copy(to: array<bv8>, offset: nat, b: Text)
    requires offset + |b| <= to.Length
    modifies to
    ensures to[..] == old(to[..offset]) + b + old(to[offset + |b|..])
  {
    var i := 0;
    while i < |b|
      invariant i <= |b|
      invariant forall k | 0 <= k < to.Length :: to[k] == if offset <= k < offset + i then b[k - offset] else old(to[k])
    {
      to[offset + i] := b[i];
      i := i + 1;
    }
  }

  method NewArray(b: Text) returns (a: array<bv8>)
    ensures fresh(a) && a[..] == b
  {
    a := new bv8[|b|];
    Fill(a, b);
  }

  class Controller {
    const crypto: Primitives
    const encryptionKey: Text
    const keyFingerprint: Text
    const isOutgoing: bool
    const legacyLegacy: bool
    /** The call is still being set up. */
    var waiting: bool
    var useMTProto2: bool

    constructor (crypto: Primitives, key: Text, isOutgoing: bool, legacyLegacy: bool, waiting: bool, useMTProto2: bool)
      requires IsKey(key)
      ensures Valid() && this.crypto == crypto && encryptionKey == key && keyFingerprint == crypto.sha1(key)[12..]
      ensures this.isOutgoing == isOutgoing && this.legacyLegacy == legacyLegacy
      ensures this.waiting == waiting && this.useMTProto2 == useMTProto2
    {
      this.crypto, this.encryptionKey, this.keyFingerprint := crypto, key, crypto.sha1(key)[12..];
      this.isOutgoing, this.legacyLegacy := isOutgoing, legacyLegacy;
      this.waiting, this.useMTProto2 := waiting, useMTProto2;
    }

    predicate Valid() {
      IsKey(encryptionKey) && |keyFingerprint| == 8
    }

    method KDF(msgKey: Text, x: nat, aesKey: array<bv8>, aesIv: array<bv8>)
      requires Valid() && |msgKey| == 16 && x <= 8 && aesKey.Length == aesIv.Length == 32 && aesKey != aesIv
      modifies aesKey, aesIv
      ensures aesKey[..] == Kdf(crypto, encryptionKey, msgKey, x).key
              && aesIv[..] == Kdf(crypto, encryptionKey, msgKey, x).iv
      ensures aesKey[..8] + aesIv[..12] == crypto.sha1(msgKey + encryptionKey[x..x + 32])
      ensures aesIv[12..20] + aesKey[8..20]
           == crypto.sha1(encryptionKey[x + 32..x + 48] + msgKey + encryptionKey[x + 48..x + 64])
      ensures aesKey[20..] + aesIv[20..24] == crypto.sha1(encryptionKey[x + 64..x + 96] + msgKey)[4..]
      ensures aesIv[24..] == crypto.sha1(msgKey + encryptionKey[x + 96..x + 128])[..8]
    {
      var buf := new OutputStream();
      buf.Rewrite(msgKey, encryptionKey[x..x + 32]);
      var sA := crypto.sha1(buf.bytes);
      buf.Rewrite(encryptionKey[32 + x..48 + x], msgKey);
      buf.WriteBytes(encryptionKey[48 + x..64 + x]);
      var sB := crypto.sha1(buf.bytes);
      buf.Rewrite(encryptionKey[64 + x..96 + x], msgKey);
      var sC := crypto.sha1(buf.bytes);
      buf.Rewrite(msgKey, encryptionKey[96 + x..128 + x]);
      var sD := crypto.sha1(buf.bytes);
      Fill(aesKey, sA[..8] + sB[8..20] + sC[4..16]);
      Fill(aesIv, sA[8..20] + sB[..8] + sC[16..20] + sD[..8]);
      KdfParts(crypto, encryptionKey, msgKey, x);
    }

    method KDF2(msgKey: Text, x: nat, aesKey: array<bv8>, aesIv: array<bv8>)
      requires Valid() && |msgKey| == 16 && x <= 8 && aesKey.Length == aesIv.Length == 32 && aesKey != aesIv
      modifies aesKey, aesIv
      ensures aesKey[..] == Kdf2(crypto, encryptionKey, msgKey, x).key
              && aesIv[..] == Kdf2(crypto, encryptionKey, msgKey, x).iv
      ensures aesKey[..8] + aesIv[8..24] + aesKey[24..] == crypto.sha256(msgKey + encryptionKey[x..x + 36])
      ensures aesIv[..8] + aesKey[8..24] + aesIv[24..] == crypto.sha256(encryptionKey[x + 40..x + 76] + msgKey)
    {
      var buf := new OutputStream();
      buf.Rewrite(msgKey, encryptionKey[x..x + 36]);
      var sA := crypto.sha256(buf.bytes);
      buf.Rewrite(encryptionKey[40 + x..76 + x], msgKey);
      var sB := crypto.sha256(buf.bytes);
      Fill(aesKey, sA[..8] + sB[8..24] + sA[24..32]);
      Fill(aesIv, sB[..8] + sA[8..24] + sB[24..32]);
      Kdf2Parts(crypto, encryptionKey, msgKey, x);
    }

    /** A text of whole blocks is encrypted into an array of its own. */
    method Encrypt(inner: Text, key: array<bv8>, iv: array<bv8>) returns (aesOut: Text)
      requires Whole(inner) && key.Length == iv.Length == 32 && key != iv
      modifies iv
      ensures aesOut == Encrypted(crypto, KeyIv(key[..], old(iv[..])), inner)
    {
      var inp := NewArray(inner);
      var out := new bv8[|inner|];
      assert Filled(inner) == inner && inp[..|inner|] == inner && Rounded(|inner|) == |inner|;
      AesIgeEncrypt(crypto.aes(key[..]), inp, out, |inner|, iv);
      aesOut := out[..];
    }

    method Decrypt(body: Text, key: array<bv8>, iv: array<bv8>) returns (aesOut: Text)
      requires key.Length == iv.Length == 32 && key != iv
      modifies iv
      ensures aesOut == Decrypted(crypto, KeyIv(key[..], old(iv[..])), body)
    {
      var inp := NewArray(body);
      var out := new bv8[Rounded(|body|)];
      assert inp[..|body|] == body;
      AesIgeDecrypt(crypto.aes(key[..]), inp, out, |body|, iv);
      aesOut := out[..|body|];
    }

    /** What a packet is for this controller's side. */
    function Sealed(data: Text, random: Text): Text
      requires Valid() && |random| >= 32
      reads this
    {
      if useMTProto2 then
        Packet2(crypto, encryptionKey, keyFingerprint, SendSlice(isOutgoing), !legacyLegacy, data, random)
      else Packet1(crypto, encryptionKey, keyFingerprint, SendSlice(isOutgoing), data, random)
    }

    /** The packet is in the format in use and holds the data, under the keys of this side. */
    predicate IsSealed(packet: Text, data: Text, random: Text)
      requires Valid()
      reads this
    {
      && |packet| >= 40
      && if useMTProto2 then
           Holds2(crypto, encryptionKey, keyFingerprint, isOutgoing, !legacyLegacy, packet, data, random)
         else Holds1(crypto, encryptionKey, keyFingerprint, isOutgoing, packet, data, random)
    }

    lemma SealedHolds(data: Text, random: Text)
      requires Valid() && |random| >= 32
      ensures Lawful(crypto) ==> IsSealed(Sealed(data, random), data, random)
    {
      if Lawful(crypto) {
        if useMTProto2 {
          Packet2Holds(crypto, encryptionKey, keyFingerprint, isOutgoing, !legacyLegacy, data, random);
        } else {
          Packet1Holds(crypto, encryptionKey, keyFingerprint, isOutgoing, data, random);
        }
      }
    }

    /** Data is sealed into a packet; random is what the source of padding bytes gives. */
    method EncryptPacket(data: Text, out: OutputStream, random: Text)
      requires Valid() && |random| >= 32
      modifies out
      ensures out.bytes == old(out.bytes) + Sealed(data, random)
      ensures Lawful(crypto) ==> IsSealed(out.bytes[|old(out.bytes)|..], data, random)
    {
      ghost var packet := Sealed(data, random);
      if useMTProto2 {
        EncryptPacket2(data, out, random);
      } else {
        EncryptPacket1(data, out, random);
      }
      assert out.bytes[|old(out.bytes)|..] == packet;
      SealedHolds(data, random);
    }

    method EncryptPacket2(data: Text, out: OutputStream, random: Text)
      requires Valid() && |random| >= 32
      modifies out
      ensures out.bytes == old(out.bytes)
                + Packet2(crypto, encryptionKey, keyFingerprint, SendSlice(isOutgoing), !legacyLegacy, data, random)
    {
      var inner := BuildInner2(data, random);
      if legacyLegacy {
        out.WriteBytes(keyFingerprint);
      }
      var msgKey, aesOut := SealInner2(inner);
      out.WriteBytes(msgKey);
      out.WriteBytes(aesOut);
      Pieces(old(out.bytes), if legacyLegacy then keyFingerprint else [], msgKey, aesOut);
    }

    /** The message key, and the inner bytes under the keys derived from it. */
    method SealInner2(inner: Text) returns (msgKey: Text, aesOut: Text)
      requires Valid() && Whole(inner) && |inner| >= 4
      ensures msgKey == MsgKey2(crypto, encryptionKey, SendSlice(isOutgoing), inner, !legacyLegacy)
      ensures aesOut == Encrypted(crypto, Kdf2(crypto, encryptionKey, msgKey, SendSlice(isOutgoing)), inner)
    {
      var sizeSize := if legacyLegacy then 4 else 0;
      var key, iv := new bv8[32], new bv8[32];
      msgKey := HashInner(if isOutgoing then 0 else 8, inner[sizeSize..]);
      KDF2(msgKey, if isOutgoing then 0 else 8, key, iv);
      aesOut := Encrypt(inner, key, iv);
    }

    /** Length, data and padding. */
    method BuildInner2(data: Text, random: Text) returns (bytes: Text)
      requires |random| >= 32
      ensures bytes == Inner2(!legacyLegacy, data, random)
    {
      var inner := new OutputStream();
      if !legacyLegacy {
        inner.WriteInt16(|data|);
      } else {
        inner.WriteInt32(|data|);
      }
      assert inner.bytes == Header(!legacyLegacy, |data|);
      inner.WriteBytes(data);
      var padLen := 16 - |inner.bytes| % 16;
      if padLen < 16 {
        padLen := padLen + 16;
      }
      inner.WriteBytes(random[..padLen]);
      bytes := inner.bytes;
    }

    /** The message key: sixteen bytes of the hash of a slice of the key and the inner bytes. */
    method HashInner(x: nat, inner: Text) returns (msgKey: Text)
      requires Valid() && x <= 8
      ensures msgKey == crypto.sha256(encryptionKey[88 + x..120 + x] + inner)[8..24]
    {
      var buf := new OutputStream();
      buf.Rewrite(encryptionKey[88 + x..120 + x], inner);
      var msgKeyLarge := crypto.sha256(buf.bytes);
      msgKey := msgKeyLarge[8..24];
    }

    method EncryptPacket1(data: Text, out: OutputStream, random: Text)
      requires Valid() && |random| >= 32
      modifies out
      ensures out.bytes == old(out.bytes)
                + Packet1(crypto, encryptionKey, keyFingerprint, SendSlice(isOutgoing), data, random)
    {
      var inner := BuildInner1(data, random);
      var msgHash := crypto.sha1(inner[..|data| + 4]);
      out.WriteBytes(keyFingerprint);
      out.WriteBytes(msgHash[4..20]);
      var aesOut := SealInner1(inner, msgHash[4..20]);
      out.WriteBytes(aesOut);
      Pieces(old(out.bytes), keyFingerprint, msgHash[4..20], aesOut);
    }

    method SealInner1(inner: Text, msgKey: Text) returns (aesOut: Text)
      requires Valid() && Whole(inner) && |msgKey| == 16
      ensures aesOut == Encrypted(crypto, Kdf(crypto, encryptionKey, msgKey, SendSlice(isOutgoing)), inner)
    {
      var key, iv := new bv8[32], new bv8[32];
      KDF(msgKey, if isOutgoing then 0 else 8, key, iv);
      aesOut := Encrypt(inner, key, iv);
    }

    method BuildInner1(data: Text, random: Text) returns (bytes: Text)
      requires |random| >= 32
      ensures bytes == Inner1(data, random)
    {
      var inner := new OutputStream();
      inner.WriteInt32(|data|);
      assert inner.bytes == Le32(|data|);
      inner.WriteBytes(data);
      if |inner.bytes| % 16 != 0 {
        var padLen := 16 - |inner.bytes| % 16;
        inner.WriteBytes(random[..padLen]);
      }
      bytes := inner.bytes;
    }
 
    /** What this side makes of a packet. */
    function OpenedHere(packet: Text): Opening
      requires Valid() && |packet| >= 40
      reads this
    {
      Opened(crypto, encryptionKey, keyFingerprint, isOutgoing, !legacyLegacy, waiting, useMTProto2, packet)
    }

    predicate GivesHere(packet: Text, n: int, data: Text)
      requires Valid() && |packet| >= 40
      reads this
    {
      Gives(crypto, encryptionKey, keyFingerprint, isOutgoing, !legacyLegacy, waiting, useMTProto2, packet, n, data)
    }

    predicate GenuineHere1(packet: Text)
      requires Valid() && |packet| >= 40
    {
      Genuine1(crypto, encryptionKey, if isOutgoing then 8 else 0, packet)
    }

    ghost predicate Takes(packet: Text)
      requires Valid() && |packet| >= 40
      reads this
    {
      exists n: int, data: Text :: GivesHere(packet, n, data)
    }

    /** A packet is opened just when it passes the checks of its format. */
    lemma TakesIff(packet: Text)
      requires Valid() && |packet| >= 40
      ensures var o := OpenedHere(packet);
              && (if Takes(packet) then o.received.Received? && GivesHere(packet, o.received.len, o.received.bytes)
                  else o.received.Rejected?)
              && o.useMTProto2 == (useMTProto2 || (Takes(packet) && !GenuineHere1(packet)))
    {
      var o := OpenedHere(packet);
      forall n: int, data: Text
        ensures o.received == Received(n, data) <==> GivesHere(packet, n, data)
        ensures o.useMTProto2 == (useMTProto2 || (o.received.Received? && !GenuineHere1(packet)))
      {
        OpenedIff(crypto, encryptionKey, keyFingerprint, isOutgoing, !legacyLegacy, waiting, useMTProto2, packet, n,
                  data);
      }
      if o.received.Received? {
        assert GivesHere(packet, o.received.len, o.received.bytes);
      }
    }

    /**
     * A packet in the buffer, from an offset on, is opened in place. The length is zero when it is
     * rejected; otherwise the bytes to be read next are those of the buffer from inOffset to inEnd.
     */
    method DecryptPacket(buffer: array<bv8>, offset: nat) returns (innerLen: int, inOffset: nat, inEnd: nat)
      requires Valid() && offset + 40 <= buffer.Length
      modifies buffer, this`useMTProto2
      ensures inOffset <= inEnd <= buffer.Length
      ensures var o := old(OpenedHere(buffer[offset..]));
              && useMTProto2 == o.useMTProto2
              && (o.received.Rejected? ==> innerLen == 0)
              && (o.received.Received? ==> innerLen == o.received.len && buffer[inOffset..inEnd] == o.received.bytes)
      ensures var packet, got := old(buffer[offset..]), buffer[inOffset..inEnd];
              && (if old(Takes(packet)) then old(GivesHere(packet, innerLen, got)) else innerLen == 0)
              && useMTProto2 == old(useMTProto2 || (Takes(packet) && !GenuineHere1(packet)))
    {
      TakesIff(buffer[offset..]);
      innerLen, inOffset, inEnd := DecryptInPlace(buffer, offset);
    }

    method DecryptInPlace(buffer: array<bv8>, offset: nat) returns (innerLen: int, inOffset: nat, inEnd: nat)
      requires Valid() && offset + 40 <= buffer.Length
      modifies buffer, this`useMTProto2
      ensures inOffset <= inEnd <= buffer.Length
      ensures var o := old(OpenedHere(buffer[offset..]));
              && useMTProto2 == o.useMTProto2
              && (o.received.Rejected? ==> innerLen == 0)
              && (o.received.Received? ==> innerLen == o.received.len && buffer[inOffset..inEnd] == o.received.bytes)
    {
      innerLen, inOffset, inEnd := 0, offset, buffer.Length;
      var retryWith2 := false;
      if !useMTProto2 {
        var ok;
        ok, innerLen := DecryptPacket1(buffer, offset);
        if ok {
          inOffset := offset + 28;
          return;
        }
        if !waiting {
          return;
        }
        retryWith2 := true;
      }
      var ok, len := DecryptPacket2(buffer, offset);
      if ok {
        innerLen, inOffset, inEnd := len, 0, len;
        if retryWith2 {
          useMTProto2 := true;
        }
      }
    }

    /** The old format: the decrypted bytes take the place of the encrypted ones. */
    method DecryptPacket1(buffer: array<bv8>, offset: nat) returns (ok: bool, len: int)
      requires Valid() && offset + 40 <= buffer.Length
      modifies buffer
      ensures var r := Open1(crypto, encryptionKey, ReceiveSlice(isOutgoing), old(buffer[offset..]));
              && ok == r.Received?
              && (!ok ==> len == 0 && buffer[..] == old(buffer[..]))
              && (ok ==> len == r.len && buffer[offset + 28..] == r.bytes)
    {
      ghost var packet := buffer[offset..];
      var msgHash, body := buffer[offset + 8..offset + 24], buffer[offset + 24..];
      assert packet[8..24] == msgHash && packet[24..] == body;
      var aesOut := OpenBody1(msgHash, body);
      ok, len := CheckHash1(msgHash, aesOut);
      if ok {
        Copy(buffer, offset + 24, aesOut);
        assert buffer[offset + 28..] == aesOut[4..];
      }
    }

    method OpenBody1(msgHash: Text, body: Text) returns (decrypted: Text)
      requires Valid() && |msgHash| == 16
      ensures decrypted == Decrypted(crypto, Kdf(crypto, encryptionKey, msgHash, ReceiveSlice(isOutgoing)), body)
    {
      var key, iv := new bv8[32], new bv8[32];
      KDF(msgHash, if isOutgoing then 8 else 0, key, iv);
      decrypted := Decrypt(body, key, iv);
    }

    method CheckHash1(msgHash: Text, aesOut: Text) returns (ok: bool, len: int)
      requires |aesOut| >= 4
      ensures var r := Checked1(crypto, msgHash, aesOut);
              ok == r.Received? && len == if ok then r.len else 0
    {
      var n := Read32(aesOut);
      if n > |aesOut| - 4 {
        n := |aesOut| - 4;
      }
      var sha := crypto.sha1(aesOut[..n + 4]);
      ok := msgHash == sha[4..20];
      len := if ok then Signed(Read32(aesOut)) else 0;
    }

    /** The new format: the payload goes to the start of the buffer. */
    method DecryptPacket2(buffer: array<bv8>, offset: nat) returns (ok: bool, innerLen: nat)
      requires Valid() && offset + 40 <= buffer.Length
      modifies buffer
      ensures var r := Open2(crypto, encryptionKey, keyFingerprint, ReceiveSlice(isOutgoing), !legacyLegacy,
                             old(buffer[offset..]));
              && ok == r.Received?
              && (ok ==> innerLen == r.len && innerLen <= buffer.Length && buffer[..innerLen] == r.bytes)
    {
      innerLen := 0;
      var decrypted;
      ok, decrypted := CheckPacket2(buffer[offset..]);
      if ok {
        ok, innerLen := Unwrap(decrypted, buffer);
      }
    }

    /** Fingerprint, length and hash. */
    method CheckPacket2(packet: Text) returns (ok: bool, decrypted: Text)
      requires Valid() && |packet| >= 40
      ensures var r := Checked2(crypto, encryptionKey, keyFingerprint, ReceiveSlice(isOutgoing), !legacyLegacy, packet);
              ok == r.Received? && (ok ==> decrypted == r.bytes)
    {
      ok, decrypted := false, [];
      var pos := 0;
      if legacyLegacy {
        if packet[..8] != keyFingerprint {
          return;
        }
        pos := 8;
      }
      var msgKey, body := packet[pos..pos + 16], packet[pos + 16..];
      if |body| > MAX_DECRYPTED || |body| % 16 != 0 {
        return;
      }
      decrypted := OpenBody2(msgKey, body);
      var hash := HashInner(if isOutgoing then 8 else 0, decrypted[if legacyLegacy then 4 else 0..]);
      ok := msgKey == hash;
    }

    method OpenBody2(msgKey: Text, body: Text) returns (decrypted: Text)
      requires Valid() && |msgKey| == 16
      ensures decrypted == Decrypted(crypto, Kdf2(crypto, encryptionKey, msgKey, ReceiveSlice(isOutgoing)), body)
    {
      var key, iv := new bv8[32], new bv8[32];
      KDF2(msgKey, if isOutgoing then 8 else 0, key, iv);
      decrypted := Decrypt(body, key, iv);
    }

    /** The checks on the inner length, and the payload. */
    method Unwrap(decrypted: Text, buffer: array<bv8>) returns (ok: bool, innerLen: nat)
      requires 16 <= |decrypted| <= buffer.Length
      modifies buffer
      ensures var r := Unwrapped(!legacyLegacy, decrypted);
              && ok == r.Received?
              && (ok ==> innerLen == r.len && innerLen <= buffer.Length && buffer[..innerLen] == r.bytes)
    {
      ok := false;
      innerLen := if !legacyLegacy then Widened(Read16(decrypted)) else Read32(decrypted);
      if innerLen > |decrypted| - (if legacyLegacy then 4 else 0) {
        return;
      }
      if |decrypted| - innerLen < (if !legacyLegacy then 16 else 12) {
        return;
      }
      var start := if !legacyLegacy then 2 else 4;
      Copy(buffer, 0, decrypted[start..start + innerLen]);
      ok := true;
    }
  }

  /** The two sides of a call: the same key and formats, and opposite directions. */
  ghost predicate Peers(a: Controller, b: Controller)
    reads a, b
  {
    && a.Valid() && b.Valid() && Lawful(a.crypto) && a.crypto == b.crypto && a.encryptionKey == b.encryptionKey
    && a.keyFingerprint == b.keyFingerprint && a.isOutgoing != b.isOutgoing && a.legacyLegacy == b.legacyLegacy
    && a.useMTProto2 == b.useMTProto2
  }

  /** In the new format a peer gets the data back just when it is within the size limit. */
  lemma PeersAgree2(a: Controller, b: Controller, data: Text, random: Text)
    requires Peers(a, b) && a.useMTProto2 && |random| >= 32
    ensures var packet, fits := a.Sealed(data, random), |Inner2(!a.legacyLegacy, data, random)| <= MAX_DECRYPTED;
            |packet| >= 40
            && b.OpenedHere(packet) == Opening(if fits then Received(|data|, data) else Rejected, true)
  {
    Open2Packet2(a.crypto, a.encryptionKey, a.keyFingerprint, a.isOutgoing, !a.legacyLegacy, data, random);
    assert b.isOutgoing == !a.isOutgoing;
  }

  /** In the old format a peer gets the data back, followed by the padding. */
  lemma PeersAgree1(a: Controller, b: Controller, data: Text, random: Text)
    requires Peers(a, b) && !a.useMTProto2 && |random| >= 32 && |data| < 0x8000_0000
    ensures var packet := a.Sealed(data, random);
            |packet| >= 40
            && b.OpenedHere(packet) == Opening(Received(|data|, data + random[..PadLen1(|data| + 4)]), false)
  {
    Open1Packet1(a.crypto, a.encryptionKey, a.keyFingerprint, a.isOutgoing, data, random);
    assert b.isOutgoing == !a.isOutgoing;
  }
}
