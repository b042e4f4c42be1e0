/** The chaining mode IGE over a block cipher that is not looked into. */
module Ige {

  type Text = seq<bv8>

  type Block = b: Text | |b| == 16 witness seq(16, _ => 0)

  /** A block cipher under one key. */
  datatype Cipher = Cipher(enc: Block -> Block, dec: Block -> Block)

  /** Decryption undoes encryption. */
  ghost predicate Inverse(c: Cipher) {
    forall b: Block :: c.dec(c.enc(b)) == b
  }

  function XorBlock(a: Block, b: Block): Block {
    seq(16, i requires 0 <= i < 16 => a[i] ^ b[i])
  }

  lemma XorTwice(a: Block, b: Block)
    ensures XorBlock(XorBlock(a, b), b) == a
  {
    forall i | 0 <= i < 16 ensures XorBlock(XorBlock(a, b), b)[i] == a[i] {
      ByteTwice(a[i], b[i]);
    }
  }

  lemma ByteTwice(a: bv8, b: bv8)
    ensures (a ^ b) ^ b == a
  {
  }

  /** The blocks before: the two halves of the vector. */
  datatype Chain = Chain(cipher: Block, plain: Block)

  function SealBlock(c: Cipher, p: Block, ch: Chain): Block {
    XorBlock(c.enc(XorBlock(p, ch.cipher)), ch.plain)
  }

  function OpenBlock(c: Cipher, q: Block, ch: Chain): Block {
    XorBlock(c.dec(XorBlock(q, ch.plain)), ch.cipher)
  }

  /** The text that was written, and the vector that is left. */
  datatype Outcome = Outcome(text: Text, chain: Chain)

  predicate Whole(data: Text) {
    |data| % 16 == 0
  }

  function LastBlock(data: Text): Block
    requires Whole(data) && data != []
  {
    data[|data| - 16..]
  }

  function Before(data: Text): (r: Text)
    requires Whole(data) && data != []
    ensures Whole(r) && |r| == |data| - 16
  {
    data[..|data| - 16]
  }

  function Seal(c: Cipher, data: Text, ch: Chain): (r: Outcome)
    requires Whole(data)
    ensures |r.text| == |data|
    decreases |data|
  {
    if data == [] then Outcome([], ch)
    else
      var r := Seal(c, Before(data), ch);
      var q := SealBlock(c, LastBlock(data), r.chain);
      Outcome(r.text + q, Chain(q, LastBlock(data)))
  }

  function Open(c: Cipher, data: Text, ch: Chain): (r: Outcome)
    requires Whole(data)
    ensures |r.text| == |data|
    decreases |data|
  {
    if data == [] then Outcome([], ch)
    else
      var r := Open(c, Before(data), ch);
      var p := OpenBlock(c, LastBlock(data), r.chain);
      Outcome(r.text + p, Chain(LastBlock(data), p))
  }

  lemma OpenSealBlock(c: Cipher, p: Block, ch: Chain)
    requires Inverse(c)
    ensures OpenBlock(c, SealBlock(c, p, ch), ch) == p
  {
    var e := c.enc(XorBlock(p, ch.cipher));
    XorTwice(e, ch.plain);
    assert c.dec(e) == XorBlock(p, ch.cipher);
    XorTwice(p, ch.cipher);
  }

  lemma Appended(a: Text, b: Block)
    requires Whole(a)
    ensures Whole(a + b) && a + b != [] && Before(a + b) == a && LastBlock(a + b) == b
  {
  }

  lemma Split(data: Text)
    requires Whole(data) && data != []
    ensures data == Before(data) + LastBlock(data)
  {
  }

  /** From the same vector, decryption gives back every text of whole blocks, and leaves the same vector. */
  lemma {:induction false} OpenSeal(c: Cipher, data: Text, ch: Chain)
    requires Inverse(c) && Whole(data)
    ensures Open(c, Seal(c, data, ch).text, ch) == Outcome(data, Seal(c, data, ch).chain)
    decreases |data|
  {
    if data != [] {
      var p := LastBlock(data);
      var r := Seal(c, Before(data), ch);
      OpenSeal(c, Before(data), ch);
      Appended(r.text, SealBlock(c, p, r.chain));
      OpenSealBlock(c, p, r.chain);
      Split(data);
    }
  }

  lemma SealAppended(c: Cipher, a: Text, x: Block, ch: Chain)
    requires Whole(a)
    ensures Whole(a + x)
    ensures var r := Seal(c, a, ch); var y := SealBlock(c, x, r.chain);
            Seal(c, a + x, ch) == Outcome(r.text + y, Chain(y, x))
  {
    Appended(a, x);
  }

  /** A text may be encrypted in pieces when the vector is carried over. */
  lemma {:induction false} SealPieces(c: Cipher, a: Text, b: Text, ch: Chain)
    requires Whole(a) && Whole(b)
    ensures Whole(a + b)
    ensures var r := Seal(c, a, ch); var s := Seal(c, b, r.chain);
            Seal(c, a + b, ch) == Outcome(r.text + s.text, s.chain)
    decreases |b|
  {
    if b == [] {
      assert a + b == a;
    } else {
      var x := LastBlock(b);
      SealPieces(c, a, Before(b), ch);
      SealAppended(c, a + Before(b), x, ch);
      assert a + b == (a + Before(b)) + x;
    }
  }

  lemma OpenAppended(c: Cipher, a: Text, x: Block, ch: Chain)
    requires Whole(a)
    ensures Whole(a + x)
    ensures var r := Open(c, a, ch); var y := OpenBlock(c, x, r.chain);
            Open(c, a + x, ch) == Outcome(r.text + y, Chain(x, y))
  {
    Appended(a, x);
  }

  lemma {:induction false} OpenPieces(c: Cipher, a: Text, b: Text, ch: Chain)
    requires Whole(a) && Whole(b)
    ensures Whole(a + b)
    ensures var r := Open(c, a, ch); var s := Open(c, b, r.chain);
            Open(c, a + b, ch) == Outcome(r.text + s.text, s.chain)
    decreases |b|
  {
    if b == [] {
      assert a + b == a;
    } else {
      var x := LastBlock(b);
      OpenPieces(c, a, Before(b), ch);
      OpenAppended(c, a + Before(b), x, ch);
      assert a + b == (a + Before(b)) + x;
    }
  }

  // ----- The chaining, byte by byte

  /** The k-th block of a text. */
  function BlockAt(data: Text, k: nat): Block
    requires 16 * k + 16 <= |data|
  {
    data[16 * k..16 * k + 16]
  }

  /** The block before the k-th; the first has one of its own. */
  function Previous(first: Block, data: Text, k: nat): Block
    requires 16 * k <= |data|
  {
    if k == 0 then first else BlockAt(data, k - 1)
  }

  /** The sum of two blocks, bit by bit. */
  predicate IsXor(r: Block, a: Block, b: Block) {
    forall i | 0 <= i < 16 :: r[i] == a[i] ^ b[i]
  }

  /** A block q is made of a block p by a cipher: the block y is added before it, the block x behind it. */
  ghost predicate Links(f: Block -> Block, p: Block, q: Block, y: Block, x: Block) {
    exists z: Block :: IsXor(z, p, y) && IsXor(f(z), q, x)
  }

  /** Each block that is written is linked with the one written and the one read before it. */
  ghost predicate Chains(f: Block -> Block, read: Text, written: Text, y: Block, x: Block) {
    && Whole(read) && |written| == |read|
    && forall k: nat | 16 * k + 16 <= |read| :: LinkAt(f, read, written, y, x, k)
  }

  lemma ByteMoves(a: bv8, b: bv8, c: bv8)
    ensures c == a ^ b ==> a == c ^ b
  {
  }

  lemma XorIff(r: Block, a: Block, b: Block)
    ensures IsXor(r, a, b) <==> r == XorBlock(a, b)
  {
    if IsXor(r, a, b) {
      assert forall i | 0 <= i < 16 :: r[i] == XorBlock(a, b)[i];
    }
  }

  lemma XorMoves(r: Block, a: Block, b: Block)
    requires IsXor(r, a, b)
    ensures IsXor(a, r, b)
  {
    forall i | 0 <= i < 16 ensures a[i] == r[i] ^ b[i] {
      ByteMoves(a[i], b[i], r[i]);
    }
  }

  /** A block that is linked is the one that is computed. */
  lemma LinksIff(f: Block -> Block, p: Block, q: Block, y: Block, x: Block)
    ensures Links(f, p, q, y, x) <==> q == XorBlock(f(XorBlock(p, y)), x)
  {
    var r := XorBlock(p, y);
    XorIff(r, p, y);
    if Links(f, p, q, y, x) {
      var z: Block :| IsXor(z, p, y) && IsXor(f(z), q, x);
      XorIff(z, p, y);
      XorMoves(f(z), q, x);
      XorIff(q, f(z), x);
    }
    if q == XorBlock(f(r), x) {
      XorIff(q, f(r), x);
      XorMoves(q, f(r), x);
      assert IsXor(r, p, y) && IsXor(f(r), q, x);
    }
  }

  /** The k-th block written is linked. */
  ghost predicate LinkAt(f: Block -> Block, read: Text, written: Text, y: Block, x: Block, k: nat)
    requires |written| == |read| && 16 * k + 16 <= |read|
  {
    Links(f, BlockAt(read, k), BlockAt(written, k), Previous(y, written, k), Previous(x, read, k))
  }

  lemma BlockBefore(a: Text, p: Block, k: nat)
    requires 16 * k + 16 <= |a|
    ensures BlockAt(a + p, k) == BlockAt(a, k)
  {
  }

  lemma PreviousBefore(first: Block, a: Text, p: Block, k: nat)
    requires 16 * k <= |a|
    ensures Previous(first, a + p, k) == Previous(first, a, k)
  {
    if k > 0 {
      BlockBefore(a, p, k - 1);
    }
  }

  lemma BlockLast(a: Text, p: Block)
    requires Whole(a)
    ensures BlockAt(a + p, |a| / 16) == p
  {
  }

  lemma ChainsMore(f: Block -> Block, a: Text, b: Text, p: Block, q: Block, y: Block, x: Block)
    requires Chains(f, a, b, y, x)
    requires Links(f, p, q, Previous(y, b, |b| / 16), Previous(x, a, |a| / 16))
    ensures Chains(f, a + p, b + q, y, x)
  {
    forall k: nat | 16 * k + 16 <= |a + p|
      ensures LinkAt(f, a + p, b + q, y, x, k)
    {
      PreviousBefore(y, b, q, k);
      PreviousBefore(x, a, p, k);
      if 16 * k + 16 <= |a| {
        assert LinkAt(f, a, b, y, x, k);
        BlockBefore(a, p, k);
        BlockBefore(b, q, k);
      } else {
        BlockLast(a, p);
        BlockLast(b, q);
      }
    }
  }

  /** The blocks at the end of a chain. */
  predicate Ends(read: Text, written: Text, y: Block, x: Block, lastWritten: Block, lastRead: Block)
    requires Whole(read) && |written| == |read|
  {
    lastWritten == Previous(y, written, |written| / 16) && lastRead == Previous(x, read, |read| / 16)
  }

  /** Encryption chains through the cipher; the vector that is left is the last block of each text. */
  lemma {:induction false} SealChains(c: Cipher, data: Text, ch: Chain)
    requires Whole(data)
    ensures var r := Seal(c, data, ch);
            && Chains(c.enc, data, r.text, ch.cipher, ch.plain)
            && Ends(data, r.text, ch.cipher, ch.plain, r.chain.cipher, r.chain.plain)
    decreases |data|
  {
    if data != [] {
      var a, p := Before(data), LastBlock(data);
      var r := Seal(c, a, ch);
      SealChains(c, a, ch);
      LinksIff(c.enc, p, SealBlock(c, p, r.chain), r.chain.cipher, r.chain.plain);
      ChainsMore(c.enc, a, r.text, p, SealBlock(c, p, r.chain), ch.cipher, ch.plain);
      Split(data);
    }
  }

  /** So does decryption, with the two halves of the vector exchanged. */
  lemma {:induction false} OpenChains(c: Cipher, data: Text, ch: Chain)
    requires Whole(data)
    ensures var r := Open(c, data, ch);
            && Chains(c.dec, data, r.text, ch.plain, ch.cipher)
            && Ends(data, r.text, ch.plain, ch.cipher, r.chain.plain, r.chain.cipher)
    decreases |data|
  {
    if data != [] {
      var a, q := Before(data), LastBlock(data);
      var r := Open(c, a, ch);
      OpenChains(c, a, ch);
      LinksIff(c.dec, q, OpenBlock(c, q, r.chain), r.chain.plain, r.chain.cipher);
      ChainsMore(c.dec, a, r.text, q, OpenBlock(c, q, r.chain), ch.plain, ch.cipher);
      Split(data);
    }
  }

  lemma SamePrevious(y: Block, a: Text, b: Text, k: nat)
    requires 16 * k <= |a| == |b| && a[..16 * k] == b[..16 * k]
    ensures Previous(y, a, k) == Previous(y, b, k)
  {
    if k > 0 {
      assert BlockAt(a, k - 1) == a[..16 * k][16 * k - 16..] && BlockAt(b, k - 1) == b[..16 * k][16 * k - 16..];
    }
  }

  /** There is one text only that is chained to another one. */
  lemma {:induction false} ChainsUnique(f: Block -> Block, read: Text, a: Text, b: Text, y: Block, x: Block, k: nat)
    requires Chains(f, read, a, y, x) && Chains(f, read, b, y, x) && 16 * k <= |read|
    ensures a[..16 * k] == b[..16 * k]
    decreases k
  {
    if k > 0 {
      ChainsUnique(f, read, a, b, y, x, k - 1);
      SamePrevious(y, a, b, k - 1);
      assert LinkAt(f, read, a, y, x, k - 1) && LinkAt(f, read, b, y, x, k - 1);
      var p, x1 := BlockAt(read, k - 1), Previous(x, read, k - 1);
      LinksIff(f, p, BlockAt(a, k - 1), Previous(y, a, k - 1), x1);
      LinksIff(f, p, BlockAt(b, k - 1), Previous(y, b, k - 1), x1);
      assert a[..16 * k] == a[..16 * (k - 1)] + BlockAt(a, k - 1);
      assert b[..16 * k] == b[..16 * (k - 1)] + BlockAt(b, k - 1);
    }
  }

  // ----- The loops

  /** The length of whole blocks that hold a text. */
  function Rounded(len: nat): (n: nat)
    ensures len <= n < len + 16 && n % 16 == 0
  {
    (len + 15) / 16 * 16
  }

  lemma RoundedStep(offset: nat, len: nat)
    requires offset % 16 == 0 && offset < len
    ensures offset + 16 <= Rounded(len) && (offset + 16) % 16 == 0
  {
  }

  lemma RoundedEnd(offset: nat, len: nat)
    requires offset % 16 == 0 && len <= offset <= Rounded(len)
    ensures offset == Rounded(len)
  {
  }

  /** A text filled up with zeros to whole blocks. */
  function Filled(data: Text): (r: Text)
    ensures Whole(r) && |r| == Rounded(|data|)
    ensures forall k | 0 <= k < |r| :: r[k] == if k < |data| then data[k] else 0
  {
    data + seq(Rounded(|data|) - |data|, _ => 0)
  }

  function ChainOf(iv: Text): Chain
    requires |iv| == 32
  {
    Chain(iv[..16], iv[16..])
  }

  /** The sixteen bytes at an offset; zeros behind the end of the text. */
  method ReadBlock(inp: array<bv8>, offset: nat, len: nat) returns (x: Block)
    requires offset < len <= inp.Length && offset % 16 == 0
    ensures offset + 16 <= Rounded(len) && x == Filled(inp[..len])[offset..offset + 16]
  {
    var b: Text := [];
    var i := 0;
    while i < 16
      invariant 0 <= i <= 16 && |b| == i
      invariant forall k | 0 <= k < i :: b[k] == if offset + k < len then inp[offset + k] else 0
    {
      b := b + [if offset + i < len then inp[offset + i] else 0];
      i := i + 1;
    }
    x := b;
  }

  /** A block goes to its place. */
  method WriteBlock(out: array<bv8>, offset: nat, y: Block)
    requires offset + 16 <= out.Length
    modifies out
    ensures out[..] == old(out[..offset]) + y + old(out[offset + 16..])
  {
    var i := 0;
    while i < 16
      invariant 0 <= i <= 16
      invariant forall k | 0 <= k < out.Length ::
                  out[k] == if offset <= k < offset + i then y[k - offset] else old(out[k])
    {
      out[offset + i] := y[i];
      i := i + 1;
    }
  }

  /** One round of encryption: the halves of the vector are overwritten with the blocks just seen. */
  method SealBlockAt(c: Cipher, inp: array<bv8>, out: array<bv8>, offset: nat, len: nat, iv: array<bv8>)
    requires offset < len <= inp.Length && offset % 16 == 0 && Rounded(len) <= out.Length && iv.Length == 32
    requires iv != inp && iv != out
    modifies out, iv
    ensures offset + 16 <= Rounded(len)
    ensures var x: Block := Filled(old(inp[..len]))[offset..offset + 16];
            var y := SealBlock(c, x, ChainOf(old(iv[..])));
            out[..] == old(out[..offset]) + y + old(out[offset + 16..]) && ChainOf(iv[..]) == Chain(y, x)
  {
    var x := ReadBlock(inp, offset, len);
    var yPrev: Block := iv[..16];
    var xPrev: Block := iv[16..];
    var y := XorBlock(x, yPrev);
    var tmpOut := c.enc(y);
    y := XorBlock(tmpOut, xPrev);
    WriteBlock(iv, 16, x);
    WriteBlock(iv, 0, y);
    WriteBlock(out, offset, y);
  }

  /** One round of decryption. */
  method OpenBlockAt(c: Cipher, inp: array<bv8>, out: array<bv8>, offset: nat, len: nat, iv: array<bv8>)
    requires offset < len <= inp.Length && offset % 16 == 0 && Rounded(len) <= out.Length && iv.Length == 32
    requires iv != inp && iv != out
    modifies out, iv
    ensures offset + 16 <= Rounded(len)
    ensures var x: Block := Filled(old(inp[..len]))[offset..offset + 16];
            var y := OpenBlock(c, x, ChainOf(old(iv[..])));
            out[..] == old(out[..offset]) + y + old(out[offset + 16..]) && ChainOf(iv[..]) == Chain(x, y)
  {
    var x := ReadBlock(inp, offset, len);
    var yPrev: Block := iv[16..];
    var xPrev: Block := iv[..16];
    var y := XorBlock(x, yPrev);
    var tmpOut := c.dec(y);
    y := XorBlock(tmpOut, xPrev);
    WriteBlock(iv, 0, x);
    WriteBlock(iv, 16, y);
    WriteBlock(out, offset, y);
  }

  /** A block of a text depends on the bytes of the block only. */
  lemma SameBlock(a: Text, b: Text, offset: nat)
    requires |a| == |b| && offset < |a| && offset % 16 == 0
    requires forall k | offset <= k < |a| :: a[k] == b[k]
    ensures offset + 16 <= Rounded(|a|)
    ensures Filled(a)[offset..offset + 16] == Filled(b)[offset..offset + 16]
  {
  }

  /** One block more. */
  lemma SealStep(c: Cipher, data: Text, ch: Chain, offset: nat, was: Text)
    requires Whole(data) && offset % 16 == 0 && offset + 16 <= |data| <= |was|
    ensures var r, x: Block := Seal(c, data[..offset], ch), data[offset..offset + 16];
            var y, now := SealBlock(c, x, r.chain), r.text + was[offset..];
            now[..offset] + y + now[offset + 16..] == Seal(c, data[..offset + 16], ch).text + was[offset + 16..]
            && Seal(c, data[..offset + 16], ch).chain == Chain(y, x)
  {
    var x: Block := data[offset..offset + 16];
    Appended(data[..offset], x);
    assert data[..offset + 16] == data[..offset] + x;
  }

  /** One block more. */
  lemma OpenStep(c: Cipher, data: Text, ch: Chain, offset: nat, was: Text)
    requires Whole(data) && offset % 16 == 0 && offset + 16 <= |data| <= |was|
    ensures var r, x: Block := Open(c, data[..offset], ch), data[offset..offset + 16];
            var y, now := OpenBlock(c, x, r.chain), r.text + was[offset..];
            now[..offset] + y + now[offset + 16..] == Open(c, data[..offset + 16], ch).text + was[offset + 16..]
            && Open(c, data[..offset + 16], ch).chain == Chain(x, y)
  {
    var x: Block := data[offset..offset + 16];
    Appended(data[..offset], x);
    assert data[..offset + 16] == data[..offset] + x;
  }

  method SealRound(c: Cipher, inp: array<bv8>, out: array<bv8>, offset: nat, len: nat, iv: array<bv8>,
      ghost data: Text, ghost ch: Chain, ghost was: Text)
    requires offset < len <= inp.Length && offset % 16 == 0 && Rounded(len) <= out.Length && iv.Length == 32
    requires iv != inp && iv != out
    requires Whole(data) && |data| == Rounded(len) && |was| == out.Length
    requires offset + 16 <= |data| && data[offset..offset + 16] == Filled(inp[..len])[offset..offset + 16]
    requires out[..] == Seal(c, data[..offset], ch).text + was[offset..]
    requires ChainOf(iv[..]) == Seal(c, data[..offset], ch).chain
    modifies out, iv
    ensures forall k | 0 <= k < out.Length && !(offset <= k < offset + 16) :: out[k] == old(out[k])
    ensures out[..] == Seal(c, data[..offset + 16], ch).text + was[offset + 16..]
    ensures ChainOf(iv[..]) == Seal(c, data[..offset + 16], ch).chain
  {
    SealStep(c, data, ch, offset, was);
    SealBlockAt(c, inp, out, offset, len, iv);
  }

  /**
   * Each block written, with the block read before it added, is the cipher of the block read with the
   * block written before it added; the vector stands for the blocks before the first, and is left as
   * the last ones.
   */
  method AesIgeEncrypt(c: Cipher, inp: array<bv8>, out: array<bv8>, len: nat, iv: array<bv8>)
    requires len <= inp.Length && Rounded(len) <= out.Length && iv.Length == 32 && iv != inp && iv != out
    modifies out, iv
    ensures var r := Seal(c, Filled(old(inp[..len])), ChainOf(old(iv[..])));
            out[..] == r.text + old(out[Rounded(len)..]) && ChainOf(iv[..]) == r.chain
    ensures var read, written := Filled(old(inp[..len])), out[..Rounded(len)];
            && Chains(c.enc, read, written, old(iv[..16]), old(iv[16..]))
            && Ends(read, written, old(iv[..16]), old(iv[16..]), iv[..16], iv[16..])
  {
    ghost var data, ch, was := Filled(inp[..len]), ChainOf(iv[..]), out[..];
    var offset := 0;
    while offset < len
      invariant offset <= Rounded(len) && offset % 16 == 0
      invariant forall k | offset <= k < len :: inp[k] == old(inp[k])
      invariant out[..] == Seal(c, data[..offset], ch).text + was[offset..]
      invariant ChainOf(iv[..]) == Seal(c, data[..offset], ch).chain
    {
      RoundedStep(offset, len);
      SameBlock(inp[..len], old(inp[..len]), offset);
      SealRound(c, inp, out, offset, len, iv, data, ch, was);
      offset := offset + 16;
    }
    RoundedEnd(offset, len);
    assert data[..offset] == data;
    assert out[..Rounded(len)] == Seal(c, data, ch).text;
    SealChains(c, data, ch);
  }

  method OpenRound(c: Cipher, inp: array<bv8>, out: array<bv8>, offset: nat, len: nat, iv: array<bv8>,
      ghost data: Text, ghost ch: Chain, ghost was: Text)
    requires offset < len <= inp.Length && offset % 16 == 0 && Rounded(len) <= out.Length && iv.Length == 32
    requires iv != inp && iv != out
    requires Whole(data) && |data| == Rounded(len) && |was| == out.Length
    requires offset + 16 <= |data| && data[offset..offset + 16] == Filled(inp[..len])[offset..offset + 16]
    requires out[..] == Open(c, data[..offset], ch).text + was[offset..]
    requires ChainOf(iv[..]) == Open(c, data[..offset], ch).chain
    modifies out, iv
    ensures forall k | 0 <= k < out.Length && !(offset <= k < offset + 16) :: out[k] == old(out[k])
    ensures out[..] == Open(c, data[..offset + 16], ch).text + was[offset + 16..]
    ensures ChainOf(iv[..]) == Open(c, data[..offset + 16], ch).chain
  {
    OpenStep(c, data, ch, offset, was);
    OpenBlockAt(c, inp, out, offset, len, iv);
  }

  /** The same with the cipher turned round and the two halves of the vector exchanged. */
  method AesIgeDecrypt(c: Cipher, inp: array<bv8>, out: array<bv8>, len: nat, iv: array<bv8>)
    requires len <= inp.Length && Rounded(len) <= out.Length && iv.Length == 32 && iv != inp && iv != out
    modifies out, iv
    ensures var r := Open(c, Filled(old(inp[..len])), ChainOf(old(iv[..])));
            out[..] == r.text + old(out[Rounded(len)..]) && ChainOf(iv[..]) == r.chain
    ensures var read, written := Filled(old(inp[..len])), out[..Rounded(len)];
            && Chains(c.dec, read, written, old(iv[16..]), old(iv[..16]))
            && Ends(read, written, old(iv[16..]), old(iv[..16]), iv[16..], iv[..16])
  {
    ghost var data, ch, was := Filled(inp[..len]), ChainOf(iv[..]), out[..];
    var offset := 0;
    while offset < len
      invariant offset <= Rounded(len) && offset % 16 == 0
      invariant forall k | offset <= k < len :: inp[k] == old(inp[k])
      invariant out[..] == Open(c, data[..offset], ch).text + was[offset..]
      invariant ChainOf(iv[..]) == Open(c, data[..offset], ch).chain
    {
      RoundedStep(offset, len);
      SameBlock(inp[..len], old(inp[..len]), offset);
      OpenRound(c, inp, out, offset, len, iv, data, ch, was);
      offset := offset + 16;
    }
    RoundedEnd(offset, len);
    assert data[..offset] == data;
    assert out[..Rounded(len)] == Open(c, data, ch).text;
    OpenChains(c, data, ch);
  }
}
