/** Encoding: each recovery block is filled in by running over the original blocks. */
module Cm256Encoder {
  import opened Fields
  import opened Cm256Code
  import opened Gf256Bulk

  datatype Params = Params(OriginalCount: int, RecoveryCount: int, BlockBytes: int) {

    /** Counts and sizes that encoder and decoder accept. */
    predicate Accepted() {
      OriginalCount > 0 && RecoveryCount > 0 && BlockBytes > 0 && OriginalCount + RecoveryCount <= 256
    }
  }

  /** A block as the caller describes it: where its bytes are, and which block it is. */
  class Block {
    const Data: array<bv8>
    var Index: nat

    constructor (data: array<bv8>, index: nat)
      ensures Data == data && Index == index
    {
      Data, Index := data, index;
    }
  }

  /** The blocks hold these contents. */
  ghost predicate Hold(blocks: seq<Block>, contents: seq<seq<bv8>>, bytes: nat)
    reads set b <- blocks :: b.Data
  {
    |contents| == |blocks|
    && forall j | 0 <= j < |blocks| ::
         blocks[j].Data.Length == bytes && blocks[j].Data[..] == contents[j] && |contents[j]| == bytes
  }

  class Encoder {
    const F: Field

    constructor (field: Field)
      ensures F == field
    {
      F := field;
    }

    method EncodeBlock(params: Params, originals: seq<Block>, row: nat, recovery: array<bv8>, off: nat,
                       ghost contents: seq<seq<bv8>>)
      requires F.Lawful() && params.Accepted()
      requires |originals| == params.OriginalCount && Hold(originals, contents, params.BlockBytes)
      requires params.OriginalCount <= row < params.OriginalCount + params.RecoveryCount
      requires off + params.BlockBytes <= recovery.Length
      requires forall j | 0 <= j < |originals| :: originals[j].Data != recovery
      modifies recovery
      ensures OnlyStretch(recovery, off, params.BlockBytes)
      ensures forall p | off <= p < off + params.BlockBytes ::
        recovery[p] == RecoveryByte(F, params.OriginalCount, Column(contents, p - off), row)
    {
      if params.OriginalCount == 1 {
        CopyBlock(originals[0].Data, recovery, off, params.BlockBytes);
      } else if row == params.OriginalCount {
        EncodeParity(params, originals, recovery, off, contents);
      } else {
        EncodeRow(params, originals, row, recovery, off, contents);
      }
    }

    /** The first recovery row: plain sums. */
    method EncodeParity(params: Params, originals: seq<Block>, recovery: array<bv8>, off: nat,
                        ghost contents: seq<seq<bv8>>)
      requires F.Lawful() && params.Accepted() && params.OriginalCount >= 2
      requires |originals| == params.OriginalCount && Hold(originals, contents, params.BlockBytes)
      requires off + params.BlockBytes <= recovery.Length
      requires forall j | 0 <= j < |originals| :: originals[j].Data != recovery
      modifies recovery
      ensures OnlyStretch(recovery, off, params.BlockBytes)
      ensures forall p | off <= p < off + params.BlockBytes ::
        recovery[p] == RecoveryByte(F, params.OriginalCount, Column(contents, p - off), params.OriginalCount)
    {
      var n, bytes := params.OriginalCount, params.BlockBytes;
      AddSetMem(F, recovery, off, originals[0].Data, originals[1].Data, bytes);
      forall p | off <= p < off + bytes
        ensures recovery[p] == SumTo(F, Terms(F, n, Column(contents, p - off), n), 2)
      {
        StartOfParity(F, n, Column(contents, p - off));
      }
      for j := 2 to n
        invariant OnlyStretch(recovery, off, bytes)
        invariant forall p | off <= p < off + bytes ::
          recovery[p] == SumTo(F, Terms(F, n, Column(contents, p - off), n), j)
      {
        FirstRowIsOnes(F, n, j);
        forall p | 0 <= p < bytes
          ensures Terms(F, n, Column(contents, p), n)[j] == contents[j][p]
        {
          MulOne(F, contents[j][p]);
        }
        AddMem(F, recovery, off, originals[j].Data, bytes);
      }
    }

    /** Any other recovery row. */
    method EncodeRow(params: Params, originals: seq<Block>, row: nat, recovery: array<bv8>, off: nat,
                     ghost contents: seq<seq<bv8>>)
      requires F.Lawful() && params.Accepted() && params.OriginalCount >= 2
      requires |originals| == params.OriginalCount && Hold(originals, contents, params.BlockBytes)
      requires params.OriginalCount < row < params.OriginalCount + params.RecoveryCount
      requires off + params.BlockBytes <= recovery.Length
      requires forall j | 0 <= j < |originals| :: originals[j].Data != recovery
      modifies recovery
      ensures OnlyStretch(recovery, off, params.BlockBytes)
      ensures recovery[..] == Filled(F, params, contents, old(recovery[..]), row, off, params.OriginalCount)
    {
      ghost var was := recovery[..];
      StartRow(params, originals[0], row, recovery, off, contents);
      for j := 1 to params.OriginalCount
        invariant recovery[..] == Filled(F, params, contents, was, row, off, j)
      {
        AddToRow(params, originals[j], j, row, recovery, off, contents, was);
      }
    }

    method StartRow(params: Params, original: Block, row: nat, recovery: array<bv8>, off: nat,
                    ghost contents: seq<seq<bv8>>)
      requires F.Lawful() && params.Accepted() && params.OriginalCount >= 2
      requires HasContents(params, contents) && original.Data[..] == contents[0] && original.Data != recovery
      requires params.OriginalCount < row < 256 && off + params.BlockBytes <= recovery.Length
      modifies recovery
      ensures recovery[..] == Filled(F, params, contents, old(recovery[..]), row, off, 1)
    {
      var n := params.OriginalCount;
      var element := Element(F, n, row, 0);
      OtherRowsAvoidOne(F, n, row, 0);
      MulMem(F, recovery, off, original.Data, element, params.BlockBytes);
      forall p | off <= p < off + params.BlockBytes
        ensures recovery[p] == SumTo(F, Terms(F, n, Column(contents, p - off), row), 1)
      {
        StartOfRow(F, n, row, Column(contents, p - off));
      }
    }

    method AddToRow(params: Params, original: Block, j: nat, row: nat, recovery: array<bv8>, off: nat,
                    ghost contents: seq<seq<bv8>>, ghost was: seq<bv8>)
      requires F.Lawful() && params.Accepted() && j < params.OriginalCount
      requires HasContents(params, contents) && original.Data[..] == contents[j] && original.Data != recovery
      requires params.OriginalCount < row < 256 && off + params.BlockBytes <= |was|
      requires recovery[..] == Filled(F, params, contents, was, row, off, j)
      modifies recovery
      ensures recovery[..] == Filled(F, params, contents, was, row, off, j + 1)
    {
      var n := params.OriginalCount;
      var element := Element(F, n, row, j);
      forall p | off <= p < off + params.BlockBytes
        ensures SumTo(F, Terms(F, n, Column(contents, p - off), row), j + 1)
             == F.Add(recovery[..][p], F.Mul(element, contents[j][p - off]))
      {
        NextOfRow(F, n, row, Column(contents, p - off), j);
      }
      MulAddMem(F, recovery, off, element, original.Data, params.BlockBytes);
    }

    method CopyBlock(from: array<bv8>, to: array<bv8>, off: nat, bytes: nat)
      requires bytes <= from.Length && off + bytes <= to.Length && from != to
      modifies to
      ensures OnlyStretch(to, off, bytes)
      ensures forall p | off <= p < off + bytes :: to[p] == from[p - off]
    {
      for i := 0 to bytes
        invariant OnlyStretch(to, off, i)
        invariant forall p | off <= p < off + i :: to[p] == from[p - off]
      {
        to[off + i] := from[i];
      }
    }

    /**
     * Encoding fills the recovery blocks end to end. The result is 0, or the code of the first
     * check that fails; null pointers have no counterpart here.
     */
    method Encode(params: Params, originals: seq<Block>, recovery: array<bv8>, ghost contents: seq<seq<bv8>>)
      returns (code: int)
      requires F.Lawful()
      requires params.Accepted() ==>
        && |originals| == params.OriginalCount && Hold(originals, contents, params.BlockBytes)
        && recovery.Length == params.RecoveryCount * params.BlockBytes
        && forall j | 0 <= j < |originals| :: originals[j].Data != recovery
      modifies recovery
      ensures code in {0, -1, -2} && (code == 0 <==> params.Accepted())
      ensures code == -1 <==> params.OriginalCount <= 0 || params.RecoveryCount <= 0 || params.BlockBytes <= 0
      ensures code != 0 ==> recovery[..] == old(recovery[..])
      ensures code == 0 ==> forall b | 0 <= b < params.RecoveryCount ::
        Encoded(F, params, contents, recovery[..], b)
    {
      if params.OriginalCount <= 0 || params.RecoveryCount <= 0 || params.BlockBytes <= 0 {
        return -1;
      }
      if params.OriginalCount + params.RecoveryCount > 256 {
        return -2;
      }
      var off := 0;
      OffsetIsProduct(params.RecoveryCount, params.BlockBytes);
      for block := 0 to params.RecoveryCount
        invariant off == Offset(block, params.BlockBytes)
        invariant forall b | 0 <= b < block :: Encoded(F, params, contents, recovery[..], b)
      {
        EncodeNext(params, originals, block, recovery, off, contents);
        off := off + params.BlockBytes;
      }
      return 0;
    }

    method EncodeNext(params: Params, originals: seq<Block>, block: nat, recovery: array<bv8>, off: nat,
                      ghost contents: seq<seq<bv8>>)
      requires F.Lawful() && params.Accepted() && block < params.RecoveryCount
               && off == Offset(block, params.BlockBytes)
      requires |originals| == params.OriginalCount && Hold(originals, contents, params.BlockBytes)
      requires recovery.Length == Offset(params.RecoveryCount, params.BlockBytes)
      requires forall j | 0 <= j < |originals| :: originals[j].Data != recovery
      requires forall b | 0 <= b < block :: Encoded(F, params, contents, recovery[..], b)
      modifies recovery
      ensures forall b | 0 <= b < block + 1 :: Encoded(F, params, contents, recovery[..], b)
    {
      OffsetsGrow(block, params.RecoveryCount, params.BlockBytes);
      ghost var was := recovery[..];
      EncodeBlock(params, originals, params.OriginalCount + block, recovery, off, contents);
      EarlierStay(F, params, contents, was, recovery[..], block);
    }
  }

  ghost predicate HasContents(params: Params, contents: seq<seq<bv8>>) {
    |contents| == params.OriginalCount && forall j | 0 <= j < |contents| :: |contents[j]| == params.BlockBytes
  }

  /** The buffer with the first j terms of a row summed in a stretch of it. */
  ghost function Filled(F: Field, params: Params, contents: seq<seq<bv8>>, was: seq<bv8>, row: nat, off: nat,
                        j: nat)
    : (now: seq<bv8>)
    requires params.Accepted() && HasContents(params, contents) && row < 256 && j <= params.OriginalCount
    requires off + params.BlockBytes <= |was|
    ensures |now| == |was|
    ensures forall p | 0 <= p < |was| && !(off <= p < off + params.BlockBytes) :: now[p] == was[p]
    ensures forall p | off <= p < off + params.BlockBytes ::
      now[p] == SumTo(F, Terms(F, params.OriginalCount, Column(contents, p - off), row), j)
  {
    seq(|was|, p requires 0 <= p < |was| =>
      if off <= p < off + params.BlockBytes then
        SumTo(F, Terms(F, params.OriginalCount, Column(contents, p - off), row), j)
      else was[p])
  }

  /** Recovery block b lies in the buffer at b times the block size and has index OriginalCount + b. */
  ghost predicate Encoded(F: Field, params: Params, contents: seq<seq<bv8>>, buffer: seq<bv8>, b: nat)
    requires params.Accepted() && |contents| == params.OriginalCount
    requires forall j | 0 <= j < |contents| :: |contents[j]| == params.BlockBytes
    requires b < params.RecoveryCount
  {
    var off := Offset(b, params.BlockBytes);
    off + params.BlockBytes <= |buffer|
    && forall p | off <= p < off + params.BlockBytes ::
         buffer[p] == RecoveryByte(F, params.OriginalCount, Column(contents, p - off), params.OriginalCount + b)
  }

  /** The offset of the b-th block in a buffer of blocks: b times the block size. */
  function Offset(b: nat, bytes: nat): nat {
    if b == 0 then 0 else Offset(b - 1, bytes) + bytes
  }

  lemma EarlierStay(F: Field, params: Params, contents: seq<seq<bv8>>, was: seq<bv8>, now: seq<bv8>, block: nat)
    requires params.Accepted() && |contents| == params.OriginalCount && block < params.RecoveryCount
    requires forall j | 0 <= j < |contents| :: |contents[j]| == params.BlockBytes
    requires forall b | 0 <= b < block :: Encoded(F, params, contents, was, b)
    requires |was| == |now| && forall p | 0 <= p < Offset(block, params.BlockBytes) && p < |was| :: now[p] == was[p]
    ensures forall b | 0 <= b < block :: Encoded(F, params, contents, now, b)
  {
    forall b | 0 <= b < block
      ensures Encoded(F, params, contents, now, b)
    {
      OffsetsGrow(b, block, params.BlockBytes);
      assert Encoded(F, params, contents, was, b);
    }
  }

  lemma {:induction false} OffsetIsProduct(b: nat, bytes: nat)
    ensures Offset(b, bytes) == b * bytes
  {
    if b > 0 {
      OffsetIsProduct(b - 1, bytes);
      assert b * bytes == (b - 1) * bytes + bytes;
    }
  }

  lemma {:induction false} OffsetsGrow(b: nat, c: nat, bytes: nat)
    requires b < c
    ensures Offset(b, bytes) + bytes <= Offset(c, bytes)
  {
    if b + 1 < c {
      OffsetsGrow(b, c - 1, bytes);
    }
  }

  lemma StartOfRow(F: Field, n: nat, row: nat, data: seq<bv8>)
    requires F.Lawful() && 1 <= n < row < 256 && |data| == n
    ensures SumTo(F, Terms(F, n, data, row), 1) == F.Mul(data[0], Element(F, n, row, 0))
    ensures SumTo(F, Terms(F, n, data, row), 1) == F.Mul(Element(F, n, row, 0), data[0])
  {
    Commute(F, Element(F, n, row, 0), data[0]);
    AddZero(F, F.Mul(Element(F, n, row, 0), data[0]));
  }

  lemma NextOfRow(F: Field, n: nat, row: nat, data: seq<bv8>, j: nat)
    requires j < n < row < 256 && |data| == n
    ensures SumTo(F, Terms(F, n, data, row), j + 1)
         == F.Add(SumTo(F, Terms(F, n, data, row), j), F.Mul(Element(F, n, row, j), data[j]))
  {
  }

  lemma StartOfParity(F: Field, n: nat, data: seq<bv8>)
    requires F.Lawful() && 2 <= n < 256 && |data| == n
    ensures SumTo(F, Terms(F, n, data, n), 2) == F.Add(data[0], data[1])
  {
    FirstRowIsOnes(F, n, 0);
    FirstRowIsOnes(F, n, 1);
    MulOne(F, data[0]);
    MulOne(F, data[1]);
    AddZero(F, data[0]);
    assert SumTo(F, Terms(F, n, data, n), 1) == data[0];
  }
}
