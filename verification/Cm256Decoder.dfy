/** Decoding: any OriginalCount of the blocks bring the originals back, in the blocks themselves. */
module Cm256Decoder {
  import opened Fields
  import opened Gf256Bulk
  import opened Cm256Code
  import opened Cm256Passes
  import opened Cm256Received
  import opened Cm256Encoder
  import opened Cm256Solver
  import Counting

  ghost predicate Indexed(blocks: seq<Block>, idx: seq<nat>)
    reads blocks
  {
    |idx| == |blocks| && forall i | 0 <= i < |blocks| :: blocks[i].Index == idx[i]
  }

  lemma PositionsExtend(idx: seq<nat>, n: nat, low: bool, i: nat)
    requires i < |idx|
    ensures Positions(idx[..i + 1], n, low)
         == if (idx[i] < n) == low then Positions(idx[..i], n, low) + [i] else Positions(idx[..i], n, low)
  {
    assert idx[..i + 1][..i] == idx[..i];
  }

  lemma LowExtend(idx: seq<nat>, n: nat, i: nat)
    requires i < |idx|
    ensures Low(idx[..i + 1], n) == if idx[i] < n then Low(idx[..i], n) + [idx[i]] else Low(idx[..i], n)
  {
    var pos := Positions(idx[..i], n, true);
    PositionsExtend(idx, n, true, i);
    AtPrefix(idx, i, pos);
    if idx[i] < n {
      assert At(idx[..i + 1], pos + [i]) == At(idx[..i + 1], pos) + [idx[i]];
    }
  }

  lemma AtPrefix(idx: seq<nat>, i: nat, pos: seq<nat>)
    requires i < |idx| && InRange(pos, i)
    ensures At(idx[..i + 1], pos) == At(idx[..i], pos)
  {
  }

  lemma DistinctNext(a: seq<nat>, x: nat)
    requires Counting.Distinct(a) && x !in a
    ensures Counting.Distinct(a + [x])
  {
  }

  lemma {:induction false} LowPrefix(idx: seq<nat>, n: nat, i: nat)
    requires i <= |idx|
    ensures Low(idx[..i], n) <= Low(idx, n)
    decreases |idx| - i
  {
    if i < |idx| {
      LowExtend(idx, n, i);
      LowPrefix(idx, n, i + 1);
    } else {
      assert idx[..i] == idx;
    }
  }

  /** The marks of the decoder: 1 for an original that came, 0 for one that did not. */
  ghost predicate Marks(erasures: seq<nat>, received: seq<nat>, n: nat) {
    n <= |erasures|
    && forall r | 0 <= r < n :: erasures[r] == if r in received then 1 else 0
  }

  /** The originals, and the recovery blocks, among the first i blocks. */
  function Sort(blocks: seq<Block>, idx: seq<nat>, n: nat, i: nat, low: bool): seq<Block>
    requires i <= |blocks| == |idx|
  {
    At(blocks, Positions(idx[..i], n, low))
  }

  lemma SortNext(blocks: seq<Block>, idx: seq<nat>, n: nat, i: nat, low: bool)
    requires i < |blocks| == |idx|
    ensures Sort(blocks, idx, n, i + 1, low)
         == if (idx[i] < n) == low then Sort(blocks, idx, n, i, low) + [blocks[i]] else Sort(blocks, idx, n, i, low)
  {
    PositionsExtend(idx, n, low, i);
    if (idx[i] < n) == low {
      AtExtend(blocks, Positions(idx[..i], n, low), i);
    }
  }

  lemma AtExtend(blocks: seq<Block>, pos: seq<nat>, i: nat)
    requires InRange(pos, |blocks|) && i < |blocks|
    ensures At(blocks, pos + [i]) == At(blocks, pos) + [blocks[i]]
  {
  }

  /** The lists the pass over the blocks builds, after each block. */
  lemma Progress(blocks: seq<Block>, idx: seq<nat>, n: nat, low: bool) returns (lists: seq<seq<Block>>)
    requires |blocks| == |idx|
    ensures |lists| == |idx| + 1 && lists[0] == []
    ensures forall i | 0 <= i < |idx| ::
      lists[i + 1] == (if (idx[i] < n) == low then lists[i] + [blocks[i]] else lists[i])
    ensures lists[|idx|] == Sort(blocks, idx, n, |idx|, low)
  {
    lists := seq(|idx| + 1, i requires 0 <= i <= |idx| => Sort(blocks, idx, n, i, low));
    assert forall i | 0 <= i <= |idx| :: lists[i] == Sort(blocks, idx, n, i, low);
    forall i | 0 <= i < |idx|
      ensures Sort(blocks, idx, n, i + 1, low)
           == (if (idx[i] < n) == low then Sort(blocks, idx, n, i, low) + [blocks[i]] else Sort(blocks, idx, n, i, low))
    {
      SortNext(blocks, idx, n, i, low);
    }
  }

  lemma ReceivedProgress(idx: seq<nat>, n: nat) returns (lists: seq<seq<nat>>)
    ensures |lists| == |idx| + 1 && lists[0] == []
    ensures forall i | 0 <= i < |idx| :: lists[i + 1] == (if idx[i] < n then lists[i] + [idx[i]] else lists[i])
    ensures forall i | 0 <= i <= |idx| :: lists[i] <= lists[|idx|]
    ensures lists[|idx|] == Low(idx, n)
  {
    lists := seq(|idx| + 1, i requires 0 <= i <= |idx| => Low(idx[..i], n));
    assert forall i | 0 <= i <= |idx| :: lists[i] == Low(idx[..i], n);
    forall i | 0 <= i < |idx|
      ensures Low(idx[..i + 1], n) == (if idx[i] < n then Low(idx[..i], n) + [idx[i]] else Low(idx[..i], n))
    {
      LowExtend(idx, n, i);
    }
    forall i | 0 <= i <= |idx|
      ensures Low(idx[..i], n) <= Low(idx, n)
    {
      LowPrefix(idx, n, i);
    }
    assert idx[..|idx|] == idx;
  }

  class Decoder {
    const F: Field
    var Parameters: Params
    var RecoveryCount: nat
    var OriginalCount: nat
    var Recovery: seq<Block>
    var Original: seq<Block>
    const ErasuresIndices: array<nat>

    constructor (field: Field)
      ensures F == field && RecoveryCount == 0 && OriginalCount == 0
      ensures fresh(ErasuresIndices) && ErasuresIndices.Length == 256
    {
      F := field;
      RecoveryCount, OriginalCount := 0, 0;
      Recovery, Original := [], [];
      ErasuresIndices := new nat[256];
      Parameters := Params(0, 0, 0);
    }

    /** The first i blocks are sorted into originals and recovery blocks. */
    ghost predicate Sorted(blocks: seq<Block>, idx: seq<nat>, n: nat, i: nat)
      requires i <= |blocks| == |idx|
      reads this
    {
      && Original == Sort(blocks, idx, n, i, true) && OriginalCount == |Original|
      && Recovery == Sort(blocks, idx, n, i, false) && RecoveryCount == |Recovery|
    }

    /** Sort the blocks, and list the missing originals. False when an original came twice. */
    method Initialize(params: Params, blocks: seq<Block>, ghost idx: seq<nat>) returns (ok: bool)
      requires params.Accepted() && |blocks| == params.OriginalCount && Indexed(blocks, idx)
      requires ErasuresIndices.Length == 256
      modifies this, ErasuresIndices
      ensures ok <==> Counting.Distinct(Low(idx, params.OriginalCount))
      ensures ok ==> Parameters == params && Sorted(blocks, idx, params.OriginalCount, |blocks|)
      ensures ok ==> RecoveryCount <= 256 && ErasuresIndices[..RecoveryCount] == Erased(idx, params.OriginalCount)
    {
      Parameters := params;
      var n := params.OriginalCount;
      ClearMarks(n);
      ok := SortBlocks(n, blocks, idx);
      if ok {
        assert idx[..n] == idx;
        ErasedCount(idx, n);
        ListErasures(n, Low(idx, n), Erased(idx, n));
      }
    }

    method ClearMarks(n: nat)
      requires n <= 256 == ErasuresIndices.Length
      modifies ErasuresIndices
      ensures Marks(ErasuresIndices[..], [], n)
    {
      for ii := 0 to n
        invariant forall r | 0 <= r < ii :: ErasuresIndices[r] == 0
      {
        ErasuresIndices[ii] := 0;
      }
    }

    /** The pass over the blocks; it stops at the first original that comes a second time. */
    method SortBlocks(n: nat, blocks: seq<Block>, ghost idx: seq<nat>) returns (ok: bool)
      requires |blocks| == n <= 256 == ErasuresIndices.Length && Indexed(blocks, idx)
      requires Marks(ErasuresIndices[..], [], n)
      modifies this`OriginalCount, this`RecoveryCount, this`Original, this`Recovery, ErasuresIndices
      ensures ok <==> Counting.Distinct(Low(idx, n))
      ensures ok ==> Sorted(blocks, idx, n, n) && Marks(ErasuresIndices[..], Low(idx, n), n)
    {
      OriginalCount, RecoveryCount := 0, 0;
      Original, Recovery := [], [];
      ghost var originals := Progress(blocks, idx, n, true);
      ghost var recoveries := Progress(blocks, idx, n, false);
      ghost var received := ReceivedProgress(idx, n);
      for ii := 0 to n
        invariant Original == originals[ii] && OriginalCount == |Original|
        invariant Recovery == recoveries[ii] && RecoveryCount == |Recovery|
        invariant Counting.Distinct(received[ii])
        invariant Marks(ErasuresIndices[..], received[ii], n)
      {
        var again := Place(n, blocks[ii], received[ii]);
        if again {
          Repeats(received[ii], idx[ii], received[ii + 1], received[n]);
          return false;
        }
        if idx[ii] < n {
          DistinctNext(received[ii], idx[ii]);
        }
      }
      return true;
    }

    /** Put one block on its list, and mark an original as received. True if it was marked before. */
    method Place(n: nat, block: Block, ghost received: seq<nat>) returns (again: bool)
      requires n <= 256 == ErasuresIndices.Length && Marks(ErasuresIndices[..], received, n)
      requires OriginalCount == |Original| && RecoveryCount == |Recovery|
      modifies this`OriginalCount, this`RecoveryCount, this`Original, this`Recovery, ErasuresIndices
      ensures OriginalCount == |Original| && RecoveryCount == |Recovery|
      ensures Original == if block.Index < n then old(Original) + [block] else old(Original)
      ensures Recovery == if block.Index < n then old(Recovery) else old(Recovery) + [block]
      ensures again <==> block.Index < n && block.Index in received
      ensures !again ==> Marks(ErasuresIndices[..], if block.Index < n then received + [block.Index] else received, n)
    {
      var row := block.Index;
      again := false;
      if row < n {
        Original := Original + [block];
        OriginalCount := OriginalCount + 1;
        if ErasuresIndices[row] != 0 {
          return true;
        }
        ErasuresIndices[row] := 1;
      } else {
        Recovery := Recovery + [block];
        RecoveryCount := RecoveryCount + 1;
      }
    }

    /** Compact the marks in place into the list of the missing originals. */
    method ListErasures(n: nat, ghost received: seq<nat>, ghost missing: seq<nat>)
      requires 1 <= n < 256 && ErasuresIndices.Length == 256
      requires Marks(ErasuresIndices[..], received, n) && missing == Missing(Counting.Elements(received), n)
      requires RecoveryCount == |missing|
      modifies ErasuresIndices
      ensures RecoveryCount <= 256 && ErasuresIndices[..RecoveryCount] == missing
    {
      ghost var present := Counting.Elements(received);
      ghost var marks := ErasuresIndices[..];
      MissingAtMost(present, n);
      var indexCount := 0;
      var ii := 0;
      while ii < 256
        invariant 0 <= indexCount <= ii <= 256
        invariant ErasuresIndices[ii..] == marks[ii..]
        invariant RecoveryCount > 0 ==> indexCount < RecoveryCount
        invariant RecoveryCount > 0 ==> ii <= n && ErasuresIndices[..indexCount] == Missing(present, ii)
      {
        assert ErasuresIndices[ii] == ErasuresIndices[ii..][0] == marks[ii];
        if RecoveryCount > 0 {
          NextMissing(marks, received, n, ii);
        }
        if ErasuresIndices[ii] == 0 {
          ErasuresIndices[indexCount] := ii;
          indexCount := indexCount + 1;
          if indexCount >= RecoveryCount {
            break;
          }
        }
        ii := ii + 1;
      }
      if RecoveryCount > 0 && ii == 256 {
        assert false;
      }
    }

    /** What the decoding methods start from: the sorted blocks, as sent, and the list of erasures. */
    ghost predicate Prepared(low: seq<nat>, high: seq<nat>, erased: seq<nat>, contents: Stage)
      reads this, ErasuresIndices, Original, Recovery, set b <- Original :: b.Data, set b <- Recovery :: b.Data
    {
      && Parameters.Accepted() && Parameters.OriginalCount >= 2
      && Sized(contents, Parameters.OriginalCount, Parameters.BlockBytes)
      && Arranged(F, Parameters.OriginalCount, Original, Recovery, low, high, contents, Parameters.BlockBytes)
      && erased == Missing(Counting.Elements(low), Parameters.OriginalCount)
      && InRange(erased, Parameters.OriginalCount) && Counting.Distinct(erased) && |erased| == |high|
      && OriginalCount == |low| && RecoveryCount == |high|
      && ErasuresIndices.Length == 256 && |high| <= 256 && ErasuresIndices[..|high|] == erased
    }

    /**
     * With a single recovery row, which holds the parity of the originals, the missing block is
     * the sum of all that came; they are added in pairs.
     */
    method DecodeM1(ghost low: seq<nat>, ghost high: seq<nat>, ghost erased: seq<nat>, ghost contents: Stage)
      requires F.Lawful() && Prepared(low, high, erased, contents) && high != [] && high[0] == Parameters.OriginalCount
      modifies Recovery[0], Recovery[0].Data
      ensures Recovery[0].Index == erased[0]
      ensures |high| == 1 ==> Recovery[0].Data[..] == contents[erased[0]]
    {
      ghost var n, bytes := Parameters.OriginalCount, Parameters.BlockBytes;
      ghost var st := ParityStages(F, n, contents, bytes, low);
      ParityStagesEnd(F, n, contents, bytes, low);
      var missing := ErasuresIndices[..1][0];
      AddOriginals(F, Recovery[0].Data, Original, st, seq(|low|, k requires 0 <= k < |low| => contents[low[k]]));
      Recovery[0].Index := missing;
    }

    /** The general path: the names of rows and columns are read off, and the system is solved. */
    method Decode(ghost low: seq<nat>, ghost high: seq<nat>, ghost erased: seq<nat>, ghost contents: Stage)
      requires F.Lawful() && Prepared(low, high, erased, contents) && |high| >= 1
      modifies Recovery, set b <- Recovery :: b.Data
      ensures forall i | 0 <= i < |high| :: Recovery[i].Index == erased[i]
      ensures Counting.Distinct(high) ==> forall i | 0 <= i < |high| :: Recovery[i].Data[..] == contents[erased[i]]
    {
      var rows := RowIndices();
      assert rows == high;
      var erasures := ErasuresIndices[..RecoveryCount];
      Cm256Solver.Decode(F, Parameters, Original, Recovery, rows, erasures, low, contents);
    }

    method RowIndices() returns (rows: seq<nat>)
      ensures |rows| == |Recovery| && forall i | 0 <= i < |rows| :: rows[i] == Recovery[i].Index
    {
      rows := [];
      for i := 0 to |Recovery|
        invariant |rows| == i && forall k | 0 <= k < i :: rows[k] == Recovery[k].Index
      {
        rows := rows + [Recovery[i].Index];
      }
    }
  }

  /** Add every original into a block, two at a time. */
  method AddOriginals(F: Field, out: array<bv8>, originals: seq<Block>, ghost st: Stage, ghost parts: Stage)
    requires F.Lawful() && |st| == |originals| + 1 && |parts| == |originals|
    requires forall k | 0 <= k < |originals| :: originals[k].Data != out && originals[k].Data[..] == parts[k]
    requires forall k | 0 <= k < |originals| :: Summed(F, st[k + 1], st[k], parts[k])
    requires out[..] == st[0]
    modifies out
    ensures out[..] == st[|originals|]
  {
    var inBlock: array?<bv8> := null;
    for ii := 0 to |originals|
      invariant inBlock == null ==> out[..] == st[ii]
      invariant inBlock != null ==> ii > 0 && inBlock == originals[ii - 1].Data && out[..] == st[ii - 1]
      invariant forall k | 0 <= k < |originals| :: originals[k].Data[..] == parts[k]
    {
      var inBlock2 := originals[ii].Data;
      if inBlock == null {
        inBlock := inBlock2;
      } else {
        AddPair(F, out, inBlock, inBlock2, st[ii - 1], st[ii], st[ii + 1]);
        inBlock := null;
      }
    }
    if inBlock != null {
      AddOne(F, out, inBlock, st[|originals| - 1], st[|originals|]);
    }
  }

  /** r = a + b, byte by byte */
  ghost predicate Summed(F: Field, r: seq<bv8>, a: seq<bv8>, b: seq<bv8>) {
    |r| == |a| == |b| && forall p | 0 <= p < |r| :: r[p] == F.Add(a[p], b[p])
  }

  method AddOne(F: Field, out: array<bv8>, x: array<bv8>, ghost before: seq<bv8>, ghost after: seq<bv8>)
    requires out != x && out[..] == before && Summed(F, after, before, x[..])
    modifies out
    ensures out[..] == after
  {
    AddMem(F, out, 0, x, out.Length);
  }

  method AddPair(F: Field, out: array<bv8>, x: array<bv8>, y: array<bv8>, ghost before: seq<bv8>,
                 ghost between: seq<bv8>, ghost after: seq<bv8>)
    requires F.Lawful() && out != x && out != y && out[..] == before
    requires Summed(F, between, before, x[..]) && Summed(F, after, between, y[..])
    modifies out
    ensures out[..] == after
  {
    forall p | 0 <= p < out.Length
      ensures after[p] == F.Add(out[p], F.Add(x[p], y[p]))
    {
      AddAssociate(F, out[p], x[..][p], y[..][p]);
    }
    Add2Mem(F, out, x, y, out.Length);
  }

  lemma Repeats(before: seq<nat>, row: nat, after: seq<nat>, all: seq<nat>)
    requires row in before && after == before + [row] && after <= all
    ensures !Counting.Distinct(all)
  {
    var k :| 0 <= k < |before| && before[k] == row;
    assert all[k] == after[k] && all[|before|] == after[|before|];
  }

  lemma {:induction false} MissingAtMost(present: set<nat>, n: nat)
    ensures |Missing(present, n)| <= n
  {
    if n > 0 {
      MissingAtMost(present, n - 1);
    }
  }

  /** What a mark says about the list of the missing, which is not complete before the last of them. */
  lemma NextMissing(marks: seq<nat>, received: seq<nat>, n: nat, m: nat)
    requires Marks(marks, received, n) && m <= n
    requires |Missing(Counting.Elements(received), m)| < |Missing(Counting.Elements(received), n)|
    ensures var present := Counting.Elements(received);
            && m < n && Missing(present, m + 1) == Missing(present, m) + (if marks[m] == 0 then [m] else [])
            && Missing(present, m + 1) <= Missing(present, n)
  {
    MissingGrows(Counting.Elements(received), m + 1, n);
  }

  lemma {:induction false} MissingGrows(present: set<nat>, m: nat, n: nat)
    requires m <= n
    ensures Missing(present, m) <= Missing(present, n)
  {
    if m < n {
      MissingGrows(present, m, n - 1);
    }
  }

  // ----- A single recovery row

  /** The parity block after the first o received originals have been added in. */
  ghost function ParityStages(F: Field, n: nat, contents: Stage, bytes: nat, low: seq<nat>): (st: Stage)
    requires 2 <= n < 256 && Sized(contents, n, bytes) && InRange(low, n)
    ensures |st| == |low| + 1
    ensures forall o | 0 <= o <= |low| :: st[o] == Partly(F, n, contents, bytes, n, low, o)
  {
    seq(|low| + 1, o requires 0 <= o <= |low| => Partly(F, n, contents, bytes, n, low, o))
  }

  lemma ParityStep(F: Field, n: nat, contents: Stage, bytes: nat, low: seq<nat>, o: nat)
    requires F.Lawful() && 2 <= n < 256 && Sized(contents, n, bytes) && InRange(low, n) && o < |low|
    ensures Summed(F, Partly(F, n, contents, bytes, n, low, o + 1), Partly(F, n, contents, bytes, n, low, o),
                   contents[low[o]])
  {
    PartlyStep(F, n, contents, bytes, n, low, o);
    FirstRowIsOnes(F, n, low[o]);
    forall p | 0 <= p < bytes
      ensures F.Mul(1, contents[low[o]][p]) == contents[low[o]][p]
    {
      MulOne(F, contents[low[o]][p]);
    }
  }

  /** With one original missing, the parity minus the others is that original. */
  lemma ParityEnds(F: Field, n: nat, contents: Stage, bytes: nat, low: seq<nat>, e: nat)
    requires F.Lawful() && 2 <= n < 256 && Sized(contents, n, bytes) && InRange(low, n) && Counting.Distinct(low)
    requires e < n && Missing(Counting.Elements(low), n) == [e]
    ensures Partly(F, n, contents, bytes, n, low, |low|) == contents[e]
  {
    assert low[..|low|] == low;
    forall p | 0 <= p < bytes
      ensures PartSum(F, n, Column(contents, p), n, low) == contents[e][p]
    {
      var terms := Terms(F, n, Column(contents, p), n);
      PartSumEnds(F, n, Column(contents, p), n, low);
      FirstRowIsOnes(F, n, e);
      MulOne(F, contents[e][p]);
      AddZero(F, contents[e][p]);
      assert [e][..0] == [];
      assert SumOver(F, terms, [e]) == F.Add(SumOver(F, terms, []), terms[e]);
    }
  }

  lemma ParityStagesEnd(F: Field, n: nat, contents: Stage, bytes: nat, low: seq<nat>)
    requires F.Lawful() && 2 <= n < 256 && Sized(contents, n, bytes) && InRange(low, n) && Counting.Distinct(low)
    requires InRange(Missing(Counting.Elements(low), n), n)
    ensures
      var st, missing := ParityStages(F, n, contents, bytes, low), Missing(Counting.Elements(low), n);
      && st[0] == Sent(F, n, contents, bytes, n)
      && (forall o | 0 <= o < |low| :: Summed(F, st[o + 1], st[o], contents[low[o]]))
      && (|missing| == 1 ==> st[|low|] == contents[missing[0]])
  {
    var missing := Missing(Counting.Elements(low), n);
    PartlyStarts(F, n, contents, bytes, n, low);
    forall o | 0 <= o < |low|
      ensures Summed(F, Partly(F, n, contents, bytes, n, low, o + 1), Partly(F, n, contents, bytes, n, low, o),
                     contents[low[o]])
    {
      ParityStep(F, n, contents, bytes, low, o);
    }
    if |missing| == 1 {
      assert missing == [missing[0]];
      ParityEnds(F, n, contents, bytes, low, missing[0]);
    }
  }

  // ----- The entry point

  /** Blocks of one encoding, each as it was sent, sharing no memory. */
  ghost predicate Received(F: Field, params: Params, blocks: seq<Block>, idx: seq<nat>, contents: Stage)
    reads blocks, set b <- blocks :: b.Data
  {
    && params.Accepted() && |blocks| == params.OriginalCount && Indexed(blocks, idx)
    && Separate(blocks, params.BlockBytes) && Sized(contents, params.OriginalCount, params.BlockBytes)
    && InRange(idx, params.OriginalCount + params.RecoveryCount)
    && forall i | 0 <= i < |blocks| ::
         blocks[i].Data[..] == Sent(F, params.OriginalCount, contents, params.BlockBytes, idx[i])
  }

  lemma ReceivedOriginals(F: Field, params: Params, blocks: seq<Block>, idx: seq<nat>, contents: Stage)
    requires Received(F, params, blocks, idx, contents)
    ensures
      var n := params.OriginalCount;
      var original := At(blocks, Positions(idx, n, true));
      forall k | 0 <= k < |original| ::
        Low(idx, n)[k] < n && original[k].Index == Low(idx, n)[k] && original[k].Data[..] == contents[Low(idx, n)[k]]
  {
  }

  lemma ReceivedRecoveries(F: Field, params: Params, blocks: seq<Block>, idx: seq<nat>, contents: Stage)
    requires Received(F, params, blocks, idx, contents)
    ensures
      var n := params.OriginalCount;
      var recovery := At(blocks, Positions(idx, n, false));
      && Separate(recovery, params.BlockBytes)
      && forall k | 0 <= k < |recovery| ::
           n <= High(idx, n)[k] < 256 && recovery[k].Index == High(idx, n)[k]
           && recovery[k].Data[..] == Sent(F, n, contents, params.BlockBytes, High(idx, n)[k])
  {
  }

  lemma ReceivedApart(blocks: seq<Block>, idx: seq<nat>, n: nat, bytes: nat)
    requires |blocks| == |idx| && Separate(blocks, bytes)
    ensures
      var original, recovery := At(blocks, Positions(idx, n, true)), At(blocks, Positions(idx, n, false));
      forall k, i | 0 <= k < |original| && 0 <= i < |recovery| ::
        original[k] != recovery[i] && original[k].Data != recovery[i].Data
  {
    var low, high := Positions(idx, n, true), Positions(idx, n, false);
    forall k, i | 0 <= k < |low| && 0 <= i < |high|
      ensures blocks[low[k]] != blocks[high[i]] && blocks[low[k]].Data != blocks[high[i]].Data
    {
      assert low[k] != high[i];
    }
  }

  lemma ReceivedIsArranged(F: Field, params: Params, blocks: seq<Block>, idx: seq<nat>, contents: Stage)
    requires Received(F, params, blocks, idx, contents) && Counting.Distinct(Low(idx, params.OriginalCount))
    ensures
      var n := params.OriginalCount;
      Arranged(F, n, At(blocks, Positions(idx, n, true)), At(blocks, Positions(idx, n, false)), Low(idx, n),
               High(idx, n), contents, params.BlockBytes)
  {
    ReceivedOriginals(F, params, blocks, idx, contents);
    ReceivedRecoveries(F, params, blocks, idx, contents);
    ReceivedApart(blocks, idx, params.OriginalCount, params.BlockBytes);
  }

  lemma AtMostOne(s: seq<nat>, n: nat)
    requires Counting.Distinct(s) && forall i | 0 <= i < |s| :: s[i] == n
    ensures |s| <= 1
  {
    Counting.DistinctSize(s);
    if s != [] {
      assert n == s[0] && Counting.Elements(s) == {n};
    }
  }

  /** One recovery row leaves one index for recovery blocks. */
  lemma OneRow(idx: seq<nat>, n: nat)
    requires InRange(idx, n + 1)
    ensures forall i | 0 <= i < |High(idx, n)| :: High(idx, n)[i] == n
    ensures Counting.Distinct(High(idx, n)) <==> |High(idx, n)| <= 1
  {
    var high := High(idx, n);
    if Counting.Distinct(high) {
      AtMostOne(high, n);
    }
    assert |high| >= 2 ==> high[0] == high[1];
  }

  /** Every block holds the original named by its index, and every original is there once. */
  ghost predicate Restored(blocks: seq<Block>, contents: Stage)
    reads blocks, set b <- blocks :: b.Data
  {
    && |blocks| == |contents|
    && (forall i | 0 <= i < |blocks| :: blocks[i].Index < |contents| && blocks[i].Data[..] == contents[blocks[i].Index])
    && (forall i, j | 0 <= i < j < |blocks| :: blocks[i].Index != blocks[j].Index)
  }

  /** Every block has the index of another original. */
  ghost predicate Named(blocks: seq<Block>, n: nat)
    reads blocks
  {
    && (forall i | 0 <= i < |blocks| :: blocks[i].Index < n)
    && (forall i, j | 0 <= i < j < |blocks| :: blocks[i].Index != blocks[j].Index)
  }

  /** Restored blocks name every original exactly once. */
  lemma RestoredNamesAll(blocks: seq<Block>, contents: Stage, j: nat)
    requires Restored(blocks, contents) && j < |contents|
    ensures exists i :: 0 <= i < |blocks| && blocks[i].Index == j && blocks[i].Data[..] == contents[j]
  {
    var idx := seq(|blocks|, i requires 0 <= i < |blocks| reads blocks => blocks[i].Index);
    Counting.Pigeonhole(idx, |blocks|, j);
    var i :| 0 <= i < |blocks| && idx[i] == j;
  }

  lemma WhereIs(idx: seq<nat>, n: nat, i: nat) returns (k: nat)
    requires i < |idx|
    ensures k < |Positions(idx, n, idx[i] < n)| && Positions(idx, n, idx[i] < n)[k] == i
  {
    PositionsCover(idx, n, i);
    k :| k < |Positions(idx, n, idx[i] < n)| && Positions(idx, n, idx[i] < n)[k] == i;
  }

  /** The index block i ends with: its own, or that of the missing original it has become. */
  ghost predicate EndsAs(idx: seq<nat>, n: nat, i: nat, index: nat)
    requires i < |idx|
  {
    if idx[i] < n then index == idx[i]
    else exists k :: 0 <= k < |Erased(idx, n)| && k < |Positions(idx, n, false)|
                     && Positions(idx, n, false)[k] == i && index == Erased(idx, n)[k]
  }

  lemma EndsApart(idx: seq<nat>, n: nat, i: nat, j: nat, a: nat, b: nat)
    requires i < |idx| && j < |idx| && i != j && |idx| == n && Counting.Distinct(Low(idx, n))
    requires EndsAs(idx, n, i, a) && EndsAs(idx, n, j, b)
    ensures a < n && a != b
  {
    ErasedCount(idx, n);
    var erased, low := Erased(idx, n), Low(idx, n);
    var all := erased + low;
    var p := PlaceOf(idx, n, i, a);
    var q := PlaceOf(idx, n, j, b);
    assert all[p] == a && all[q] == b;
  }

  /** Where the final index of block i stands among missing and received ones; no two blocks share a place. */
  lemma PlaceOf(idx: seq<nat>, n: nat, i: nat, a: nat) returns (p: nat)
    requires i < |idx| && |idx| == n && EndsAs(idx, n, i, a)
    requires |Erased(idx, n)| == |High(idx, n)|
    ensures p < |Erased(idx, n)| + |Low(idx, n)| && (Erased(idx, n) + Low(idx, n))[p] == a
    ensures p < |Erased(idx, n)| <==> idx[i] >= n
    ensures if p < |Erased(idx, n)| then Positions(idx, n, false)[p] == i
            else Positions(idx, n, true)[p - |Erased(idx, n)|] == i
  {
    if idx[i] < n {
      var k := WhereIs(idx, n, i);
      p := |Erased(idx, n)| + k;
    } else {
      p :| 0 <= p < |Erased(idx, n)| && p < |Positions(idx, n, false)|
           && Positions(idx, n, false)[p] == i && a == Erased(idx, n)[p];
    }
  }

  lemma AllNamed(blocks: seq<Block>, idx: seq<nat>, n: nat)
    requires |blocks| == |idx| == n && Counting.Distinct(Low(idx, n)) && |Erased(idx, n)| == |High(idx, n)|
    requires forall i | 0 <= i < n && idx[i] < n :: blocks[i].Index == idx[i]
    requires forall k | 0 <= k < |High(idx, n)| :: blocks[Positions(idx, n, false)[k]].Index == Erased(idx, n)[k]
    ensures Named(blocks, n)
  {
    forall i | 0 <= i < n
      ensures EndsAs(idx, n, i, blocks[i].Index) && blocks[i].Index < n
    {
      var k := WhereIs(idx, n, i);
      EndsBelow(idx, n, i, blocks[i].Index);
    }
    forall i, j | 0 <= i < j < n
      ensures blocks[i].Index != blocks[j].Index
    {
      EndsApart(idx, n, i, j, blocks[i].Index, blocks[j].Index);
    }
  }

  lemma EndsBelow(idx: seq<nat>, n: nat, i: nat, a: nat)
    requires i < |idx| == n && Counting.Distinct(Low(idx, n)) && EndsAs(idx, n, i, a)
    ensures a < n
  {
    ErasedCount(idx, n);
  }

  lemma AllRestored(blocks: seq<Block>, idx: seq<nat>, n: nat, contents: Stage)
    requires |blocks| == |idx| == |contents| == n && Counting.Distinct(Low(idx, n))
    requires InRange(Erased(idx, n), n) && |Erased(idx, n)| == |High(idx, n)|
    requires forall i | 0 <= i < n && idx[i] < n :: blocks[i].Index == idx[i] && blocks[i].Data[..] == contents[idx[i]]
    requires forall k | 0 <= k < |High(idx, n)| ::
      var block := blocks[Positions(idx, n, false)[k]];
      block.Index == Erased(idx, n)[k] && block.Data[..] == contents[Erased(idx, n)[k]]
    ensures Restored(blocks, contents)
  {
    forall i | 0 <= i < n
      ensures EndsAs(idx, n, i, blocks[i].Index)
      ensures blocks[i].Index < n && blocks[i].Data[..] == contents[blocks[i].Index]
    {
      var k := WhereIs(idx, n, i);
    }
    forall i, j | 0 <= i < j < n
      ensures blocks[i].Index != blocks[j].Index
    {
      EndsApart(idx, n, i, j, blocks[i].Index, blocks[j].Index);
    }
  }

  /**
   * Decoding. The result is 0, or the code of the first check that fails; -5 is an original that
   * came twice. A recovery block that came twice is not noticed: the result is 0, and with one recovery row
   * the originals are not restored. Null pointers have no counterpart here.
   */
  method Decode(F: Field, params: Params, blocks: seq<Block>, ghost idx: seq<nat>, ghost contents: Stage)
    returns (code: int)
    requires F.Lawful()
    requires params.Accepted() ==> Received(F, params, blocks, idx, contents)
    modifies blocks, set b <- blocks :: b.Data
    ensures code == -1 <==> params.OriginalCount <= 0 || params.RecoveryCount <= 0 || params.BlockBytes <= 0
    ensures code in {-1, -2} <==> !params.Accepted()
    ensures code == -5 <==>
      params.Accepted() && params.OriginalCount > 1 && !Counting.Distinct(Low(idx, params.OriginalCount))
    ensures code in {0, -1, -2, -5}
    ensures code == 0 && Counting.Distinct(High(idx, params.OriginalCount)) ==> Restored(blocks, contents)
    ensures code == 0 && params.RecoveryCount > 1 ==> Named(blocks, params.OriginalCount)
    ensures code == 0 && params.RecoveryCount == 1 && !Counting.Distinct(High(idx, params.OriginalCount)) ==>
              !Restored(blocks, contents)
    ensures code != 0 ==> forall b <- blocks :: b.Index == old(b.Index) && b.Data[..] == old(b.Data[..])
  {
    if params.OriginalCount <= 0 || params.RecoveryCount <= 0 || params.BlockBytes <= 0 {
      return -1;
    }
    if params.OriginalCount + params.RecoveryCount > 256 {
      return -2;
    }
    if params.OriginalCount == 1 {
      SingleBlock(F, params, blocks, idx, contents);
      blocks[0].Index := 0;
      return 0;
    }
    var state := new Decoder(F);
    var ok := state.Initialize(params, blocks, idx);
    if !ok {
      return -5;
    }
    Recover(F, state, params, blocks, idx, contents);
    return 0;
  }

  /** What is done once the blocks are sorted. */
  method Recover(F: Field, state: Decoder, params: Params, blocks: seq<Block>, ghost idx: seq<nat>,
                 ghost contents: Stage)
    requires F.Lawful() && state.F == F && params.Accepted() && params.OriginalCount > 1
    requires Received(F, params, blocks, idx, contents) && Counting.Distinct(Low(idx, params.OriginalCount))
    requires state.Parameters == params && state.Sorted(blocks, idx, params.OriginalCount, |blocks|)
    requires state.ErasuresIndices.Length == 256 && state.RecoveryCount <= 256
    requires state.ErasuresIndices[..state.RecoveryCount] == Erased(idx, params.OriginalCount)
    modifies blocks, set b <- blocks :: b.Data
    ensures Counting.Distinct(High(idx, params.OriginalCount)) ==> Restored(blocks, contents)
    ensures params.RecoveryCount > 1 ==> Named(blocks, params.OriginalCount)
    ensures params.RecoveryCount == 1 && !Counting.Distinct(High(idx, params.OriginalCount)) ==>
              !Restored(blocks, contents)
  {
    ghost var n := params.OriginalCount;
    ghost var recovery := state.Recovery;
    IsPrepared(F, state, params, blocks, idx, contents);
    KeptApart(F, params, blocks, recovery, idx, contents);
    if state.RecoveryCount <= 0 {
      AllNamed(blocks, idx, n);
      FinalState(blocks, recovery, idx, n, contents);
    } else if params.RecoveryCount == 1 {
      RecoverOne(F, state, params, blocks, idx, contents);
    } else {
      RecoverMany(F, state, params, blocks, idx, contents);
    }
  }

  method RecoverMany(F: Field, state: Decoder, params: Params, blocks: seq<Block>, ghost idx: seq<nat>,
                     ghost contents: Stage)
    requires F.Lawful() && state.F == F && params.Accepted() && params.OriginalCount > 1
    requires |blocks| == |idx| == |contents| == params.OriginalCount
             && Counting.Distinct(Low(idx, params.OriginalCount))
    requires state.Parameters == params && state.RecoveryCount > 0
    requires state.Prepared(Low(idx, params.OriginalCount), High(idx, params.OriginalCount),
                            Erased(idx, params.OriginalCount), contents)
    requires Kept(blocks, state.Recovery, idx, params.OriginalCount, contents)
    modifies blocks, set b <- blocks :: b.Data
    ensures Named(blocks, params.OriginalCount)
    ensures Counting.Distinct(High(idx, params.OriginalCount)) ==> Restored(blocks, contents)
  {
    ghost var n := params.OriginalCount;
    ghost var recovery := state.Recovery;
    state.Decode(Low(idx, n), High(idx, n), Erased(idx, n), contents);
    AllNamed(blocks, idx, n);
    if Counting.Distinct(High(idx, n)) {
      FinalState(blocks, recovery, idx, n, contents);
    }
  }

  /** With one recovery row the first recovery block becomes an original, and a second one stays what it is. */
  method RecoverOne(F: Field, state: Decoder, params: Params, blocks: seq<Block>, ghost idx: seq<nat>,
                    ghost contents: Stage)
    requires F.Lawful() && state.F == F && params.Accepted() && params.OriginalCount > 1 && params.RecoveryCount == 1
    requires |blocks| == |idx| == |contents| == params.OriginalCount
             && Counting.Distinct(Low(idx, params.OriginalCount))
    requires state.Parameters == params && InRange(idx, params.OriginalCount + 1) && state.RecoveryCount > 0
    requires state.Prepared(Low(idx, params.OriginalCount), High(idx, params.OriginalCount),
                            Erased(idx, params.OriginalCount), contents)
    requires Kept(blocks, state.Recovery, idx, params.OriginalCount, contents)
    modifies blocks, set b <- blocks :: b.Data
    ensures Restored(blocks, contents) <==> Counting.Distinct(High(idx, params.OriginalCount))
  {
    ghost var n := params.OriginalCount;
    ghost var recovery := state.Recovery;
    ghost var high := High(idx, n);
    OneRow(idx, n);
    state.DecodeM1(Low(idx, n), high, Erased(idx, n), contents);
    if |high| == 1 {
      FinalState(blocks, recovery, idx, n, contents);
    } else {
      assert recovery[1].Index == n;
      assert recovery[1] == blocks[Positions(idx, n, false)[1]];
    }
  }

  /** The received originals share nothing with the recovery blocks. */
  ghost predicate Kept(blocks: seq<Block>, recovery: seq<Block>, idx: seq<nat>, n: nat, contents: Stage)
    requires |blocks| == |idx| == |contents| == n
    reads blocks, set b <- blocks :: b.Data
  {
    && recovery == At(blocks, Positions(idx, n, false))
    && forall i | 0 <= i < n && idx[i] < n ::
         && blocks[i] !in recovery && (forall b <- recovery :: b.Data != blocks[i].Data)
         && blocks[i].Index == idx[i] && blocks[i].Data[..] == contents[idx[i]]
  }

  lemma KeptApart(F: Field, params: Params, blocks: seq<Block>, recovery: seq<Block>, idx: seq<nat>, contents: Stage)
    requires Received(F, params, blocks, idx, contents)
             && recovery == At(blocks, Positions(idx, params.OriginalCount, false))
    ensures Kept(blocks, recovery, idx, params.OriginalCount, contents)
  {
  }

  lemma FinalState(blocks: seq<Block>, recovery: seq<Block>, idx: seq<nat>, n: nat, contents: Stage)
    requires |blocks| == |idx| == |contents| == n && Counting.Distinct(Low(idx, n))
    requires InRange(Erased(idx, n), n) && |Erased(idx, n)| == |High(idx, n)|
    requires recovery == At(blocks, Positions(idx, n, false))
    requires forall i | 0 <= i < n && idx[i] < n :: blocks[i].Index == idx[i] && blocks[i].Data[..] == contents[idx[i]]
    requires forall k | 0 <= k < |recovery| ::
      recovery[k].Index == Erased(idx, n)[k] && recovery[k].Data[..] == contents[Erased(idx, n)[k]]
    ensures Restored(blocks, contents)
  {
    AllRestored(blocks, idx, n, contents);
  }

  lemma IsPrepared(F: Field, state: Decoder, params: Params, blocks: seq<Block>, idx: seq<nat>, contents: Stage)
    requires state.F == F && params.Accepted() && params.OriginalCount > 1
    requires Received(F, params, blocks, idx, contents) && Counting.Distinct(Low(idx, params.OriginalCount))
    requires state.Parameters == params && state.Sorted(blocks, idx, params.OriginalCount, |blocks|)
    requires state.ErasuresIndices.Length == 256 && state.RecoveryCount <= 256
    requires state.ErasuresIndices[..state.RecoveryCount] == Erased(idx, params.OriginalCount)
    ensures
      var n := params.OriginalCount;
      && state.Prepared(Low(idx, n), High(idx, n), Erased(idx, n), contents)
      && InRange(Erased(idx, n), n) && |Erased(idx, n)| == |High(idx, n)|
      && state.Recovery == At(blocks, Positions(idx, n, false))
  {
    var n := params.OriginalCount;
    assert idx[..|idx|] == idx;
    ErasedCount(idx, n);
    MissingIs(Counting.Elements(Low(idx, n)), n);
    PositionsCount(idx, n);
    ReceivedIsArranged(F, params, blocks, idx, contents);
  }

  /** With one original, every block holds it. */
  lemma SingleBlock(F: Field, params: Params, blocks: seq<Block>, idx: seq<nat>, contents: Stage)
    requires Received(F, params, blocks, idx, contents) && params.OriginalCount == 1
    ensures blocks[0].Data[..] == contents[0]
  {
    var data := Sent(F, 1, contents, params.BlockBytes, idx[0]);
    assert forall p | 0 <= p < params.BlockBytes :: data[p] == contents[0][p];
  }
}
