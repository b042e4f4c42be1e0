/**
 * The received blocks, sorted into originals and recovery blocks, and the system of equations the
 * recovery blocks give for the missing originals.
 */
module Cm256Received {
  import opened Bytes
  import opened Fields
  import opened Cauchy
  import opened Elimination
  import opened Cm256Code
  import opened Cm256Passes
  import Counting

  /** The positions of the indices below n, or of the others, in order. */
  function Positions(idx: seq<nat>, n: nat, low: bool): (pos: seq<nat>)
    ensures forall k | 0 <= k < |pos| :: pos[k] < |idx| && (idx[pos[k]] < n) == low
    ensures forall k, l | 0 <= k < l < |pos| :: pos[k] < pos[l]
  {
    if idx == [] then []
    else
      var rest := Positions(idx[..|idx| - 1], n, low);
      if (idx[|idx| - 1] < n) == low then rest + [|idx| - 1] else rest
  }

  function At<T>(s: seq<T>, pos: seq<nat>): (r: seq<T>)
    requires InRange(pos, |s|)
    ensures |r| == |pos| && forall k | 0 <= k < |pos| :: r[k] == s[pos[k]]
  {
    seq(|pos|, k requires 0 <= k < |pos| => s[pos[k]])
  }

  lemma {:induction false} PositionsCover(idx: seq<nat>, n: nat, i: nat)
    requires i < |idx|
    ensures i in Positions(idx, n, idx[i] < n)
  {
    if i < |idx| - 1 {
      PositionsCover(idx[..|idx| - 1], n, i);
    }
  }

  lemma {:induction false} PositionsCount(idx: seq<nat>, n: nat)
    ensures |Positions(idx, n, true)| + |Positions(idx, n, false)| == |idx|
  {
    if idx != [] {
      PositionsCount(idx[..|idx| - 1], n);
    }
  }

  /** The indices of the received originals, and of the received recovery blocks. */
  function Low(idx: seq<nat>, n: nat): seq<nat> {
    At(idx, Positions(idx, n, true))
  }

  function High(idx: seq<nat>, n: nat): seq<nat> {
    At(idx, Positions(idx, n, false))
  }

  ghost function Erased(idx: seq<nat>, n: nat): seq<nat> {
    Missing(Counting.Elements(Low(idx, n)), n)
  }

  /** As many originals are missing as recovery blocks came instead. */
  lemma ErasedCount(idx: seq<nat>, n: nat)
    requires |idx| == n && Counting.Distinct(Low(idx, n))
    ensures InRange(Low(idx, n), n) && InRange(Erased(idx, n), n)
    ensures |Erased(idx, n)| == |High(idx, n)|
    ensures Counting.Distinct(Erased(idx, n) + Low(idx, n))
  {
    PositionsCount(idx, n);
    ReceivedAndMissing(Low(idx, n), n);
  }

  // ----- The equations

  /** The blocks as sent: originals as they are, recovery blocks as encoded. */
  ghost function Sent(F: Field, n: nat, contents: Stage, bytes: nat, index: nat): (data: seq<bv8>)
    requires 1 <= n < 256 && index < 256 && Sized(contents, n, bytes)
    ensures |data| == bytes
    ensures index < n ==> data == contents[index]
    ensures index >= n ==> forall p | 0 <= p < bytes :: data[p] == RecoveryByte(F, n, Column(contents, p), index)
  {
    if index < n then contents[index]
    else seq(bytes, p requires 0 <= p < bytes => RecoveryByte(F, n, Column(contents, p), index))
  }

  /** A recovery block after the first o received originals have been added in. */
  ghost function Partly(F: Field, n: nat, contents: Stage, bytes: nat, row: nat, low: seq<nat>,
                        o: nat)
    : (data: seq<bv8>)
    requires 2 <= n < 256 && row < 256 && Sized(contents, n, bytes) && InRange(low, n) && o <= |low|
    ensures |data| == bytes && InRange(low[..o], n)
    ensures forall p | 0 <= p < bytes :: data[p] == PartSum(F, n, Column(contents, p), row, low[..o])
  {
    seq(bytes, p requires 0 <= p < bytes => PartSum(F, n, Column(contents, p), row, low[..o]))
  }

  ghost function PartSum(F: Field, n: nat, data: seq<bv8>, row: nat, some: seq<nat>): bv8
    requires 1 <= n < 256 && row < 256 && |data| == n && InRange(some, n)
  {
    F.Add(SumTo(F, Terms(F, n, data, row), n), SumOver(F, Terms(F, n, data, row), some))
  }

  lemma PartlyStarts(F: Field, n: nat, contents: Stage, bytes: nat, row: nat, low: seq<nat>)
    requires F.Lawful() && 2 <= n <= row < 256 && Sized(contents, n, bytes) && InRange(low, n)
    ensures Partly(F, n, contents, bytes, row, low, 0) == Sent(F, n, contents, bytes, row)
  {
    forall p | 0 <= p < bytes
      ensures Partly(F, n, contents, bytes, row, low, 0)[p] == Sent(F, n, contents, bytes, row)[p]
    {
      AddZero(F, SumTo(F, Terms(F, n, Column(contents, p), row), n));
    }
  }

  lemma PartlyStep(F: Field, n: nat, contents: Stage, bytes: nat, row: nat, low: seq<nat>, o: nat)
    requires F.Lawful() && 2 <= n < 256 && row < 256 && Sized(contents, n, bytes) && InRange(low, n) && o < |low|
    ensures Combined(F, Partly(F, n, contents, bytes, row, low, o + 1), Partly(F, n, contents, bytes, row, low, o),
                     Element(F, n, row, low[o]), contents[low[o]])
  {
    forall p | 0 <= p < bytes
      ensures Partly(F, n, contents, bytes, row, low, o + 1)[p]
           == F.Add(Partly(F, n, contents, bytes, row, low, o)[p],
                    F.Mul(Element(F, n, row, low[o]), contents[low[o]][p]))
    {
      var terms := Terms(F, n, Column(contents, p), row);
      assert low[..o + 1][..o] == low[..o] && low[..o + 1][o] == low[o];
      AddAssociate(F, SumTo(F, terms, n), SumOver(F, terms, low[..o]), terms[low[o]]);
    }
  }

  /** The equations that are left: row names and column names as bytes. */
  function Equations(F: Field, n: nat, high: seq<nat>, erased: seq<nat>): (s: System)
    requires n < 256 && InRange(high, 256) && InRange(erased, 256)
    ensures |s.xs| == |high| && |s.ys| == |erased| && s.F == F && s.x0 == Byte(n)
  {
    System(F, Byte(n), seq(|high|, i requires 0 <= i < |high| => Byte(high[i])),
           seq(|erased|, i requires 0 <= i < |erased| => Byte(erased[i])))
  }

  lemma EquationsGood(F: Field, n: nat, high: seq<nat>, erased: seq<nat>)
    requires F.Lawful() && n < 256 && InRange(high, 256) && InRange(erased, n) && |high| == |erased|
    requires Counting.Distinct(high) && Counting.Distinct(erased) && forall i | 0 <= i < |high| :: n <= high[i]
    ensures Equations(F, n, high, erased).Good()
  {
    var s := Equations(F, n, high, erased);
    forall i, j | 0 <= i < |high| && 0 <= j < |high|
      ensures i < j ==> s.xs[i] != s.xs[j] && s.ys[i] != s.ys[j]
    {
      SameByte(high[i], high[j]);
      SameByte(erased[i], erased[j]);
    }
    forall i, j | 0 <= i < |high| && 0 <= j < |high|
      ensures s.xs[i] != s.ys[j] && s.x0 != s.ys[j]
    {
      SameByte(high[i], erased[j]);
      SameByte(n, erased[j]);
    }
  }

  lemma {:induction false} EquationsSum(F: Field, n: nat, high: seq<nat>, erased: seq<nat>, data: seq<bv8>, i: nat,
                                        v: seq<bv8>, hi: nat)
    requires 2 <= n < 256 && InRange(high, 256) && InRange(erased, n) && |high| == |erased| == |v| && |data| == n
    requires Equations(F, n, high, erased).Good()
    requires i < |high| && hi <= |high| && forall c | 0 <= c < |v| :: v[c] == data[erased[c]]
    ensures SumOver(F, Terms(F, n, data, high[i]), erased[..hi])
            == Remainder(Equations(F, n, high, erased), 0, i, v, hi)
  {
    if hi > 0 {
      var s, terms := Equations(F, n, high, erased), Terms(F, n, data, high[i]);
      EquationsSum(F, n, high, erased, data, i, v, hi - 1);
      assert erased[..hi][..hi - 1] == erased[..hi - 1] && erased[..hi][hi - 1] == erased[hi - 1];
      FirstSchur(s, i, hi - 1);
    }
  }

  lemma PartSumEnds(F: Field, n: nat, data: seq<bv8>, row: nat, low: seq<nat>)
    requires F.Lawful() && 2 <= n < 256 && row < 256 && |data| == n && InRange(low, n) && Counting.Distinct(low)
    ensures InRange(Missing(Counting.Elements(low), n), n)
    ensures PartSum(F, n, data, row, low)
         == SumOver(F, Terms(F, n, data, row), Missing(Counting.Elements(low), n))
  {
    ReceivedCancel(F, Terms(F, n, data, row), low);
  }

  /** With all received originals added in, a recovery block holds its equation for the missing ones. */
  lemma PartlyEnds(F: Field, n: nat, contents: Stage, bytes: nat, low: seq<nat>, high: seq<nat>, erased: seq<nat>,
                   i: nat, lost: Stage)
    requires F.Lawful() && 2 <= n < 256 && InRange(high, 256) && i < |high| && Sized(contents, n, bytes)
    requires InRange(low, n) && Counting.Distinct(low) && erased == Missing(Counting.Elements(low), n)
    requires |erased| == |high| && InRange(erased, n) && Equations(F, n, high, erased).Good()
    requires Sized(lost, |erased|, bytes) && forall c | 0 <= c < |lost| :: lost[c] == contents[erased[c]]
    ensures Partly(F, n, contents, bytes, high[i], low, |low|)
         == Reduced(Equations(F, n, high, erased), 0, i, lost, bytes)
  {
    assert low[..|low|] == low && erased[..|erased|] == erased;
    forall p | 0 <= p < bytes
      ensures PartSum(F, n, Column(contents, p), high[i], low)
           == Remainder(Equations(F, n, high, erased), 0, i, Column(lost, p), |high|)
    {
      PartSumEnds(F, n, Column(contents, p), high[i], low);
      EquationsSum(F, n, high, erased, Column(contents, p), i, Column(lost, p), |high|);
    }
  }
}
