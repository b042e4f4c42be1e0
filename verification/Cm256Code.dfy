/**
 * The code itself: what a recovery block holds, as sums over the original blocks, and how such a
 * sum falls apart into the received and the missing originals.
 */
module Cm256Code {
  import opened Bytes
  import opened Fields
  import Counting

  /** The factor of original block j in the recovery block with index row, for n originals. */
  function Element(F: Field, n: nat, row: nat, j: nat): bv8
    requires n < 256 && row < 256 && j < 256
  {
    F.Div(F.Add(Byte(j), Byte(n)), F.Add(Byte(row), Byte(j)))
  }

  function Terms(F: Field, n: nat, data: seq<bv8>, row: nat): (terms: seq<bv8>)
    requires n < 256 && row < 256 && |data| == n
    ensures |terms| == n
    ensures forall j | 0 <= j < n :: terms[j] == F.Mul(Element(F, n, row, j), data[j])
  {
    seq(n, j requires 0 <= j < n => F.Mul(Element(F, n, row, j), data[j]))
  }

  function SumTo(F: Field, terms: seq<bv8>, hi: nat): bv8
    requires hi <= |terms|
  {
    if hi == 0 then 0 else F.Add(SumTo(F, terms, hi - 1), terms[hi - 1])
  }

  /** One byte of a recovery block; data holds that byte of every original block. */
  function RecoveryByte(F: Field, n: nat, data: seq<bv8>, row: nat): bv8
    requires 1 <= n < 256 && row < 256 && |data| == n
  {
    if n == 1 then data[0] else SumTo(F, Terms(F, n, data, row), n)
  }

  /** One byte position of a list of blocks. */
  function Column(blocks: seq<seq<bv8>>, p: nat): (column: seq<bv8>)
    requires forall j | 0 <= j < |blocks| :: p < |blocks[j]|
    ensures |column| == |blocks| && forall j | 0 <= j < |blocks| :: column[j] == blocks[j][p]
  {
    seq(|blocks|, j requires 0 <= j < |blocks| => blocks[j][p])
  }

  /** In the first recovery row every factor is 1: it holds the parity of the originals. */
  lemma FirstRowIsOnes(F: Field, n: nat, j: nat)
    requires F.Lawful() && j < n < 256
    ensures Element(F, n, n, j) == 1
  {
    SameByte(n, j);
    AddCommute(F, Byte(j), Byte(n));
    AddNonZero(F, Byte(n), Byte(j));
    MulOne(F, F.Add(Byte(n), Byte(j)));
    DivIs(F, F.Add(Byte(j), Byte(n)), F.Add(Byte(n), Byte(j)), 1);
  }

  /** In every other row no factor is 1, so the bulk multiplication may be used to start it. */
  lemma OtherRowsAvoidOne(F: Field, n: nat, row: nat, j: nat)
    requires F.Lawful() && j < n < row < 256
    ensures Element(F, n, row, j) != 1
  {
    SameByte(row, j);
    SameByte(row, n);
    AddNonZero(F, Byte(row), Byte(j));
    if Element(F, n, row, j) == 1 {
      DivMul(F, F.Add(Byte(j), Byte(n)), F.Add(Byte(row), Byte(j)));
      MulOne(F, F.Add(Byte(row), Byte(j)));
      AddCommute(F, Byte(row), Byte(j));
      AddTwice(F, Byte(n), Byte(j));
      AddTwice(F, Byte(row), Byte(j));
    }
  }

  // ----- Sums over lists of indices

  predicate InRange(idx: seq<nat>, n: nat) {
    forall k | 0 <= k < |idx| :: idx[k] < n
  }

  function SumOver(F: Field, terms: seq<bv8>, idx: seq<nat>): bv8
    requires InRange(idx, |terms|)
  {
    if idx == [] then 0
    else F.Add(SumOver(F, terms, idx[..|idx| - 1]), terms[idx[|idx| - 1]])
  }

  lemma {:induction false} SumOverConcat(F: Field, terms: seq<bv8>, a: seq<nat>, b: seq<nat>)
    requires F.Lawful() && InRange(a, |terms|) && InRange(b, |terms|)
    ensures SumOver(F, terms, a + b) == F.Add(SumOver(F, terms, a), SumOver(F, terms, b))
  {
    if b == [] {
      assert a + b == a;
      AddZero(F, SumOver(F, terms, a));
    } else {
      var front, last := b[..|b| - 1], b[|b| - 1];
      assert (a + b)[..|a + b| - 1] == a + front;
      SumOverConcat(F, terms, a, front);
      AddAssociate(F, SumOver(F, terms, a), SumOver(F, terms, front), terms[last]);
    }
  }

  function Without(idx: seq<nat>, k: nat): seq<nat>
    requires k < |idx|
  {
    idx[..k] + idx[k + 1..]
  }

  /** Moving one index to the end does not change a sum. */
  lemma MoveToEnd(F: Field, terms: seq<bv8>, idx: seq<nat>, k: nat)
    requires F.Lawful() && k < |idx| && InRange(idx, |terms|)
    ensures SumOver(F, terms, idx) == F.Add(SumOver(F, terms, Without(idx, k)), terms[idx[k]])
  {
    var a, b, c := idx[..k], [idx[k]], idx[k + 1..];
    assert idx == (a + b) + c;
    SumOverConcat(F, terms, a + b, c);
    SumOverConcat(F, terms, a, b);
    SumOverConcat(F, terms, a, c);
    AddZero(F, terms[idx[k]]);
    AddSwapLast(F, SumOver(F, terms, a), terms[idx[k]], SumOver(F, terms, c));
  }

  lemma {:induction false} SumOverPrefix(F: Field, terms: seq<bv8>, shorter: seq<bv8>, idx: seq<nat>)
    requires shorter <= terms && InRange(idx, |shorter|)
    ensures SumOver(F, terms, idx) == SumOver(F, shorter, idx)
  {
    if idx != [] {
      SumOverPrefix(F, terms, shorter, idx[..|idx| - 1]);
    }
  }

  lemma {:induction false} SumToPrefix(F: Field, terms: seq<bv8>, shorter: seq<bv8>, hi: nat)
    requires shorter <= terms && hi <= |shorter|
    ensures SumTo(F, terms, hi) == SumTo(F, shorter, hi)
  {
    if hi > 0 {
      SumToPrefix(F, terms, shorter, hi - 1);
    }
  }

  lemma TakeOut(idx: seq<nat>, n: nat) returns (k: nat)
    requires n > 0 && |idx| == n && Counting.Distinct(idx) && InRange(idx, n)
    ensures k < n && idx[k] == n - 1
    ensures Counting.Distinct(Without(idx, k)) && InRange(Without(idx, k), n - 1)
  {
    Counting.Pigeonhole(idx, n, n - 1);
    k :| 0 <= k < n && idx[k] == n - 1;
    var rest := Without(idx, k);
    assert forall l | 0 <= l < |rest| :: rest[l] == if l < k then idx[l] else idx[l + 1];
  }

  /** A list naming every index once gives the whole sum, in whatever order. */
  lemma {:induction false} SumOverAll(F: Field, terms: seq<bv8>, idx: seq<nat>)
    requires F.Lawful() && |idx| == |terms| && Counting.Distinct(idx) && InRange(idx, |terms|)
    ensures SumOver(F, terms, idx) == SumTo(F, terms, |terms|)
  {
    var n := |terms|;
    if n > 0 {
      var k := TakeOut(idx, n);
      MoveToEnd(F, terms, idx, k);
      SumOverPrefix(F, terms, terms[..n - 1], Without(idx, k));
      SumToPrefix(F, terms, terms[..n - 1], n - 1);
      SumOverAll(F, terms[..n - 1], Without(idx, k));
    }
  }

  // ----- The missing originals, in ascending order

  function Missing(present: set<nat>, n: nat): (missing: seq<nat>)
  {
    if n == 0 then []
    else if n - 1 in present then Missing(present, n - 1)
    else Missing(present, n - 1) + [n - 1]
  }

  lemma {:induction false} MissingIs(present: set<nat>, n: nat)
    ensures forall j: nat :: j in Missing(present, n) <==> j < n && j !in present
    ensures Counting.Distinct(Missing(present, n))
  {
    if n > 0 {
      MissingIs(present, n - 1);
      var before := Missing(present, n - 1);
      forall k | 0 <= k < |before|
        ensures before[k] != n - 1
      {
        assert before[k] in before;
      }
    }
  }

  lemma {:induction false} MissingCount(present: set<nat>, n: nat)
    requires forall j | j in present :: j < n
    ensures |Missing(present, n)| + |present| == n
  {
    if n == 0 {
      assert present == {};
    } else if n - 1 in present {
      MissingCount(present - {n - 1}, n - 1);
      MissingSame(present - {n - 1}, present, n - 1);
    } else {
      MissingCount(present, n - 1);
    }
  }

  lemma {:induction false} MissingSame(a: set<nat>, b: set<nat>, n: nat)
    requires forall j: nat | j < n :: j in a <==> j in b
    ensures Missing(a, n) == Missing(b, n)
  {
    if n > 0 {
      MissingSame(a, b, n - 1);
    }
  }

  /** Received and missing originals together are all of them. */
  lemma ReceivedAndMissing(received: seq<nat>, n: nat)
    requires Counting.Distinct(received) && InRange(received, n)
    ensures
      var missing := Missing(Counting.Elements(received), n);
      InRange(missing, n) && |missing| + |received| == n && Counting.Distinct(missing + received)
  {
    var present := Counting.Elements(received);
    var missing := Missing(present, n);
    MissingIs(present, n);
    MissingCount(present, n);
    Counting.DistinctSize(received);
    forall k | 0 <= k < |missing|
      ensures missing[k] < n && missing[k] !in received
    {
      assert missing[k] in missing;
    }
  }

  /** Adding the received originals into a recovery byte leaves the sum over the missing ones. */
  lemma ReceivedCancel(F: Field, terms: seq<bv8>, received: seq<nat>)
    requires F.Lawful() && Counting.Distinct(received) && InRange(received, |terms|)
    ensures InRange(Missing(Counting.Elements(received), |terms|), |terms|)
    ensures F.Add(SumTo(F, terms, |terms|), SumOver(F, terms, received))
         == SumOver(F, terms, Missing(Counting.Elements(received), |terms|))
  {
    var missing := Missing(Counting.Elements(received), |terms|);
    ReceivedAndMissing(received, |terms|);
    SumOverAll(F, terms, missing + received);
    SumOverConcat(F, terms, missing, received);
    AddTwice(F, SumOver(F, terms, missing), SumOver(F, terms, received));
  }
}
