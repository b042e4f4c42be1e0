/**
 * A recovery block that comes twice: fewer equations than unknowns are left, so that contents that
 * differ are received alike and no decoder restores them.
 */
module Cm256Repeats {
  import opened Fields
  import opened Cm256Code
  import opened Cm256Passes
  import opened Cm256Received
  import Counting

  // ----- Fewer equations than unknowns

  /** The sum of the products of coefficients and unknowns. */
  function Dot(F: Field, row: seq<bv8>, v: seq<bv8>): bv8
    requires |row| == |v|
  {
    if row == [] then 0
    else F.Add(Dot(F, row[..|row| - 1], v[..|v| - 1]), F.Mul(row[|row| - 1], v[|v| - 1]))
  }

  function Zeros(k: nat): (r: seq<bv8>)
    ensures |r| == k && forall j | 0 <= j < k :: r[j] == 0
  {
    seq(k, _ => 0)
  }

  predicate NonZero(v: seq<bv8>) {
    exists j :: 0 <= j < |v| && v[j] != 0
  }

  /** row + f * pivot, without the last coefficient. */
  function Reduce(F: Field, row: seq<bv8>, f: bv8, pivot: seq<bv8>): (r: seq<bv8>)
    requires |row| == |pivot| >= 1
    ensures |r| == |row| - 1
    ensures forall j | 0 <= j < |r| :: r[j] == F.Add(row[j], F.Mul(f, pivot[j]))
  {
    seq(|row| - 1, j requires 0 <= j < |row| - 1 => F.Add(row[j], F.Mul(f, pivot[j])))
  }

  lemma DotLast(F: Field, row: seq<bv8>, v: seq<bv8>, x: bv8)
    requires |row| == |v| + 1
    ensures Dot(F, row, v + [x]) == F.Add(Dot(F, row[..|v|], v), F.Mul(row[|v|], x))
  {
    assert (v + [x])[..|v|] == v;
  }

  lemma {:induction false} DotZeros(F: Field, row: seq<bv8>, v: seq<bv8>)
    requires F.Lawful() && |row| == |v| && forall j | 0 <= j < |v| :: v[j] == 0
    ensures Dot(F, row, v) == 0
    decreases |row|
  {
    if row != [] {
      DotZeros(F, row[..|row| - 1], v[..|v| - 1]);
      MulZero(F, row[|row| - 1]);
      AddZero(F, 0);
    }
  }

  lemma {:induction false} DotAdds(F: Field, a: seq<bv8>, f: bv8, b: seq<bv8>, sum: seq<bv8>, v: seq<bv8>)
    requires F.Lawful() && |a| == |b| == |sum| == |v|
    requires forall j | 0 <= j < |sum| :: sum[j] == F.Add(a[j], F.Mul(f, b[j]))
    ensures Dot(F, sum, v) == F.Add(Dot(F, a, v), F.Mul(f, Dot(F, b, v)))
    decreases |a|
  {
    if a == [] {
      MulZero(F, f);
      AddZero(F, 0);
    } else {
      var n := |a| - 1;
      var p, q := Dot(F, a[..n], v[..n]), Dot(F, b[..n], v[..n]);
      DotAdds(F, a[..n], f, b[..n], sum[..n], v[..n]);
      DotAddsLast(F, p, q, f, a[n], b[n], v[n]);
    }
  }

  lemma DotAddsLast(F: Field, p: bv8, q: bv8, f: bv8, a: bv8, b: bv8, v: bv8)
    requires F.Lawful()
    ensures F.Add(F.Add(p, F.Mul(f, q)), F.Mul(F.Add(a, F.Mul(f, b)), v))
         == F.Add(F.Add(p, F.Mul(a, v)), F.Mul(f, F.Add(q, F.Mul(b, v))))
  {
    Distribute(F, v, a, F.Mul(f, b));
    Associate(F, f, b, v);
    Distribute(F, f, q, F.Mul(b, v));
    AddExchange(F, p, F.Mul(f, q), F.Mul(a, v), F.Mul(f, F.Mul(b, v)));
  }

  /** With the last unknown chosen for the pivot row, every row that was reduced by it is satisfied. */
  lemma RowSolved(F: Field, row: seq<bv8>, pivot: seq<bv8>, f: bv8, v: seq<bv8>, x: bv8)
    requires F.Lawful() && |row| == |pivot| == |v| + 1 && pivot[|v|] != 0 && f == F.Div(row[|v|], pivot[|v|])
    requires Dot(F, Reduce(F, row, f, pivot), v) == 0
    requires x == F.Div(Dot(F, pivot[..|v|], v), pivot[|v|])
    ensures Dot(F, row, v + [x]) == 0
  {
    var n, d := |v|, Dot(F, pivot[..|v|], v);
    DotAdds(F, row[..n], f, pivot[..n], Reduce(F, row, f, pivot), v);
    DotLast(F, row, v, x);
    AddEqual(F, Dot(F, row[..n], v), F.Mul(f, d));
    DivMul(F, d, pivot[n]);
    DivMul(F, row[n], pivot[n]);
    Associate(F, f, pivot[n], x);
    AddZero(F, F.Mul(f, d));
  }

  lemma AddEqual(F: Field, a: bv8, b: bv8)
    requires F.Lawful() && F.Add(a, b) == 0
    ensures a == b
  {
    if a != b {
      AddNonZero(F, a, b);
    }
  }

  lemma PivotSolved(F: Field, pivot: seq<bv8>, v: seq<bv8>, x: bv8)
    requires F.Lawful() && |pivot| == |v| + 1 && pivot[|v|] != 0
    requires x == F.Div(Dot(F, pivot[..|v|], v), pivot[|v|])
    ensures Dot(F, pivot, v + [x]) == 0
  {
    var d := Dot(F, pivot[..|v|], v);
    DotLast(F, pivot, v, x);
    DivMul(F, d, pivot[|v|]);
    AddZero(F, d);
  }

  lemma FreeUnknown(F: Field, row: seq<bv8>, k: nat)
    requires F.Lawful() && |row| == k >= 1 && row[k - 1] == 0
    ensures Dot(F, row, Zeros(k - 1) + [1]) == 0
  {
    DotLast(F, row, Zeros(k - 1), 1);
    DotZeros(F, row[..k - 1], Zeros(k - 1));
    MulZero(F, 1);
    AddZero(F, 0);
  }

  /** Fewer equations than unknowns have a solution that is not zero. */
  lemma {:induction false} Kernel(F: Field, rows: seq<seq<bv8>>, k: nat) returns (v: seq<bv8>)
    requires F.Lawful() && |rows| < k && forall i | 0 <= i < |rows| :: |rows[i]| == k
    ensures |v| == k && NonZero(v) && forall i | 0 <= i < |rows| :: Dot(F, rows[i], v) == 0
    decreases k
  {
    if p :| 0 <= p < |rows| && rows[p][k - 1] != 0 {
      v := KernelPivot(F, rows, k, p);
    } else {
      v := Zeros(k - 1) + [1];
      assert v[k - 1] != 0;
      forall i | 0 <= i < |rows| ensures Dot(F, rows[i], v) == 0 {
        FreeUnknown(F, rows[i], k);
      }
    }
  }

  lemma {:induction false} KernelPivot(F: Field, rows: seq<seq<bv8>>, k: nat, p: nat) returns (v: seq<bv8>)
    requires F.Lawful() && |rows| < k && forall i | 0 <= i < |rows| :: |rows[i]| == k
    requires p < |rows| && rows[p][k - 1] != 0
    ensures |v| == k && NonZero(v) && forall i | 0 <= i < |rows| :: Dot(F, rows[i], v) == 0
    decreases k, 0
  {
    var pivot := rows[p];
    var others := rows[..p] + rows[p + 1..];
    var reduced := seq(|others|, i requires 0 <= i < |others| =>
      Reduce(F, others[i], F.Div(others[i][k - 1], pivot[k - 1]), pivot));
    var w := Kernel(F, reduced, k - 1);
    var x := F.Div(Dot(F, pivot[..k - 1], w), pivot[k - 1]);
    v := w + [x];
    var j :| 0 <= j < |w| && w[j] != 0;
    assert v[j] != 0;
    PivotSolved(F, pivot, w, x);
    forall o | 0 <= o < |others| ensures Dot(F, others[o], v) == 0 {
      assert Dot(F, reduced[o], w) == 0;
      RowSolved(F, others[o], pivot, F.Div(others[o][k - 1], pivot[k - 1]), w, x);
    }
    WithPivot(F, rows, p, v);
  }

  lemma WithPivot(F: Field, rows: seq<seq<bv8>>, p: nat, v: seq<bv8>)
    requires p < |rows| && forall i | 0 <= i < |rows| :: |rows[i]| == |v|
    requires Dot(F, rows[p], v) == 0
    requires var others := rows[..p] + rows[p + 1..]; forall o | 0 <= o < |others| :: Dot(F, others[o], v) == 0
    ensures forall i | 0 <= i < |rows| :: Dot(F, rows[i], v) == 0
  {
    var others := rows[..p] + rows[p + 1..];
    forall i | 0 <= i < |rows| && i != p ensures Dot(F, rows[i], v) == 0 {
      assert rows[i] == others[if i < p then i else i - 1];
    }
  }

  // ----- Contents that are not seen

  /** The coefficients of a recovery row for the missing originals. */
  function Coefficients(F: Field, n: nat, row: nat, missing: seq<nat>): (r: seq<bv8>)
    requires n < 256 && row < 256 && InRange(missing, n)
    ensures |r| == |missing| && forall c | 0 <= c < |r| :: r[c] == Element(F, n, row, missing[c])
  {
    seq(|missing|, c requires 0 <= c < |missing| => Element(F, n, row, missing[c]))
  }

  /** Bytes that are zero but for the missing originals. */
  ghost predicate Placed(n: nat, missing: seq<nat>, v: seq<bv8>, data: seq<bv8>)
    requires |v| == |missing| && InRange(missing, n)
  {
    && |data| == n && (forall c | 0 <= c < |v| :: data[missing[c]] == v[c])
    && (forall j: nat | j < n && j !in missing :: data[j] == 0)
  }

  lemma {:induction false} SumIsDot(F: Field, n: nat, row: nat, data: seq<bv8>, missing: seq<nat>, v: seq<bv8>)
    requires n < 256 && row < 256 && |data| == n && InRange(missing, n) && |v| == |missing|
    requires forall c | 0 <= c < |v| :: data[missing[c]] == v[c]
    ensures SumOver(F, Terms(F, n, data, row), missing) == Dot(F, Coefficients(F, n, row, missing), v)
    decreases |missing|
  {
    if missing != [] {
      var k := |missing| - 1;
      SumIsDot(F, n, row, data, missing[..k], v[..k]);
      assert Coefficients(F, n, row, missing)[..k] == Coefficients(F, n, row, missing[..k]);
    }
  }

  lemma {:induction false} SumOfZeros(F: Field, terms: seq<bv8>, idx: seq<nat>)
    requires F.Lawful() && InRange(idx, |terms|) && forall c | 0 <= c < |idx| :: terms[idx[c]] == 0
    ensures SumOver(F, terms, idx) == 0
    decreases |idx|
  {
    if idx != [] {
      SumOfZeros(F, terms, idx[..|idx| - 1]);
      AddZero(F, 0);
    }
  }

  /** A recovery byte of such contents is the row over the missing originals. */
  lemma RecoveryOfMissing(F: Field, n: nat, low: seq<nat>, row: nat, data: seq<bv8>, v: seq<bv8>)
    requires F.Lawful() && 2 <= n < 256 && row < 256 && InRange(low, n) && Counting.Distinct(low)
    requires InRange(Missing(Counting.Elements(low), n), n) && |v| == |Missing(Counting.Elements(low), n)|
    requires Placed(n, Missing(Counting.Elements(low), n), v, data)
    ensures RecoveryByte(F, n, data, row) == Dot(F, Coefficients(F, n, row, Missing(Counting.Elements(low), n)), v)
  {
    var missing, terms := Missing(Counting.Elements(low), n), Terms(F, n, data, row);
    MissingIs(Counting.Elements(low), n);
    forall c | 0 <= c < |low| ensures terms[low[c]] == 0 {
      assert low[c] in Counting.Elements(low);
      assert low[c] !in missing;
      MulZero(F, Element(F, n, row, low[c]));
    }
    SumOfZeros(F, terms, low);
    AddZero(F, SumTo(F, terms, n));
    PartSumEnds(F, n, data, row, low);
    SumIsDot(F, n, row, data, missing, v);
  }

  /** Every block is the same byte all over. */
  function Even(data: seq<bv8>, bytes: nat): (stage: Stage)
    ensures |stage| == |data| && forall j | 0 <= j < |data| :: |stage[j]| == bytes
    ensures forall j, p | 0 <= j < |data| && 0 <= p < bytes :: stage[j][p] == data[j]
  {
    seq(|data|, j requires 0 <= j < |data| => seq(bytes, _ => data[j]))
  }

  lemma SentEven(F: Field, n: nat, data: seq<bv8>, bytes: nat, row: nat)
    requires 2 <= n <= row < 256 && |data| == n && RecoveryByte(F, n, data, row) == 0
    ensures Sent(F, n, Even(data, bytes), bytes, row) == seq(bytes, _ => 0)
  {
    var stage := Even(data, bytes);
    forall p | 0 <= p < bytes ensures Sent(F, n, stage, bytes, row)[p] == 0 {
      assert Column(stage, p) == data;
    }
  }

  /** Where a row comes twice there are fewer different ones than originals are missing. */
  lemma FewerRows(high: seq<nat>) returns (rows: seq<nat>)
    requires !Counting.Distinct(high)
    ensures |rows| < |high| && (forall h | h in high :: h in rows) && (forall h | h in rows :: h in high)
  {
    var i, j :| 0 <= i < j < |high| && high[i] == high[j];
    rows := high[..j] + high[j + 1..];
    forall h | h in high ensures h in rows {
      var k :| 0 <= k < |high| && high[k] == h;
      assert k < j ==> rows[k] == h;
      assert k > j ==> rows[k - 1] == h;
      assert rows[i] == high[j];
    }
  }

  /** Contents that are not zero, and of which the recovery blocks with these rows show nothing. */
  lemma UnseenBytes(F: Field, n: nat, low: seq<nat>, rows: seq<nat>) returns (data: seq<bv8>)
    requires F.Lawful() && 2 <= n < 256 && InRange(low, n) && Counting.Distinct(low) && InRange(rows, 256)
    requires |rows| < |Missing(Counting.Elements(low), n)|
    ensures |data| == n && NonZero(data) && forall k | 0 <= k < |low| :: data[low[k]] == 0
    ensures forall i | 0 <= i < |rows| :: RecoveryByte(F, n, data, rows[i]) == 0
  {
    var missing := Missing(Counting.Elements(low), n);
    MissingIs(Counting.Elements(low), n);
    assert InRange(missing, n) by {
      forall c | 0 <= c < |missing| ensures missing[c] < n {
        assert missing[c] in missing;
      }
    }
    var equations := seq(|rows|, i requires 0 <= i < |rows| => Coefficients(F, n, rows[i], missing));
    var v := Kernel(F, equations, |missing|);
    data := Place(n, missing, v);
    var c :| 0 <= c < |v| && v[c] != 0;
    assert data[missing[c]] != 0;
    forall k | 0 <= k < |low| ensures data[low[k]] == 0 {
      assert low[k] in Counting.Elements(low);
    }
    forall i | 0 <= i < |rows| ensures RecoveryByte(F, n, data, rows[i]) == 0 {
      RecoveryOfMissing(F, n, low, rows[i], data, v);
      assert Dot(F, equations[i], v) == 0;
    }
  }

  lemma {:induction false} Place(n: nat, missing: seq<nat>, v: seq<bv8>) returns (data: seq<bv8>)
    requires |v| == |missing| && InRange(missing, n) && Counting.Distinct(missing)
    ensures Placed(n, missing, v, data)
    decreases |missing|
  {
    if missing == [] {
      data := Zeros(n);
    } else {
      var k := |missing| - 1;
      data := Place(n, missing[..k], v[..k]);
      data := data[missing[k] := v[k]];
      forall j: nat | j < n && j !in missing ensures data[j] == 0 {
        assert j !in missing[..k] && j != missing[k];
      }
    }
  }

  /**
   * Received are as many blocks as there are originals, and one recovery block came twice: for every such
   * set of indices there are contents, not all zero, of which every received block is the same as of all
   * zeros. So whatever is made of the blocks, one of the two is not restored.
   */
  lemma RepeatHides(F: Field, n: nat, bytes: nat, idx: seq<nat>) returns (contents: Stage)
    requires F.Lawful() && 2 <= n < 256 && bytes >= 1 && |idx| == n && InRange(idx, 256)
    requires Counting.Distinct(Low(idx, n)) && !Counting.Distinct(High(idx, n))
    ensures Sized(contents, n, bytes) && Sized(Even(Zeros(n), bytes), n, bytes) && contents != Even(Zeros(n), bytes)
    ensures forall i | 0 <= i < n ::
              Sent(F, n, contents, bytes, idx[i]) == Sent(F, n, Even(Zeros(n), bytes), bytes, idx[i])
  {
    var low, high := Low(idx, n), High(idx, n);
    ErasedCount(idx, n);
    var rows := FewerRows(high);
    RowsInRange(idx, n, rows);
    var data := UnseenBytes(F, n, low, rows);
    contents := Even(data, bytes);
    var j :| 0 <= j < n && data[j] != 0;
    assert contents[j][0] != Even(Zeros(n), bytes)[j][0];
    forall i | 0 <= i < n
      ensures Sent(F, n, contents, bytes, idx[i]) == Sent(F, n, Even(Zeros(n), bytes), bytes, idx[i])
    {
      SeenAlike(F, n, bytes, idx, i, rows, data);
    }
  }

  lemma RowsInRange(idx: seq<nat>, n: nat, rows: seq<nat>)
    requires InRange(idx, 256) && forall h | h in rows :: h in High(idx, n)
    ensures InRange(rows, 256)
  {
    forall i | 0 <= i < |rows| ensures rows[i] < 256 {
      assert rows[i] in High(idx, n);
    }
  }

  lemma SeenAlike(F: Field, n: nat, bytes: nat, idx: seq<nat>, i: nat, rows: seq<nat>, data: seq<bv8>)
    requires F.Lawful() && 2 <= n < 256 && i < |idx| && InRange(idx, 256) && |data| == n
    requires forall h | h in High(idx, n) :: h in rows
    requires InRange(rows, 256) && forall k | 0 <= k < |rows| :: RecoveryByte(F, n, data, rows[k]) == 0
    requires InRange(Low(idx, n), n) && forall k | 0 <= k < |Low(idx, n)| :: data[Low(idx, n)[k]] == 0
    ensures Sent(F, n, Even(data, bytes), bytes, idx[i]) == Sent(F, n, Even(Zeros(n), bytes), bytes, idx[i])
  {
    PositionsCover(idx, n, i);
    if idx[i] < n {
      assert idx[i] in Low(idx, n);
      var k :| 0 <= k < |Low(idx, n)| && Low(idx, n)[k] == idx[i];
      assert Even(data, bytes)[idx[i]] == Even(Zeros(n), bytes)[idx[i]];
    } else {
      assert idx[i] in High(idx, n);
      var k :| 0 <= k < |rows| && rows[k] == idx[i];
      ZeroByte(F, n, idx[i]);
      SentEven(F, n, data, bytes, idx[i]);
      SentEven(F, n, Zeros(n), bytes, idx[i]);
    }
  }

  lemma ZeroByte(F: Field, n: nat, row: nat)
    requires F.Lawful() && 2 <= n <= row < 256
    ensures RecoveryByte(F, n, Zeros(n), row) == 0
  {
    ZeroSum(F, Terms(F, n, Zeros(n), row), n, row, n);
  }

  lemma {:induction false} ZeroSum(F: Field, terms: seq<bv8>, n: nat, row: nat, hi: nat)
    requires F.Lawful() && 2 <= n <= row < 256 && terms == Terms(F, n, Zeros(n), row) && hi <= n
    ensures SumTo(F, terms, hi) == 0
  {
    if hi > 0 {
      ZeroSum(F, terms, n, row, hi - 1);
      MulZero(F, Element(F, n, row, hi - 1));
      AddZero(F, 0);
    }
  }
}
