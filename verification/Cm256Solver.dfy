/** The general decoding path: received originals out of the recovery blocks, then elimination. */
module Cm256Solver {
  import opened Fields
  import opened Cauchy
  import opened Packing
  import opened Cm256Code
  import opened Cm256Ldu
  import opened Cm256Passes
  import opened Cm256Received
  import opened Cm256Encoder
  import Counting

  // ----- The stages as tables

  ghost function LowerTable(s: System, lost: Stage, bytes: nat): (st: seq<Stage>)
    requires Losses(s, lost, bytes)
    ensures |st| == s.N() && forall k | 0 <= k < s.N() :: Sized(st[k], s.N(), bytes)
    ensures forall k: nat, i: nat | k < s.N() && i < s.N() :: i < |st[k]| && st[k][i] == Reduced(s, k, i, lost, bytes)
  {
    seq(s.N(), k requires 0 <= k < s.N() => seq(s.N(), i requires 0 <= i < s.N() => Reduced(s, k, i, lost, bytes)))
  }

  ghost function UpperTable(s: System, lost: Stage, bytes: nat): (st: seq<Stage>)
    requires Losses(s, lost, bytes)
    ensures |st| == s.N() + 1 && forall h | 0 <= h <= s.N() :: Sized(st[h], s.N(), bytes)
    ensures forall h: nat, i: nat | i < h <= s.N() :: i < |st[h]| && st[h][i] == Backed(s, i, h, lost, bytes)
  {
    seq(s.N() + 1, h requires 0 <= h <= s.N() =>
      seq(s.N(), i requires 0 <= i < s.N() => if i < h then Backed(s, i, h, lost, bytes) else lost[i]))
  }

  lemma LowerTableStages(s: System, m: seq<bv8>, lost: Stage, bytes: nat)
    requires Losses(s, lost, bytes) && |m| >= 2 * Tri(s.N()) + s.N() && HoldsL(s, m, s.N())
    ensures LowerStages(s.F, s.N(), m, LowerTable(s, lost, bytes), bytes)
  {
    var st := LowerTable(s, lost, bytes);
    forall j: nat, i: nat | j < i < s.N()
      ensures Combined(s.F, st[j + 1][i], st[j][i], LAt(s.N(), m, j, i), st[j][j])
    {
      ReducedStep(s, j, i, lost, bytes);
      assert LAt(s.N(), m, j, i) == s.L(i, j);
    }
  }

  lemma UpperTableStages(s: System, m: seq<bv8>, lost: Stage, bytes: nat)
    requires Losses(s, lost, bytes) && |m| >= 2 * Tri(s.N()) + s.N() && HoldsU(s, m, 0)
    ensures UpperStages(s.F, s.N(), m, UpperTable(s, lost, bytes), bytes)
  {
    var st := UpperTable(s, lost, bytes);
    forall i: nat, j: nat | i < j < s.N()
      ensures Combined(s.F, st[j][i], st[j + 1][i], UAt(s.N(), m, i, j), st[j + 1][j])
    {
      BackedStep(s, i, j, lost, bytes);
      assert UAt(s.N(), m, i, j) == s.U(i, j);
    }
  }

  /** The rows hold the matrix times these blocks, and the system has a single solution. */
  ghost predicate Solvable(s: System, start: Stage, lost: Stage, bytes: nat) {
    Losses(s, lost, bytes) && |start| == s.N() && forall i | 0 <= i < s.N() :: start[i] == Reduced(s, 0, i, lost, bytes)
  }

  /**
   * Factor the recovery matrix and run the three passes. The passes end for any system, also for one that
   * divides by zero, and name the rows; when the system has a single solution they find it.
   */
  method Solve(s: System, rows: seq<Block>, bytes: nat, erasures: seq<nat>, ghost start: Stage, ghost lost: Stage)
    requires s.F.Lawful() && |rows| == |erasures| == |s.ys| == s.N() >= 1 && Separate(rows, bytes)
    requires Sized(start, s.N(), bytes) && forall i | 0 <= i < s.N() :: rows[i].Data[..] == start[i]
    modifies rows, set b <- rows :: b.Data
    ensures forall i | 0 <= i < s.N() :: rows[i].Index == erasures[i]
    ensures Solvable(s, start, lost, bytes) ==> forall i | 0 <= i < s.N() :: rows[i].Data[..] == lost[i]
  {
    var matrix := Factor(s);
    ghost var lower, before, upper, ends := SomeTables(s, matrix[..], start, lost, bytes);
    RunPasses(s.F, s.N(), rows, bytes, erasures, matrix, lower, before, upper, ends);
  }

  /** The stages of the passes are those of the solution, or what any rows go through. */
  lemma SomeTables(s: System, m: seq<bv8>, start: Stage, lost: Stage, bytes: nat)
    returns (lower: seq<Stage>, before: Stage, upper: seq<Stage>, ends: Stage)
    requires s.N() >= 1 && |s.ys| == s.N() && Sized(start, s.N(), bytes)
    requires |m| >= 2 * Tri(s.N()) + s.N() && HoldsFactors(s, m)
    ensures LowerStages(s.F, s.N(), m, lower, bytes) && UpperStages(s.F, s.N(), m, upper, bytes)
    ensures Sized(before, s.N(), bytes) && |ends| == s.N()
    ensures forall i | 0 <= i < s.N() :: lower[0][i] == start[i]
    ensures forall i | 0 <= i < s.N() :: before[i] == lower[i][i]
    ensures forall i | 0 <= i < s.N() :: Divided(s.F, upper[s.N()][i], before[i], m[Tri(s.N()) + i])
    ensures forall i | 0 <= i < s.N() :: upper[i + 1][i] == ends[i]
    ensures Solvable(s, start, lost, bytes) ==> ends == lost
  {
    if Solvable(s, start, lost, bytes) {
      lower, before, upper := Tables(s, m, lost, bytes);
      ends := lost;
    } else {
      lower, before, upper := AnyTables(s.F, s.N(), m, start, bytes);
      ends := seq(s.N(), i requires 0 <= i < s.N() => upper[i + 1][i]);
    }
  }

  // ----- The stages of any rows

  ghost function Combination(F: Field, a: seq<bv8>, c: bv8, b: seq<bv8>): (r: seq<bv8>)
    requires |a| == |b|
    ensures Combined(F, r, a, c, b)
  {
    seq(|a|, p requires 0 <= p < |a| => F.Add(a[p], F.Mul(c, b[p])))
  }

  ghost function Quotient(F: Field, a: seq<bv8>, d: bv8): (r: seq<bv8>)
    ensures Divided(F, r, a, d)
  {
    seq(|a|, p requires 0 <= p < |a| => F.Mul(a[p], F.Div(1, d)))
  }

  /** The rows after k columns of the lower pass. */
  ghost function Lowered(F: Field, N: nat, m: seq<bv8>, start: Stage, bytes: nat, k: nat): (stage: Stage)
    requires |m| >= 2 * Tri(N) + N && Sized(start, N, bytes) && k < N
    ensures Sized(stage, N, bytes)
  {
    if k == 0 then start
    else
      var before := Lowered(F, N, m, start, bytes, k - 1);
      seq(N, i requires 0 <= i < N =>
        if i < k then before[i] else Combination(F, before[i], LAt(N, m, k - 1, i), before[k - 1]))
  }

  /** The rows with the columns from h on cleared above the diagonal. */
  ghost function Raised(F: Field, N: nat, m: seq<bv8>, start: Stage, bytes: nat, h: nat): (stage: Stage)
    requires |m| >= 2 * Tri(N) + N && Sized(start, N, bytes) && h <= N
    ensures Sized(stage, N, bytes)
    decreases N - h
  {
    if h == N then start
    else
      var after := Raised(F, N, m, start, bytes, h + 1);
      seq(N, i requires 0 <= i < N =>
        if i < h then Combination(F, after[i], UAt(N, m, i, h), after[h]) else after[i])
  }

  lemma AnyTables(F: Field, N: nat, m: seq<bv8>, start: Stage, bytes: nat)
    returns (lower: seq<Stage>, before: Stage, upper: seq<Stage>)
    requires |m| >= 2 * Tri(N) + N && Sized(start, N, bytes) && N >= 1
    ensures LowerStages(F, N, m, lower, bytes) && UpperStages(F, N, m, upper, bytes) && Sized(before, N, bytes)
    ensures lower[0] == start && forall i | 0 <= i < N :: before[i] == lower[i][i]
    ensures forall i | 0 <= i < N :: Divided(F, upper[N][i], before[i], m[Tri(N) + i])
  {
    lower := AnyLower(F, N, m, start, bytes);
    before := seq(N, i requires 0 <= i < N => lower[i][i]);
    var divided := seq(N, i requires 0 <= i < N => Quotient(F, before[i], m[Tri(N) + i]));
    upper := AnyUpper(F, N, m, divided, bytes);
  }

  lemma AnyLower(F: Field, N: nat, m: seq<bv8>, start: Stage, bytes: nat) returns (lower: seq<Stage>)
    requires |m| >= 2 * Tri(N) + N && Sized(start, N, bytes) && N >= 1
    ensures LowerStages(F, N, m, lower, bytes) && lower[0] == start
  {
    lower := seq(N, k requires 0 <= k < N => Lowered(F, N, m, start, bytes, k));
    forall j: nat, i: nat | j < i < N
      ensures Combined(F, lower[j + 1][i], lower[j][i], LAt(N, m, j, i), lower[j][j])
    {
      assert lower[j + 1] == Lowered(F, N, m, start, bytes, j + 1);
    }
  }

  lemma AnyUpper(F: Field, N: nat, m: seq<bv8>, start: Stage, bytes: nat) returns (upper: seq<Stage>)
    requires |m| >= 2 * Tri(N) + N && Sized(start, N, bytes) && N >= 1
    ensures UpperStages(F, N, m, upper, bytes) && upper[N] == start
  {
    upper := seq(N + 1, h requires 0 <= h <= N => Raised(F, N, m, start, bytes, h));
    forall i: nat, j: nat | i < j < N
      ensures Combined(F, upper[j][i], upper[j + 1][i], UAt(N, m, i, j), upper[j + 1][j])
    {
      assert upper[j] == Raised(F, N, m, start, bytes, j);
    }
  }

  // ----- The stages of a solution

  /** The stages of the three passes, for a buffer that holds the factors. */
  lemma Tables(s: System, m: seq<bv8>, lost: Stage, bytes: nat)
    returns (lower: seq<Stage>, before: Stage, upper: seq<Stage>)
    requires Losses(s, lost, bytes) && |m| >= 2 * Tri(s.N()) + s.N() && HoldsFactors(s, m)
    ensures LowerStages(s.F, s.N(), m, lower, bytes) && UpperStages(s.F, s.N(), m, upper, bytes)
    ensures Sized(before, s.N(), bytes)
    ensures forall i | 0 <= i < s.N() :: lower[0][i] == Reduced(s, 0, i, lost, bytes)
    ensures forall i | 0 <= i < s.N() :: before[i] == lower[i][i]
    ensures forall i | 0 <= i < s.N() :: Divided(s.F, upper[s.N()][i], before[i], m[Tri(s.N()) + i])
    ensures forall i | 0 <= i < s.N() :: upper[i + 1][i] == lost[i]
  {
    lower, before := LowerTables(s, m, lost, bytes);
    upper := UpperTables(s, m, lost, bytes);
    forall i | 0 <= i < s.N()
      ensures Divided(s.F, upper[s.N()][i], before[i], m[Tri(s.N()) + i])
    {
      RowDivided(s, m, lost, bytes, i);
    }
  }

  lemma LowerTables(s: System, m: seq<bv8>, lost: Stage, bytes: nat) returns (lower: seq<Stage>, before: Stage)
    requires Losses(s, lost, bytes) && |m| >= 2 * Tri(s.N()) + s.N() && HoldsFactors(s, m)
    ensures LowerStages(s.F, s.N(), m, lower, bytes)
    ensures before == DiagonalRows(s, lost, bytes)
    ensures forall i | 0 <= i < s.N() :: lower[0][i] == Reduced(s, 0, i, lost, bytes)
    ensures forall i | 0 <= i < s.N() :: before[i] == lower[i][i]
  {
    lower, before := LowerTable(s, lost, bytes), DiagonalRows(s, lost, bytes);
    LowerTableStages(s, m, lost, bytes);
  }

  lemma UpperTables(s: System, m: seq<bv8>, lost: Stage, bytes: nat) returns (upper: seq<Stage>)
    requires Losses(s, lost, bytes) && |m| >= 2 * Tri(s.N()) + s.N() && HoldsFactors(s, m)
    ensures upper == UpperTable(s, lost, bytes)
    ensures UpperStages(s.F, s.N(), m, upper, bytes)
    ensures forall i | 0 <= i < s.N() :: upper[i + 1][i] == lost[i]
  {
    upper := UpperTable(s, lost, bytes);
    UpperTableStages(s, m, lost, bytes);
    UpperTableEnds(s, lost, bytes);
  }

  /** The matrix buffer, with U, D and L in it in this order. */
  method Factor(s: System) returns (matrix: array<bv8>)
    requires s.F.Lawful() && |s.ys| == s.N() && s.N() >= 1
    ensures fresh(matrix) && matrix.Length >= 2 * Tri(s.N()) + s.N() && HoldsFactors(s, matrix[..])
  {
    var N := s.N();
    TriangleSize(N);
    var requiredSpace := N * N;
    matrix := new bv8[if requiredSpace > 2048 then requiredSpace else 2048];
    var diagD := (N - 1) * N / 2;
    var matrixL := diagD + N;
    GenerateLDUDecomposition(s, matrix, matrixL, diagD);
  }

  lemma UpperTableEnds(s: System, lost: Stage, bytes: nat)
    requires Losses(s, lost, bytes)
    ensures forall i | 0 <= i < s.N() :: UpperTable(s, lost, bytes)[i + 1][i] == lost[i]
  {
    forall i | 0 <= i < s.N()
      ensures UpperTable(s, lost, bytes)[i + 1][i] == lost[i]
    {
      BackedEnds(s, i, lost, bytes);
    }
  }

  method RunPasses(F: Field, N: nat, rows: seq<Block>, bytes: nat, erasures: seq<nat>, matrix: array<bv8>,
                   ghost lower: seq<Stage>, ghost before: Stage, ghost upper: seq<Stage>, ghost lost: Stage)
    requires F.Lawful() && |rows| == |erasures| == N >= 1 && Separate(rows, bytes)
    requires forall i | 0 <= i < N :: rows[i].Data != matrix
    requires matrix.Length >= 2 * Tri(N) + N
    requires LowerStages(F, N, matrix[..], lower, bytes) && UpperStages(F, N, matrix[..], upper, bytes)
    requires Sized(before, N, bytes) && |lost| == N
    requires forall i | 0 <= i < N :: rows[i].Data[..] == lower[0][i]
    requires forall i | 0 <= i < N :: before[i] == lower[i][i]
    requires forall i | 0 <= i < N :: Divided(F, upper[N][i], before[i], matrix[..][Tri(N) + i])
    requires forall i | 0 <= i < N :: upper[i + 1][i] == lost[i]
    modifies rows, set b <- rows :: b.Data
    ensures forall i | 0 <= i < N :: rows[i].Data[..] == lost[i] && rows[i].Index == erasures[i]
  {
    ghost var m := matrix[..];
    EliminateLower(F, N, rows, bytes, matrix, Tri(N) + N, lower);
    assert matrix[..] == m;
    EliminateDiagonal(F, N, rows, bytes, matrix, Tri(N), erasures, before, upper[N]);
    assert matrix[..] == m;
    EliminateUpper(F, N, rows, bytes, matrix, upper);
  }

  /** The rows between the lower pass and the division by the diagonal. */
  ghost function DiagonalRows(s: System, lost: Stage, bytes: nat): (rows: Stage)
    requires Losses(s, lost, bytes)
    ensures Sized(rows, s.N(), bytes)
    ensures forall i: nat | i < s.N() :: i < |rows| && rows[i] == Reduced(s, i, i, lost, bytes)
  {
    seq(s.N(), i requires 0 <= i < s.N() => Reduced(s, i, i, lost, bytes))
  }

  lemma RowDivided(s: System, m: seq<bv8>, lost: Stage, bytes: nat, i: nat)
    requires Losses(s, lost, bytes) && |m| >= 2 * Tri(s.N()) + s.N() && HoldsD(s, m, s.N()) && i < s.N()
    ensures Divided(s.F, UpperTable(s, lost, bytes)[s.N()][i], DiagonalRows(s, lost, bytes)[i], m[Tri(s.N()) + i])
  {
    ReducedToBacked(s, i, lost, bytes);
    assert UpperTable(s, lost, bytes)[s.N()][i] == Backed(s, i, s.N(), lost, bytes);
  }

  // ----- Received originals

  ghost function OriginalTable(F: Field, n: nat, contents: Stage, bytes: nat, low: seq<nat>,
                               high: seq<nat>)
    : (st: seq<Stage>)
    requires 2 <= n < 256 && Sized(contents, n, bytes) && InRange(low, n) && InRange(high, 256)
    ensures |st| == |low| + 1 && forall o | 0 <= o <= |low| :: Sized(st[o], |high|, bytes)
    ensures forall o: nat, i: nat | o <= |low| && i < |high| ::
      i < |st[o]| && st[o][i] == Partly(F, n, contents, bytes, high[i], low, o)
  {
    seq(|low| + 1, o requires 0 <= o <= |low| =>
      seq(|high|, i requires 0 <= i < |high| => Partly(F, n, contents, bytes, high[i], low, o)))
  }

  /** Eliminate the received originals from the recovery rows. */
  method EliminateOriginals(F: Field, n: nat, original: seq<Block>, rows: seq<Block>, bytes: nat,
                            ghost low: seq<nat>, ghost high: seq<nat>, ghost contents: Stage)
    requires F.Lawful() && 2 <= n < 256 && Sized(contents, n, bytes)
    requires Arranged(F, n, original, rows, low, high, contents, bytes)
    modifies set b <- rows :: b.Data
    ensures forall i | 0 <= i < |rows| :: rows[i].Data[..] == Partly(F, n, contents, bytes, high[i], low, |low|)
  {
    ghost var st := OriginalTable(F, n, contents, bytes, low, high);
    forall i | 0 <= i < |high|
      ensures st[0][i] == Sent(F, n, contents, bytes, high[i])
    {
      PartlyStarts(F, n, contents, bytes, high[i], low);
    }
    for o := 0 to |original|
      invariant forall k | 0 <= k < |low| :: original[k].Data[..] == contents[low[k]]
      invariant forall t | 0 <= t < |rows| :: rows[t].Data[..] == st[o][t]
    {
      forall i | 0 <= i < |high|
        ensures Combined(F, st[o + 1][i], st[o][i], Element(F, n, high[i], low[o]), contents[low[o]])
      {
        PartlyStep(F, n, contents, bytes, high[i], low, o);
      }
      EliminateOriginal(F, n, original[o], rows, bytes, high, st[o], st[o + 1]);
    }
  }

  method EliminateOriginal(F: Field, n: nat, original: Block, rows: seq<Block>, bytes: nat,
                           ghost high: seq<nat>, ghost before: Stage, ghost after: Stage)
    requires F.Lawful() && n < 256 && original.Index < n && Separate(rows, bytes)
    requires |rows| == |high| && InRange(high, 256)
    requires forall i | 0 <= i < |rows| :: rows[i].Index == high[i] && rows[i].Data != original.Data
    requires Sized(before, |rows|, bytes) && Sized(after, |rows|, bytes)
    requires forall i | 0 <= i < |rows| ::
      Combined(F, after[i], before[i], Element(F, n, high[i], original.Index), original.Data[..])
    requires forall i | 0 <= i < |rows| :: rows[i].Data[..] == before[i]
    modifies set b <- rows :: b.Data
    ensures forall i | 0 <= i < |rows| :: rows[i].Data[..] == after[i]
  {
    ghost var inBytes := original.Data[..];
    for i := 0 to |rows|
      invariant original.Data[..] == inBytes
      invariant forall t | 0 <= t < i :: rows[t].Data[..] == after[t]
      invariant forall t | i <= t < |rows| :: rows[t].Data[..] == before[t]
    {
      var element := Element(F, n, rows[i].Index, original.Index);
      CombineRow(F, rows[i].Data, element, original.Data, after[i]);
    }
  }

  /** Received originals and recovery blocks, named by low and high, as sent and sharing nothing. */
  ghost predicate Arranged(F: Field, n: nat, original: seq<Block>, recovery: seq<Block>, low: seq<nat>, high: seq<nat>,
                           contents: Stage, bytes: nat)
    requires 1 <= n < 256 && Sized(contents, n, bytes)
    reads original, recovery, set b <- original :: b.Data, set b <- recovery :: b.Data
  {
    && |original| == |low| && |recovery| == |high|
    && InRange(low, n) && Counting.Distinct(low)
    && InRange(high, 256) && (forall i | 0 <= i < |high| :: n <= high[i])
    && (forall k | 0 <= k < |low| :: original[k].Index == low[k] && original[k].Data[..] == contents[low[k]])
    && (forall i | 0 <= i < |high| ::
          recovery[i].Index == high[i] && recovery[i].Data[..] == Sent(F, n, contents, bytes, high[i]))
    && Separate(recovery, bytes)
    && (forall k, i | 0 <= k < |low| && 0 <= i < |high| ::
          original[k] != recovery[i] && original[k].Data != recovery[i].Data)
  }

  /**
   * The whole path: afterwards recovery block i has the index of the i-th missing original, and when no
   * recovery block came twice it is this original.
   */
  method Decode(F: Field, params: Params, original: seq<Block>, recovery: seq<Block>, rows: seq<nat>,
                erasures: seq<nat>, ghost low: seq<nat>, ghost contents: Stage)
    requires F.Lawful() && params.Accepted() && params.OriginalCount >= 2
    requires Sized(contents, params.OriginalCount, params.BlockBytes)
    requires Arranged(F, params.OriginalCount, original, recovery, low, rows, contents, params.BlockBytes)
    requires erasures == Missing(Counting.Elements(low), params.OriginalCount)
    requires InRange(erasures, params.OriginalCount) && Counting.Distinct(erasures) && |erasures| == |rows| >= 1
    modifies recovery, set b <- recovery :: b.Data
    ensures forall i | 0 <= i < |recovery| :: recovery[i].Index == erasures[i]
    ensures Counting.Distinct(rows) ==>
              forall i | 0 <= i < |recovery| :: recovery[i].Data[..] == contents[erasures[i]]
  {
    var n, bytes := params.OriginalCount, params.BlockBytes;
    ghost var lost: Stage := seq(|erasures|, c requires 0 <= c < |erasures| => contents[erasures[c]]);
    EliminateOriginals(F, n, original, recovery, bytes, low, rows, contents);
    var s := Equations(F, n, rows, erasures);
    ghost var start: Stage := seq(|rows|, i requires 0 <= i < |rows| =>
      Partly(F, n, contents, bytes, rows[i], low, |low|));
    if Counting.Distinct(rows) {
      SolvableWhenDistinct(F, n, contents, bytes, low, rows, erasures, start, lost);
    }
    Solve(s, recovery, bytes, erasures, start, lost);
  }

  lemma SolvableWhenDistinct(F: Field, n: nat, contents: Stage, bytes: nat, low: seq<nat>, rows: seq<nat>,
                             erasures: seq<nat>, start: Stage, lost: Stage)
    requires F.Lawful() && 2 <= n < 256 && InRange(rows, 256) && Sized(contents, n, bytes) && |rows| >= 1
    requires InRange(low, n) && Counting.Distinct(low) && erasures == Missing(Counting.Elements(low), n)
    requires |erasures| == |rows| && InRange(erasures, n) && Counting.Distinct(erasures)
    requires Counting.Distinct(rows) && forall i | 0 <= i < |rows| :: n <= rows[i]
    requires Sized(lost, |erasures|, bytes) && forall c | 0 <= c < |lost| :: lost[c] == contents[erasures[c]]
    requires |start| == |rows|
             && forall i | 0 <= i < |rows| :: start[i] == Partly(F, n, contents, bytes, rows[i], low, |low|)
    ensures Solvable(Equations(F, n, rows, erasures), start, lost, bytes)
  {
    var s := Equations(F, n, rows, erasures);
    EquationsGood(F, n, rows, erasures);
    forall i | 0 <= i < |rows|
      ensures Partly(F, n, contents, bytes, rows[i], low, |low|) == Reduced(s, 0, i, lost, bytes)
    {
      PartlyEnds(F, n, contents, bytes, low, rows, erasures, i, lost);
    }
  }
}
