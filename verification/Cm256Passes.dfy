/**
 * The three elimination passes of the decoder over the recovery blocks, in place. Each pass is
 * given the contents it takes the rows through, stage by stage, and proved to follow them; that the
 * stages of the recovery system end in the lost blocks is proved beside it.
 */
module Cm256Passes {
  import opened Fields
  import opened Cauchy
  import opened Elimination
  import opened Packing
  import opened Cm256Code
  import opened Cm256Ldu
  import opened Gf256Bulk
  import opened Cm256Encoder

  /** Blocks of the given size that share nothing. */
  ghost predicate Separate(blocks: seq<Block>, bytes: nat) {
    && (forall i | 0 <= i < |blocks| :: blocks[i].Data.Length == bytes)
    && (forall i, j | 0 <= i < j < |blocks| :: blocks[i] != blocks[j] && blocks[i].Data != blocks[j].Data)
  }

  type Stage = seq<seq<bv8>>

  ghost predicate Sized(stage: Stage, N: nat, bytes: nat) {
    |stage| == N && forall i | 0 <= i < N :: |stage[i]| == bytes
  }

  /** r = a + c * b, byte by byte */
  ghost predicate Combined(F: Field, r: seq<bv8>, a: seq<bv8>, c: bv8, b: seq<bv8>) {
    |r| == |a| == |b| && forall p | 0 <= p < |r| :: r[p] == F.Add(a[p], F.Mul(c, b[p]))
  }

  /** r = a / d, byte by byte */
  ghost predicate Divided(F: Field, r: seq<bv8>, a: seq<bv8>, d: bv8) {
    |r| == |a| && forall p | 0 <= p < |r| :: r[p] == F.Mul(a[p], F.Div(1, d))
  }

  /** Each stage clears one more column below the diagonal. */
  ghost predicate LowerStages(F: Field, N: nat, m: seq<bv8>, st: seq<Stage>, bytes: nat)
    requires |m| >= 2 * Tri(N) + N
  {
    && |st| == N && (forall k | 0 <= k < N :: Sized(st[k], N, bytes))
    && forall j: nat, i: nat | j < i < N :: Combined(F, st[j + 1][i], st[j][i], LAt(N, m, j, i), st[j][j])
  }

  /** Stage h has the columns from h on cleared above the diagonal. */
  ghost predicate UpperStages(F: Field, N: nat, m: seq<bv8>, st: seq<Stage>, bytes: nat)
    requires |m| >= 2 * Tri(N) + N
  {
    && |st| == N + 1 && (forall k | 0 <= k <= N :: Sized(st[k], N, bytes))
    && forall i: nat, j: nat | i < j < N :: Combined(F, st[j][i], st[j + 1][i], UAt(N, m, i, j), st[j + 1][j])
  }

  method CombineRow(F: Field, row: array<bv8>, c: bv8, with: array<bv8>, ghost r: seq<bv8>)
    requires F.Lawful() && row != with && Combined(F, r, row[..], c, with[..])
    modifies row
    ensures row[..] == r
  {
    ghost var was := row[..];
    MulAddMem(F, row, 0, c, with, row.Length);
    assert forall p | 0 <= p < row.Length :: row[p] == F.Add(was[p], F.Mul(c, with[..][p]));
  }

  /** Eliminate the lower left triangle, with L read through a moving pointer. */
  method EliminateLower(F: Field, N: nat, rows: seq<Block>, bytes: nat, matrix: array<bv8>, matrixL: nat,
                        ghost st: seq<Stage>)
    requires F.Lawful() && |rows| == N >= 1 && Separate(rows, bytes)
    requires forall i | 0 <= i < N :: rows[i].Data != matrix
    requires matrix.Length >= 2 * Tri(N) + N && matrixL == Tri(N) + N
    requires LowerStages(F, N, matrix[..], st, bytes)
    requires forall i | 0 <= i < N :: rows[i].Data[..] == st[0][i]
    modifies set b <- rows :: b.Data
    ensures forall i | 0 <= i < N :: rows[i].Data[..] == st[i][i]
  {
    var toL := matrixL;
    ghost var m := matrix[..];
    for j := 0 to N - 1
      invariant toL == StartL(N, j) && matrix[..] == m
      invariant forall t | 0 <= t < N :: rows[t].Data[..] == st[if t <= j then t else j][t]
    {
      toL := LowerColumn(F, N, rows, bytes, matrix, toL, j, st);
    }
  }

  /** Clear column j below the diagonal. */
  method LowerColumn(F: Field, N: nat, rows: seq<Block>, bytes: nat, matrix: array<bv8>, start: nat, j: nat,
                     ghost st: seq<Stage>)
    returns (toL: nat)
    requires F.Lawful() && |rows| == N && j + 1 < N && Separate(rows, bytes)
    requires forall i | 0 <= i < N :: rows[i].Data != matrix
    requires matrix.Length >= 2 * Tri(N) + N && start == StartL(N, j)
    requires LowerStages(F, N, matrix[..], st, bytes)
    requires rows[j].Data[..] == st[j][j] && forall i | j < i < N :: rows[i].Data[..] == st[j][i]
    modifies set b <- rows :: b.Data
    ensures toL == StartL(N, j + 1)
    ensures forall i | 0 <= i <= j :: rows[i].Data[..] == old(rows[i].Data[..])
    ensures forall i | j < i < N :: rows[i].Data[..] == st[j + 1][i]
  {
    ghost var m := matrix[..];
    toL := start;
    for i := j + 1 to N
      invariant toL == StartL(N, j) + (i - j - 1) && matrix[..] == m
      invariant forall t | 0 <= t <= j :: rows[t].Data[..] == old(rows[t].Data[..])
      invariant forall t | j < t < i :: rows[t].Data[..] == st[j + 1][t]
      invariant forall t | i <= t < N :: rows[t].Data[..] == st[j][t]
    {
      LPosBounds(N, j, i);
      var c := matrix[toL];
      assert c == LAt(N, m, j, i);
      toL := toL + 1;
      CombineRow(F, rows[i].Data, c, rows[j].Data, st[j + 1][i]);
    }
  }

  /** Eliminate the diagonal, and name each recovered block by the original it now is. */
  method EliminateDiagonal(F: Field, N: nat, rows: seq<Block>, bytes: nat, matrix: array<bv8>, diagD: nat,
                           erasures: seq<nat>, ghost before: Stage, ghost after: Stage)
    requires F.Lawful() && |rows| == N >= 1 && Separate(rows, bytes) && |erasures| == N
    requires forall i | 0 <= i < N :: rows[i].Data != matrix
    requires matrix.Length >= 2 * Tri(N) + N && diagD == Tri(N)
    requires Sized(before, N, bytes) && Sized(after, N, bytes)
    requires forall i | 0 <= i < N :: Divided(F, after[i], before[i], matrix[..][Tri(N) + i])
    requires forall i | 0 <= i < N :: rows[i].Data[..] == before[i]
    modifies rows, set b <- rows :: b.Data
    ensures forall i | 0 <= i < N :: rows[i].Data[..] == after[i] && rows[i].Index == erasures[i]
  {
    ghost var m := matrix[..];
    for i := 0 to N
      invariant matrix[..] == m
      invariant forall t | 0 <= t < i :: rows[t].Data[..] == after[t] && rows[t].Index == erasures[t]
      invariant forall t | i <= t < N :: rows[t].Data[..] == before[t]
    {
      rows[i].Index := erasures[i];
      assert matrix[diagD + i] == m[Tri(N) + i];
      DivideRow(F, rows[i].Data, matrix[diagD + i], after[i]);
    }
  }

  method DivideRow(F: Field, row: array<bv8>, d: bv8, ghost r: seq<bv8>)
    requires F.Lawful() && Divided(F, r, row[..], d)
    modifies row
    ensures row[..] == r
  {
    DivMem(F, row, 0, d, row.Length);
  }

  /** Eliminate the upper right triangle, from the last column, with U read through a moving pointer. */
  method EliminateUpper(F: Field, N: nat, rows: seq<Block>, bytes: nat, matrix: array<bv8>, ghost st: seq<Stage>)
    requires F.Lawful() && |rows| == N >= 1 && Separate(rows, bytes)
    requires forall i | 0 <= i < N :: rows[i].Data != matrix
    requires matrix.Length >= 2 * Tri(N) + N
    requires UpperStages(F, N, matrix[..], st, bytes)
    requires forall i | 0 <= i < N :: rows[i].Data[..] == st[N][i]
    modifies set b <- rows :: b.Data
    ensures forall i | 0 <= i < N :: rows[i].Data[..] == st[i + 1][i]
  {
    ghost var m := matrix[..];
    var toU := 0;
    var j := N - 1;
    while j >= 1
      invariant 0 <= j < N && toU == Tri(N) - Tri(j + 1) && matrix[..] == m
      invariant forall t | 0 <= t <= j :: rows[t].Data[..] == st[j + 1][t]
      invariant forall t | j < t < N :: rows[t].Data[..] == st[t + 1][t]
    {
      toU := UpperColumn(F, N, rows, bytes, matrix, toU, j, st);
      j := j - 1;
    }
  }

  /** Clear column j above the diagonal. */
  method UpperColumn(F: Field, N: nat, rows: seq<Block>, bytes: nat, matrix: array<bv8>, start: nat, j: nat,
                     ghost st: seq<Stage>)
    returns (toU: nat)
    requires F.Lawful() && |rows| == N && 1 <= j < N && Separate(rows, bytes)
    requires forall i | 0 <= i < N :: rows[i].Data != matrix
    requires matrix.Length >= 2 * Tri(N) + N && start == Tri(N) - Tri(j + 1)
    requires UpperStages(F, N, matrix[..], st, bytes)
    requires forall i | 0 <= i <= j :: rows[i].Data[..] == st[j + 1][i]
    modifies set b <- rows :: b.Data
    ensures toU == Tri(N) - Tri(j)
    ensures forall i | j <= i < N :: rows[i].Data[..] == old(rows[i].Data[..])
    ensures forall i | 0 <= i < j :: rows[i].Data[..] == st[j][i]
  {
    ghost var m := matrix[..];
    toU := start;
    var i := j - 1;
    while i >= 0
      invariant -1 <= i < j && toU == Tri(N) - Tri(j + 1) + (j - 1 - i) && matrix[..] == m
      invariant forall t | j <= t < N :: rows[t].Data[..] == old(rows[t].Data[..])
      invariant forall t | 0 <= t <= i :: rows[t].Data[..] == st[j + 1][t]
      invariant forall t | i < t < j :: rows[t].Data[..] == st[j][t]
    {
      UPosBounds(N, i, j);
      var c := matrix[toU];
      assert c == UAt(N, m, i, j);
      toU := toU + 1;
      CombineRow(F, rows[i].Data, c, rows[j].Data, st[j][i]);
      i := i - 1;
    }
  }

  // ----- The stages of the recovery system

  ghost predicate Losses(s: System, lost: Stage, bytes: nat) {
    s.Good() && s.N() >= 1 && Sized(lost, s.N(), bytes)
  }

  /** Row i after k steps of the lower pass. */
  ghost function Reduced(s: System, k: nat, i: nat, lost: Stage, bytes: nat): (row: seq<bv8>)
    requires Losses(s, lost, bytes) && k <= s.N() && i < s.N()
    ensures |row| == bytes
    ensures forall p | 0 <= p < bytes :: row[p] == Remainder(s, k, i, Column(lost, p), s.N())
  {
    seq(bytes, p requires 0 <= p < bytes => Remainder(s, k, i, Column(lost, p), s.N()))
  }

  /** Row i of the upper pass with the lost bytes from hi on taken out. */
  ghost function Backed(s: System, i: nat, hi: nat, lost: Stage, bytes: nat): (row: seq<bv8>)
    requires Losses(s, lost, bytes) && i < hi <= s.N()
    ensures |row| == bytes
    ensures forall p | 0 <= p < bytes :: row[p] == s.F.Add(lost[i][p], Above(s, i, Column(lost, p), hi))
  {
    seq(bytes, p requires 0 <= p < bytes => s.F.Add(lost[i][p], Above(s, i, Column(lost, p), hi)))
  }

  lemma ReducedStep(s: System, j: nat, i: nat, lost: Stage, bytes: nat)
    requires Losses(s, lost, bytes) && j < i < s.N()
    ensures Combined(s.F, Reduced(s, j + 1, i, lost, bytes), Reduced(s, j, i, lost, bytes), s.L(i, j),
                     Reduced(s, j, j, lost, bytes))
  {
    forall p | 0 <= p < bytes
      ensures s.F.Add(Reduced(s, j, i, lost, bytes)[p], s.F.Mul(s.L(i, j), Reduced(s, j, j, lost, bytes)[p]))
           == Remainder(s, j + 1, i, Column(lost, p), s.N())
    {
      LowerStep(s, j, i, Column(lost, p));
    }
  }

  lemma ReducedToBacked(s: System, i: nat, lost: Stage, bytes: nat)
    requires Losses(s, lost, bytes) && i < s.N()
    ensures Divided(s.F, Backed(s, i, s.N(), lost, bytes), Reduced(s, i, i, lost, bytes), s.D(i))
  {
    forall p | 0 <= p < bytes
      ensures s.F.Mul(Reduced(s, i, i, lost, bytes)[p], s.F.Div(1, s.D(i)))
           == s.F.Add(lost[i][p], Above(s, i, Column(lost, p), s.N()))
    {
      DiagonalStep(s, i, Column(lost, p));
    }
  }

  lemma BackedStep(s: System, i: nat, j: nat, lost: Stage, bytes: nat)
    requires Losses(s, lost, bytes) && i < j < s.N()
    ensures Backed(s, j, j + 1, lost, bytes) == lost[j]
    ensures Combined(s.F, Backed(s, i, j, lost, bytes), Backed(s, i, j + 1, lost, bytes), s.U(i, j),
                     Backed(s, j, j + 1, lost, bytes))
  {
    BackedEnds(s, j, lost, bytes);
    forall p | 0 <= p < bytes
      ensures s.F.Add(Backed(s, i, j + 1, lost, bytes)[p], s.F.Mul(s.U(i, j), lost[j][p]))
           == s.F.Add(lost[i][p], Above(s, i, Column(lost, p), j))
    {
      UpperStep(s, i, j, Column(lost, p));
    }
  }

  lemma BackedEnds(s: System, i: nat, lost: Stage, bytes: nat)
    requires Losses(s, lost, bytes) && i < s.N()
    ensures Backed(s, i, i + 1, lost, bytes) == lost[i]
  {
    forall p | 0 <= p < bytes
      ensures Backed(s, i, i + 1, lost, bytes)[p] == lost[i][p]
    {
      NothingAbove(s, i, Column(lost, p));
    }
  }
}
