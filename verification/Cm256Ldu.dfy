/**
 * The LDU decomposition of the recovery matrix, written through moving pointers into packed
 * triangles. The rows and columns of the matrix come as the values s.xs and s.ys.
 */
module Cm256Ldu {
  import opened Fields
  import opened Cauchy
  import opened Packing
  import opened Gf256Bulk

  /** U before its columns are scaled by x_0 + y_j. */
  function RawU(s: System, k: nat, j: nat): bv8
    requires |s.ys| == s.N() && k < s.N() && j < s.N()
  {
    s.F.Mul(s.F.Div(s.B(k, j), s.F.Add(s.xs[k], s.ys[j])), s.F.Div(1, s.UPivot(k)))
  }

  // What a matrix buffer m holds; U starts at 0, D behind it, L behind D.

  function LAt(N: nat, m: seq<bv8>, k: nat, i: nat): bv8
    requires |m| >= 2 * Tri(N) + N && k < i < N
  {
    LPosBounds(N, k, i);
    m[Tri(N) + N + LPos(N, k, i)]
  }

  function UAt(N: nat, m: seq<bv8>, k: nat, j: nat): bv8
    requires |m| >= 2 * Tri(N) + N && k < j < N
  {
    UPosBounds(N, k, j);
    m[UPos(N, k, j)]
  }

  ghost predicate HoldsL(s: System, m: seq<bv8>, upTo: nat)
    requires |s.ys| == s.N() && |m| >= 2 * Tri(s.N()) + s.N()
  {
    forall k: nat, i: nat | k < upTo && k < i < s.N() :: LAt(s.N(), m, k, i) == s.L(i, k)
  }

  ghost predicate HoldsD(s: System, m: seq<bv8>, upTo: nat)
    requires |s.ys| == s.N() && |m| >= 2 * Tri(s.N()) + s.N() && upTo <= s.N()
  {
    forall k | 0 <= k < upTo :: m[Tri(s.N()) + k] == s.D(k)
  }

  ghost predicate HoldsRawU(s: System, m: seq<bv8>, upTo: nat)
    requires |s.ys| == s.N() && |m| >= 2 * Tri(s.N()) + s.N()
  {
    forall k: nat, j: nat | k < upTo && k < j < s.N() :: UAt(s.N(), m, k, j) == RawU(s, k, j)
  }

  /** Columns from and above are scaled. */
  ghost predicate HoldsU(s: System, m: seq<bv8>, from: nat)
    requires |s.ys| == s.N() && |m| >= 2 * Tri(s.N()) + s.N()
  {
    forall k: nat, j: nat | from <= j && k < j < s.N() :: UAt(s.N(), m, k, j) == s.U(k, j)
  }

  /** The generators after k steps. */
  ghost function AllG(s: System, k: nat): (g: seq<bv8>)
    requires |s.ys| == s.N() && k <= s.N()
    ensures |g| == s.N() && forall i | 0 <= i < s.N() :: g[i] == s.G(k, i)
  {
    seq(s.N(), i requires 0 <= i < s.N() => s.G(k, i))
  }

  ghost function AllB(s: System, k: nat): (b: seq<bv8>)
    requires |s.ys| == s.N() && k <= s.N()
    ensures |b| == s.N() && forall i | 0 <= i < s.N() :: b[i] == s.B(k, i)
  {
    seq(s.N(), i requires 0 <= i < s.N() => s.B(k, i))
  }

  /** The entries of column k of L and row k of U before the bulk division, in order of i. */
  function ColumnEntry(s: System, k: nat, i: nat): bv8
    requires |s.ys| == s.N() && k < s.N() && i < s.N()
  {
    s.F.Div(s.G(k, i), s.F.Add(s.xs[i], s.ys[k]))
  }

  function RowEntry(s: System, k: nat, i: nat): bv8
    requires |s.ys| == s.N() && k < s.N() && i < s.N()
  {
    s.F.Div(s.B(k, i), s.F.Add(s.xs[k], s.ys[i]))
  }

  /** Column k of L and row k of U before the bulk division. */
  ghost function ColumnEntries(s: System, k: nat): (entries: seq<bv8>)
    requires |s.ys| == s.N() && k < s.N()
    ensures |entries| == s.N() - k - 1
    ensures forall q | 0 <= q < |entries| :: entries[q] == ColumnEntry(s, k, q + k + 1)
  {
    seq(s.N() - k - 1, q requires 0 <= q < s.N() - k - 1 => ColumnEntry(s, k, q + k + 1))
  }

  ghost function RowEntries(s: System, k: nat): (entries: seq<bv8>)
    requires |s.ys| == s.N() && k < s.N()
    ensures |entries| == s.N() - k - 1
    ensures forall q | 0 <= q < |entries| :: entries[q] == RowEntry(s, k, q + k + 1)
  {
    seq(s.N() - k - 1, q requires 0 <= q < s.N() - k - 1 => RowEntry(s, k, q + k + 1))
  }

  /** What is written and stored for row and column j of step k, from their generators. */
  lemma Advance(s: System, k: nat, j: nat)
    requires |s.ys| == s.N() && k < j < s.N()
    ensures
      var F, xj, yj, xk, yk := s.F, s.xs[j], s.ys[j], s.xs[k], s.ys[k];
      && ColumnEntries(s, k)[j - k - 1] == F.Div(AllG(s, k)[j], F.Add(xj, yk))
      && RowEntries(s, k)[j - k - 1] == F.Div(AllB(s, k)[j], F.Add(xk, yj))
      && AllG(s, k + 1)[j] == F.Mul(AllG(s, k)[j], F.Div(F.Add(xj, xk), F.Add(xj, yk)))
      && AllB(s, k + 1)[j] == F.Mul(AllB(s, k)[j], F.Div(F.Add(yj, yk), F.Add(yj, xk)))
  {
    assert s.G(k + 1, j) == s.F.Mul(s.G(k, j), s.F.Div(s.F.Add(s.xs[j], s.xs[k]), s.F.Add(s.xs[j], s.ys[k])));
    assert s.B(k + 1, j) == s.F.Mul(s.B(k, j), s.F.Div(s.F.Add(s.ys[j], s.ys[k]), s.F.Add(s.ys[j], s.xs[k])));
  }

  /**
   * One pass over the rest of row and column k: L entries out, U entries into a buffer. The
   * buffers local to the decomposition (the generators and the row of U) are sequences.
   */
  method RowAndColumn(s: System, k: nat, matrix: array<bv8>, startL: nat, g: seq<bv8>, b: seq<bv8>)
    returns (g': seq<bv8>, b': seq<bv8>, rowU: seq<bv8>)
    requires |s.ys| == s.N() && k + 1 < s.N() && startL + (s.N() - k - 1) <= matrix.Length
    requires Halfway(s, k, k + 1, g, b)
    modifies matrix
    ensures matrix[..startL] == old(matrix[..startL])
    ensures matrix[startL..startL + (s.N() - k - 1)] == ColumnEntries(s, k)
    ensures rowU == RowEntries(s, k)
    ensures Ready(s, k + 1, g', b')
  {
    var N := s.N();
    var toL := startL;
    g', b', rowU := g, b, [];
    ghost var column, row := ColumnEntries(s, k), RowEntries(s, k);
    for j := k + 1 to N
      invariant toL == startL + |rowU| && |rowU| == j - k - 1
      invariant matrix[..startL] == old(matrix[..startL])
      invariant matrix[startL..toL] == column[..|rowU|]
      invariant rowU == row[..|rowU|]
      invariant Halfway(s, k, j, g', b')
    {
      var lEntry, uEntry;
      lEntry, uEntry, g', b' := NextEntries(s, k, j, g', b');
      matrix[toL] := lEntry;
      rowU := rowU + [uEntry];
      toL := toL + 1;
    }
  }

  /** The generators of the rows and columns left after k steps. */
  ghost predicate Ready(s: System, k: nat, g: seq<bv8>, b: seq<bv8>)
    requires |s.ys| == s.N() && k <= s.N()
  {
    && |g| == |b| == s.N()
    && forall i | k <= i < s.N() :: g[i] == AllG(s, k)[i] && b[i] == AllB(s, k)[i]
  }

  /** The generators of rows and columns below j have been moved on by step k. */
  ghost predicate Halfway(s: System, k: nat, j: nat, g: seq<bv8>, b: seq<bv8>)
    requires |s.ys| == s.N() && k < s.N()
  {
    && |g| == |b| == s.N()
    && (forall i | k < i < s.N() && i < j :: g[i] == AllG(s, k + 1)[i] && b[i] == AllB(s, k + 1)[i])
    && (forall i | k < i < s.N() && j <= i :: g[i] == AllG(s, k)[i] && b[i] == AllB(s, k)[i])
  }

  /** The entries of L and U for row and column j, and their generators moved on. */
  method NextEntries(s: System, k: nat, j: nat, g: seq<bv8>, b: seq<bv8>)
    returns (lEntry: bv8, uEntry: bv8, g': seq<bv8>, b': seq<bv8>)
    requires |s.ys| == s.N() && k < j < s.N() && Halfway(s, k, j, g, b)
    ensures lEntry == ColumnEntries(s, k)[j - k - 1] && uEntry == RowEntries(s, k)[j - k - 1]
    ensures Halfway(s, k, j + 1, g', b')
  {
    Advance(s, k, j);
    var F, xj, yj := s.F, s.xs[j], s.ys[j];
    lEntry := F.Div(g[j], F.Add(xj, s.ys[k]));
    uEntry := F.Div(b[j], F.Add(s.xs[k], yj));
    g' := g[j := F.Mul(g[j], F.Div(F.Add(xj, s.xs[k]), F.Add(xj, s.ys[k])))];
    b' := b[j := F.Mul(b[j], F.Div(F.Add(yj, s.ys[k]), F.Add(yj, s.xs[k])))];
  }

  /** Copy the buffered row k of U to its places, one in each later column. */
  method ScatterRow(s: System, k: nat, matrix: array<bv8>, firstOffset: int, rowU: seq<bv8>)
    requires |s.ys| == s.N() && k + 1 < s.N() && matrix.Length >= 2 * Tri(s.N()) + s.N()
    requires firstOffset + k + Tri(k + 1) == 0
    requires HoldsRawU(s, matrix[..], k)
    requires |rowU| == s.N() - k - 1 && forall q | 0 <= q < s.N() - k - 1 :: rowU[q] == RawU(s, k, q + k + 1)
    modifies matrix
    ensures HoldsRawU(s, matrix[..], k + 1)
    ensures matrix[Tri(s.N())..] == old(matrix[Tri(s.N())..])
  {
    var N := s.N();
    var out := Tri(N) - 1 + firstOffset;
    var from := 0;
    for j := k + 1 to N
      invariant out == Tri(N) - 1 - k - Tri(j) && from == j - k - 1
      invariant HoldsRawU(s, matrix[..], k)
      invariant forall i: nat | k < i < j :: UAt(N, matrix[..], k, i) == RawU(s, k, i)
      invariant matrix[Tri(N)..] == old(matrix[Tri(N)..])
    {
      UPosBounds(N, k, j);
      assert out == UPos(N, k, j);
      ghost var was := matrix[..];
      matrix[out] := rowU[from];
      OneEntryOfU(N, was, matrix[..], k, j);
      from := from + 1;
      out := out - j;
    }
  }

  /** Writing one entry of U leaves the others. */
  lemma OneEntryOfU(N: nat, was: seq<bv8>, now: seq<bv8>, k: nat, j: nat)
    requires |was| == |now| >= 2 * Tri(N) + N && k < j < N
    requires forall pos | 0 <= pos < |was| && pos != UPos(N, k, j) :: now[pos] == was[pos]
    ensures forall k': nat, j': nat | k' < j' < N && (k' != k || j' != j) :: UAt(N, now, k', j') == UAt(N, was, k', j')
  {
    forall k': nat, j': nat | k' < j' < N && (k' != k || j' != j)
      ensures UAt(N, now, k', j') == UAt(N, was, k', j')
    {
      UPosBounds(N, k', j');
      UPosDistinct(N, k, j, k', j');
    }
  }

  /** Where column k of L starts. */
  function StartL(N: nat, k: nat): (start: nat)
    requires k <= N
    ensures start >= Tri(N) + N
  {
    TriGrows(N - k, N);
    Tri(N) + N + (Tri(N) - Tri(N - k))
  }

  /** Columns before k lie before its start, and so do D and U. */
  lemma BeforeColumn(s: System, was: seq<bv8>, now: seq<bv8>, k: nat)
    requires |s.ys| == s.N() && k < s.N() && |was| == |now| >= 2 * Tri(s.N()) + s.N()
    requires StartL(s.N(), k) <= |was| && now[..StartL(s.N(), k)] == was[..StartL(s.N(), k)]
    ensures HoldsL(s, was, k) ==> HoldsL(s, now, k)
    ensures forall l | 0 <= l <= s.N() && HoldsD(s, was, l) :: HoldsD(s, now, l)
    ensures forall l: nat | HoldsRawU(s, was, l) :: HoldsRawU(s, now, l)
  {
    var N := s.N();
    forall pos | 0 <= pos < StartL(N, k)
      ensures now[pos] == was[pos]
    {
      assert now[..StartL(N, k)][pos] == was[..StartL(N, k)][pos];
    }
    forall l: nat, i: nat | l < k && l < i < N
      ensures LAt(N, now, l, i) == LAt(N, was, l, i)
    {
      LPosOrdered(N, l, i, k);
    }
    forall l: nat, j: nat | l < j < N
      ensures UAt(N, now, l, j) == UAt(N, was, l, j)
    {
      UPosBounds(N, l, j);
    }
  }

  /** A whole column of L in place. */
  lemma ColumnComplete(s: System, m: seq<bv8>, k: nat)
    requires |s.ys| == s.N() && k + 1 < s.N() && |m| >= 2 * Tri(s.N()) + s.N()
    requires HoldsL(s, m, k) && StartL(s.N(), k) + (s.N() - k - 1) <= |m|
    requires forall i: nat | k < i < s.N() :: m[StartL(s.N(), k) + (i - k - 1)] == s.L(i, k)
    ensures HoldsL(s, m, k + 1)
    ensures StartL(s.N(), k + 1) == StartL(s.N(), k) + (s.N() - k - 1)
  {
    forall l: nat, i: nat | l < k + 1 && l < i < s.N()
      ensures LAt(s.N(), m, l, i) == s.L(i, l)
    {
      if l == k {
        LPosBounds(s.N(), k, i);
      }
    }
  }

  /** Step k of the decomposition. */
  method Step(s: System, k: nat, matrix: array<bv8>, startL: nat, firstOffset: int, g: seq<bv8>, b: seq<bv8>)
    returns (g': seq<bv8>, b': seq<bv8>)
    requires s.F.Lawful() && |s.ys| == s.N() && k + 1 < s.N() && matrix.Length >= 2 * Tri(s.N()) + s.N()
    requires startL == StartL(s.N(), k) && firstOffset + k + Tri(k + 1) == 0
    requires Ready(s, k, g, b)
    requires HoldsL(s, matrix[..], k) && HoldsD(s, matrix[..], k) && HoldsRawU(s, matrix[..], k)
    modifies matrix
    ensures Ready(s, k + 1, g', b')
    ensures HoldsL(s, matrix[..], k + 1) && HoldsD(s, matrix[..], k + 1) && HoldsRawU(s, matrix[..], k + 1)
    ensures StartL(s.N(), k + 1) == startL + (s.N() - k - 1)
  {
    var F := s.F;
    var pivot := F.Add(s.xs[k], s.ys[k]);
    var lPivot := F.Div(g[k], pivot);
    var uPivot := F.Mul(F.Div(b[k], pivot), F.Add(s.x0, s.ys[k]));
    WriteDiagonal(s, k, matrix, F.Mul(pivot, F.Mul(lPivot, uPivot)));
    var rowU;
    g', b', rowU := FillColumn(s, k, matrix, startL, lPivot, g, b);
    var count := s.N() - (k + 1);
    var divided := DivSeq(F, rowU, uPivot);
    ghost var unscattered := matrix[..];
    ScatterRow(s, k, matrix, firstOffset, divided);
    BehindU(s, unscattered, matrix[..]);
  }

  /** Column k of L, divided by its pivot. */
  method FillColumn(s: System, k: nat, matrix: array<bv8>, startL: nat, lPivot: bv8, g: seq<bv8>, b: seq<bv8>)
    returns (g': seq<bv8>, b': seq<bv8>, rowU: seq<bv8>)
    requires s.F.Lawful() && |s.ys| == s.N() && k + 1 < s.N() && matrix.Length >= 2 * Tri(s.N()) + s.N()
    requires startL == StartL(s.N(), k) && lPivot == s.LPivot(k)
    requires Ready(s, k, g, b)
    requires HoldsL(s, matrix[..], k) && HoldsD(s, matrix[..], k + 1) && HoldsRawU(s, matrix[..], k)
    modifies matrix
    ensures Ready(s, k + 1, g', b')
    ensures rowU == RowEntries(s, k)
    ensures HoldsL(s, matrix[..], k + 1) && HoldsD(s, matrix[..], k + 1) && HoldsRawU(s, matrix[..], k)
    ensures StartL(s.N(), k + 1) == startL + (s.N() - k - 1)
  {
    var count := s.N() - (k + 1);
    LPosBounds(s.N(), k, s.N() - 1);
    ghost var was := matrix[..];
    g', b', rowU := RowAndColumn(s, k, matrix, startL, g, b);
    ghost var undivided := matrix[..];
    DivMem(s.F, matrix, startL, lPivot, count);
    ColumnFilled(s, was, undivided, matrix[..], k);
  }

  lemma ColumnFilled(s: System, was: seq<bv8>, undivided: seq<bv8>, now: seq<bv8>, k: nat)
    requires |s.ys| == s.N() && k + 1 < s.N() && |was| == |undivided| == |now| >= 2 * Tri(s.N()) + s.N()
    requires HoldsL(s, was, k) && HoldsD(s, was, k + 1) && HoldsRawU(s, was, k)
    requires StartL(s.N(), k) + (s.N() - k - 1) <= |now|
    requires undivided[..StartL(s.N(), k)] == was[..StartL(s.N(), k)]
    requires undivided[StartL(s.N(), k)..StartL(s.N(), k) + (s.N() - k - 1)] == ColumnEntries(s, k)
    requires forall pos | 0 <= pos < StartL(s.N(), k) :: now[pos] == undivided[pos]
    requires forall pos | StartL(s.N(), k) <= pos < StartL(s.N(), k) + (s.N() - k - 1) ::
      now[pos] == s.F.Mul(undivided[pos], s.F.Div(1, s.LPivot(k)))
    ensures HoldsL(s, now, k + 1) && HoldsD(s, now, k + 1) && HoldsRawU(s, now, k)
    ensures StartL(s.N(), k + 1) == StartL(s.N(), k) + (s.N() - k - 1)
  {
    var start, count := StartL(s.N(), k), s.N() - k - 1;
    assert now[..start] == undivided[..start];
    BeforeColumn(s, was, now, k);
    forall i: nat | k < i < s.N()
      ensures now[start + (i - k - 1)] == s.L(i, k)
    {
      assert undivided[start..start + count][i - k - 1] == ColumnEntries(s, k)[i - k - 1];
    }
    ColumnComplete(s, now, k);
  }

  /** The bulk division of a local buffer, by the inverse table. */
  method DivSeq(F: Field, z: seq<bv8>, y: bv8) returns (r: seq<bv8>)
    ensures |r| == |z| && forall q | 0 <= q < |z| :: r[q] == F.Mul(z[q], F.Div(1, y))
  {
    r := seq(|z|, q requires 0 <= q < |z| => F.Mul(z[q], F.Div(1, y)));
  }

  method WriteDiagonal(s: System, k: nat, matrix: array<bv8>, d: bv8)
    requires |s.ys| == s.N() && k + 1 < s.N() && matrix.Length >= 2 * Tri(s.N()) + s.N() && d == s.D(k)
    requires HoldsL(s, matrix[..], k) && HoldsD(s, matrix[..], k) && HoldsRawU(s, matrix[..], k)
    modifies matrix
    ensures HoldsL(s, matrix[..], k) && HoldsD(s, matrix[..], k + 1) && HoldsRawU(s, matrix[..], k)
  {
    ghost var was := matrix[..];
    matrix[Tri(s.N()) + k] := d;
    DiagonalWritten(s, was, matrix[..], k);
  }

  lemma DiagonalWritten(s: System, was: seq<bv8>, now: seq<bv8>, k: nat)
    requires |s.ys| == s.N() && k < s.N() && |was| == |now| >= 2 * Tri(s.N()) + s.N()
    requires HoldsD(s, was, k) && now == was[Tri(s.N()) + k := s.D(k)]
    ensures forall l: nat | HoldsL(s, was, l) :: HoldsL(s, now, l)
    ensures HoldsD(s, now, k + 1)
    ensures forall l: nat | HoldsRawU(s, was, l) :: HoldsRawU(s, now, l)
    ensures forall l: nat | HoldsU(s, was, l) :: HoldsU(s, now, l)
  {
    forall l: nat, i: nat | l < i < s.N()
      ensures LAt(s.N(), now, l, i) == LAt(s.N(), was, l, i)
    {
      LPosBounds(s.N(), l, i);
    }
    forall l: nat, j: nat | l < j < s.N()
      ensures UAt(s.N(), now, l, j) == UAt(s.N(), was, l, j)
    {
      UPosBounds(s.N(), l, j);
    }
  }

  /** D and L are behind U. */
  lemma BehindU(s: System, was: seq<bv8>, now: seq<bv8>)
    requires |s.ys| == s.N() && |was| == |now| >= 2 * Tri(s.N()) + s.N()
    requires now[Tri(s.N())..] == was[Tri(s.N())..]
    ensures forall l: nat | HoldsL(s, was, l) :: HoldsL(s, now, l)
    ensures forall l | 0 <= l <= s.N() && HoldsD(s, was, l) :: HoldsD(s, now, l)
  {
    forall pos | Tri(s.N()) <= pos < |was|
      ensures now[pos] == was[pos]
    {
      assert now[Tri(s.N())..][pos - Tri(s.N())] == was[Tri(s.N())..][pos - Tri(s.N())];
    }
    forall k: nat, i: nat | k < i < s.N()
      ensures LAt(s.N(), now, k, i) == LAt(s.N(), was, k, i)
    {
      LPosBounds(s.N(), k, i);
    }
  }

  /** Multiply the columns of U by x_0 + y_j, last column first. */
  method ScaleU(s: System, matrix: array<bv8>)
    requires s.F.Lawful() && |s.ys| == s.N() && s.N() >= 1 && matrix.Length >= 2 * Tri(s.N()) + s.N()
    requires HoldsRawU(s, matrix[..], s.N() - 1)
    modifies matrix
    ensures HoldsU(s, matrix[..], 0)
    ensures matrix[Tri(s.N())..] == old(matrix[Tri(s.N())..])
  {
    var N := s.N();
    var rowU := 0;
    var j := N - 1;
    while j > 0
      invariant 0 <= j < N && rowU == Tri(N) - Tri(j + 1)
      invariant HoldsU(s, matrix[..], j + 1)
      invariant forall l: nat, i: nat | l < i <= j :: UAt(N, matrix[..], l, i) == RawU(s, l, i)
      invariant matrix[Tri(N)..] == old(matrix[Tri(N)..])
    {
      UPosBounds(N, 0, j);
      ghost var was := matrix[..];
      MulMemInPlace(s.F, matrix, rowU, s.F.Add(s.x0, s.ys[j]), j);
      ColumnScaled(s, was, matrix[..], j);
      rowU := rowU + j;
      j := j - 1;
    }
    UCompleteFromOne(s, matrix[..]);
  }

  lemma ColumnScaled(s: System, was: seq<bv8>, now: seq<bv8>, j: nat)
    requires |s.ys| == s.N() && 0 < j < s.N() && |was| == |now| >= 2 * Tri(s.N()) + s.N()
    requires 0 <= Tri(s.N()) - Tri(j + 1) && Tri(s.N()) - Tri(j) <= Tri(s.N())
    requires forall pos | 0 <= pos < |now| ::
      now[pos] == (if Tri(s.N()) - Tri(j + 1) <= pos < Tri(s.N()) - Tri(j)
                   then s.F.Mul(was[pos], s.F.Add(s.x0, s.ys[j])) else was[pos])
    requires HoldsU(s, was, j + 1)
    requires forall l: nat, i: nat | l < i <= j :: UAt(s.N(), was, l, i) == RawU(s, l, i)
    ensures HoldsU(s, now, j)
    ensures forall l: nat, i: nat | l < i < j :: UAt(s.N(), now, l, i) == RawU(s, l, i)
    ensures now[Tri(s.N())..] == was[Tri(s.N())..]
  {
    var N := s.N();
    forall l: nat, i: nat | l < i < N
      ensures UAt(N, now, l, i)
           == if i == j then s.F.Mul(UAt(N, was, l, i), s.F.Add(s.x0, s.ys[j])) else UAt(N, was, l, i)
    {
      UPosBounds(N, l, i);
      if i < j {
        TriGrows(i + 1, j);
      } else if j < i {
        TriGrows(j + 1, i);
      }
    }
  }

  /** There is nothing above the diagonal in the first column. */
  lemma UCompleteFromOne(s: System, m: seq<bv8>)
    requires |s.ys| == s.N() && |m| >= 2 * Tri(s.N()) + s.N() && HoldsU(s, m, 1)
    ensures HoldsU(s, m, 0)
  {
  }

  /** The factors the passes of the decoder read. */
  ghost predicate HoldsFactors(s: System, m: seq<bv8>)
    requires |s.ys| == s.N() && |m| >= 2 * Tri(s.N()) + s.N()
  {
    HoldsL(s, m, s.N()) && HoldsD(s, m, s.N()) && HoldsU(s, m, 0)
  }

  method GenerateLDUDecomposition(s: System, matrix: array<bv8>, matrixL: nat, diagD: nat)
    requires s.F.Lawful() && |s.ys| == s.N() && s.N() >= 1 && matrix.Length >= 2 * Tri(s.N()) + s.N()
    requires diagD == Tri(s.N()) && matrixL == diagD + s.N()
    modifies matrix
    ensures HoldsFactors(s, matrix[..])
  {
    var F, N := s.F, s.N();
    var g := seq(N, _ => 1 as bv8);
    var b := seq(N, _ => 1 as bv8);
    var firstOffset := 0;
    var toL := matrixL;
    for k := 0 to N - 1
      invariant toL == StartL(N, k) && firstOffset + k + Tri(k + 1) == 0
      invariant Ready(s, k, g, b)
      invariant HoldsL(s, matrix[..], k) && HoldsD(s, matrix[..], k) && HoldsRawU(s, matrix[..], k)
    {
      g, b := Step(s, k, matrix, toL, firstOffset, g, b);
      toL := toL + (N - k - 1);
      firstOffset := firstOffset - (k + 2);
    }
    ghost var unscaled := matrix[..];
    ScaleU(s, matrix);
    BehindU(s, unscaled, matrix[..]);
    LastDiagonal(s, matrix, diagD, g, b);
  }

  /** The last element of D, once U is complete. */
  method LastDiagonal(s: System, matrix: array<bv8>, diagD: nat, g: seq<bv8>, b: seq<bv8>)
    requires s.F.Lawful() && |s.ys| == s.N() && s.N() >= 1 && matrix.Length >= 2 * Tri(s.N()) + s.N()
    requires diagD == Tri(s.N()) && Ready(s, s.N() - 1, g, b)
    requires HoldsL(s, matrix[..], s.N() - 1) && HoldsD(s, matrix[..], s.N() - 1) && HoldsU(s, matrix[..], 0)
    modifies matrix
    ensures HoldsFactors(s, matrix[..])
  {
    var F, N := s.F, s.N();
    var xn, yn := s.xs[N - 1], s.ys[N - 1];
    var lnn := g[N - 1];
    var unn := F.Mul(b[N - 1], F.Add(s.x0, yn));
    ghost var scaled := matrix[..];
    matrix[diagD + (N - 1)] := F.Div(F.Mul(lnn, unn), F.Add(xn, yn));
    DiagonalWritten(s, scaled, matrix[..], N - 1);
  }
}
