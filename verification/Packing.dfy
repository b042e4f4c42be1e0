/**
 * Where the decoder keeps the triangular factors of an N x N matrix: L column by column from the
 * top, U column by column from the last, each column bottom up, with D between them.
 */
module Packing {

  /** 0 + 1 + ... + (m - 1): the size of a strict triangle of order m. */
  function Tri(m: nat): nat {
    if m == 0 then 0 else Tri(m - 1) + (m - 1)
  }

  /** The space taken by two triangles and a diagonal is the N * N the decoder allocates. */
  lemma {:induction false} TriangleSize(m: nat)
    ensures 2 * Tri(m) == m * m - m
    ensures m > 0 ==> Tri(m) == (m - 1) * m / 2
  {
    if m > 0 {
      TriangleSize(m - 1);
      assert (m - 1) * (m - 1) - (m - 1) + 2 * (m - 1) == m * m - m;
      assert (m - 1) * m == m * m - m;
    }
  }

  lemma {:induction false} TriGrows(a: nat, b: nat)
    requires a <= b
    ensures Tri(a) <= Tri(b)
  {
    if a < b {
      TriGrows(a, b - 1);
    }
  }

  /** The place of L[i][k] after the diagonal. */
  function LPos(N: nat, k: nat, i: nat): (pos: int)
    requires k < i < N
  {
    Tri(N) - Tri(N - k) + (i - k - 1)
  }

  /** The place of U[k][j]. */
  function UPos(N: nat, k: nat, j: nat): (pos: int)
    requires k < j < N
  {
    Tri(N) - 1 - k - Tri(j)
  }

  /** Column k of L lies within its own stretch, which ends where that of column k + 1 starts. */
  lemma LPosBounds(N: nat, k: nat, i: nat)
    requires k < i < N
    ensures 0 <= Tri(N) - Tri(N - k) <= LPos(N, k, i) < Tri(N) - Tri(N - k - 1) <= Tri(N)
  {
    TriGrows(N - k, N);
  }

  lemma LPosOrdered(N: nat, k: nat, i: nat, l: nat)
    requires k < i < N && k < l < N
    ensures 0 <= LPos(N, k, i) < Tri(N) - Tri(N - l)
  {
    LPosBounds(N, k, i);
    TriGrows(N - l, N - k - 1);
  }

  /** Column j of U lies in a stretch of its own of length j, from row j - 1 down to row 0. */
  lemma UPosBounds(N: nat, k: nat, j: nat)
    requires k < j < N
    ensures Tri(N) - Tri(j + 1) == Tri(N) - Tri(j) - j
    ensures 0 <= Tri(N) - Tri(j + 1) <= UPos(N, k, j) < Tri(N) - Tri(j) <= Tri(N)
  {
    TriGrows(j + 1, N);
  }

  /** No two entries of U share a place. */
  lemma UPosDistinct(N: nat, k: nat, j: nat, k': nat, j': nat)
    requires k < j < N && k' < j' < N && (k, j) != (k', j')
    ensures UPos(N, k, j) != UPos(N, k', j')
  {
    UPosBounds(N, k, j);
    UPosBounds(N, k', j');
    if j < j' {
      TriGrows(j + 1, j');
    } else if j' < j {
      TriGrows(j' + 1, j);
    }
  }

  /**
   * Every place of the triangle is the place of exactly one entry of U, so the walk that fills U
   * in row by row leaves no gap for the decoder, which reads it column by column.
   */
  lemma {:induction false} UPosOnto(N: nat, m: nat, pos: nat) returns (k: nat, j: nat)
    requires m <= N && Tri(N) - Tri(m) <= pos < Tri(N)
    ensures k < j < m && UPos(N, k, j) == pos
    ensures forall k', j' | 0 <= k' < j' < N && UPos(N, k', j') == pos :: k' == k && j' == j
  {
    TriGrows(m, N);
    if pos < Tri(N) - Tri(m - 1) {
      k, j := Tri(N) - Tri(m - 1) - 1 - pos, m - 1;
    } else {
      k, j := UPosOnto(N, m - 1, pos);
    }
    forall k', j' | 0 <= k' < j' < N && UPos(N, k', j') == pos
      ensures k' == k && j' == j
    {
      if (k', j') != (k, j) {
        UPosDistinct(N, k, j, k', j');
      }
    }
  }
}
