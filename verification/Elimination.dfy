/**
 * What the three elimination passes of the decoder leave in each recovery row, for one byte
 * position: v lists the lost bytes, and each row is a combination of them.
 */
module Elimination {
  import opened Fields
  import opened Cauchy

  /** Row i of the k-th complement applied to the unknowns k, ..., hi - 1. */
  function Remainder(s: System, k: nat, i: nat, v: seq<bv8>, hi: nat): bv8
    requires |s.ys| == |v| == s.N() && i < s.N() && k <= hi <= s.N()
  {
    if hi == k then 0
    else s.F.Add(Remainder(s, k, i, v, hi - 1), s.F.Mul(s.Schur(k, i, hi - 1), v[hi - 1]))
  }

  /** Row k of U, without its diagonal, applied to the unknowns k + 1, ..., hi - 1. */
  function Above(s: System, k: nat, v: seq<bv8>, hi: nat): bv8
    requires |s.ys| == |v| == s.N() && k < hi <= s.N()
  {
    if hi == k + 1 then 0
    else s.F.Add(Above(s, k, v, hi - 1), s.F.Mul(s.U(k, hi - 1), v[hi - 1]))
  }

  /** Combining the last terms of two rows. */
  lemma CombineLast(F: Field, l: bv8, a: bv8, b: bv8, c: bv8, d: bv8, x: bv8)
    requires F.Lawful()
    ensures F.Add(F.Add(a, F.Mul(c, x)), F.Mul(l, F.Add(b, F.Mul(d, x))))
         == F.Add(F.Add(a, F.Mul(l, b)), F.Mul(F.Add(c, F.Mul(l, d)), x))
  {
    Distribute(F, l, b, F.Mul(d, x));
    Associate(F, l, d, x);
    AddExchange(F, a, F.Mul(c, x), F.Mul(l, b), F.Mul(F.Mul(l, d), x));
    Distribute(F, x, c, F.Mul(l, d));
  }

  lemma {:induction false} LowerStepTo(s: System, k: nat, i: nat, v: seq<bv8>, hi: nat)
    requires s.Good() && |v| == s.N() && k < i < s.N() && k < hi <= s.N()
    ensures s.F.Add(Remainder(s, k, i, v, hi), s.F.Mul(s.L(i, k), Remainder(s, k, k, v, hi)))
         == Remainder(s, k + 1, i, v, hi)
  {
    var F, j := s.F, hi - 1;
    CombineLast(F, s.L(i, k), Remainder(s, k, i, v, j), Remainder(s, k, k, v, j),
                s.Schur(k, i, j), s.Schur(k, k, j), v[j]);
    if j == k {
      ColumnCleared(s, k, i);
      MulZero(F, s.L(i, k));
      AddZero(F, s.Schur(k, i, j));
      AddZero(F, 0);
      MulZero(F, v[j]);
    } else {
      LowerStepTo(s, k, i, v, j);
      SchurStep(s, k, i, j);
    }
  }

  /** Adding L[i][k] times the pivot row turns a remainder of step k into one of step k + 1. */
  lemma LowerStep(s: System, k: nat, i: nat, v: seq<bv8>)
    requires s.Good() && |v| == s.N() && k < i < s.N()
    ensures s.F.Add(Remainder(s, k, i, v, s.N()), s.F.Mul(s.L(i, k), Remainder(s, k, k, v, s.N())))
         == Remainder(s, k + 1, i, v, s.N())
  {
    LowerStepTo(s, k, i, v, s.N());
  }

  lemma {:induction false} ScaledRow(s: System, k: nat, v: seq<bv8>, hi: nat)
    requires s.Good() && |v| == s.N() && k < hi <= s.N()
    ensures s.F.Mul(s.D(k), s.F.Add(v[k], Above(s, k, v, hi))) == Remainder(s, k, k, v, hi)
  {
    var F, j := s.F, hi - 1;
    if j == k {
      Diagonal(s, k);
      AddZero(F, v[k]);
      AddZero(F, F.Mul(s.D(k), v[k]));
    } else {
      ScaledRow(s, k, v, j);
      PivotRow(s, k, j);
      AddAssociate(F, v[k], Above(s, k, v, j), F.Mul(s.U(k, j), v[j]));
      Distribute(F, s.D(k), F.Add(v[k], Above(s, k, v, j)), F.Mul(s.U(k, j), v[j]));
      Associate(F, s.D(k), s.U(k, j), v[j]);
    }
  }

  /** Dividing row k by its diagonal leaves the lost byte and the rest of row k of U. */
  lemma DiagonalStep(s: System, k: nat, v: seq<bv8>)
    requires s.Good() && |v| == s.N() && k < s.N()
    ensures s.D(k) != 0
    ensures s.F.Mul(Remainder(s, k, k, v, s.N()), s.F.Div(1, s.D(k))) == s.F.Add(v[k], Above(s, k, v, s.N()))
  {
    Diagonal(s, k);
    ScaledRow(s, k, v, s.N());
    Commute(s.F, s.D(k), s.F.Add(v[k], Above(s, k, v, s.N())));
    MulThenInverse(s.F, s.F.Add(v[k], Above(s, k, v, s.N())), s.D(k));
  }

  /** Adding U[i][j] times a recovered byte takes its term out of row i. */
  lemma UpperStep(s: System, i: nat, j: nat, v: seq<bv8>)
    requires s.Good() && |v| == s.N() && i < j < s.N()
    ensures s.F.Add(s.F.Add(v[i], Above(s, i, v, j + 1)), s.F.Mul(s.U(i, j), v[j])) == s.F.Add(v[i], Above(s, i, v, j))
  {
    var term := s.F.Mul(s.U(i, j), v[j]);
    AddAssociate(s.F, v[i], Above(s, i, v, j + 1), term);
    AddTwice(s.F, Above(s, i, v, j), term);
  }

  lemma NothingAbove(s: System, i: nat, v: seq<bv8>)
    requires s.Good() && |v| == s.N() && i < s.N()
    ensures s.F.Add(v[i], Above(s, i, v, i + 1)) == v[i]
  {
    AddZero(s.F, v[i]);
  }

  /** Before any step, a remainder is a row of the recovery matrix applied to the unknowns. */
  lemma FirstSchur(s: System, i: nat, j: nat)
    requires s.Good() && i < s.N() && j < s.N()
    ensures s.Schur(0, i, j) == s.Matrix(i, j)
  {
    MulOne(s.F, 1);
    MulOne(s.F, s.F.Div(s.F.Add(s.x0, s.ys[j]), s.F.Add(s.xs[i], s.ys[j])));
    AddCommute(s.F, s.x0, s.ys[j]);
  }

  // ----- L D U is the recovery matrix

  function LowerEntry(s: System, i: nat, k: nat): bv8
    requires |s.ys| == s.N() && i < s.N() && k < s.N()
  {
    if i == k then 1 else if k < i then s.L(i, k) else 0
  }

  function UpperEntry(s: System, k: nat, j: nat): bv8
    requires |s.ys| == s.N() && k < s.N() && j < s.N()
  {
    if k == j then 1 else if k < j then s.U(k, j) else 0
  }

  /** Entry (i, j) of the product, summed over the first m inner indices. */
  function Product(s: System, i: nat, j: nat, m: nat): bv8
    requires |s.ys| == s.N() && i < s.N() && j < s.N() && m <= s.N()
  {
    if m == 0 then 0
    else s.F.Add(Product(s, i, j, m - 1),
                 s.F.Mul(LowerEntry(s, i, m - 1), s.F.Mul(s.D(m - 1), UpperEntry(s, m - 1, j))))
  }

  /** The pivot row of the complement is D U there, and its pivot column is L D. */
  lemma PivotTerm(s: System, i: nat, j: nat, k: nat)
    requires s.Good() && k <= i < s.N() && k <= j < s.N()
    ensures s.F.Mul(LowerEntry(s, i, k), s.F.Mul(s.D(k), UpperEntry(s, k, j)))
         == s.F.Mul(LowerEntry(s, i, k), s.Schur(k, k, j))
    ensures i == k || j == k ==>
      s.F.Mul(LowerEntry(s, i, k), s.F.Mul(s.D(k), UpperEntry(s, k, j))) == s.Schur(k, i, j)
  {
    Diagonal(s, k);
    if k < j {
      PivotRow(s, k, j);
    } else {
      MulOne(s.F, s.D(k));
    }
    if k < i {
      ColumnCleared(s, k, i);
    } else {
      MulOne(s.F, s.Schur(k, k, j));
    }
  }

  /** What the first m terms of the product leave of the matrix is the m-th complement. */
  lemma {:induction false} ProductLeavesSchur(s: System, i: nat, j: nat, m: nat)
    requires s.Good() && m <= i < s.N() && m <= j < s.N()
    ensures s.F.Add(Product(s, i, j, m), s.Schur(m, i, j)) == s.Matrix(i, j)
  {
    var F := s.F;
    if m == 0 {
      FirstSchur(s, i, j);
      AddZero(F, s.Matrix(i, j));
    } else {
      var k := m - 1;
      var term := F.Mul(s.L(i, k), s.Schur(k, k, j));
      ProductLeavesSchur(s, i, j, k);
      PivotTerm(s, i, j, k);
      SchurStep(s, k, i, j);
      AddCommute(F, s.Schur(k, i, j), term);
      AddAssociate(F, Product(s, i, j, k), term, s.Schur(m, i, j));
      AddTwice(F, s.Schur(k, i, j), term);
    }
  }

  lemma {:induction false} ProductBeyond(s: System, i: nat, j: nat, m: nat)
    requires s.Good() && i < s.N() && j < s.N() && (i < m || j < m) && m <= s.N()
    ensures Product(s, i, j, m) == s.Matrix(i, j)
  {
    var F, k := s.F, m - 1;
    if k <= i && k <= j {
      ProductLeavesSchur(s, i, j, k);
      PivotTerm(s, i, j, k);
    } else {
      ProductBeyond(s, i, j, k);
      MulZero(F, s.D(k));
      MulZero(F, F.Mul(s.D(k), UpperEntry(s, k, j)));
      MulZero(F, LowerEntry(s, i, k));
      AddZero(F, Product(s, i, j, k));
    }
  }

  /** The factorisation: L D U is the recovery matrix, entry by entry. */
  lemma FactorsMultiplyBack(s: System, i: nat, j: nat)
    requires s.Good() && i < s.N() && j < s.N()
    ensures Product(s, i, j, s.N()) == s.Matrix(i, j)
  {
    ProductBeyond(s, i, j, s.N());
  }
}
