/**
 * The algebra behind the decoder: the recovery matrix is a Cauchy matrix whose columns are scaled
 * so that its first row is all ones, and its Schur complements keep the Cauchy shape
 * g[i] * b[j] / (x_i + y_j). The factors L, D and U are written as the decoder computes them.
 */
module Cauchy {
  import opened Fields

  /** Rows are named by xs, columns by ys; x0 names the row scaled to ones. */
  datatype System = System(F: Field, x0: bv8, xs: seq<bv8>, ys: seq<bv8>) {

    function N(): nat {
      |xs|
    }

    ghost predicate Good() {
      && F.Lawful() && |ys| == |xs|
      && (forall i, j | 0 <= i < j < |xs| :: xs[i] != xs[j])
      && (forall i, j | 0 <= i < j < |ys| :: ys[i] != ys[j])
      && (forall i, j | 0 <= i < |xs| && 0 <= j < |ys| :: xs[i] != ys[j])
      && (forall j | 0 <= j < |ys| :: x0 != ys[j])
    }

    /** The generator of row i after k elimination steps. */
    function G(k: nat, i: nat): bv8
      requires |ys| == N() && k <= N() && i < N()
    {
      if k == 0 then 1
      else F.Mul(G(k - 1, i), F.Div(F.Add(xs[i], xs[k - 1]), F.Add(xs[i], ys[k - 1])))
    }

    /** The generator of column j after k elimination steps. */
    function B(k: nat, j: nat): bv8
      requires |ys| == N() && k <= N() && j < N()
    {
      if k == 0 then 1
      else F.Mul(B(k - 1, j), F.Div(F.Add(ys[j], ys[k - 1]), F.Add(ys[j], xs[k - 1])))
    }

    /** The recovery matrix. */
    function Matrix(i: nat, j: nat): bv8
      requires |ys| == N() && i < N() && j < N()
    {
      F.Div(F.Add(ys[j], x0), F.Add(xs[i], ys[j]))
    }

    /** The Schur complement after k elimination steps. */
    function Schur(k: nat, i: nat, j: nat): bv8
      requires |ys| == N() && k <= N() && i < N() && j < N()
    {
      F.Mul(F.Mul(G(k, i), B(k, j)), F.Div(F.Add(x0, ys[j]), F.Add(xs[i], ys[j])))
    }

    function LPivot(k: nat): bv8
      requires |ys| == N() && k < N()
    {
      F.Div(G(k, k), F.Add(xs[k], ys[k]))
    }

    function UPivot(k: nat): bv8
      requires |ys| == N() && k < N()
    {
      F.Mul(F.Div(B(k, k), F.Add(xs[k], ys[k])), F.Add(x0, ys[k]))
    }

    function L(i: nat, k: nat): bv8
      requires |ys| == N() && k < N() && i < N()
    {
      F.Mul(F.Div(G(k, i), F.Add(xs[i], ys[k])), F.Div(1, LPivot(k)))
    }

    function D(k: nat): bv8
      requires |ys| == N() && k < N()
    {
      if k < N() - 1 then F.Mul(F.Add(xs[k], ys[k]), F.Mul(LPivot(k), UPivot(k)))
      else F.Div(F.Mul(G(k, k), F.Mul(B(k, k), F.Add(x0, ys[k]))), F.Add(xs[k], ys[k]))
    }

    function U(k: nat, j: nat): bv8
      requires |ys| == N() && k < N() && j < N()
    {
      F.Mul(F.Mul(F.Div(B(k, j), F.Add(xs[k], ys[j])), F.Div(1, UPivot(k))), F.Add(x0, ys[j]))
    }
  }

  // ----- Field identities

  lemma MulDiv(F: Field, a: bv8, b: bv8, c: bv8)
    requires F.Lawful() && c != 0
    ensures F.Mul(a, F.Div(b, c)) == F.Div(F.Mul(a, b), c)
  {
    Associate(F, a, F.Div(b, c), c);
    DivMul(F, b, c);
    DivIs(F, F.Mul(a, b), c, F.Mul(a, F.Div(b, c)));
  }

  lemma ExpandFraction(F: Field, a: bv8, b: bv8, c: bv8)
    requires F.Lawful() && b != 0 && c != 0
    ensures F.Mul(b, c) != 0
    ensures F.Div(F.Mul(a, c), F.Mul(b, c)) == F.Div(a, b)
  {
    NonZeroProduct(F, b, c);
    Associate(F, F.Div(a, b), b, c);
    DivMul(F, a, b);
    DivIs(F, F.Mul(a, c), F.Mul(b, c), F.Div(a, b));
  }

  /** (a/b) / (c/d), with the division done by the inverse table. */
  lemma QuotientOfQuotients(F: Field, a: bv8, b: bv8, c: bv8, d: bv8)
    requires F.Lawful() && b != 0 && c != 0 && d != 0
    ensures F.Mul(b, c) != 0 && F.Div(c, d) != 0
    ensures F.Mul(F.Div(a, b), F.Div(1, F.Div(c, d))) == F.Div(F.Mul(a, d), F.Mul(b, c))
  {
    NonZeroQuotient(F, c, d);
    NonZeroProduct(F, b, c);
    NonZeroProduct(F, d, c);
    DivByInverse(F, F.Div(a, b), F.Div(c, d));
    var q := F.Div(F.Mul(a, d), F.Mul(b, c));
    ProductOfQuotients(F, F.Mul(a, d), F.Mul(b, c), c, d);
    Associate(F, a, d, c);
    Associate(F, b, c, d);
    Commute(F, c, d);
    ExpandFraction(F, a, b, F.Mul(d, c));
    DivIs(F, F.Div(a, b), F.Div(c, d), q);
  }

  /** The identity that makes Schur complements of Cauchy matrices Cauchy again. */
  lemma CrossTerms(F: Field, q: bv8, r: bv8, s: bv8, p: bv8)
    requires F.Lawful() && p == F.Add(F.Add(q, r), s)
    ensures F.Add(F.Mul(q, r), F.Mul(s, p)) == F.Mul(F.Add(q, s), F.Add(r, s))
  {
    var qr, sq, sr, ss := F.Mul(q, r), F.Mul(s, q), F.Mul(s, r), F.Mul(s, s);
    Distribute(F, s, F.Add(q, r), s);
    Distribute(F, s, q, r);
    assert F.Mul(s, p) == F.Add(F.Add(sq, sr), ss);
    Distribute(F, F.Add(q, s), r, s);
    Distribute(F, r, q, s);
    Distribute(F, s, q, s);
    Commute(F, s, q);
    assert F.Mul(F.Add(q, s), F.Add(r, s)) == F.Add(F.Add(qr, sr), F.Add(sq, ss));
    AddAssociate(F, F.Add(sq, sr), ss, 0);
    AddCommute(F, sq, sr);
    AddAssociate(F, sr, sq, ss);
    AddAssociate(F, qr, sr, F.Add(sq, ss));
  }

  // ----- Elimination

  /** x - y, x' - y and so on never vanish. */
  lemma Denominators(s: System, i: nat, j: nat)
    requires s.Good() && i < s.N() && j < s.N()
    ensures s.F.Add(s.xs[i], s.ys[j]) != 0 && s.F.Add(s.ys[j], s.xs[i]) == s.F.Add(s.xs[i], s.ys[j])
    ensures s.F.Add(s.x0, s.ys[j]) != 0 && s.F.Add(s.ys[j], s.x0) == s.F.Add(s.x0, s.ys[j])
    ensures i != j ==> s.F.Add(s.xs[i], s.xs[j]) != 0 && s.F.Add(s.ys[i], s.ys[j]) != 0
  {
    AddNonZero(s.F, s.xs[i], s.ys[j]);
    AddNonZero(s.F, s.x0, s.ys[j]);
    AddCommute(s.F, s.xs[i], s.ys[j]);
    AddCommute(s.F, s.x0, s.ys[j]);
    if i != j {
      assert s.xs[i] != s.xs[j] && s.ys[i] != s.ys[j];
      AddNonZero(s.F, s.xs[i], s.xs[j]);
      AddNonZero(s.F, s.ys[i], s.ys[j]);
    }
  }

  lemma {:induction false} GeneratorsNonZero(s: System, k: nat, i: nat)
    requires s.Good() && k <= i < s.N()
    ensures s.G(k, i) != 0 && s.B(k, i) != 0
  {
    OneNonZero();
    if k > 0 {
      GeneratorsNonZero(s, k - 1, i);
      Denominators(s, i, k - 1);
      Denominators(s, k - 1, i);
      NonZeroQuotient(s.F, s.F.Add(s.xs[i], s.xs[k - 1]), s.F.Add(s.xs[i], s.ys[k - 1]));
      NonZeroQuotient(s.F, s.F.Add(s.ys[i], s.ys[k - 1]), s.F.Add(s.ys[i], s.xs[k - 1]));
      NonZeroProduct(s.F, s.G(k - 1, i), s.F.Div(s.F.Add(s.xs[i], s.xs[k - 1]), s.F.Add(s.xs[i], s.ys[k - 1])));
      NonZeroProduct(s.F, s.B(k - 1, i), s.F.Div(s.F.Add(s.ys[i], s.ys[k - 1]), s.F.Add(s.ys[i], s.xs[k - 1])));
    }
  }

  lemma OneNonZero()
    ensures (1 as bv8) != 0
  {
  }

  /** No pivot is zero. */
  lemma PivotsNonZero(s: System, k: nat)
    requires s.Good() && k < s.N()
    ensures s.LPivot(k) != 0 && s.UPivot(k) != 0
  {
    var F := s.F;
    GeneratorsNonZero(s, k, k);
    Denominators(s, k, k);
    NonZeroQuotient(F, s.G(k, k), F.Add(s.xs[k], s.ys[k]));
    NonZeroQuotient(F, s.B(k, k), F.Add(s.xs[k], s.ys[k]));
    NonZeroProduct(F, F.Div(s.B(k, k), F.Add(s.xs[k], s.ys[k])), F.Add(s.x0, s.ys[k]));
  }

  /** The Schur complement as one fraction. */
  lemma SchurFraction(s: System, k: nat, i: nat, j: nat)
    requires s.Good() && k <= s.N() && i < s.N() && j < s.N()
    ensures s.Schur(k, i, j)
         == s.F.Div(s.F.Mul(s.F.Mul(s.G(k, i), s.B(k, j)), s.F.Add(s.x0, s.ys[j])), s.F.Add(s.xs[i], s.ys[j]))
  {
    Denominators(s, i, j);
    MulDiv(s.F, s.F.Mul(s.G(k, i), s.B(k, j)), s.F.Add(s.x0, s.ys[j]), s.F.Add(s.xs[i], s.ys[j]));
  }

  lemma ReorderNumerator(F: Field, g: bv8, t: bv8, h: bv8, b: bv8, w: bv8)
    requires F.Lawful()
    ensures F.Mul(F.Mul(g, t), F.Mul(F.Mul(h, b), w)) == F.Mul(F.Mul(F.Mul(F.Mul(g, b), w), t), h)
  {
    // (g t) ((h b) w) == (g t) ((b w) h) == ((g t) (b w)) h == ((g (b w)) t) h
    Commute(F, h, b);
    SwapLast(F, b, h, w);
    Associate(F, F.Mul(g, t), F.Mul(b, w), h);
    SwapLast(F, g, t, F.Mul(b, w));
    Associate(F, g, b, w);
  }

  /** What one elimination step subtracts from row i. */
  lemma Subtrahend(s: System, k: nat, i: nat, j: nat)
    requires s.Good() && k < i < s.N() && k <= j < s.N()
    ensures s.F.Mul(s.F.Add(s.xs[i], s.ys[k]), s.F.Add(s.xs[k], s.ys[j])) != 0
    ensures s.F.Mul(s.L(i, k), s.Schur(k, k, j))
         == s.F.Div(s.F.Mul(s.F.Mul(s.F.Mul(s.G(k, i), s.B(k, j)), s.F.Add(s.x0, s.ys[j])), s.F.Add(s.xs[k], s.ys[k])),
                    s.F.Mul(s.F.Add(s.xs[i], s.ys[k]), s.F.Add(s.xs[k], s.ys[j])))
  {
    var F := s.F;
    var g, h, b, w := s.G(k, i), s.G(k, k), s.B(k, j), F.Add(s.x0, s.ys[j]);
    var q, r, t := F.Add(s.xs[i], s.ys[k]), F.Add(s.xs[k], s.ys[j]), F.Add(s.xs[k], s.ys[k]);
    Denominators(s, i, k);
    Denominators(s, k, j);
    Denominators(s, k, k);
    GeneratorsNonZero(s, k, k);
    QuotientOfQuotients(F, g, q, h, t);
    SchurFraction(s, k, k, j);
    ProductOfQuotients(F, F.Mul(g, t), F.Mul(q, h), F.Mul(F.Mul(h, b), w), r);
    ReorderNumerator(F, g, t, h, b, w);
    SwapLast(F, q, h, r);
    NonZeroProduct(F, q, r);
    ExpandFraction(F, F.Mul(F.Mul(F.Mul(g, b), w), t), F.Mul(q, r), h);
  }

  /** Column k of the complement is cleared by the multiples in column k of L. */
  lemma ColumnCleared(s: System, k: nat, i: nat)
    requires s.Good() && k < i < s.N()
    ensures s.F.Mul(s.L(i, k), s.Schur(k, k, k)) == s.Schur(k, i, k)
  {
    var F := s.F;
    var e := F.Mul(F.Mul(s.G(k, i), s.B(k, k)), F.Add(s.x0, s.ys[k]));
    Subtrahend(s, k, i, k);
    SchurFraction(s, k, i, k);
    Denominators(s, i, k);
    Denominators(s, k, k);
    ExpandFraction(F, e, F.Add(s.xs[i], s.ys[k]), F.Add(s.xs[k], s.ys[k]));
  }

  /** The next complement as one fraction over the same denominators. */
  lemma NextSchur(s: System, k: nat, i: nat, j: nat)
    requires s.Good() && k < i < s.N() && k < j < s.N()
    ensures
      var F := s.F;
      var e := F.Mul(F.Mul(s.G(k, i), s.B(k, j)), F.Add(s.x0, s.ys[j]));
      var q, r, p := F.Add(s.xs[i], s.ys[k]), F.Add(s.xs[k], s.ys[j]), F.Add(s.xs[i], s.ys[j]);
      && F.Mul(F.Mul(q, r), p) != 0
      && s.Schur(k + 1, i, j)
         == F.Div(F.Mul(e, F.Mul(F.Add(s.xs[i], s.xs[k]), F.Add(s.ys[j], s.ys[k]))), F.Mul(F.Mul(q, r), p))
  {
    var F := s.F;
    var g, b, w := s.G(k, i), s.B(k, j), F.Add(s.x0, s.ys[j]);
    var q, r, p := F.Add(s.xs[i], s.ys[k]), F.Add(s.xs[k], s.ys[j]), F.Add(s.xs[i], s.ys[j]);
    var t, u := F.Add(s.xs[i], s.xs[k]), F.Add(s.ys[j], s.ys[k]);
    Denominators(s, i, k);
    Denominators(s, k, j);
    Denominators(s, i, j);
    MulDiv(F, g, t, q);
    MulDiv(F, b, u, r);
    ProductOfQuotients(F, F.Mul(g, t), q, F.Mul(b, u), r);
    ProductOfQuotients(F, F.Mul(F.Mul(g, t), F.Mul(b, u)), F.Mul(q, r), w, p);
    Exchange(F, g, t, b, u);
    SwapLast(F, F.Mul(g, b), F.Mul(t, u), w);
  }

  lemma FactorsAlign(s: System, k: nat, i: nat, j: nat)
    requires s.Good() && k < i < s.N() && k < j < s.N()
    ensures
      var F := s.F;
      var q, r, p := F.Add(s.xs[i], s.ys[k]), F.Add(s.xs[k], s.ys[j]), F.Add(s.xs[i], s.ys[j]);
      var t := F.Add(s.xs[k], s.ys[k]);
      && p == F.Add(F.Add(q, r), t)
      && F.Add(s.xs[i], s.xs[k]) == F.Add(q, t)
      && F.Add(s.ys[j], s.ys[k]) == F.Add(r, t)
  {
    var F := s.F;
    var xi, xk, yj, yk := s.xs[i], s.xs[k], s.ys[j], s.ys[k];
    var q, r, t := F.Add(xi, yk), F.Add(xk, yj), F.Add(xk, yk);
    // q + t == (x_i + x_k) + (y_k + y_k)
    AddExchange(F, xi, yk, xk, yk);
    AddZero(F, yk);
    AddZero(F, F.Add(xi, xk));
    // r + t == (x_k + x_k) + (y_j + y_k)
    AddExchange(F, xk, yj, xk, yk);
    AddZero(F, xk);
    AddZero(F, F.Add(yj, yk));
    // (q + r) + t == (q + t) + r == (x_i + x_k) + (x_k + y_j)
    AddSwapLast(F, q, r, t);
    AddAssociate(F, xi, xk, r);
    AddTwice(F, yj, xk);
    AddCommute(F, yj, xk);
  }

  /** One elimination step turns a complement into the next. */
  lemma SchurStep(s: System, k: nat, i: nat, j: nat)
    requires s.Good() && k < i < s.N() && k < j < s.N()
    ensures s.F.Add(s.Schur(k, i, j), s.F.Mul(s.L(i, k), s.Schur(k, k, j))) == s.Schur(k + 1, i, j)
  {
    var F := s.F;
    var e := F.Mul(F.Mul(s.G(k, i), s.B(k, j)), F.Add(s.x0, s.ys[j]));
    var q, r, p := F.Add(s.xs[i], s.ys[k]), F.Add(s.xs[k], s.ys[j]), F.Add(s.xs[i], s.ys[j]);
    var t := F.Add(s.xs[k], s.ys[k]);
    var qr := F.Mul(q, r);
    Subtrahend(s, k, i, j);
    SchurFraction(s, k, i, j);
    NextSchur(s, k, i, j);
    FactorsAlign(s, k, i, j);
    Denominators(s, i, j);
    ExpandFraction(F, e, p, qr);
    Commute(F, p, qr);
    ExpandFraction(F, F.Mul(e, t), qr, p);
    Associate(F, e, t, p);
    DivDistributes(F, F.Mul(e, qr), F.Mul(e, F.Mul(t, p)), F.Mul(qr, p));
    Distribute(F, e, qr, F.Mul(t, p));
    CrossTerms(F, q, r, t, p);
  }

  /** The diagonal as the decoder computes it is the pivot of the complement, and is not zero. */
  lemma Diagonal(s: System, k: nat)
    requires s.Good() && k < s.N()
    ensures s.D(k) == s.Schur(k, k, k) == s.F.Mul(s.G(k, k), s.UPivot(k))
    ensures s.D(k) != 0
  {
    var F := s.F;
    var g, b, w, t := s.G(k, k), s.B(k, k), F.Add(s.x0, s.ys[k]), F.Add(s.xs[k], s.ys[k]);
    Denominators(s, k, k);
    PivotsNonZero(s, k);
    GeneratorsNonZero(s, k, k);
    NonZeroProduct(F, g, s.UPivot(k));
    SchurFraction(s, k, k, k);
    Associate(F, g, b, w);
    // g (b/t) w == g (b w)/t
    Commute(F, F.Div(b, t), w);
    MulDiv(F, w, b, t);
    Commute(F, w, b);
    MulDiv(F, g, F.Mul(b, w), t);
    // t (g/t) == g
    Associate(F, t, s.LPivot(k), s.UPivot(k));
    DivMul(F, g, t);
  }

  /** A row of U scaled by the diagonal is the pivot row of the complement. */
  lemma PivotRow(s: System, k: nat, j: nat)
    requires s.Good() && k < j < s.N()
    ensures s.F.Mul(s.D(k), s.U(k, j)) == s.Schur(k, k, j)
  {
    var F := s.F;
    var g, b, w, r, u := s.G(k, k), s.B(k, j), F.Add(s.x0, s.ys[j]), F.Add(s.xs[k], s.ys[j]), s.UPivot(k);
    Denominators(s, k, j);
    PivotsNonZero(s, k);
    Diagonal(s, k);
    DivByInverse(F, F.Div(b, r), u);
    var c := F.Div(F.Div(b, r), u);
    // (g u) (c w) == (g (u c)) w == (g (b/r)) w
    Associate(F, F.Mul(g, u), c, w);
    Associate(F, g, u, c);
    DivMul(F, F.Div(b, r), u);
    MulDiv(F, g, b, r);
    // ((g b)/r) w == ((g b) w)/r
    Commute(F, F.Div(F.Mul(g, b), r), w);
    MulDiv(F, w, F.Mul(g, b), r);
    Commute(F, w, F.Mul(g, b));
    SchurFraction(s, k, k, j);
  }
}
