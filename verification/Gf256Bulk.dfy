/**
 * The bulk operations on memory: a stretch of one array combined into a stretch of another.
 * The vector instructions of the library are left out; what is modelled is the byte loop that
 * ends each operation, with its shortcuts for the factors 0 and 1.
 */
module Gf256Bulk {
  import opened Fields

  /** Everything outside z[zo..zo + n] is as before. */
  twostate predicate OnlyStretch(z: array<bv8>, zo: nat, n: nat)
    reads z
  {
    && (forall i | 0 <= i < zo && i < z.Length :: z[i] == old(z[i]))
    && (forall i | zo + n <= i < z.Length :: z[i] == old(z[i]))
  }

  /** x += y */
  method AddMem(F: Field, x: array<bv8>, xo: nat, y: array<bv8>, n: nat)
    requires xo + n <= x.Length && n <= y.Length && x != y
    modifies x
    ensures OnlyStretch(x, xo, n)
    ensures forall i | xo <= i < xo + n :: x[i] == F.Add(old(x[i]), y[i - xo])
  {
    var i := n;
    while i > 0
      invariant 0 <= i <= n && OnlyStretch(x, xo + i, n - i)
      invariant forall k | xo + i <= k < xo + n :: x[k] == F.Add(old(x[k]), y[k - xo])
    {
      i := i - 1;
      x[xo + i] := F.Add(x[xo + i], y[i]);
    }
  }

  /** z += x + y */
  method Add2Mem(F: Field, z: array<bv8>, x: array<bv8>, y: array<bv8>, n: nat)
    requires n <= z.Length && n <= x.Length && n <= y.Length && x != z && y != z
    modifies z
    ensures OnlyStretch(z, 0, n)
    ensures forall i | 0 <= i < n :: z[i] == F.Add(old(z[i]), F.Add(x[i], y[i]))
  {
    var i := n;
    while i > 0
      invariant 0 <= i <= n && OnlyStretch(z, i, n - i)
      invariant forall k | i <= k < n :: z[k] == F.Add(old(z[k]), F.Add(x[k], y[k]))
    {
      i := i - 1;
      z[i] := F.Add(z[i], F.Add(x[i], y[i]));
    }
  }

  /** z = x + y */
  method AddSetMem(F: Field, z: array<bv8>, zo: nat, x: array<bv8>, y: array<bv8>, n: nat)
    requires zo + n <= z.Length && n <= x.Length && n <= y.Length && x != z && y != z
    modifies z
    ensures OnlyStretch(z, zo, n)
    ensures forall i | zo <= i < zo + n :: z[i] == F.Add(x[i - zo], y[i - zo])
  {
    var i := n;
    while i > 0
      invariant 0 <= i <= n && OnlyStretch(z, zo + i, n - i)
      invariant forall k | zo + i <= k < zo + n :: z[k] == F.Add(x[k - zo], y[k - zo])
    {
      i := i - 1;
      z[zo + i] := F.Add(x[i], y[i]);
    }
  }

  /**
   * z = x * y, except that with the factor 1 nothing is written: a caller with two different
   * arrays must not pass 1.
   */
  method MulMem(F: Field, z: array<bv8>, zo: nat, x: array<bv8>, y: bv8, n: nat)
    requires F.Lawful() && zo + n <= z.Length && n <= x.Length && z != x
    modifies z
    ensures OnlyStretch(z, zo, n)
    ensures y != 1 ==> forall i | zo <= i < zo + n :: z[i] == F.Mul(x[i - zo], y)
    ensures y == 1 ==> z[..] == old(z[..])
    ensures (forall i | zo <= i < zo + n :: z[i] == F.Mul(x[i - zo], y)) <==>
            y != 1 || forall i | zo <= i < zo + n :: old(z[i]) == x[i - zo]
  {
    forall i | 0 <= i < n
      ensures F.Mul(x[i], 1) == x[i]
    {
      MulOne(F, x[i]);
    }
    if y == 0 {
      Clear(z, zo, n);
      forall i | 0 <= i < n
        ensures F.Mul(x[i], 0) == 0
      {
        MulZero(F, x[i]);
      }
    } else if y != 1 {
      var i := n;
      while i > 0
        invariant 0 <= i <= n && OnlyStretch(z, zo + i, n - i)
        invariant forall k | zo + i <= k < zo + n :: z[k] == F.Mul(x[k - zo], y)
      {
        i := i - 1;
        z[zo + i] := F.Mul(x[i], y);
      }
    }
  }

  method Clear(z: array<bv8>, zo: nat, n: nat)
    requires zo + n <= z.Length
    modifies z
    ensures OnlyStretch(z, zo, n)
    ensures forall i | zo <= i < zo + n :: z[i] == 0
  {
    for i := 0 to n
      invariant OnlyStretch(z, zo, i)
      invariant forall k | zo <= k < zo + i :: z[k] == 0
    {
      z[zo + i] := 0;
    }
  }

  /** A byte that is multiplied by 1 is not copied. */
  method MulByOne(F: Field) returns (z: array<bv8>, x: array<bv8>)
    requires F.Lawful()
    ensures z.Length == x.Length == 1 && x[0] == 1 && z[0] == 0 && z[0] != F.Mul(x[0], 1)
  {
    z, x := new bv8[1][0], new bv8[1][1];
    MulMem(F, z, 0, x, 1, 1);
    MulOne(F, 1);
  }

  /** The same operation in place, where leaving the bytes alone is multiplying by 1. */
  method MulMemInPlace(F: Field, z: array<bv8>, zo: nat, y: bv8, n: nat)
    requires F.Lawful() && zo + n <= z.Length
    modifies z
    ensures OnlyStretch(z, zo, n)
    ensures forall i | zo <= i < zo + n :: z[i] == F.Mul(old(z[i]), y)
  {
    forall i | 0 <= i < z.Length
      ensures F.Mul(z[i], 0) == 0 && F.Mul(z[i], 1) == z[i]
    {
      MulZero(F, z[i]);
      MulOne(F, z[i]);
    }
    if y == 0 {
      Clear(z, zo, n);
    } else if y != 1 {
      var i := n;
      while i > 0
        invariant 0 <= i <= n && OnlyStretch(z, zo + i, n - i)
        invariant forall k | zo + i <= k < zo + n :: z[k] == F.Mul(old(z[k]), y)
      {
        i := i - 1;
        z[zo + i] := F.Mul(z[zo + i], y);
      }
    }
  }

  /** z /= y in place, by the inverse table */
  method DivMem(F: Field, z: array<bv8>, zo: nat, y: bv8, n: nat)
    requires F.Lawful() && zo + n <= z.Length
    modifies z
    ensures OnlyStretch(z, zo, n)
    ensures forall i | zo <= i < zo + n :: z[i] == F.Mul(old(z[i]), F.Div(1, y))
  {
    MulMemInPlace(F, z, zo, F.Div(1, y), n);
  }

  /** z += x * y */
  method MulAddMem(F: Field, z: array<bv8>, zo: nat, y: bv8, x: array<bv8>, n: nat)
    requires F.Lawful() && zo + n <= z.Length && n <= x.Length && z != x
    modifies z
    ensures OnlyStretch(z, zo, n)
    ensures forall i | zo <= i < zo + n :: z[i] == F.Add(old(z[i]), F.Mul(y, x[i - zo]))
  {
    forall i | 0 <= i < n
      ensures F.Mul(y, x[i]) == F.Mul(x[i], y)
      ensures y == 0 ==> F.Add(z[zo + i], F.Mul(y, x[i])) == z[zo + i]
      ensures y == 1 ==> F.Mul(y, x[i]) == x[i]
    {
      Commute(F, y, x[i]);
      MulZero(F, x[i]);
      MulOne(F, x[i]);
      AddZero(F, z[zo + i]);
    }
    if y == 0 {
      assert forall i | zo <= i < zo + n :: z[zo + (i - zo)] == z[i];
    } else if y == 1 {
      AddMem(F, z, zo, x, n);
    } else {
      var i := n;
      while i > 0
        invariant 0 <= i <= n && OnlyStretch(z, zo + i, n - i)
        invariant forall k | zo + i <= k < zo + n :: z[k] == F.Add(old(z[k]), F.Mul(y, x[k - zo]))
      {
        i := i - 1;
        z[zo + i] := F.Add(z[zo + i], F.Mul(x[i], y));
      }
    }
  }
}
