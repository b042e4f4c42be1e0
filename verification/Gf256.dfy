/**
 * The 256-element field of the erasure code, as its tables define it: EXP and LOG walk the powers
 * of 2 modulo the chosen generator polynomial, and MUL, DIV and INV are filled in from them.
 * Addition is XOR.
 */
module Doubling {

  /**
   * The generator polynomial is 0x14D: entry 3 of the list, 0xA6, shifted left by one with a one
   * added. In a byte the bit that leaves on the left is dropped, which leaves 0x4D to be added.
   */
  const POLYNOMIAL: bv8 := 0x4D

  /** Doubling: a left shift, reduced by the polynomial when it leaves the byte. */
  function Doubled(v: bv8): bv8 {
    if v & 0x80 != 0 then (v << 1) ^ POLYNOMIAL else v << 1
  }

  /** The same without a branch, which is what makes doubling linear. */
  lemma DoubledForm(v: bv8)
    ensures Doubled(v) == (v << 1) ^ ((v >> 7) * POLYNOMIAL)
  {
  }

  lemma FormIsLinear(a: bv8, b: bv8)
    ensures ((a ^ b) << 1) ^ (((a ^ b) >> 7) * POLYNOMIAL)
         == ((a << 1) ^ ((a >> 7) * POLYNOMIAL)) ^ ((b << 1) ^ ((b >> 7) * POLYNOMIAL))
  {
  }

  lemma DoubledIsLinear(a: bv8, b: bv8)
    ensures Doubled(a ^ b) == Doubled(a) ^ Doubled(b)
  {
    DoubledForm(a);
    DoubledForm(b);
    DoubledForm(a ^ b);
    FormIsLinear(a, b);
  }

  lemma DoubledKeepsNonZero(a: bv8)
    ensures Doubled(a) == 0 <==> a == 0
  {
  }
}

module Gf256 {
  import Counting
  import Fields
  import opened Doubling

  /** v doubled n times. */
  function Powered(n: nat, v: bv8): bv8 {
    if n == 0 then v else Doubled(Powered(n - 1, v))
  }

  /** The n-th power of 2. */
  function Exp(n: nat): bv8 {
    Powered(n, 1)
  }

  predicate Additive(n: nat, sum: bv8, a: bv8, b: bv8) {
    Powered(n, sum) == Powered(n, a) ^ Powered(n, b)
  }

  lemma AdditiveNext(n: nat, sum: bv8, a: bv8, b: bv8)
    requires Additive(n, sum, a, b)
    ensures Additive(n + 1, sum, a, b)
  {
    DoubledIsLinear(Powered(n, a), Powered(n, b));
  }

  lemma {:induction false} AdditiveAlways(n: nat, sum: bv8, a: bv8, b: bv8)
    requires sum == a ^ b
    ensures Additive(n, sum, a, b)
  {
    if n > 0 {
      AdditiveAlways(n - 1, sum, a, b);
      AdditiveNext(n - 1, sum, a, b);
    }
  }

  lemma PoweredIsLinear(n: nat, a: bv8, b: bv8)
    ensures Powered(n, a ^ b) == Powered(n, a) ^ Powered(n, b)
  {
    AdditiveAlways(n, a ^ b, a, b);
  }

  lemma {:induction false} PoweredKeepsNonZero(n: nat, a: bv8)
    ensures Powered(n, a) == 0 <==> a == 0
  {
    if n > 0 {
      PoweredKeepsNonZero(n - 1, a);
      DoubledKeepsNonZero(Powered(n - 1, a));
    }
  }

  lemma {:induction false} PoweredAdds(m: nat, n: nat, v: bv8)
    ensures Powered(m + n, v) == Powered(m, Powered(n, v))
  {
    if m > 0 {
      PoweredAdds(m - 1, n, v);
    }
  }

  function Doubled2(v: bv8): bv8 { Doubled(Doubled(v)) }
  function Doubled4(v: bv8): bv8 { Doubled2(Doubled2(v)) }
  function Doubled8(v: bv8): bv8 { Doubled4(Doubled4(v)) }
  predicate AvoidsOne2(v: bv8) { v != 1 && Doubled(v) != 1 }
  predicate AvoidsOne4(v: bv8) { AvoidsOne2(v) && AvoidsOne2(Doubled2(v)) }
  predicate AvoidsOne8(v: bv8) { AvoidsOne4(v) && AvoidsOne4(Doubled4(v)) }

  lemma FourSteps(n: nat, v: bv8)
    requires Exp(n) == v
    ensures Exp(n + 4) == Doubled4(v)
    ensures AvoidsOne4(v) ==> forall i | n <= i < n + 4 :: Exp(i) != 1
  {
    assert Exp(n + 1) == Doubled(v);
    assert Exp(n + 2) == Doubled2(v);
    assert Exp(n + 3) == Doubled(Doubled2(v));
  }

  lemma EightSteps(n: nat, from: bv8, to: bv8)
    requires Exp(n) == from && Doubled8(from) == to && AvoidsOne8(from)
    ensures Exp(n + 8) == to
    ensures forall i | n <= i < n + 8 :: Exp(i) != 1
  {
    FourSteps(n, from);
    FourSteps(n + 4, Doubled4(from));
  }

  lemma WalkTo8()
    ensures Exp(8) == 0x4D
    ensures forall i | 1 <= i < 8 :: Exp(i) != 1
  {
    FourSteps(0, 1);
    assert Exp(1) == 2;
    assert Exp(2) == 4;
    assert Exp(3) == 8;
    FourSteps(4, 0x10);
  }

  lemma WalkTo64()
    ensures Exp(64) == 0xEB
    ensures forall i | 1 <= i < 64 :: Exp(i) != 1
  {
    WalkTo8();
    EightSteps(8, 0x4D, 0xF8);
    EightSteps(16, 0xF8, 0x06);
    EightSteps(24, 0x06, 0xE3);
    EightSteps(32, 0xE3, 0x8A);
    EightSteps(40, 0x8A, 0x14);
    EightSteps(48, 0x14, 0xD0);
    EightSteps(56, 0xD0, 0xEB);
  }

  lemma WalkTo128()
    ensures Exp(128) == 0xAB
    ensures forall i | 64 <= i < 128 :: Exp(i) != 1
  {
    WalkTo64();
    EightSteps(64, 0xEB, 0x78);
    EightSteps(72, 0x78, 0x7A);
    EightSteps(80, 0x7A, 0xE0);
    EightSteps(88, 0xE0, 0x5D);
    EightSteps(96, 0x5D, 0x51);
    EightSteps(104, 0x51, 0xDA);
    EightSteps(112, 0xDA, 0x83);
    EightSteps(120, 0x83, 0xAB);
  }

  lemma WalkTo192()
    ensures Exp(192) == 0xB5
    ensures forall i | 128 <= i < 192 :: Exp(i) != 1
  {
    WalkTo128();
    EightSteps(128, 0xAB, 0x46);
    EightSteps(136, 0x46, 0xDD);
    EightSteps(144, 0xDD, 0x2D);
    EightSteps(152, 0x2D, 0xD9);
    EightSteps(160, 0xD9, 0x54);
    EightSteps(168, 0x54, 0xEE);
    EightSteps(176, 0xEE, 0x4C);
    EightSteps(184, 0x4C, 0xB5);
  }

  lemma WalkTo248()
    ensures Exp(248) == 0x93
    ensures forall i | 192 <= i < 248 :: Exp(i) != 1
  {
    WalkTo192();
    EightSteps(192, 0xB5, 0xFE);
    EightSteps(200, 0xFE, 0xE5);
    EightSteps(208, 0xE5, 0x69);
    EightSteps(216, 0x69, 0x9E);
    EightSteps(224, 0x9E, 0xC4);
    EightSteps(232, 0xC4, 0x3B);
    EightSteps(240, 0x3B, 0x93);
  }

  lemma WalkTo255()
    ensures Exp(255) == 1
    ensures forall i | 248 <= i < 255 :: Exp(i) != 1
  {
    WalkTo248();
    FourSteps(248, 0x93);
    assert Exp(252) == Doubled4(0x93);
    assert Exp(253) == Doubled(Exp(252)) && Exp(254) == Doubled(Exp(253)) && Exp(255) == Doubled(Exp(254));
  }

  /** 2 generates the multiplicative group: its powers come back to 1 after 255 steps, not before. */
  lemma OrderOfTwo()
    ensures Exp(255) == 1
    ensures forall i | 1 <= i < 255 :: Exp(i) != 1
  {
    WalkTo64();
    WalkTo128();
    WalkTo192();
    WalkTo248();
    WalkTo255();
  }

  lemma ExpIsInjective(i: nat, j: nat)
    requires 1 <= i < j <= 255
    ensures Exp(i) != Exp(j)
  {
    if Exp(i) == Exp(j) {
      PoweredAdds(i, j - i, 1);
      PoweredIsLinear(i, Exp(j - i), 1);
      PoweredKeepsNonZero(i, Exp(j - i) ^ 1);
      OrderOfTwo();
    }
  }

  lemma ExpIsNonZero(n: nat)
    ensures Exp(n) != 0
  {
    PoweredKeepsNonZero(n, 1);
  }

  /** The value of the (i+1)-th power of 2, less one. */
  ghost function PowerLessOne(i: nat): (r: int)
    ensures 0 <= r < 255
  {
    ExpIsNonZero(i + 1);
    Exp(i + 1) as int - 1
  }

  lemma SameIntSameByte(a: bv8, b: bv8)
    requires a as int == b as int
    ensures a == b
  {
  }

  lemma NonZeroByte(a: bv8)
    requires a != 0
    ensures 0 <= a as int - 1 < 255
  {
  }

  lemma PowersDiffer(i: nat, j: nat)
    requires i < j < 255
    ensures PowerLessOne(i) != PowerLessOne(j)
  {
    ExpIsInjective(i + 1, j + 1);
    if PowerLessOne(i) == PowerLessOne(j) {
      SameIntSameByte(Exp(i + 1), Exp(j + 1));
    }
  }

  lemma PowersReach(v: int) returns (i: nat)
    requires 0 <= v < 255
    ensures i < 255 && PowerLessOne(i) == v
  {
    var powers: seq<int> := seq(255, i requires 0 <= i < 255 => PowerLessOne(i));
    forall i, j | 0 <= i < j < 255
      ensures powers[i] != powers[j]
    {
      PowersDiffer(i, j);
    }
    Counting.Pigeonhole(powers, 255, v);
    i :| i < 255 && powers[i] == v;
  }

  /** Every non-zero byte is a power of 2, with an exponent in 1..255 as the LOG table holds it. */
  lemma LogExists(a: bv8)
    requires a != 0
    ensures exists n :: 1 <= n <= 255 && Exp(n) == a
  {
    NonZeroByte(a);
    var i := PowersReach(a as int - 1);
    SameIntSameByte(Exp(i + 1), a);
  }

  /** The entry of the LOG table; the logarithm of 1 is 255, not 0. */
  ghost function Log(a: bv8): (n: nat)
    requires a != 0
    ensures 1 <= n <= 255 && Exp(n) == a
  {
    LogExists(a);
    var n :| 1 <= n <= 255 && Exp(n) == a;
    n
  }

  lemma LogIs(n: nat, a: bv8)
    requires 1 <= n <= 255 && Exp(n) == a
    ensures a != 0 && Log(a) == n
  {
    ExpIsNonZero(n);
    if Log(a) < n {
      ExpIsInjective(Log(a), n);
    } else if n < Log(a) {
      ExpIsInjective(n, Log(a));
    }
  }

  /** The MUL table: exponents add. */
  ghost function Mul(a: bv8, b: bv8): bv8 {
    if a == 0 || b == 0 then 0 else Exp(Log(a) + Log(b))
  }

  /** The DIV table: exponents subtract; a quotient by zero is zero. */
  ghost function Div(a: bv8, b: bv8): bv8 {
    if a == 0 || b == 0 then 0 else Exp(Log(a) + (255 - Log(b)))
  }

  /** Multiplying by a is doubling Log(a) times. */
  lemma MulIsDoubling(a: bv8, b: bv8)
    requires a != 0
    ensures Mul(a, b) == Powered(Log(a), b)
  {
    PoweredKeepsNonZero(Log(a), b);
    if b != 0 {
      PoweredAdds(Log(a), Log(b), 1);
    }
  }

  /** Doubling n times depends on the n-th power of 2 only. */
  lemma SamePowerSameDoubling(m: nat, n: nat, v: bv8)
    requires Exp(m) == Exp(n)
    ensures Powered(m, v) == Powered(n, v)
  {
    PoweredKeepsNonZero(m, v);
    PoweredKeepsNonZero(n, v);
    if v != 0 {
      PoweredAdds(m, Log(v), 1);
      PoweredAdds(Log(v), m, 1);
      PoweredAdds(n, Log(v), 1);
      PoweredAdds(Log(v), n, 1);
    }
  }

  lemma MulCommutes(a: bv8, b: bv8)
    ensures Mul(a, b) == Mul(b, a)
  {
  }

  lemma MulAssociates(a: bv8, b: bv8, c: bv8)
    ensures Mul(Mul(a, b), c) == Mul(a, Mul(b, c))
  {
    if a != 0 && b != 0 {
      var ab := Mul(a, b);
      ExpIsNonZero(Log(a) + Log(b));
      MulIsDoubling(ab, c);
      SamePowerSameDoubling(Log(ab), Log(a) + Log(b), c);
      PoweredAdds(Log(a), Log(b), c);
      MulIsDoubling(b, c);
      MulIsDoubling(a, Mul(b, c));
    }
  }

  lemma MulDistributes(a: bv8, b: bv8, c: bv8)
    ensures Mul(a, b ^ c) == Mul(a, b) ^ Mul(a, c)
  {
    if a == 0 {
      XorInvolutive(0);
    } else {
      PoweredIsLinear(Log(a), b, c);
      MulIsDoubling(a, b);
      MulIsDoubling(a, c);
      MulIsDoubling(a, b ^ c);
    }
  }

  lemma OneIsUnit(a: bv8)
    ensures Mul(1, a) == a
  {
    OrderOfTwo();
    LogIs(255, 1);
    if a != 0 {
      PoweredAdds(Log(a), 255, 1);
    }
  }

  lemma DivThenMul(a: bv8, b: bv8)
    requires b != 0
    ensures Mul(Div(a, b), b) == a
  {
    if a != 0 {
      var q := Div(a, b);
      ExpIsNonZero(Log(a) + (255 - Log(b)));
      MulCommutes(q, b);
      MulIsDoubling(b, q);
      PoweredAdds(Log(b), Log(a) + (255 - Log(b)), 1);
      OrderOfTwo();
      PoweredAdds(Log(a), 255, 1);
    }
  }

  function Xor(a: bv8, b: bv8): bv8 {
    a ^ b
  }

  lemma XorInvolutive(a: bv8)
    ensures Xor(0, a) == a && Xor(a, a) == 0
  {
  }

  lemma XorCommutes(a: bv8, b: bv8)
    ensures Xor(a, b) == Xor(b, a)
  {
  }

  lemma XorAssociates(a: bv8, b: bv8, c: bv8)
    ensures Xor(Xor(a, b), c) == Xor(a, Xor(b, c))
  {
  }

  ghost const FIELD: Fields.Field := Fields.Field((a, b) => Xor(a, b), (a, b) => Mul(a, b), (a, b) => Div(a, b))

  /** The tables make bytes a field, whose addition is XOR. */
  lemma TablesFormField()
    ensures FIELD.Lawful()
  {
    forall a
      ensures FIELD.Involutive(a)
    {
      XorInvolutive(a);
    }
    forall a, b
      ensures FIELD.AddCommutes(a, b)
    {
      XorCommutes(a, b);
    }
    forall a, b, c
      ensures FIELD.AddAssociates(a, b, c)
    {
      XorAssociates(a, b, c);
    }
    forall a
      ensures FIELD.Unit(a)
    {
      OneIsUnit(a);
    }
    forall a, b
      ensures FIELD.Commutes(a, b)
    {
      MulCommutes(a, b);
    }
    forall a, b, c
      ensures FIELD.Associates(a, b, c)
    {
      MulAssociates(a, b, c);
    }
    forall a, b, c
      ensures FIELD.Distributes(a, b, c)
    {
      MulDistributes(a, b, c);
    }
    forall a, b
      ensures FIELD.Divides(a, b)
    {
      if b != 0 {
        DivThenMul(a, b);
      }
    }
  }
}
