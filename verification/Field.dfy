/**
 * Fields of characteristic 2 over bytes, given by their operations. Every law is a named instance,
 * so that a proof calls on exactly the instances it needs.
 */
module Fields {

  datatype Field = Field(add: (bv8, bv8) -> bv8, mul: (bv8, bv8) -> bv8, div: (bv8, bv8) -> bv8) {

    function Add(a: bv8, b: bv8): bv8 {
      add(a, b)
    }

    function Mul(a: bv8, b: bv8): bv8 {
      mul(a, b)
    }

    /** Division; nothing is known of a quotient by zero. */
    function Div(a: bv8, b: bv8): bv8 {
      div(a, b)
    }

    /** Zero is neutral, and adding twice undoes itself. */
    ghost predicate Involutive(a: bv8) {
      Add(0, a) == a && Add(a, a) == 0
    }

    ghost predicate AddCommutes(a: bv8, b: bv8) {
      Add(a, b) == Add(b, a)
    }

    ghost predicate AddAssociates(a: bv8, b: bv8, c: bv8) {
      Add(Add(a, b), c) == Add(a, Add(b, c))
    }

    ghost predicate Unit(a: bv8) {
      Mul(1, a) == a
    }

    ghost predicate Commutes(a: bv8, b: bv8) {
      Mul(a, b) == Mul(b, a)
    }

    ghost predicate Associates(a: bv8, b: bv8, c: bv8) {
      Mul(Mul(a, b), c) == Mul(a, Mul(b, c))
    }

    ghost predicate Distributes(a: bv8, b: bv8, c: bv8) {
      Mul(a, Add(b, c)) == Add(Mul(a, b), Mul(a, c))
    }

    ghost predicate Divides(a: bv8, b: bv8) {
      b != 0 ==> Mul(Div(a, b), b) == a
    }

    ghost predicate Lawful() {
      && (forall a :: Involutive(a))
      && (forall a, b :: AddCommutes(a, b))
      && (forall a, b, c :: AddAssociates(a, b, c))
      && (forall a :: Unit(a))
      && (forall a, b :: Commutes(a, b))
      && (forall a, b, c :: Associates(a, b, c))
      && (forall a, b, c :: Distributes(a, b, c))
      && (forall a, b :: Divides(a, b))
    }
  }

  lemma AddZero(F: Field, a: bv8)
    requires F.Lawful()
    ensures F.Add(a, 0) == a && F.Add(0, a) == a && F.Add(a, a) == 0
  {
    assert F.Involutive(a) && F.AddCommutes(a, 0);
  }

  lemma AddCommute(F: Field, a: bv8, b: bv8)
    requires F.Lawful()
    ensures F.Add(a, b) == F.Add(b, a)
  {
    assert F.AddCommutes(a, b);
  }

  lemma AddAssociate(F: Field, a: bv8, b: bv8, c: bv8)
    requires F.Lawful()
    ensures F.Add(F.Add(a, b), c) == F.Add(a, F.Add(b, c))
  {
    assert F.AddAssociates(a, b, c);
  }

  /** A sum is zero only for equal terms. */
  lemma AddNonZero(F: Field, a: bv8, b: bv8)
    requires F.Lawful() && a != b
    ensures F.Add(a, b) != 0
  {
    AddTwice(F, a, b);
    AddZero(F, a);
    AddZero(F, b);
  }

  lemma AddTwice(F: Field, a: bv8, b: bv8)
    requires F.Lawful()
    ensures F.Add(F.Add(a, b), b) == a && F.Add(b, F.Add(b, a)) == a
  {
    AddAssociate(F, a, b, b);
    AddZero(F, a);
    AddZero(F, b);
    AddAssociate(F, b, b, a);
  }

  /** The two ways of pairing four terms. */
  lemma AddExchange(F: Field, a: bv8, b: bv8, c: bv8, d: bv8)
    requires F.Lawful()
    ensures F.Add(F.Add(a, b), F.Add(c, d)) == F.Add(F.Add(a, c), F.Add(b, d))
  {
    AddAssociate(F, a, b, F.Add(c, d));
    AddAssociate(F, b, c, d);
    AddCommute(F, b, c);
    AddAssociate(F, c, b, d);
    AddAssociate(F, a, c, F.Add(b, d));
  }

  lemma AddSwapLast(F: Field, a: bv8, b: bv8, c: bv8)
    requires F.Lawful()
    ensures F.Add(F.Add(a, b), c) == F.Add(F.Add(a, c), b)
  {
    AddAssociate(F, a, b, c);
    AddCommute(F, b, c);
    AddAssociate(F, a, c, b);
  }

  lemma MulZero(F: Field, a: bv8)
    requires F.Lawful()
    ensures F.Mul(a, 0) == 0 && F.Mul(0, a) == 0
  {
    AddZero(F, 0);
    assert F.Distributes(a, 0, 0);
    AddZero(F, F.Mul(a, 0));
    assert F.Commutes(a, 0);
  }

  lemma MulOne(F: Field, a: bv8)
    requires F.Lawful()
    ensures F.Mul(a, 1) == a && F.Mul(1, a) == a
  {
    assert F.Unit(a) && F.Commutes(a, 1);
  }

  lemma Commute(F: Field, a: bv8, b: bv8)
    requires F.Lawful()
    ensures F.Mul(a, b) == F.Mul(b, a)
  {
    assert F.Commutes(a, b);
  }

  lemma Associate(F: Field, a: bv8, b: bv8, c: bv8)
    requires F.Lawful()
    ensures F.Mul(F.Mul(a, b), c) == F.Mul(a, F.Mul(b, c))
  {
    assert F.Associates(a, b, c);
  }

  lemma Distribute(F: Field, a: bv8, b: bv8, c: bv8)
    requires F.Lawful()
    ensures F.Mul(a, F.Add(b, c)) == F.Add(F.Mul(a, b), F.Mul(a, c))
    ensures F.Mul(F.Add(b, c), a) == F.Add(F.Mul(b, a), F.Mul(c, a))
  {
    assert F.Distributes(a, b, c);
    assert F.Commutes(a, F.Add(b, c)) && F.Commutes(a, b) && F.Commutes(a, c);
  }

  lemma DivMul(F: Field, a: bv8, b: bv8)
    requires F.Lawful() && b != 0
    ensures F.Mul(F.Div(a, b), b) == a && F.Mul(b, F.Div(a, b)) == a
  {
    assert F.Divides(a, b) && F.Commutes(F.Div(a, b), b);
  }

  /** Undoing a multiplication by c with a multiplication by 1/c. */
  lemma MulThenInverse(F: Field, a: bv8, c: bv8)
    requires F.Lawful() && c != 0
    ensures F.Mul(F.Mul(a, c), F.Div(1, c)) == a
  {
    Associate(F, a, c, F.Div(1, c));
    DivMul(F, 1, c);
    MulOne(F, a);
  }

  lemma Cancel(F: Field, a: bv8, b: bv8, c: bv8)
    requires F.Lawful() && c != 0 && F.Mul(a, c) == F.Mul(b, c)
    ensures a == b
  {
    MulThenInverse(F, a, c);
    MulThenInverse(F, b, c);
  }

  lemma NonZeroProduct(F: Field, a: bv8, b: bv8)
    requires F.Lawful() && a != 0 && b != 0
    ensures F.Mul(a, b) != 0
  {
    MulZero(F, b);
    if F.Mul(a, b) == 0 {
      Cancel(F, a, 0, b);
    }
  }

  /** A quotient is whatever multiplies back to the dividend. */
  lemma DivIs(F: Field, a: bv8, b: bv8, q: bv8)
    requires F.Lawful() && b != 0 && F.Mul(q, b) == a
    ensures F.Div(a, b) == q
  {
    DivMul(F, a, b);
    Cancel(F, F.Div(a, b), q, b);
  }

  lemma NonZeroQuotient(F: Field, a: bv8, b: bv8)
    requires F.Lawful() && a != 0 && b != 0
    ensures F.Div(a, b) != 0
  {
    DivMul(F, a, b);
    MulZero(F, b);
  }

  /** Dividing is multiplying by the entry of the inverse table. */
  lemma DivByInverse(F: Field, a: bv8, b: bv8)
    requires F.Lawful() && b != 0
    ensures F.Mul(a, F.Div(1, b)) == F.Div(a, b)
  {
    Associate(F, a, F.Div(1, b), b);
    DivMul(F, 1, b);
    MulOne(F, a);
    DivIs(F, a, b, F.Mul(a, F.Div(1, b)));
  }

  lemma DivDistributes(F: Field, a: bv8, b: bv8, c: bv8)
    requires F.Lawful() && c != 0
    ensures F.Div(F.Add(a, b), c) == F.Add(F.Div(a, c), F.Div(b, c))
  {
    Distribute(F, c, F.Div(a, c), F.Div(b, c));
    DivMul(F, a, c);
    DivMul(F, b, c);
    DivIs(F, F.Add(a, b), c, F.Add(F.Div(a, c), F.Div(b, c)));
  }

  /** The two ways of pairing four factors. */
  lemma Exchange(F: Field, a: bv8, b: bv8, c: bv8, d: bv8)
    requires F.Lawful()
    ensures F.Mul(F.Mul(a, b), F.Mul(c, d)) == F.Mul(F.Mul(a, c), F.Mul(b, d))
  {
    Associate(F, a, b, F.Mul(c, d));
    Associate(F, b, c, d);
    Commute(F, b, c);
    Associate(F, c, b, d);
    Associate(F, a, c, F.Mul(b, d));
  }

  /** Moving a factor past its neighbour. */
  lemma SwapLast(F: Field, a: bv8, b: bv8, c: bv8)
    requires F.Lawful()
    ensures F.Mul(F.Mul(a, b), c) == F.Mul(F.Mul(a, c), b)
  {
    Associate(F, a, b, c);
    Commute(F, b, c);
    Associate(F, a, c, b);
  }

  lemma ProductOfQuotients(F: Field, a: bv8, b: bv8, c: bv8, d: bv8)
    requires F.Lawful() && b != 0 && d != 0
    ensures F.Mul(b, d) != 0
    ensures F.Mul(F.Div(a, b), F.Div(c, d)) == F.Div(F.Mul(a, c), F.Mul(b, d))
  {
    NonZeroProduct(F, b, d);
    Exchange(F, F.Div(a, b), F.Div(c, d), b, d);
    DivMul(F, a, b);
    DivMul(F, c, d);
    DivIs(F, F.Mul(a, c), F.Mul(b, d), F.Mul(F.Div(a, b), F.Div(c, d)));
  }
}
