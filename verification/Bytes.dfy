/** Bytes and their values. Conversions between the two are reasoned about here only. */
module Bytes {

  /** The byte with value i. */
  function Byte(i: nat): bv8
    requires i < 256
  {
    if i == 0 then 0 else Byte(i - 1) + 1
  }

  function Value(a: bv8): (i: nat)
    ensures i < 256
  {
    a as nat
  }

  lemma NextValue(a: bv8)
    requires a != 255
    ensures Value(a + 1) == Value(a) + 1
  {
  }

  lemma LastValue(a: bv8)
    requires Value(a) < 255
    ensures a != 255
  {
  }

  lemma ByteAfter(i: nat)
    requires i < 255
    ensures Byte(i + 1) == Byte(i) + 1
  {
  }

  lemma {:induction false} ValueByte(i: nat)
    requires i < 256
    ensures Value(Byte(i)) == i
  {
    if i > 0 {
      ValueByte(i - 1);
      ByteAfter(i - 1);
      var a := Byte(i - 1);
      LastValue(a);
      NextValue(a);
    }
  }

  lemma SameValue(a: bv8, b: bv8)
    requires Value(a) == Value(b)
    ensures a == b
  {
  }

  lemma ByteValue(a: bv8)
    ensures Byte(Value(a)) == a
  {
    ValueByte(Value(a));
    SameValue(Byte(Value(a)), a);
  }

  lemma SameByte(i: nat, j: nat)
    requires i < 256 && j < 256
    ensures Byte(i) == Byte(j) <==> i == j
  {
    ValueByte(i);
    ValueByte(j);
  }
}
