/** Numbers: the parser takes just what the grammar has, and gives its meaning. */
module JsonNumbers {
  import opened JsonGrammar
  import opened JsonMachine

  // ----- Digits

  lemma {:induction false} SkipDigitsSplits(s: Text) returns (digits: Text)
    ensures AllDigits(digits) && s == digits + SkipDigits(s)
    ensures IsDigit(Peek(s)) ==> digits != []
  {
    if IsDigit(Peek(s)) {
      var more := SkipDigitsSplits(s[1..]);
      digits := [s[0]] + more;
    } else {
      digits := [];
    }
  }

  lemma {:induction false} SkipsDigits(digits: Text, s: Text)
    requires AllDigits(digits) && !IsDigit(Peek(s))
    ensures SkipDigits(digits + s) == s
  {
    if digits == [] {
      assert digits + s == s;
    } else {
      assert (digits + s)[1..] == digits[1..] + s;
      SkipsDigits(digits[1..], s);
    }
  }

  // ----- Numbers are read soundly

  function Sign(minus: bool): Text {
    if minus then [MINUS] else []
  }

  lemma ConsumedPrefix(p: Text, b: Text)
    ensures Consumed(p + b, b) == p
  {
  }

  lemma HeadFirst(s: Text, a: Text, b: Text)
    requires s != [] && s[1..] == a + b
    ensures s == [s[0]] + a + b
  {
    assert s == [s[0]] + s[1..];
    Associate([s[0]], a, b);
  }

  lemma IntegerSound(s: Text, a: Text) returns (digits: Text, b: Text)
    requires |a| <= |s| && Unsigned(s, a).Done?
    ensures a == digits + b && IsInteger(digits) && |b| < |s|
    ensures Unsigned(s, a) == AfterInteger(s, b)
  {
    if Peek(a) == 0x30 {
      digits, b := [a[0]], a[1..];
    } else {
      var more := SkipDigitsSplits(a[1..]);
      digits, b := [a[0]] + more, SkipDigits(a[1..]);
    }
  }

  /** Either the parser makes an int of what it has read, or it goes on behind the fraction. */
  lemma FractionSound(s: Text, b: Text) returns (frac: Text, c: Text)
    requires |b| < |s| && AfterInteger(s, b).Done?
    ensures b == frac + c && |c| < |s| && IsFraction(frac)
    ensures IsShortInt(s, b) <==> AfterInteger(s, b) == Done(Int(Atoi(Consumed(s, b))), b)
    ensures frac == [] ==> Peek(b) != POINT
    ensures IsShortInt(s, b) ==> frac == []
    ensures !IsShortInt(s, b) ==> AfterInteger(s, b) == AfterFraction(s, c)
  {
    if Peek(b) == POINT {
      var digits := SkipDigitsSplits(b[1..]);
      frac, c := [POINT] + digits, SkipDigits(b[1..]);
      assert frac[1..] == digits;
    } else {
      frac, c := [], b;
    }
  }

  predicate IsShortInt(s: Text, b: Text) {
    Peek(b) != POINT && Peek(b) != SMALL_E && Peek(b) != CAPITAL_E && |s| - |b| <= 9
  }

  lemma ExponentSound(s: Text, c: Text) returns (exp: Text)
    requires |c| < |s| && AfterFraction(s, c).Done?
    ensures c == exp + AfterFraction(s, c).rest && IsExponent(exp)
    ensures exp == [] ==> Peek(c) != SMALL_E && Peek(c) != CAPITAL_E
    ensures AfterFraction(s, c).value == Double(Consumed(s, AfterFraction(s, c).rest))
  {
    if Peek(c) == SMALL_E || Peek(c) == CAPITAL_E {
      if Peek(c[1..]) == PLUS || Peek(c[1..]) == MINUS {
        assert c == c[..2] + c[2..];
        exp := ExponentDigits(c[..2], c[2..]);
      } else {
        assert c == c[..1] + c[1..];
        exp := ExponentDigits(c[..1], c[1..]);
      }
    } else {
      exp := [];
    }
  }

  lemma ExponentDigits(head: Text, d: Text) returns (exp: Text)
    requires 1 <= |head| <= 2 && (head[0] == SMALL_E || head[0] == CAPITAL_E)
    requires |head| == 2 ==> head[1] == PLUS || head[1] == MINUS
    requires IsDigit(Peek(d))
    ensures IsExponent(exp) && exp != [] && head + d == exp + SkipDigits(d)
  {
    var digits := SkipDigitsSplits(d);
    exp := head + digits;
    Associate(head, digits, SkipDigits(d));
    HeadAndDigits(head, digits);
  }

  lemma HeadAndDigits(head: Text, digits: Text)
    requires 1 <= |head| <= 2 && (head[0] == SMALL_E || head[0] == CAPITAL_E)
    requires |head| == 2 ==> head[1] == PLUS || head[1] == MINUS
    requires digits != [] && AllDigits(digits)
    ensures IsExponent(head + digits)
  {
    var exp := head + digits;
    assert exp[1..] == head[1..] + digits;
    assert |head| == 2 ==> exp[1..][1..] == digits;
  }

  lemma AtoiMeaning(minus: bool, digits: Text)
    requires digits != [] && AllDigits(digits)
    ensures Atoi(Sign(minus) + digits) == if minus then -Decimal(digits) else Decimal(digits)
  {
    var text := Sign(minus) + digits;
    if minus {
      assert text[1..] == digits;
    } else {
      assert text == digits;
    }
  }

  lemma ShortIntMeaning(minus: bool, digits: Text)
    requires IsInteger(digits) && |Sign(minus) + digits| <= 9
    ensures var n := Number(minus, digits, [], []);
            WfNumber(n) && YieldNumber(n) == Sign(minus) + digits
            && MeaningNumber(n) == Int(Atoi(Sign(minus) + digits))
  {
    AtoiMeaning(minus, digits);
    assert Sign(minus) + digits + [] + [] == Sign(minus) + digits;
  }

  /** What the parser takes for a number is one, and gets its meaning. */
  lemma NumSound(s: Text) returns (n: Number)
    requires s != [] && (s[0] == MINUS || IsDigit(s[0])) && Num(s).Done?
    ensures WfNumber(n) && s == YieldNumber(n) + Num(s).rest && Num(s).value == MeaningNumber(n)
  {
    var minus := s[0] == MINUS;
    var a := if minus then s[1..] else s;
    var digits, b := IntegerSound(s, a);
    SignFirst(s, minus, digits, b);
    n := AfterIntegerSound(s, minus, digits, b);
  }

  lemma SignFirst(s: Text, minus: bool, digits: Text, b: Text)
    requires s != [] && (if minus then s[0] == MINUS && s[1..] == digits + b else s == digits + b)
    ensures s == Sign(minus) + digits + b
  {
    if minus {
      HeadFirst(s, digits, b);
    } else {
      assert [] + digits == digits;
    }
  }

  lemma AfterIntegerSound(s: Text, minus: bool, digits: Text, b: Text) returns (n: Number)
    requires s == Sign(minus) + digits + b && IsInteger(digits) && AfterInteger(s, b).Done?
    ensures WfNumber(n) && s == YieldNumber(n) + AfterInteger(s, b).rest && AfterInteger(s, b).value == MeaningNumber(n)
  {
    var frac, c := FractionSound(s, b);
    if IsShortInt(s, b) {
      n := Number(minus, digits, [], []);
      ConsumedPrefix(Sign(minus) + digits, b);
      ShortIntMeaning(minus, digits);
    } else {
      var exp := ExponentSound(s, c);
      n := DoubleSound(s, minus, digits, frac, exp, b, c, AfterFraction(s, c).rest);
    }
  }

  lemma DoubleSound(s: Text, minus: bool, digits: Text, frac: Text, exp: Text, b: Text, c: Text, rest: Text)
    returns (n: Number)
    requires IsInteger(digits) && IsFraction(frac) && IsExponent(exp)
    requires s == Sign(minus) + digits + b && b == frac + c && c == exp + rest
    requires !IsShortInt(s, b)
    requires frac == [] ==> Peek(b) != POINT
    requires exp == [] ==> Peek(c) != SMALL_E && Peek(c) != CAPITAL_E
    ensures WfNumber(n) && s == YieldNumber(n) + rest && MeaningNumber(n) == Double(Consumed(s, rest))
  {
    n := Number(minus, digits, frac, exp);
    Parts(Sign(minus) + digits, frac, exp, rest);
    ConsumedPrefix(YieldNumber(n), rest);
    IsLong(s, n, b, c, rest);
  }

  lemma Parts(a: Text, b: Text, c: Text, d: Text)
    ensures a + (b + (c + d)) == a + b + c + d
  {
    Associate(a, b, c + d);
    Associate(a + b, c, d);
  }

  /** Without fraction and exponent it has too many characters. */
  lemma IsLong(s: Text, n: Number, b: Text, c: Text, rest: Text)
    requires s == YieldNumber(n) + rest && b == n.frac + c && c == n.exp + rest && !IsShortInt(s, b)
    requires n.frac == [] ==> Peek(b) != POINT
    requires n.exp == [] ==> Peek(c) != SMALL_E && Peek(c) != CAPITAL_E
    ensures MeaningNumber(n) == Double(YieldNumber(n))
  {
    if n.frac == [] && n.exp == [] {
      assert b == c == rest;
    }
  }

  // ----- Every number is read

  /** What may come behind a value: nothing that could go on with a number. */
  predicate Follow(t: Text) {
    !IsDigit(Peek(t)) && Peek(t) != POINT && Peek(t) != SMALL_E && Peek(t) != CAPITAL_E
  }

  lemma IntegerComplete(s: Text, digits: Text, b: Text)
    requires IsInteger(digits) && !IsDigit(Peek(b)) && |digits + b| <= |s|
    ensures Unsigned(s, digits + b) == AfterInteger(s, b)
  {
    var a := digits + b;
    assert a[1..] == digits[1..] + b;
    SkipsDigits(digits[1..], b);
    if digits[0] == 0x30 {
      assert a[1..] == b;
    }
  }

  lemma FractionComplete(s: Text, frac: Text, c: Text)
    requires IsFraction(frac) && !IsDigit(Peek(c)) && |frac + c| < |s| && Peek(c) != POINT
    requires !IsShortInt(s, frac + c)
    ensures AfterInteger(s, frac + c) == AfterFraction(s, c)
  {
    var b := frac + c;
    if frac != [] {
      assert b[1..] == frac[1..] + c;
      SkipsDigits(frac[1..], c);
    } else {
      assert b == c;
    }
  }

  lemma ExponentComplete(s: Text, exp: Text, t: Text)
    requires IsExponent(exp) && Follow(t) && |exp + t| < |s|
    ensures AfterFraction(s, exp + t) == Done(Double(Consumed(s, t)), t)
  {
    var c := exp + t;
    if exp == [] {
      assert c == t;
    } else {
      var signed := exp[1] == PLUS || exp[1] == MINUS;
      var digits := if signed then exp[2..] else exp[1..];
      assert exp[1..][0] == exp[1];
      assert signed ==> exp[1..][1..] == exp[2..];
      assert c[1..][0] == exp[1];
      assert (if signed then c[2..] else c[1..]) == digits + t;
      SkipsDigits(digits, t);
    }
  }

  lemma ShortIntComplete(minus: bool, digits: Text, t: Text)
    requires IsInteger(digits) && Follow(t) && |Sign(minus) + digits| <= 9
    ensures AfterInteger(Sign(minus) + digits + t, t) == Done(MeaningNumber(Number(minus, digits, [], [])), t)
  {
    ConsumedPrefix(Sign(minus) + digits, t);
    ShortIntMeaning(minus, digits);
  }

  lemma DoubleComplete(text: Text, frac: Text, exp: Text, t: Text)
    requires IsFraction(frac) && IsExponent(exp) && Follow(t)
    requires |frac + exp| < |text| && text[|text| - |frac + exp|..] == frac + exp
    requires frac != [] || exp != [] || |text| > 9
    ensures AfterInteger(text + t, frac + (exp + t)) == Done(Double(text), t)
  {
    var b := frac + (exp + t);
    FractionComplete(text + t, frac, exp + t);
    ExponentComplete(text + t, exp, t);
    ConsumedPrefix(text, t);
  }

  lemma AfterIntegerComplete(s: Text, n: Number, t: Text)
    requires WfNumber(n) && Follow(t) && s == YieldNumber(n) + t
    ensures AfterInteger(s, n.frac + (n.exp + t)) == Done(MeaningNumber(n), t)
  {
    var b := n.frac + (n.exp + t);
    if n.frac == [] && n.exp == [] && |YieldNumber(n)| <= 9 {
      var text := Sign(n.minus) + n.digits;
      assert b == t;
      assert YieldNumber(n) == text;
      ShortIntComplete(n.minus, n.digits, t);
    } else {
      DoubleComplete(YieldNumber(n), n.frac, n.exp, t);
    }
  }

  lemma DigitsEnd(frac: Text, exp: Text, t: Text)
    requires IsFraction(frac) && IsExponent(exp) && Follow(t)
    ensures !IsDigit(Peek(frac + (exp + t)))
  {
  }

  lemma NumStarts(minus: bool, a: Text)
    requires IsDigit(Peek(a))
    ensures var s := Sign(minus) + a;
            s != [] && (s[0] == MINUS || IsDigit(s[0])) && Num(s) == Unsigned(s, a)
  {
    var s := Sign(minus) + a;
    assert minus ==> s[1..] == a;
    assert !minus ==> s == a;
  }

  /** Every number is read to its end, with its meaning. */
  lemma NumComplete(n: Number, t: Text)
    requires WfNumber(n) && Follow(t)
    ensures var s := YieldNumber(n) + t;
            s != [] && (s[0] == MINUS || IsDigit(s[0])) && Num(s) == Done(MeaningNumber(n), t)
  {
    var s := YieldNumber(n) + t;
    var b := n.frac + (n.exp + t);
    Parts(Sign(n.minus) + n.digits, n.frac, n.exp, t);
    Associate(Sign(n.minus), n.digits, b);
    NumStarts(n.minus, n.digits + b);
    DigitsEnd(n.frac, n.exp, t);
    IntegerComplete(s, n.digits, b);
    AfterIntegerComplete(s, n, t);
  }
}
