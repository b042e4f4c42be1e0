/**
 * Strings: the parser's held-back code point gives the same bytes as looking one escape ahead,
 * and what is spelled in escapes comes out as UTF-8.
 */
module JsonStrings {
  import opened JsonGrammar
  import opened JsonMachine

  /** The meaning of a run of characters with a code point held back in front of it. */
  function Held(pending: int, cs: seq<Char>): Text
    requires -1 <= pending < 0x10000 && WfChars(cs)
  {
    if cs != [] && cs[0].Unicode? && IsLead(pending) && IsTrail(HexValue(cs[0].hex)) then
      Utf8(Combine(pending, HexValue(cs[0].hex))) + MeaningChars(cs[1..])
    else Flush(pending) + MeaningChars(cs)
  }

  /** What reading one character adds to the string, and what is held back then. */
  function Absorbed(pending: int, c: Char): Text
    requires -1 <= pending < 0x10000 && WfChar(c)
  {
    match c
    case Plain(b) => Flush(pending) + [b]
    case Short(letter) => Flush(pending) + [ShortMeaning(letter)]
    case Unicode(hex) =>
      if IsLead(pending) && IsTrail(HexValue(hex)) then Utf8(Combine(pending, HexValue(hex))) else Flush(pending)
  }

  function HeldNext(pending: int, c: Char): (p: int)
    requires WfChar(c)
    ensures -1 <= p < 0x10000
  {
    if c.Unicode? && !(IsLead(pending) && IsTrail(HexValue(c.hex))) then HexValue(c.hex) else -1
  }

  /** An escape is held back; a pair is complete with its second half. */
  lemma HoldBack(hex: Text, cs: seq<Char>)
    requires IsHexQuad(hex) && WfChars(cs)
    ensures WfChars([Unicode(hex)] + cs)
    ensures MeaningChars([Unicode(hex)] + cs) == Held(HexValue(hex), cs)
  {
    var all := [Unicode(hex)] + cs;
    assert all[1..] == cs;
    if StartsPair(all) {
      assert all[2..] == cs[1..];
    }
  }

  lemma MeaningCons(c: Char, cs: seq<Char>)
    requires WfChar(c) && WfChars(cs) && !c.Unicode?
    ensures WfChars([c] + cs)
    ensures MeaningChars([c] + cs) == MeaningChar(c) + MeaningChars(cs)
  {
    var all := [c] + cs;
    assert all[1..] == cs;
    assert !StartsPair(all);
  }

  /** What is held back in front of a run is the same before and after reading a character of it. */
  lemma HeldCons(pending: int, c: Char, cs: seq<Char>)
    requires -1 <= pending < 0x10000 && WfChar(c) && WfChars(cs)
    ensures WfChars([c] + cs)
    ensures Held(pending, [c] + cs) == Absorbed(pending, c) + Held(HeldNext(pending, c), cs)
  {
    var all := [c] + cs;
    assert all[1..] == cs;
    if c.Unicode? {
      HoldBack(c.hex, cs);
    } else {
      MeaningCons(c, cs);
      Associate(Flush(pending), MeaningChar(c), MeaningChars(cs));
    }
  }

  /** One step of the parser reads one character. */
  lemma StrStep(c: Char, s: Text, out: Text, pending: int)
    requires -1 <= pending < 0x10000 && WfChar(c)
    ensures Str(YieldChar(c) + s, out, pending) == Str(s, out + Absorbed(pending, c), HeldNext(pending, c))
  {
    var text := YieldChar(c) + s;
    match c
    case Plain(b) =>
      assert text[1..] == s;
      Associate(out, Flush(pending), [b]);
    case Short(letter) =>
      assert text[2..] == s;
      Associate(out, Flush(pending), [ShortMeaning(letter)]);
    case Unicode(hex) =>
      assert text[2..6] == hex;
      assert text[6..] == s;
  }

  /** Every well-formed string is read to its end, with its meaning. */
  lemma {:induction false} StrComplete(cs: seq<Char>, t: Text, out: Text, pending: int)
    requires -1 <= pending < 0x10000 && WfChars(cs)
    ensures Str(YieldChars(cs) + [QUOTE] + t, out, pending) == Done(out + Held(pending, cs), t)
    decreases |cs|
  {
    var s := YieldChars(cs) + [QUOTE] + t;
    if cs == [] {
      assert s[1..] == t;
      assert Held(pending, cs) == Flush(pending);
    } else {
      var c, rest := cs[0], cs[1..];
      var after := YieldChars(rest) + [QUOTE] + t;
      assert s == YieldChar(c) + after;
      assert cs == [c] + rest;
      StrStep(c, after, out, pending);
      HeldCons(pending, c, rest);
      StrComplete(rest, t, out + Absorbed(pending, c), HeldNext(pending, c));
      Associate(out, Absorbed(pending, c), Held(HeldNext(pending, c), rest));
    }
  }

  lemma StrMeaning(cs: seq<Char>, t: Text)
    requires WfChars(cs)
    ensures Str(YieldChars(cs) + [QUOTE] + t, [], -1) == Done(MeaningChars(cs), t)
  {
    StrComplete(cs, t, [], -1);
    assert [] + Held(-1, cs) == MeaningChars(cs);
  }

  /** A string the parser reads starts with a character and goes on with a string it reads, or ends. */
  lemma FirstChar(s: Text, out: Text, pending: int) returns (c: Char, rest: Text)
    requires -1 <= pending < 0x10000
    requires Str(s, out, pending).Done? && s[0] != QUOTE
    ensures WfChar(c) && s == YieldChar(c) + rest
  {
    if s[0] != BACKSLASH {
      c, rest := Plain(s[0]), s[1..];
    } else if s[1] == SMALL_U {
      c, rest := Unicode(s[2..6]), s[6..];
      assert s == [BACKSLASH, SMALL_U] + s[2..6] + s[6..];
    } else {
      c, rest := Short(s[1]), s[2..];
    }
  }

  /** What the parser takes for a string is one. */
  lemma {:induction false} StrSound(s: Text, out: Text, pending: int) returns (cs: seq<Char>)
    requires -1 <= pending < 0x10000
    requires Str(s, out, pending).Done?
    ensures WfChars(cs) && s == YieldChars(cs) + [QUOTE] + Str(s, out, pending).rest
    decreases |s|
  {
    if s[0] == QUOTE {
      cs := [];
    } else {
      var c, rest := FirstChar(s, out, pending);
      StrStep(c, rest, out, pending);
      var more := StrSound(rest, out + Absorbed(pending, c), HeldNext(pending, c));
      cs := [c] + more;
      assert cs[1..] == more;
    }
  }

  /** The parser reads a string exactly where the grammar has one, and gives its meaning. */
  lemma StringIff(s: Text, t: Text, v: Text)
    ensures Str(s, [], -1) == Done(v, t) <==>
            exists cs :: WfChars(cs) && s == YieldChars(cs) + [QUOTE] + t && v == MeaningChars(cs)
  {
    if Str(s, [], -1) == Done(v, t) {
      var cs := StrSound(s, [], -1);
      StrMeaning(cs, t);
    }
    forall cs | WfChars(cs) && s == YieldChars(cs) + [QUOTE] + t && v == MeaningChars(cs)
      ensures Str(s, [], -1) == Done(v, t)
    {
      StrMeaning(cs, t);
    }
  }

  // ----- Escapes and UTF-8

  predicate IsScalar(p: int) {
    0 <= p < 0x110000 && !IsLead(p) && !IsTrail(p)
  }

  predicate AllScalars(ps: seq<int>) {
    forall k | 0 <= k < |ps| :: IsScalar(ps[k])
  }

  function Utf8All(ps: seq<int>): Text
    requires AllScalars(ps)
  {
    if ps == [] then [] else Utf8(ps[0]) + Utf8All(ps[1..])
  }

  /** Escapes that spell code points: one up to 0xFFFF, a pair of surrogates above, section 7 of RFC 8259. */
  predicate Spells(cs: seq<Char>, ps: seq<int>)
    requires WfChars(cs) && AllScalars(ps)
  {
    if ps == [] then cs == []
    else if ps[0] < 0x10000 then
      cs != [] && cs[0].Unicode? && HexValue(cs[0].hex) == ps[0] && Spells(cs[1..], ps[1..])
    else
      && |cs| >= 2 && cs[0].Unicode? && cs[1].Unicode?
      && HexValue(cs[0].hex) == 0xD800 + (ps[0] - 0x10000) / 0x400
      && HexValue(cs[1].hex) == 0xDC00 + (ps[0] - 0x10000) % 0x400
      && Spells(cs[2..], ps[1..])
  }

  lemma {:induction false} SpelledMeaning(cs: seq<Char>, ps: seq<int>)
    requires WfChars(cs) && AllScalars(ps) && Spells(cs, ps)
    ensures MeaningChars(cs) == Utf8All(ps)
    decreases |ps|
  {
    if ps != [] {
      if ps[0] < 0x10000 {
        SpelledMeaning(cs[1..], ps[1..]);
      } else {
        SpelledMeaning(cs[2..], ps[1..]);
        assert Combine(HexValue(cs[0].hex), HexValue(cs[1].hex)) == ps[0];
      }
    }
  }

  /** Code points spelled in escapes are read as their UTF-8 form. */
  lemma EscapesGiveUtf8(cs: seq<Char>, ps: seq<int>, t: Text)
    requires WfChars(cs) && AllScalars(ps) && Spells(cs, ps)
    ensures Str(YieldChars(cs) + [QUOTE] + t, [], -1) == Done(Utf8All(ps), t)
  {
    StrMeaning(cs, t);
    SpelledMeaning(cs, ps);
  }

  // A decoder after the syntax in section 4 of RFC 3629, to say what the encoder's bytes are.

  datatype Decoded = Point(point: int, length: nat) | Malformed

  predicate IsTail(b: byte) {
    0x80 <= b <= 0xBF
  }

  function DecodeFirst(s: Text): (d: Decoded)
    ensures d.Point? ==> IsScalar(d.point) && 1 <= d.length <= |s|
  {
    if |s| >= 1 && s[0] < 0x80 then Point(s[0], 1)
    else if |s| >= 2 && 0xC2 <= s[0] <= 0xDF && IsTail(s[1]) then
      Point((s[0] as int - 0xC0) * 0x40 + (s[1] as int - 0x80), 2)
    else if |s| >= 3 && 0xE0 <= s[0] <= 0xEF && IsTail(s[1]) && IsTail(s[2])
            && (s[0] == 0xE0 ==> s[1] >= 0xA0) && (s[0] == 0xED ==> s[1] <= 0x9F) then
      Point((s[0] as int - 0xE0) * 0x1000 + (s[1] as int - 0x80) * 0x40 + (s[2] as int - 0x80), 3)
    else if |s| >= 4 && 0xF0 <= s[0] <= 0xF4 && IsTail(s[1]) && IsTail(s[2]) && IsTail(s[3])
            && (s[0] == 0xF0 ==> s[1] >= 0x90) && (s[0] == 0xF4 ==> s[1] <= 0x8F) then
      Point((s[0] as int - 0xF0) * 0x40000 + (s[1] as int - 0x80) * 0x1000
            + (s[2] as int - 0x80) * 0x40 + (s[3] as int - 0x80), 4)
    else Malformed
  }

  /** The code points of a UTF-8 text, if it is one. */
  predicate IsUtf8(s: Text, ps: seq<int>)
    decreases |s|
  {
    if s == [] then ps == []
    else
      var d := DecodeFirst(s);
      d.Point? && ps != [] && ps[0] == d.point && IsUtf8(s[d.length..], ps[1..])
  }

  lemma Digits64(p: int)
    requires 0 <= p < 0x110000
    ensures p / 0x40 / 0x40 == p / 0x1000 && p / 0x1000 / 0x40 == p / 0x40000
    ensures p == p / 0x40 * 0x40 + p % 0x40
    ensures p / 0x40 == p / 0x1000 * 0x40 + p / 0x40 % 0x40
    ensures p / 0x1000 == p / 0x40000 * 0x40 + p / 0x1000 % 0x40
  {
  }

  lemma DecodeEncoded(p: int, s: Text)
    requires IsScalar(p)
    ensures DecodeFirst(Utf8(p) + s) == Point(p, |Utf8(p)|)
  {
    if p < 0x80 {
    } else if p < 0x800 {
      DecodeTwo(p / 0x40, p % 0x40, s);
    } else if p < 0x10000 {
      Digits64(p);
      DecodeThree(p / 0x1000, p / 0x40 % 0x40, p % 0x40, s);
    } else {
      Digits64(p);
      DecodeFour(p / 0x40000, p / 0x1000 % 0x40, p / 0x40 % 0x40, p % 0x40, s);
    }
  }

  lemma DecodeTwo(a: nat, b: nat, s: Text)
    requires 2 <= a < 0x20 && b < 0x40
    ensures DecodeFirst([0xC0 + a, 0x80 + b] + s) == Point(a * 0x40 + b, 2)
  {
    var t: Text := [0xC0 + a, 0x80 + b] + s;
    assert t[0] == 0xC0 + a && t[1] == 0x80 + b;
  }

  lemma DecodeThree(a: nat, b: nat, c: nat, s: Text)
    requires a < 0x10 && b < 0x40 && c < 0x40
    requires IsScalar(a * 0x1000 + b * 0x40 + c) && a * 0x40 + b >= 0x20
    ensures DecodeFirst([0xE0 + a, 0x80 + b, 0x80 + c] + s) == Point(a * 0x1000 + b * 0x40 + c, 3)
  {
    var t: Text := [0xE0 + a, 0x80 + b, 0x80 + c] + s;
    assert t[0] == 0xE0 + a && t[1] == 0x80 + b && t[2] == 0x80 + c;
  }

  lemma DecodeFour(a: nat, b: nat, c: nat, d: nat, s: Text)
    requires b < 0x40 && c < 0x40 && d < 0x40
    requires 0x10000 <= a * 0x40000 + b * 0x1000 + c * 0x40 + d < 0x110000
    ensures DecodeFirst([0xF0 + a, 0x80 + b, 0x80 + c, 0x80 + d] + s)
         == Point(a * 0x40000 + b * 0x1000 + c * 0x40 + d, 4)
  {
    var t: Text := [0xF0 + a, 0x80 + b, 0x80 + c, 0x80 + d] + s;
    assert t[0] == 0xF0 + a && t[1] == 0x80 + b && t[2] == 0x80 + c && t[3] == 0x80 + d;
  }

  /** The encoder's bytes are well-formed UTF-8 for just the code points that were put in. */
  lemma {:induction false} EncodedIsUtf8(ps: seq<int>)
    requires AllScalars(ps)
    ensures IsUtf8(Utf8All(ps), ps)
    decreases |ps|
  {
    if ps != [] {
      DecodeEncoded(ps[0], Utf8All(ps[1..]));
      assert Utf8All(ps)[|Utf8(ps[0])|..] == Utf8All(ps[1..]);
      EncodedIsUtf8(ps[1..]);
    }
  }

  lemma {:induction false} CodePointsUnique(s: Text, ps: seq<int>, qs: seq<int>)
    requires IsUtf8(s, ps) && IsUtf8(s, qs)
    ensures ps == qs
    decreases |s|
  {
    if s != [] {
      CodePointsUnique(s[DecodeFirst(s).length..], ps[1..], qs[1..]);
      assert ps == [ps[0]] + ps[1..] && qs == [qs[0]] + qs[1..];
    }
  }

  lemma SurrogateMalformed(p: int, s: Text)
    requires IsLead(p) || IsTrail(p)
    ensures DecodeFirst(Utf8(p) + s) == Malformed
  {
    var t := Utf8(p) + s;
    assert t[0] == 0xE0 + p / 0x1000 && t[1] == 0x80 + p / 0x40 % 0x40;
  }

  lemma CombineScalar(lead: int, trail: int)
    requires IsLead(lead) && IsTrail(trail)
    ensures IsScalar(Combine(lead, trail)) && Combine(lead, trail) >= 0x10000
    ensures lead == 0xD800 + (Combine(lead, trail) - 0x10000) / 0x400
    ensures trail == 0xDC00 + (Combine(lead, trail) - 0x10000) % 0x400
  {
  }

  /** The code point of the first pair or escape. */
  function FirstPoint(cs: seq<Char>): int
    requires WfChars(cs) && cs != [] && cs[0].Unicode?
  {
    if StartsPair(cs) then Combine(HexValue(cs[0].hex), HexValue(cs[1].hex)) else HexValue(cs[0].hex)
  }

  /** Escapes whose bytes are UTF-8 spell the code points those bytes encode. */
  lemma {:induction false} Utf8Spelled(cs: seq<Char>, ps: seq<int>)
    requires WfChars(cs) && (forall c | c in cs :: c.Unicode?)
    requires IsUtf8(MeaningChars(cs), ps)
    ensures AllScalars(ps) && Spells(cs, ps)
    decreases |cs|
  {
    if cs != [] {
      var rest := Piece(cs);
      PointFirst(cs, rest, ps);
      Utf8Spelled(rest, ps[1..]);
      SpellsMore(cs, rest, ps);
    }
  }

  lemma PointFirst(cs: seq<Char>, rest: seq<Char>, ps: seq<int>)
    requires WfChars(cs) && cs != [] && cs[0].Unicode? && rest == (if StartsPair(cs) then cs[2..] else cs[1..])
    requires IsUtf8(MeaningChars(cs), ps)
    ensures ps != [] && ps[0] == FirstPoint(cs) && IsScalar(ps[0]) && IsUtf8(MeaningChars(rest), ps[1..])
  {
    var p := FirstPoint(cs);
    var _ := Piece(cs);
    assert MeaningChars(cs) == Utf8(p) + MeaningChars(rest);
    if IsLead(p) || IsTrail(p) {
      SurrogateMalformed(p, MeaningChars(rest));
    } else {
      DecodeEncoded(p, MeaningChars(rest));
      assert MeaningChars(cs)[|Utf8(p)|..] == MeaningChars(rest);
    }
  }

  lemma SpellsMore(cs: seq<Char>, rest: seq<Char>, ps: seq<int>)
    requires WfChars(cs) && cs != [] && cs[0].Unicode? && rest == (if StartsPair(cs) then cs[2..] else cs[1..])
    requires ps != [] && ps[0] == FirstPoint(cs) && IsScalar(ps[0]) && AllScalars(ps[1..]) && Spells(rest, ps[1..])
    ensures AllScalars(ps) && Spells(cs, ps)
  {
    assert ps == [ps[0]] + ps[1..];
    if StartsPair(cs) {
      CombineScalar(HexValue(cs[0].hex), HexValue(cs[1].hex));
    }
  }

  /** What comes after the first pair or single character. */
  lemma Piece(cs: seq<Char>) returns (rest: seq<Char>)
    requires WfChars(cs) && cs != []
    ensures rest == (if StartsPair(cs) then cs[2..] else cs[1..]) && |rest| < |cs|
    ensures StartsPair(cs) ==> IsScalar(Combine(HexValue(cs[0].hex), HexValue(cs[1].hex)))
    ensures StartsPair(cs) ==> Combine(HexValue(cs[0].hex), HexValue(cs[1].hex)) >= 0x10000
  {
    if StartsPair(cs) {
      CombineScalar(HexValue(cs[0].hex), HexValue(cs[1].hex));
      rest := cs[2..];
    } else {
      rest := cs[1..];
    }
  }

  /** A string of escapes comes out as UTF-8 just when it spells code points, that is, without a lone surrogate. */
  lemma SpelledIff(cs: seq<Char>, ps: seq<int>)
    requires WfChars(cs) && (forall c | c in cs :: c.Unicode?)
    ensures IsUtf8(MeaningChars(cs), ps) <==> AllScalars(ps) && Spells(cs, ps)
  {
    if IsUtf8(MeaningChars(cs), ps) {
      Utf8Spelled(cs, ps);
    }
    if AllScalars(ps) && Spells(cs, ps) {
      SpelledMeaning(cs, ps);
      EncodedIsUtf8(ps);
    }
  }
}
