/** When a string that was read is UTF-8: its text must be, and no escape may be half of a pair. */
module JsonUtf8 {
  import opened JsonGrammar
  import opened JsonMachine
  import opened JsonStrings

  /** UTF-8 for some code points. */
  ghost predicate IsText(s: Text) {
    exists ps :: IsUtf8(s, ps)
  }

  predicate WellFormed(s: Text) {
    s == [] || (DecodeFirst(s).Point? && WellFormed(s[DecodeFirst(s).length..]))
  }

  lemma {:induction false} WellFormedIff(s: Text)
    ensures WellFormed(s) <==> IsText(s)
    decreases |s|
  {
    if s == [] {
      assert IsUtf8(s, []);
    } else if DecodeFirst(s).Point? {
      var d := DecodeFirst(s);
      WellFormedIff(s[d.length..]);
      if WellFormed(s) {
        var qs :| IsUtf8(s[d.length..], qs);
        assert ([d.point] + qs)[1..] == qs;
        assert IsUtf8(s, [d.point] + qs);
      }
      forall ps | IsUtf8(s, ps) ensures WellFormed(s) {
        assert IsUtf8(s[d.length..], ps[1..]);
      }
    }
  }

  /** No escape is a first half without a second one, or a second half without a first one. */
  predicate NoLone(cs: seq<Char>)
    requires WfChars(cs)
  {
    if cs == [] then true
    else if StartsPair(cs) then NoLone(cs[2..])
    else (cs[0].Unicode? ==> IsScalar(HexValue(cs[0].hex))) && NoLone(cs[1..])
  }

  predicate StartsFresh(s: Text) {
    s == [] || !IsTail(s[0])
  }

  /** What comes after the first byte of a character can not be taken from a text that starts a character. */
  lemma FirstSame(p: Text, t: Text)
    requires p != [] && StartsFresh(t)
    ensures DecodeFirst(p + t) == DecodeFirst(p)
  {
    var s := p + t;
    assert s[0] == p[0];
    if |p| >= 2 {
      assert s[1] == p[1];
    }
    if |p| >= 3 {
      assert s[2] == p[2];
    }
    if |p| >= 4 {
      assert s[3] == p[3];
    }
    if |p| < 4 && t != [] {
      assert s[|p|] == t[0];
    }
  }

  lemma {:induction false} Joined(p: Text, t: Text)
    requires StartsFresh(t)
    ensures WellFormed(p + t) <==> WellFormed(p) && WellFormed(t)
    decreases |p|
  {
    if p == [] {
      assert p + t == t;
    } else {
      FirstSame(p, t);
      var d := DecodeFirst(p);
      if d.Point? {
        assert (p + t)[d.length..] == p[d.length..] + t;
        Joined(p[d.length..], t);
      }
    }
  }

  lemma {:induction false} AfterAscii(a: Text, s: Text)
    requires forall k | 0 <= k < |a| :: a[k] < 0x80
    ensures WellFormed(a + s) <==> WellFormed(s)
    decreases |a|
  {
    if a == [] {
      assert a + s == s;
    } else {
      assert (a + s)[0] == a[0] && (a + s)[1..] == a[1..] + s;
      AfterAscii(a[1..], s);
    }
  }

  lemma AfterPoint(p: int, s: Text)
    requires 0 <= p < 0x110000
    ensures WellFormed(Utf8(p) + s) <==> IsScalar(p) && WellFormed(s)
    ensures StartsFresh(Utf8(p) + s)
  {
    assert (Utf8(p) + s)[0] == Utf8(p)[0];
    if IsScalar(p) {
      DecodeEncoded(p, s);
      assert (Utf8(p) + s)[|Utf8(p)|..] == s;
    } else {
      SurrogateMalformed(p, s);
    }
  }

  /** The text of an escape is ASCII. */
  lemma EscapeAscii(c: Char, s: Text)
    requires WfChar(c) && !c.Plain?
    ensures WellFormed(YieldChar(c) + s) <==> WellFormed(s)
    ensures StartsFresh(YieldChar(c) + s)
  {
    var y := YieldChar(c);
    assert y[0] == BACKSLASH && (y + s)[0] == y[0];
    AfterAscii(y, s);
  }

  lemma ShortFirst(cs: seq<Char>)
    requires WfChars(cs) && cs != [] && cs[0].Short?
    ensures WellFormed(MeaningChars(cs)) <==> WellFormed(MeaningChars(cs[1..]))
    ensures WellFormed(YieldChars(cs)) <==> WellFormed(YieldChars(cs[1..]))
    ensures StartsFresh(MeaningChars(cs)) && StartsFresh(YieldChars(cs))
  {
    var b := ShortMeaning(cs[0].letter);
    AfterAscii([b], MeaningChars(cs[1..]));
    EscapeAscii(cs[0], YieldChars(cs[1..]));
  }

  lemma UnicodeFirst(cs: seq<Char>) returns (rest: seq<Char>)
    requires WfChars(cs) && cs != [] && cs[0].Unicode?
    ensures rest == (if StartsPair(cs) then cs[2..] else cs[1..]) && WfChars(rest)
    ensures WellFormed(MeaningChars(cs)) <==>
            (StartsPair(cs) || IsScalar(HexValue(cs[0].hex))) && WellFormed(MeaningChars(rest))
    ensures WellFormed(YieldChars(cs)) <==> WellFormed(YieldChars(rest))
    ensures StartsFresh(MeaningChars(cs)) && StartsFresh(YieldChars(cs))
  {
    rest := Piece(cs);
    var p := if StartsPair(cs) then Combine(HexValue(cs[0].hex), HexValue(cs[1].hex)) else HexValue(cs[0].hex);
    assert MeaningChars(cs) == Utf8(p) + MeaningChars(rest);
    AfterPoint(p, MeaningChars(rest));
    EscapeAscii(cs[0], YieldChars(cs[1..]));
    if StartsPair(cs) {
      assert cs[1..][1..] == cs[2..];
      EscapeAscii(cs[1], YieldChars(cs[2..]));
    }
  }

  /** Meaning and text agree, with bytes in front that may be the start of a character. */
  predicate Agree(p: Text, cs: seq<Char>)
    requires WfChars(cs)
  {
    WellFormed(p + MeaningChars(cs)) <==> NoLone(cs) && WellFormed(p + YieldChars(cs))
  }

  lemma {:induction false} BehindBytes(p: Text, cs: seq<Char>)
    requires WfChars(cs)
    ensures Agree(p, cs)
    decreases |cs|
  {
    if cs == [] {
    } else if cs[0].Plain? {
      BehindBytes(p + [cs[0].b], cs[1..]);
      PlainFirst(p, cs);
    } else if StartsPair(cs) {
      BehindBytes([], cs[2..]);
      EscapeFirst(p, cs, cs[2..]);
    } else {
      BehindBytes([], cs[1..]);
      EscapeFirst(p, cs, cs[1..]);
    }
  }

  lemma PlainFirst(p: Text, cs: seq<Char>)
    requires WfChars(cs) && cs != [] && cs[0].Plain? && Agree(p + [cs[0].b], cs[1..])
    ensures Agree(p, cs)
  {
    var b := cs[0].b;
    Associate(p, [b], MeaningChars(cs[1..]));
    Associate(p, [b], YieldChars(cs[1..]));
  }

  lemma EscapeFirst(p: Text, cs: seq<Char>, rest: seq<Char>)
    requires WfChars(cs) && cs != [] && !cs[0].Plain? && rest == (if StartsPair(cs) then cs[2..] else cs[1..])
    requires Agree([], rest)
    ensures Agree(p, cs)
  {
    NothingInFront(rest);
    BehindEscape(p, cs);
    if cs[0].Short? {
      ShortFirst(cs);
    } else {
      var _ := UnicodeFirst(cs);
    }
  }

  lemma NothingInFront(cs: seq<Char>)
    requires WfChars(cs)
    ensures [] + MeaningChars(cs) == MeaningChars(cs) && [] + YieldChars(cs) == YieldChars(cs)
  {
  }

  lemma BehindEscape(p: Text, cs: seq<Char>)
    requires WfChars(cs) && cs != [] && !cs[0].Plain?
    ensures WellFormed(p + MeaningChars(cs)) <==> WellFormed(p) && WellFormed(MeaningChars(cs))
    ensures WellFormed(p + YieldChars(cs)) <==> WellFormed(p) && WellFormed(YieldChars(cs))
  {
    if cs[0].Short? {
      ShortFirst(cs);
    } else {
      var _ := UnicodeFirst(cs);
    }
    Joined(p, MeaningChars(cs));
    Joined(p, YieldChars(cs));
  }

  /** What a string means is UTF-8 if and only if its text is, and no escape in it is a lone surrogate. */
  lemma Utf8Iff(cs: seq<Char>)
    requires WfChars(cs)
    ensures IsText(MeaningChars(cs)) <==> NoLone(cs) && IsText(YieldChars(cs))
  {
    BehindBytes([], cs);
    NothingInFront(cs);
    WellFormedIff(MeaningChars(cs));
    WellFormedIff(YieldChars(cs));
  }

  /** The same of what the parser reads. */
  lemma ReadUtf8(s: Text, t: Text, v: Text) returns (cs: seq<Char>)
    requires Str(s, [], -1) == Done(v, t)
    ensures WfChars(cs) && s == YieldChars(cs) + [QUOTE] + t
    ensures IsText(v) <==> NoLone(cs) && IsText(YieldChars(cs))
  {
    StringIff(s, t, v);
    cs :| WfChars(cs) && s == YieldChars(cs) + [QUOTE] + t && v == MeaningChars(cs);
    Utf8Iff(cs);
  }

  /** The first half of a pair alone, as an escape of six ASCII characters, and what is read for it. */
  lemma LoneEscape()
    ensures var s: Text := [BACKSLASH, SMALL_U, 0x64, 0x38, 0x30, 0x30, QUOTE];
            Str(s, [], -1) == Done([0xED, 0xA0, 0x80], []) && IsText(s[..6]) && !IsText([0xED, 0xA0, 0x80])
  {
    var hex: Text := [0x64, 0x38, 0x30, 0x30];
    var s: Text := [BACKSLASH, SMALL_U, 0x64, 0x38, 0x30, 0x30, QUOTE];
    assert HexValue(hex) == 0xD800;
    OneEscape(hex);
    assert s == [BACKSLASH, SMALL_U] + hex + [QUOTE] + [];
    AsciiIsText(s[..6]);
  }

  lemma AsciiIsText(s: Text)
    requires forall k | 0 <= k < |s| :: s[k] < 0x80
    ensures IsText(s)
  {
    AfterAscii(s, []);
    assert s + [] == s;
    WellFormedIff(s);
  }

  /** A string of one escape. */
  lemma OneEscape(hex: Text)
    requires IsHexQuad(hex)
    ensures Str([BACKSLASH, SMALL_U] + hex + [QUOTE] + [], [], -1) == Done(Utf8(HexValue(hex)), [])
    ensures IsText(Utf8(HexValue(hex))) ==> IsScalar(HexValue(hex))
  {
    var cs := [Unicode(hex)];
    assert cs[1..] == [];
    assert YieldChars(cs) == [BACKSLASH, SMALL_U] + hex;
    assert MeaningChars(cs) == Utf8(HexValue(hex));
    StrMeaning(cs, []);
    Utf8Iff(cs);
  }
}
