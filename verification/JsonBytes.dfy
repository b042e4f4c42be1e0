/** Byte by byte: what is printed for each byte, what each escape is read as, and how deep is too deep. */
module JsonBytes {
  import opened JsonGrammar
  import opened JsonMachine
  import opened JsonDump
  import JsonComplete

  // ----- What is printed

  /** A hexadecimal digit in small letters. */
  function Nibble(n: nat): byte
    requires n < 16
  {
    if n <= 9 then 48 + n else 97 + (n - 10)
  }

  /** How a byte of a string is printed; 92 is the backslash, 34 the quote. */
  function PrintedByte(b: byte): Text {
    if b == 34 then [92, 34]
    else if b == 92 then [92, 92]
    else if b == 8 then [92, 98]
    else if b == 9 then [92, 116]
    else if b == 10 then [92, 110]
    else if b == 12 then [92, 102]
    else if b == 13 then [92, 114]
    else if b < 32 then [92, 117, 48, 48, 48 + b / 16, Nibble(b % 16)]
    else [b]
  }

  /** U+2028 and U+2029 in UTF-8, E2 80 A8 and E2 80 A9. */
  predicate IsSeparator(s: Text) {
    |s| >= 3 && s[..2] == [226, 128] && (s[2] == 168 || s[2] == 169)
  }

  /** What is printed for a string between its quotes. */
  function Printed(s: Text): Text {
    if s == [] then []
    else if IsSeparator(s) then [92, 117, 50, 48, 50, if s[2] == 168 then 56 else 57] + Printed(s[3..])
    else PrintedByte(s[0]) + Printed(s[1..])
  }

  lemma FirstPrinted(s: Text)
    requires s != []
    ensures StartsSeparator(s) <==> IsSeparator(s)
    ensures YieldChar(FirstChar(s)) ==
            if IsSeparator(s) then [92, 117, 50, 48, 50, if s[2] == 168 then 56 else 57] else PrintedByte(s[0])
  {
    if |s| >= 3 {
      assert s[..2] == [s[0], s[1]];
    }
  }

  /** A string is printed between quotes, byte by byte as above. */
  lemma StringPrinted(s: Text)
    ensures StringText(s) == [34] + Printed(s) + [34]
  {
    CharsPrinted(s);
  }

  lemma {:induction false} CharsPrinted(s: Text)
    ensures YieldChars(Chars(s)) == Printed(s)
    decreases |s|
  {
    if s != [] {
      var rest := s[FirstWidth(s)..];
      FirstPrinted(s);
      CharsPrinted(rest);
      assert Chars(s)[1..] == Chars(rest);
    }
  }

  /** The elements of an array are set off by a comma and a space; the three words are as they should be. */
  lemma TwoItems(v: Json, w: Json)
    requires Printable(v) && Printable(w)
    ensures Dumped(Array([v, w])) == [91] + Dumped(v) + [44, 32] + Dumped(w) + [93]
    ensures Dumped(Null) == [110, 117, 108, 108] && Dumped(Bool(true)) == [116, 114, 117, 101]
    ensures Dumped(Bool(false)) == [102, 97, 108, 115, 101]
  {
    assert [v, w][1..] == [w] && [w][1..] == [];
    assert ItemsText([w], false) == [44, 32] + (Dumped(w) + ItemsText([], false));
    assert ItemsText([v, w], true) == [] + (Dumped(v) + ItemsText([w], false));
    Regroup(Dumped(v), Dumped(w));
  }

  lemma Regroup(v: Text, w: Text)
    ensures [91] + ([] + (v + ([44, 32] + (w + [])))) + [93] == [91] + v + [44, 32] + w + [93]
  {
  }

  // ----- What is read

  lemma OneShort(letter: byte, rest: seq<Char>)
    requires WfChar(Short(letter)) && WfChars(rest)
    ensures WfChars([Short(letter)] + rest)
    ensures MeaningChars([Short(letter)] + rest) == [ShortMeaning(letter)] + MeaningChars(rest)
    ensures YieldChars([Short(letter)] + rest) == [92, letter] + YieldChars(rest)
  {
    assert ([Short(letter)] + rest)[1..] == rest;
  }

  /** The text of letters, each behind a backslash. */
  function Escaped(letters: Text): Text {
    if letters == [] then [] else [92, letters[0]] + Escaped(letters[1..])
  }

  /** The byte that a letter stands for. */
  function Letter(b: byte): byte {
    if b == 98 then 8
    else if b == 102 then 12
    else if b == 110 then 10
    else if b == 114 then 13
    else if b == 116 then 9
    else b
  }

  function Letters(s: Text): (r: Text)
    ensures |r| == |s|
  {
    seq(|s|, k requires 0 <= k < |s| => Letter(s[k]))
  }

  predicate AllLetters(s: Text) {
    forall k | 0 <= k < |s| :: s[k] in {34, 92, 47, 98, 102, 110, 114, 116}
  }

  function Shorts(letters: Text): (cs: seq<Char>)
    ensures |cs| == |letters|
  {
    seq(|letters|, k requires 0 <= k < |letters| => Short(letters[k]))
  }

  lemma {:induction false} ShortsMean(letters: Text)
    requires AllLetters(letters)
    ensures WfChars(Shorts(letters)) && YieldChars(Shorts(letters)) == Escaped(letters)
    ensures MeaningChars(Shorts(letters)) == Letters(letters)
    decreases |letters|
  {
    if letters != [] {
      var rest := letters[1..];
      ShortsMean(rest);
      OneShort(letters[0], Shorts(rest));
      assert Shorts(letters) == [Short(letters[0])] + Shorts(rest);
      assert Letters(letters) == [Letter(letters[0])] + Letters(rest);
    } else {
      assert Shorts(letters) == [] && Letters(letters) == [];
    }
  }

  /** In both modes a string of escapes by letters is read as the bytes these stand for. */
  lemma EscapesRead(letters: Text, comments: bool)
    requires AllLetters(letters)
    ensures Parse([34] + Escaped(letters) + [34], comments) == Done(String(Letters(letters)), [])
  {
    ShortsMean(letters);
    JsonComplete.ValueAlone(TString(Shorts(letters)), comments);
  }

  // ----- How deep

  /** So many brackets, all opened before one is closed. */
  function Brackets(n: nat): Text {
    if n == 0 then [] else [91] + Brackets(n - 1) + [93]
  }

  function Nested(n: nat): Tree {
    if n == 0 then TEmptyArray([]) else TArray([], LastItem(Nested(n - 1), []))
  }

  lemma {:induction false} NestedBrackets(n: nat, comments: bool)
    ensures WfIn(Nested(n), comments) && Yield(Nested(n)) == Brackets(n + 1) && Depth(Nested(n)) == n
  {
    assert YieldGap([]) == [];
    if n > 0 {
      NestedBrackets(n - 1, comments);
      Enclosed(Brackets(n));
    } else {
      assert Brackets(1) == [91] + [] + [93];
    }
  }

  lemma Enclosed(body: Text)
    ensures [91] + [] + (body + [] + [93]) == [91] + body + [93]
  {
  }

  /** Arrays in each other are read if and only if they are 201 at most. */
  lemma NestedArrays(n: nat, comments: bool)
    requires n >= 1
    ensures Parse(Brackets(n), comments).Done? <==> n <= 201
    ensures n > 201 ==> Parse(Brackets(n), comments) == Failed(TooDeep)
  {
    NestedBrackets(n - 1, comments);
    JsonComplete.ValueAlone(Nested(n - 1), comments);
  }
}
