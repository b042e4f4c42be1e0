/** The printer as it runs: it appends to one output, value by value. */
module JsonPrinter {
  import opened JsonGrammar
  import opened JsonDump

  /** The byte of a string at an index; the terminating zero behind its end. */
  function At(s: Text, i: nat): byte
    requires i <= |s|
  {
    if i < |s| then s[i] else 0
  }

  class Output {
    var text: Text

    constructor ()
      ensures text == []
    {
      text := [];
    }

    method DumpInt(n: int)
      modifies this
      ensures text == old(text) + IntText(n)
    {
      text := text + IntText(n);
    }

    /** One character of a string, or three bytes that encode a separator. */
    method DumpChar(value: Text, i: nat) returns (next: nat)
      requires i < |value|
      modifies this
      ensures next == i + FirstWidth(value[i..])
      ensures text == old(text) + YieldChar(FirstChar(value[i..]))
    {
      var ch := value[i];
      next := i + 1;
      assert |value[i..]| == |value| - i;
      if ch == BACKSLASH {
        text := text + [BACKSLASH, BACKSLASH];
      } else if ch == QUOTE {
        text := text + [BACKSLASH, QUOTE];
      } else if ch == 0x08 {
        text := text + [BACKSLASH, 0x62];
      } else if ch == 0x0C {
        text := text + [BACKSLASH, 0x66];
      } else if ch == 0x0A {
        text := text + [BACKSLASH, 0x6E];
      } else if ch == 0x0D {
        text := text + [BACKSLASH, 0x72];
      } else if ch == 0x09 {
        text := text + [BACKSLASH, 0x74];
      } else if ch <= 0x1F {
        text := text + ([BACKSLASH, SMALL_U] + [0x30, 0x30, HexLetter(ch as int / 16), HexLetter(ch as int % 16)]);
      } else if ch == 0xE2 && At(value, i + 1) == 0x80 && At(value, i + 2) == 0xA8 {
        text := text + ([BACKSLASH, SMALL_U] + [0x32, 0x30, 0x32, 0x38]);
        next := next + 2;
      } else if ch == 0xE2 && At(value, i + 1) == 0x80 && At(value, i + 2) == 0xA9 {
        text := text + ([BACKSLASH, SMALL_U] + [0x32, 0x30, 0x32, 0x39]);
        next := next + 2;
      } else {
        text := text + [ch];
      }
    }

    /** What is printed and what is left to print stay the same together. */
    method DumpNext(value: Text, i: nat) returns (next: nat)
      requires i < |value|
      modifies this
      ensures i < next <= |value|
      ensures text + YieldChars(Chars(value[next..])) == old(text) + YieldChars(Chars(value[i..]))
    {
      next := DumpChar(value, i);
      CharsStep(value, i, old(text));
    }

    method DumpString(value: Text)
      modifies this
      ensures text == old(text) + StringText(value)
    {
      text := text + [QUOTE];
      DumpChars(value);
      text := text + [QUOTE];
      Bracket(old(text), QUOTE, YieldChars(Chars(value)), QUOTE);
    }

    method DumpChars(value: Text)
      modifies this
      ensures text == old(text) + YieldChars(Chars(value))
    {
      var i := 0;
      assert value[0..] == value;
      while i < |value|
        invariant i <= |value|
        invariant text + YieldChars(Chars(value[i..])) == old(text) + YieldChars(Chars(value))
      {
        i := DumpNext(value, i);
      }
      assert text + [] == text;
    }

    /** A value goes to the end of the output. */
    method Dump(value: Json)
      requires Printable(value)
      modifies this
      ensures text == old(text) + Dumped(value)
      decreases value, 3
    {
      match value
      case Null => text := text + NULL_TEXT;
      case Bool(b) => text := text + (if b then TRUE_TEXT else FALSE_TEXT);
      case Int(n) => DumpInt(n);
      case String(s) => DumpString(s);
      case Array(items) => DumpArray(items);
      case Object(entries) => DumpObject(entries);
    }

    method DumpSeparator(first: bool)
      modifies this
      ensures text == old(text) + Separator(first)
    {
      if !first {
        text := text + [COMMA, SPACE];
      }
    }

    method DumpNextItem(values: seq<Json>, k: nat, first: bool)
      requires k < |values| && forall v | v in values :: Printable(v)
      modifies this
      ensures text + ItemsText(values[k + 1..], false) == old(text) + ItemsText(values[k..], first)
      decreases values, 0
    {
      ItemsStep(values, k, first, text);
      DumpSeparator(first);
      assert values[k] in values;
      Dump(values[k]);
    }

    method DumpArray(values: seq<Json>)
      requires forall v | v in values :: Printable(v)
      modifies this
      ensures text == old(text) + ([BEGIN_ARRAY] + ItemsText(values, true) + [END_ARRAY])
      decreases values, 2
    {
      text := text + [BEGIN_ARRAY];
      DumpItems(values);
      text := text + [END_ARRAY];
      Bracket(old(text), BEGIN_ARRAY, ItemsText(values, true), END_ARRAY);
    }

    method DumpItems(values: seq<Json>)
      requires forall v | v in values :: Printable(v)
      modifies this
      ensures text == old(text) + ItemsText(values, true)
      decreases values, 1
    {
      var first := true;
      var k := 0;
      assert values[0..] == values;
      while k < |values|
        invariant k <= |values| && first == (k == 0)
        invariant text + ItemsText(values[k..], first) == old(text) + ItemsText(values, true)
      {
        DumpNextItem(values, k, first);
        first := false;
        k := k + 1;
      }
      assert text + [] == text;
    }

    method DumpNextEntry(values: seq<Entry>, k: nat, first: bool)
      requires k < |values| && forall e | e in values :: Printable(e.value)
      modifies this
      ensures text + EntriesText(values[k + 1..], false) == old(text) + EntriesText(values[k..], first)
      decreases values, 0
    {
      EntriesStep(values, k, first, text);
      DumpSeparator(first);
      assert values[k] in values;
      DumpEntry(values[k]);
    }

    method DumpObject(values: seq<Entry>)
      requires forall e | e in values :: Printable(e.value)
      modifies this
      ensures text == old(text) + ([BEGIN_OBJECT] + EntriesText(values, true) + [END_OBJECT])
      decreases values, 2
    {
      text := text + [BEGIN_OBJECT];
      DumpEntries(values);
      text := text + [END_OBJECT];
      Bracket(old(text), BEGIN_OBJECT, EntriesText(values, true), END_OBJECT);
    }

    method DumpEntries(values: seq<Entry>)
      requires forall e | e in values :: Printable(e.value)
      modifies this
      ensures text == old(text) + EntriesText(values, true)
      decreases values, 1
    {
      var first := true;
      var k := 0;
      assert values[0..] == values;
      while k < |values|
        invariant k <= |values| && first == (k == 0)
        invariant text + EntriesText(values[k..], first) == old(text) + EntriesText(values, true)
      {
        DumpNextEntry(values, k, first);
        first := false;
        k := k + 1;
      }
      assert values[k..] == [];
    }

    /** A key with its value. */
    method DumpEntry(e: Entry)
      requires Printable(e.value)
      modifies this
      ensures text == old(text) + EntryText(e)
      decreases e
    {
      DumpString(e.key);
      text := text + [COLON, SPACE];
      Dump(e.value);
    }
  }

  lemma Bracket(text: Text, open: byte, body: Text, close: byte)
    ensures text + [open] + body + [close] == text + ([open] + body + [close])
  {
  }

  lemma CharsStep(value: Text, i: nat, text: Text)
    requires i < |value|
    ensures var s := value[i..];
            text + YieldChar(FirstChar(s)) + YieldChars(Chars(value[i + FirstWidth(s)..]))
                == text + YieldChars(Chars(s))
  {
    var s := value[i..];
    assert s[FirstWidth(s)..] == value[i + FirstWidth(s)..];
    assert Chars(s)[1..] == Chars(s[FirstWidth(s)..]);
  }

  lemma ItemsStep(values: seq<Json>, k: nat, first: bool, text: Text)
    requires k < |values| && forall v | v in values :: Printable(v)
    ensures text + Separator(first) + Dumped(values[k]) + ItemsText(values[k + 1..], false)
         == text + ItemsText(values[k..], first)
  {
    assert values[k..][1..] == values[k + 1..];
    Behind(text, Separator(first), Dumped(values[k]), ItemsText(values[k + 1..], false));
  }

  lemma Behind(text: Text, a: Text, b: Text, c: Text)
    ensures text + a + b + c == text + (a + (b + c))
  {
    Associate(text, a, b + c);
    Associate(text + a, b, c);
  }

  lemma EntriesStep(values: seq<Entry>, k: nat, first: bool, text: Text)
    requires k < |values| && forall e | e in values :: Printable(e.value)
    ensures text + Separator(first) + EntryText(values[k]) + EntriesText(values[k + 1..], false)
         == text + EntriesText(values[k..], first)
  {
    assert values[k..][1..] == values[k + 1..];
    Behind(text, Separator(first), EntryText(values[k]), EntriesText(values[k + 1..], false));
  }
}
