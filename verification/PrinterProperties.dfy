/** Reading a printed string back (gtest-printers.cc). */
module PrinterProperties {
  import opened CStrings
  import opened Hexadecimal
  import opened Printers

  // ----- escape sequences -----

  /** `rest` does not continue a hexadecimal escape sequence. */
  predicate EndsHex(rest: string) {
    rest == [] || !IsXDigit(rest[0] as nat)
  }

  predicate EndsOctal(rest: string) {
    rest == [] || !IsOctal(rest[0] as nat)
  }

  lemma {:induction false} HexRunOf(digits: string, rest: string)
    requires (forall i :: 0 <= i < |digits| ==> IsXDigit(digits[i] as nat)) && EndsHex(rest)
    ensures HexRun(digits + rest) == |digits|
  {
    if digits == [] {
      assert digits + rest == rest;
    } else {
      assert (digits + rest)[1..] == digits[1..] + rest;
      HexRunOf(digits[1..], rest);
    }
  }

  lemma HexElement(quote: char, c: nat, max: nat, rest: string)
    requires c <= max && EndsHex(rest) && (quote == '"' || quote == '\'')
    ensures ReadElement(quote, max, ['\\', 'x'] + Hex(c) + rest) == Some(Element(c, 2 + |Hex(c)|))
  {
    var t := ['\\', 'x'] + Hex(c) + rest;
    assert t[2..] == Hex(c) + rest;
    HexRunOf(Hex(c), rest);
    assert t[2..][..|Hex(c)|] == Hex(c);
    HexValueOf(c);
  }

  lemma NulElement(quote: char, max: nat, rest: string)
    requires EndsOctal(rest) && (quote == '"' || quote == '\'')
    ensures ReadElement(quote, max, ['\\', '0'] + rest) == Some(Element(0, 2))
  {
    var t := ['\\', '0'] + rest;
    assert t[1..] == ['0'] + rest;
    assert t[1..][..1] == ['0'];
    assert OctalValue(['0']) == 0 by {
      assert ['0'][..0] == [];
      assert OctalValue([]) == 0;
    }
  }

  /** A printed character of a character literal reads as itself, if what follows is no part of it. */
  lemma CharLiteralReads(c: nat, max: nat, rest: string)
    requires c <= max && (CharLiteral(c).1 == HexEscape ==> EndsHex(rest)) && (c == 0 ==> EndsOctal(rest))
    ensures ReadElement('\'', max, CharLiteral(c).0 + rest) == Some(Element(c, |CharLiteral(c).0|))
    ensures c != 0x22 ==> ReadElement('"', max, CharLiteral(c).0 + rest) == Some(Element(c, |CharLiteral(c).0|))
  {
    if c == 0 {
      NulElement('\'', max, rest);
      NulElement('"', max, rest);
    } else if CharLiteral(c).1 == HexEscape {
      HexElement('\'', c, max, rest);
      HexElement('"', c, max, rest);
    }
  }

  lemma StringElementReads(c: nat, max: nat, rest: string)
    requires c <= max && (StringElement(c).1 == HexEscape ==> EndsHex(rest)) && (c == 0 ==> EndsOctal(rest))
    ensures ReadElement('"', max, StringElement(c).0 + rest) == Some(Element(c, |StringElement(c).0|))
  {
    if c != 0x27 && c != 0x22 {
      CharLiteralReads(c, max, rest);
    }
  }

  /** The text in single quotes is a character literal for `c`. */
  lemma QuotedCharReads(c: nat, max: nat)
    requires c <= max
    ensures var t := CharLiteral(c).0 + ['\'']; ReadElement('\'', max, t) == Some(Element(c, |t| - 1))
  {
    CharLiteralReads(c, max, ['\'']);
  }

  // ----- strings -----

  /** What is read back: a NUL is printed as \0, which takes up to two octal digits that follow. */
  function Absorb(s: seq<nat>): (r: seq<nat>)
    ensures |r| <= |s|
  {
    if s == [] then []
    else if s[0] == 0 && |s| > 1 && IsOctal(s[1]) then
      if |s| > 2 && IsOctal(s[2]) then [8 * (s[1] - 0x30) + s[2] - 0x30] + Absorb(s[3..])
      else [s[1] - 0x30] + Absorb(s[2..])
    else [s[0]] + Absorb(s[1..])
  }

  predicate NulBeforeOctal(s: seq<nat>) {
    exists i :: 0 <= i < |s| - 1 && s[i] == 0 && IsOctal(s[i + 1])
  }

  lemma {:induction false} AbsorbsIff(s: seq<nat>)
    ensures Absorb(s) == s <==> !NulBeforeOctal(s)
  {
    if s != [] {
      if s[0] == 0 && |s| > 1 && IsOctal(s[1]) {
        assert |Absorb(s)| < |s|;
      } else {
        AbsorbsIff(s[1..]);
        assert Absorb(s)[1..] == Absorb(s[1..]);
        assert s == [s[0]] + s[1..];
        if i :| 0 <= i < |s| - 1 && s[i] == 0 && IsOctal(s[i + 1]) {
          assert s[1..][i - 1] == 0 && IsOctal(s[1..][i - 1 + 1]);
        }
        if i :| 0 <= i < |s[1..]| - 1 && s[1..][i] == 0 && IsOctal(s[1..][i + 1]) {
          assert s[i + 1] == 0 && IsOctal(s[i + 1 + 1]);
        }
      }
    }
  }

  lemma FirstElement(c: nat)
    ensures StringElement(c).0[0] != '\\' ==> StringElement(c).0 == [c as char] && IsPrintableAscii(c) && StringElement(c).1 == AsIs
  {
  }

  lemma PrintedStarts(wide: bool, s: seq<nat>, afterHex: bool)
    ensures afterHex ==> EndsHex(Printed(wide, s, afterHex))
    ensures s == [] || !IsOctal(s[0]) ==> EndsOctal(Printed(wide, s, afterHex))
  {
    if s != [] {
      FirstElement(s[0]);
    }
  }

  /** A printed character, followed by the rest of the string. */
  lemma ReadOne(wide: bool, s: seq<nat>)
    requires s != [] && s[0] <= MaxChar(wide) && (s[0] == 0 ==> |s| == 1 || !IsOctal(s[1]))
    ensures var rest := Printed(wide, s[1..], StringElement(s[0]).1 == HexEscape);
      ReadInside(wide, Printed(wide, s, false)) ==
        match ReadInside(wide, rest) case None => None case Some(r) => Some([s[0]] + r)
  {
    var e, hex := StringElement(s[0]).0, StringElement(s[0]).1 == HexEscape;
    var rest := Printed(wide, s[1..], hex);
    PrintedStarts(wide, s[1..], hex);
    StringElementReads(s[0], MaxChar(wide), rest);
    assert (e + rest)[|e|..] == rest;
    FirstElement(s[0]);
  }

  predicate Chars(wide: bool, s: seq<nat>) {
    forall i :: 0 <= i < |s| ==> s[i] <= MaxChar(wide)
  }

  lemma OctalElement(c: nat)
    requires IsOctal(c)
    ensures StringElement(c) == ([c as char], AsIs)
  {
  }

  lemma OctalValues(a: char, b: char)
    requires IsOctal(a as nat) && IsOctal(b as nat)
    ensures OctalValue(['0', a]) == a as nat - 0x30
    ensures OctalValue(['0', a, b]) == 8 * (a as nat - 0x30) + b as nat - 0x30
  {
    assert OctalValue([]) == 0;
    assert ['0'][..0] == [] && ['0', a][..1] == ['0'] && ['0', a, b][..2] == ['0', a];
    assert OctalValue(['0']) == 0;
  }

  lemma AbsorbOne(wide: bool, a: nat, rest: string, t: string)
    requires IsOctal(a) && EndsOctal(rest) && ReadInside(wide, rest).Some?
    requires t == ['\\', '0', a as char] + rest
    ensures ReadInside(wide, t) == Some([a - 0x30] + ReadInside(wide, rest).value)
  {
    assert t[1..][..2] == ['0', a as char];
    OctalValues(a as char, '0');
    assert ReadElement(QUOTE, MaxChar(wide), t) == Some(Element(a - 0x30, 3));
    assert t[3..] == rest;
  }

  lemma AbsorbTwo(wide: bool, a: nat, b: nat, rest: string, t: string)
    requires IsOctal(a) && IsOctal(b) && ReadInside(wide, rest).Some?
    requires t == ['\\', '0', a as char, b as char] + rest
    ensures ReadInside(wide, t) == Some([8 * (a - 0x30) + b - 0x30] + ReadInside(wide, rest).value)
  {
    assert t[1..][..3] == ['0', a as char, b as char];
    OctalValues(a as char, b as char);
    assert ReadElement(QUOTE, MaxChar(wide), t) == Some(Element(8 * (a - 0x30) + b - 0x30, 4));
    assert t[4..] == rest;
  }

  lemma ReadBreak(wide: bool, t: string)
    ensures ReadInside(wide, Break(wide) + t) == ReadInside(wide, t)
  {
    var b := Break(wide) + t;
    assert b[1..] == [' '] + Prefix(wide) + [QUOTE] + t;
    var u := Prefix(wide) + [QUOTE] + t;
    assert b[1..][1..] == u;
    assert u[..|Prefix(wide)|] == Prefix(wide) && u[|Prefix(wide)| + 1..] == t;
    assert ReadOutside(wide, u) == ReadInside(wide, t);
    assert ReadOutside(wide, b[1..]) == ReadOutside(wide, u);
  }

  lemma PrintedNulOctal(wide: bool, s: seq<nat>)
    requires |s| > 1 && s[0] == 0 && IsOctal(s[1])
    ensures Printed(wide, s, false) == ['\\', '0', s[1] as char] + Printed(wide, s[2..], false)
    ensures |s| > 2 && IsOctal(s[2]) ==>
      Printed(wide, s, false) == ['\\', '0', s[1] as char, s[2] as char] + Printed(wide, s[3..], false)
  {
    OctalElement(s[1]);
    assert s[1..][1..] == s[2..];
    assert Printed(wide, s[1..], false) == [s[1] as char] + Printed(wide, s[2..], false);
    if |s| > 2 && IsOctal(s[2]) {
      OctalElement(s[2]);
      assert s[2..][1..] == s[3..];
    }
  }

  lemma ReadNulOneDigit(wide: bool, s: seq<nat>)
    requires |s| > 1 && s[0] == 0 && IsOctal(s[1]) && (|s| > 2 ==> !IsOctal(s[2]))
    requires ReadInside(wide, Printed(wide, s[2..], false)) == Some(Absorb(s[2..]))
    ensures ReadInside(wide, Printed(wide, s, false)) == Some(Absorb(s))
  {
    PrintedStarts(wide, s[2..], false);
    PrintedNulOctal(wide, s);
    AbsorbOne(wide, s[1], Printed(wide, s[2..], false), Printed(wide, s, false));
  }

  lemma ReadNulTwoDigits(wide: bool, s: seq<nat>)
    requires |s| > 2 && s[0] == 0 && IsOctal(s[1]) && IsOctal(s[2])
    requires ReadInside(wide, Printed(wide, s[3..], false)) == Some(Absorb(s[3..]))
    ensures ReadInside(wide, Printed(wide, s, false)) == Some(Absorb(s))
  {
    PrintedNulOctal(wide, s);
    AbsorbTwo(wide, s[1], s[2], Printed(wide, s[3..], false), Printed(wide, s, false));
  }

  lemma ReadAfterHex(wide: bool, s: seq<nat>, afterHex: bool)
    ensures ReadInside(wide, Printed(wide, s, afterHex)) == ReadInside(wide, Printed(wide, s, false))
  {
    if NeedsBreak(afterHex, s) {
      ReadBreak(wide, Printed(wide, s, false));
    }
  }

  lemma {:induction false} ReadPrinted(wide: bool, s: seq<nat>)
    requires Chars(wide, s)
    ensures ReadInside(wide, Printed(wide, s, false)) == Some(Absorb(s))
  {
    if s == [] {
      assert [QUOTE][1..] == [];
    } else if s[0] == 0 && |s| > 1 && IsOctal(s[1]) {
      if |s| > 2 && IsOctal(s[2]) {
        ReadPrinted(wide, s[3..]);
        ReadNulTwoDigits(wide, s);
      } else {
        ReadPrinted(wide, s[2..]);
        ReadNulOneDigit(wide, s);
      }
    } else {
      ReadPrinted(wide, s[1..]);
      ReadAfterHex(wide, s[1..], StringElement(s[0]).1 == HexEscape);
      ReadOne(wide, s);
    }
  }

  function StringLiteral(wide: bool, s: seq<nat>): string {
    Prefix(wide) + [QUOTE] + Printed(wide, s, false)
  }

  /** A printed string reads back as itself exactly if it has no NUL directly before an octal digit; in any case it
  reads back. */
  lemma ReadsBackIff(wide: bool, s: seq<nat>)
    requires Chars(wide, s)
    ensures Read(wide, StringLiteral(wide, s)) == Some(Absorb(s))
    ensures Read(wide, StringLiteral(wide, s)) == Some(s) <==> !NulBeforeOctal(s)
  {
    var t := StringLiteral(wide, s);
    assert t[..|Prefix(wide)|] == Prefix(wide) && t[|Prefix(wide)| + 1..] == Printed(wide, s, false);
    ReadPrinted(wide, s);
    AbsorbsIff(s);
  }

  /** The two characters \0 and 1 print as "\01", which is one character. */
  lemma NulBeforeOctalReadsBackWrong()
    ensures Read(false, StringLiteral(false, [0, 0x31])) == Some([1])
  {
    AbsorbsOneDigit([0, 0x31]);
    ReadsBackIff(false, [0, 0x31]);
  }

  lemma AbsorbsOneDigit(s: seq<nat>)
    requires |s| == 2 && s[0] == 0 && IsOctal(s[1])
    ensures Absorb(s) == [s[1] - 0x30]
  {
    assert s[2..] == [];
  }

  // ----- which format, and where a literal is closed -----

  predicate HasEscapeLetter(c: nat) {
    c == 0 || 7 <= c <= 13 || c == 0x22 || c == 0x5C
  }

  /** A character is printed as is exactly if it is printable and neither '"' nor a backslash; of the others, some have an
  escape letter, and the rest are printed by their hexadecimal numbers. */
  lemma FormatsIff(c: nat)
    ensures var (text, format) := StringElement(c);
      && (format == AsIs <==> IsPrintableAscii(c) && !HasEscapeLetter(c))
      && (format == SpecialEscape <==> HasEscapeLetter(c))
      && (format == AsIs ==> text == [c as char])
      && (format == SpecialEscape ==> |text| == 2 && text[0] == '\\' && text[1] != 'x')
      && (format == HexEscape ==> |text| >= 3 && text[..2] == ['\\', 'x'])
  {
    HexNotEmpty(c);
  }

  lemma HexNotEmpty(c: nat)
    ensures Hex(c) != []
  {
  }

  /** The text for character `i`: the literal is closed and opened again before a hexadecimal digit that follows a
  character printed by its number. */
  function TextAt(wide: bool, s: seq<nat>, i: nat): string
    requires i < |s|
  {
    (if i > 0 && !IsPrintableAscii(s[i - 1]) && !HasEscapeLetter(s[i - 1]) && IsXDigit(s[i]) then Break(wide) else []) +
    StringElement(s[i]).0
  }

  function TextsFrom(wide: bool, s: seq<nat>, i: nat): string
    requires i <= |s|
    decreases |s| - i
  {
    if i == |s| then [QUOTE] else TextAt(wide, s, i) + TextsFrom(wide, s, i + 1)
  }

  lemma PrintedNext(wide: bool, s: seq<nat>, i: nat, afterHex: bool)
    requires i < |s|
    ensures Printed(wide, s[i..], afterHex) ==
      NextText(wide, s[i], afterHex) + Printed(wide, s[i + 1..], StringElement(s[i]).1 == HexEscape)
  {
    var text, rest := StringElement(s[i]).0, Printed(wide, s[i + 1..], StringElement(s[i]).1 == HexEscape);
    assert s[i..][1..] == s[i + 1..];
    assert Printed(wide, s[i..], false) == text + rest;
    if NeedsBreak(afterHex, s[i..]) {
      assert Break(wide) + (text + rest) == Break(wide) + text + rest;
    } else {
      assert [] + text == text;
    }
  }

  lemma {:induction false} PrintedFrom(wide: bool, s: seq<nat>, i: nat, afterHex: bool)
    requires i <= |s| && afterHex == (i > 0 && !IsPrintableAscii(s[i - 1]) && !HasEscapeLetter(s[i - 1]))
    ensures Printed(wide, s[i..], afterHex) == TextsFrom(wide, s, i)
    decreases |s| - i
  {
    if i < |s| {
      FormatsIff(s[i]);
      PrintedFrom(wide, s, i + 1, StringElement(s[i]).1 == HexEscape);
      PrintedNext(wide, s, i, afterHex);
      assert NextText(wide, s[i], afterHex) == TextAt(wide, s, i);
    }
  }

  /** What is printed, without a memory of the last format. */
  lemma PrintedByPosition(wide: bool, s: seq<nat>)
    ensures Printed(wide, s, false) == TextsFrom(wide, s, 0)
  {
    PrintedFrom(wide, s, 0, false);
    assert s[0..] == s;
  }
}
