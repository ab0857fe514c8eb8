/** Strings printed as C++ string literals (gtest-printers.cc), and a reader of such literals that follows sections
2.14.3 and 2.14.5 of ISO/IEC 14882:2011.  Characters of the printed string are numbers, `wide` for those of a wide
string. */
module Printers {
  import opened CStrings
  import opened Hexadecimal

  datatype CharFormat = AsIs | HexEscape | SpecialEscape

  const QUOTE: char := '"'

  function MaxChar(wide: bool): nat {
    if wide then 0xFFFF_FFFF else 0xFF
  }

  function Prefix(wide: bool): string {
    if wide then ['L'] else []
  }

  predicate IsPrintableAscii(c: nat) {
    0x20 <= c <= 0x7E
  }

  // ----- reading -----

  predicate IsOctal(c: nat) {
    0x30 <= c <= 0x37
  }

  /** How many hexadecimal digits `t` starts with. */
  function HexRun(t: string): (n: nat)
    ensures n <= |t| && forall i :: 0 <= i < n ==> IsXDigit(t[i] as nat)
  {
    if t == [] || !IsXDigit(t[0] as nat) then 0 else 1 + HexRun(t[1..])
  }

  /** How many octal digits `t` starts with, up to three. */
  function OctalRun(t: string): (n: nat)
    ensures n <= |t| && n <= 3 && forall i :: 0 <= i < n ==> IsOctal(t[i] as nat)
  {
    if |t| < 1 || !IsOctal(t[0] as nat) then 0
    else if |t| < 2 || !IsOctal(t[1] as nat) then 1
    else if |t| < 3 || !IsOctal(t[2] as nat) then 2
    else 3
  }

  function OctalValue(digits: string): nat
    requires forall i :: 0 <= i < |digits| ==> IsOctal(digits[i] as nat)
  {
    if digits == [] then 0
    else
      assert IsOctal(digits[|digits| - 1] as nat);
      8 * OctalValue(digits[..|digits| - 1]) + (digits[|digits| - 1] as nat - 0x30)
  }

  /** The character after the backslash of a simple escape sequence, and its meaning. */
  function SimpleEscape(e: char): Option<nat> {
    if e == '\'' || e == '"' || e == '?' || e == '\\' then Some(e as nat)
    else if e == 'a' then Some(7)
    else if e == 'b' then Some(8)
    else if e == 't' then Some(9)
    else if e == 'n' then Some(10)
    else if e == 'v' then Some(11)
    else if e == 'f' then Some(12)
    else if e == 'r' then Some(13)
    else None
  }

  /** A character of a literal, and how long its text is. */
  datatype Element = Element(code: nat, length: nat)

  /** Reads one character of a literal that ends with `quote`. */
  function ReadElement(quote: char, max: nat, t: string): (r: Option<Element>)
    requires t != []
    ensures r.Some? ==> 0 < r.value.length <= |t|
  {
    if t[0] == quote || t[0] == '\n' then None
    else if t[0] != '\\' then Some(Element(t[0] as nat, 1))
    else if |t| == 1 then None
    else if SimpleEscape(t[1]).Some? then Some(Element(SimpleEscape(t[1]).value, 2))
    else if t[1] == 'x' then
      var n := HexRun(t[2..]);
      if n > 0 && HexValue(t[2..][..n]) <= max then Some(Element(HexValue(t[2..][..n]), 2 + n)) else None
    else
      var n := OctalRun(t[1..]);
      if n > 0 && OctalValue(t[1..][..n]) <= max then Some(Element(OctalValue(t[1..][..n]), 1 + n)) else None
  }

  predicate StartsLiteral(wide: bool, t: string) {
    |t| > |Prefix(wide)| && t[..|Prefix(wide)|] == Prefix(wide) && t[|Prefix(wide)|] == QUOTE
  }

  /** Reads adjacent string literals, from within one of them. */
  function ReadInside(wide: bool, t: string): Option<seq<nat>>
    decreases |t|
  {
    if t == [] then None
    else if t[0] == QUOTE then ReadOutside(wide, t[1..])
    else
      var e := ReadElement(QUOTE, MaxChar(wide), t);
      if e.None? then None
      else
        var rest := ReadInside(wide, t[e.value.length..]);
        if rest.None? then None else Some([e.value.code] + rest.value)
  }

  function ReadOutside(wide: bool, t: string): Option<seq<nat>>
    decreases |t|
  {
    if t == [] then Some([])
    else if t[0] == ' ' then ReadOutside(wide, t[1..])
    else if StartsLiteral(wide, t) then ReadInside(wide, t[|Prefix(wide)| + 1..])
    else None
  }

  /** The string that adjacent string literals stand for. */
  function Read(wide: bool, t: string): Option<seq<nat>> {
    if StartsLiteral(wide, t) then ReadOutside(wide, t) else None
  }

  // ----- printing -----

  /** The letter of an escape sequence for `c`, other than \x. */
  function EscapeLetter(c: nat): Option<char> {
    if c == 0 then Some('0')
    else if c == 0x27 then Some('\'')
    else if c == 0x5C then Some('\\')
    else if c == 7 then Some('a')
    else if c == 8 then Some('b')
    else if c == 12 then Some('f')
    else if c == 10 then Some('n')
    else if c == 13 then Some('r')
    else if c == 9 then Some('t')
    else if c == 11 then Some('v')
    else None
  }

  function CharLiteral(c: nat): (string, CharFormat) {
    if EscapeLetter(c).Some? then (['\\', EscapeLetter(c).value], SpecialEscape)
    else if IsPrintableAscii(c) then ([c as char], AsIs)
    else (['\\', 'x'] + Hex(c), HexEscape)
  }

  function StringElement(c: nat): (string, CharFormat) {
    if c == 0x27 then (['\''], AsIs)
    else if c == 0x22 then (['\\', '"'], SpecialEscape)
    else CharLiteral(c)
  }

  /** Closes a literal and opens the next. */
  function Break(wide: bool): string {
    [QUOTE, ' '] + Prefix(wide) + [QUOTE]
  }

  predicate NeedsBreak(afterHex: bool, s: seq<nat>) {
    afterHex && s != [] && IsXDigit(s[0])
  }

  /** The text for `s` and its closing quote, after a hexadecimal escape sequence or not. */
  function Printed(wide: bool, s: seq<nat>, afterHex: bool): string
    decreases |s|, afterHex
  {
    if s == [] then [QUOTE]
    else if NeedsBreak(afterHex, s) then Break(wide) + Printed(wide, s, false)
    else StringElement(s[0]).0 + Printed(wide, s[1..], StringElement(s[0]).1 == HexEscape)
  }

  method PrintAsCharLiteralTo(c: nat, os: string) returns (out: string, format: CharFormat)
    ensures out == os + CharLiteral(c).0 && format == CharLiteral(c).1
  {
    format := SpecialEscape;
    match c {
      case 0 => out := os + ['\\', '0'];
      case 0x27 => out := os + ['\\', '\''];
      case 0x5C => out := os + ['\\', '\\'];
      case 7 => out := os + ['\\', 'a'];
      case 8 => out := os + ['\\', 'b'];
      case 12 => out := os + ['\\', 'f'];
      case 10 => out := os + ['\\', 'n'];
      case 13 => out := os + ['\\', 'r'];
      case 9 => out := os + ['\\', 't'];
      case 11 => out := os + ['\\', 'v'];
      case _ =>
        if IsPrintableAscii(c) {
          out, format := os + [c as char], AsIs;
        } else {
          out, format := os + (['\\', 'x'] + Hex(c)), HexEscape;
        }
    }
  }

  method PrintAsStringLiteralTo(c: nat, os: string) returns (out: string, format: CharFormat)
    ensures out == os + StringElement(c).0 && format == StringElement(c).1
  {
    match c
    case 0x27 => out, format := os + ['\''], AsIs;
    case 0x22 => out, format := os + ['\\', '"'], SpecialEscape;
    case _ => out, format := PrintAsCharLiteralTo(c, os);
  }

  function NextText(wide: bool, c: nat, afterHex: bool): string {
    (if afterHex && IsXDigit(c) then Break(wide) else []) + StringElement(c).0
  }

  lemma NextPrinted(wide: bool, s: seq<nat>, i: nat, afterHex: bool, os: string)
    requires i < |s|
    ensures os + Printed(wide, s[i..], afterHex) ==
      os + NextText(wide, s[i], afterHex) + Printed(wide, s[i + 1..], StringElement(s[i]).1 == HexEscape)
  {
    assert s[i..][1..] == s[i + 1..];
    assert Printed(wide, s[i..], afterHex) ==
      NextText(wide, s[i], afterHex) + Printed(wide, s[i + 1..], StringElement(s[i]).1 == HexEscape);
  }

  method PrintNext(wide: bool, cur: nat, afterHex: bool, os: string) returns (out: string, isHex: bool)
    ensures out == os + NextText(wide, cur, afterHex) && isHex == (StringElement(cur).1 == HexEscape)
  {
    out := os;
    if afterHex && IsXDigit(cur) {
      out := out + Break(wide);
    }
    var format;
    out, format := PrintAsStringLiteralTo(cur, out);
    isHex := format == HexEscape;
  }

  method PrintCharsAsStringTo(wide: bool, begin: seq<nat>, os: string) returns (out: string)
    ensures out == os + Prefix(wide) + [QUOTE] + Printed(wide, begin, false)
  {
    out := os + Prefix(wide) + [QUOTE];
    ghost var all := out + Printed(wide, begin, false);
    var isPreviousHex := false;
    for index := 0 to |begin|
      invariant out + Printed(wide, begin[index..], isPreviousHex) == all
    {
      NextPrinted(wide, begin, index, isPreviousHex, out);
      out, isPreviousHex := PrintNext(wide, begin[index], isPreviousHex, out);
    }
    out := out + [QUOTE];
  }
}
