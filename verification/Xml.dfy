/** Text in the XML report (gtest.cc), and a reader of XML 1.0 attribute values, character data and CDATA sections. */
module Xml {
  import opened CStrings
  import opened Hexadecimal

  // ----- characters -----

  predicate IsNormalizableWhitespace(c: char) {
    c == 0x9 as char || c == 0xA as char || c == 0xD as char
  }

  /** `signed` says if `char` is a signed type; then bytes from 0x80 are negative. */
  predicate IsValidXmlCharacter(signed: bool, c: char) {
    IsNormalizableWhitespace(c) || (c >= 0x20 as char && !(signed && c >= 0x80 as char))
  }

  function RemoveInvalidXmlCharacters(signed: bool, s: string): (r: string)
    ensures |r| <= |s|
  {
    if s == [] then []
    else (if IsValidXmlCharacter(signed, s[0]) then [s[0]] else []) + RemoveInvalidXmlCharacters(signed, s[1..])
  }

  // ----- reading references -----

  /** A character and the length of the reference to it. */
  datatype Reference = Reference(c: char, length: nat)

  /** The predefined entities, and references with two hexadecimal digits (sections 4.6 and 4.1). */
  function ReadReference(t: string): (r: Option<Reference>)
    ensures r.Some? ==> 0 < r.value.length <= |t|
  {
    if |t| < 4 || t[0] != '&' then None
    else if t[1] == 'l' && t[2] == 't' && t[3] == ';' then Some(Reference('<', 4))
    else if t[1] == 'g' && t[2] == 't' && t[3] == ';' then Some(Reference('>', 4))
    else if |t| < 5 then None
    else if t[1] == 'a' && t[2] == 'm' && t[3] == 'p' && t[4] == ';' then Some(Reference('&', 5))
    else if |t| < 6 || t[5] != ';' then None
    else if t[1] == 'a' && t[2] == 'p' && t[3] == 'o' && t[4] == 's' then Some(Reference('\'', 6))
    else if t[1] == 'q' && t[2] == 'u' && t[3] == 'o' && t[4] == 't' then Some(Reference('"', 6))
    else if t[1] == '#' && t[2] == 'x' && IsXDigit(t[3] as nat) && IsXDigit(t[4] as nat) then
      Some(Reference((16 * DigitValue(t[3]) + DigitValue(t[4])) as char, 6))
    else None
  }

  /** Reads an attribute value between quotes of either kind (section 3.3.3: white space becomes a space), or character
  data. */
  function Decode(isAttribute: bool, t: string): Option<string> {
    if t == [] then Some([])
    else if t[0] == '&' then
      var r := ReadReference(t);
      if r.None? then None
      else
        var rest := Decode(isAttribute, t[r.value.length..]);
        if rest.None? then None else Some([r.value.c] + rest.value)
    else if t[0] == '<' || (isAttribute && (t[0] == '"' || t[0] == '\'')) || !IsValidXmlCharacter(false, t[0]) then None
    else
      var rest := Decode(isAttribute, t[1..]);
      if rest.None? then None
      else Some([if isAttribute && IsNormalizableWhitespace(t[0]) then ' ' else t[0]] + rest.value)
  }

  // ----- escaping -----

  function EscapedChar(isAttribute: bool, signed: bool, c: char): string {
    if c == '<' then ['&', 'l', 't', ';']
    else if c == '>' then ['&', 'g', 't', ';']
    else if c == '&' then ['&', 'a', 'm', 'p', ';']
    else if c == '\'' && isAttribute then ['&', 'a', 'p', 'o', 's', ';']
    else if c == '"' && isAttribute then ['&', 'q', 'u', 'o', 't', ';']
    else if !IsValidXmlCharacter(signed, c) then []
    else if isAttribute && IsNormalizableWhitespace(c) then
      ['&', '#', 'x', HexDigit(c as nat / 16), HexDigit(c as nat % 16), ';']
    else [c]
  }

  function Escaped(isAttribute: bool, signed: bool, s: string): string {
    if s == [] then [] else EscapedChar(isAttribute, signed, s[0]) + Escaped(isAttribute, signed, s[1..])
  }

  lemma NextEscaped(isAttribute: bool, signed: bool, s: string, i: nat, m: string)
    requires i < |s|
    ensures m + Escaped(isAttribute, signed, s[i..]) ==
      m + EscapedChar(isAttribute, signed, s[i]) + Escaped(isAttribute, signed, s[i + 1..])
  {
    assert s[i..][1..] == s[i + 1..];
  }

  method EscapeChar(m: string, c: char, isAttribute: bool, signed: bool) returns (out: string)
    ensures out == m + EscapedChar(isAttribute, signed, c)
  {
    match c
    case '<' => return m + ['&', 'l', 't', ';'];
    case '>' => return m + ['&', 'g', 't', ';'];
    case '&' => return m + ['&', 'a', 'm', 'p', ';'];
    case '\'' => return m + if isAttribute then ['&', 'a', 'p', 'o', 's', ';'] else ['\''];
    case '"' => return m + if isAttribute then ['&', 'q', 'u', 'o', 't', ';'] else ['"'];
    case _ =>
      if IsValidXmlCharacter(signed, c) {
        if isAttribute && IsNormalizableWhitespace(c) {
          return m + ['&', '#', 'x', HexDigit(c as nat / 16), HexDigit(c as nat % 16), ';'];
        } else {
          return m + [c];
        }
      }
      return m;
  }

  /** `str` may be NULL. */
  method EscapeXml(str: Option<CString>, isAttribute: bool, signed: bool) returns (m: string)
    ensures m == Escaped(isAttribute, signed, if str.Some? then str.value else "")
  {
    m := [];
    if str.Some? {
      var s := str.value;
      for i := 0 to |s|
        invariant m + Escaped(isAttribute, signed, s[i..]) == Escaped(isAttribute, signed, s)
      {
        NextEscaped(isAttribute, signed, s, i, m);
        m := EscapeChar(m, s[i], isAttribute, signed);
      }
    }
  }

  lemma ReadEscapedChar(isAttribute: bool, signed: bool, c: char, rest: string)
    ensures var e := EscapedChar(isAttribute, signed, c);
      e != [] && e[0] == '&' ==> IsValidXmlCharacter(signed, c) && ReadReference(e + rest) == Some(Reference(c, |e|))
  {
    var e := EscapedChar(isAttribute, signed, c);
    assert forall k :: 0 <= k < |e| ==> (e + rest)[k] == e[k];
    if IsNormalizableWhitespace(c) {
      assert (16 * (c as nat / 16) + c as nat % 16) as char == c;
    }
  }

  lemma DecodeEscapedChar(isAttribute: bool, signed: bool, c: char, rest: string)
    requires Decode(isAttribute, rest).Some?
    ensures Decode(isAttribute, EscapedChar(isAttribute, signed, c) + rest) ==
      Some((if IsValidXmlCharacter(signed, c) then [c] else []) + Decode(isAttribute, rest).value)
  {
    var e, r := EscapedChar(isAttribute, signed, c), Decode(isAttribute, rest).value;
    if e == [] {
      assert e + rest == rest && [] + r == r;
    } else {
      ReadEscapedChar(isAttribute, signed, c, rest);
      assert (e + rest)[0] == e[0] && (e + rest)[|e|..] == rest;
    }
  }

  /** Escaped text decodes to the text without the characters that XML does not allow. */
  lemma {:induction false} EscapedDecodes(isAttribute: bool, signed: bool, s: string)
    ensures Decode(isAttribute, Escaped(isAttribute, signed, s)) == Some(RemoveInvalidXmlCharacters(signed, s))
  {
    if s != [] {
      EscapedDecodes(isAttribute, signed, s[1..]);
      DecodeEscapedChar(isAttribute, signed, s[0], Escaped(isAttribute, signed, s[1..]));
    }
  }

  lemma {:induction false} RemovesNothingIff(signed: bool, s: string)
    ensures RemoveInvalidXmlCharacters(signed, s) == s <==> forall i :: 0 <= i < |s| ==> IsValidXmlCharacter(signed, s[i])
  {
    if s != [] {
      RemovesNothingIff(signed, s[1..]);
      assert forall i :: 0 < i < |s| ==> s[i] == s[1..][i - 1];
      if IsValidXmlCharacter(signed, s[0]) {
        assert RemoveInvalidXmlCharacters(signed, s)[1..] == RemoveInvalidXmlCharacters(signed, s[1..]);
        assert s == [s[0]] + s[1..];
      } else {
        assert |RemoveInvalidXmlCharacters(signed, s)| < |s|;
      }
    }
  }

  /** Nothing is lost exactly if all characters are allowed. */
  lemma EscapedDecodesToItselfIff(isAttribute: bool, signed: bool, s: string)
    ensures Decode(isAttribute, Escaped(isAttribute, signed, s)) == Some(s) <==>
      forall i :: 0 <= i < |s| ==> IsValidXmlCharacter(signed, s[i])
  {
    EscapedDecodes(isAttribute, signed, s);
    RemovesNothingIff(signed, s);
  }

  /** Is the character copied? */
  predicate IsPlain(isAttribute: bool, signed: bool, c: char) {
    && IsValidXmlCharacter(signed, c) && c !in {'<', '>', '&'}
    && (isAttribute ==> c !in {'\'', '"'} && !IsNormalizableWhitespace(c))
  }

  /** A character is copied exactly if it is allowed and has no meaning of its own in that place; it is dropped exactly if
  it is not allowed, and otherwise it becomes a reference. */
  lemma CharIsPlainIff(isAttribute: bool, signed: bool, c: char)
    ensures var e := EscapedChar(isAttribute, signed, c);
      && (e == [c] <==> IsPlain(isAttribute, signed, c))
      && (e == [] <==> !IsValidXmlCharacter(signed, c))
      && (IsValidXmlCharacter(signed, c) && !IsPlain(isAttribute, signed, c) ==>
            |e| >= 4 && ReadReference(e) == Some(Reference(c, |e|)))
  {
    var e := EscapedChar(isAttribute, signed, c);
    ReadEscapedChar(isAttribute, signed, c, []);
    assert e + [] == e;
  }

  ghost predicate AllValid(signed: bool, s: string) {
    forall i :: 0 <= i < |s| ==> IsValidXmlCharacter(signed, s[i])
  }

  lemma EscapedCharIsValid(isAttribute: bool, signed: bool, c: char)
    ensures AllValid(signed, EscapedChar(isAttribute, signed, c))
  {
  }

  lemma {:induction false} EscapedIsValid(isAttribute: bool, signed: bool, s: string)
    ensures AllValid(signed, Escaped(isAttribute, signed, s))
  {
    if s != [] {
      EscapedCharIsValid(isAttribute, signed, s[0]);
      EscapedIsValid(isAttribute, signed, s[1..]);
    }
  }

  lemma {:induction false} EscapedIsLonger(isAttribute: bool, signed: bool, s: string)
    requires AllValid(signed, s)
    ensures var e, plain := Escaped(isAttribute, signed, s), forall i :: 0 <= i < |s| ==> IsPlain(isAttribute, signed, s[i]);
      if plain then e == s else |e| > |s|
  {
    if s != [] {
      CharIsPlainIff(isAttribute, signed, s[0]);
      EscapedIsLonger(isAttribute, signed, s[1..]);
      assert s == [s[0]] + s[1..];
      assert forall i :: 0 < i < |s| ==> s[i] == s[1..][i - 1];
    }
  }

  /** So text is left as it is exactly if all its characters are plain. */
  lemma EscapesNothingIff(isAttribute: bool, signed: bool, s: string)
    ensures Escaped(isAttribute, signed, s) == s <==> forall i :: 0 <= i < |s| ==> IsPlain(isAttribute, signed, s[i])
  {
    EscapedIsValid(isAttribute, signed, s);
    if AllValid(signed, s) {
      EscapedIsLonger(isAttribute, signed, s);
    }
  }
}
