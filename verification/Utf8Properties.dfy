/** The bytes that WideStringToUtf8 outputs (gtest.cc), read by a decoder that follows section 4 of RFC 3629. */
module Utf8Properties {
  import opened CStrings
  import opened Hexadecimal
  import opened Utf8

  // ----- decoding UTF-8 -----

  datatype Decoded = Decoded(code: UInt32, length: nat)

  predicate IsTail(b: seq<Byte>, i: nat) {
    i < |b| && 0x80 <= b[i] <= 0xBF
  }

  function Tail(b: seq<Byte>, i: nat): nat
    requires i < |b|
  {
    b[i] % 0x40
  }

  /** The first code point, if the bytes start with a well-formed one. */
  function DecodeFirst(b: seq<Byte>): (r: Option<Decoded>)
    requires b != []
    ensures r.Some? ==> 0 < r.value.length <= |b|
  {
    if b[0] <= 0x7F then Some(Decoded(b[0], 1))
    else if 0xC2 <= b[0] <= 0xDF && IsTail(b, 1) then Some(Decoded(b[0] % 0x20 * 0x40 + Tail(b, 1), 2))
    else if 0xE0 <= b[0] <= 0xEF && IsTail(b, 1) && IsTail(b, 2) then
      if (b[0] == 0xE0 && b[1] < 0xA0) || (b[0] == 0xED && b[1] > 0x9F) then None
      else Some(Decoded(b[0] % 0x10 * 0x1000 + Tail(b, 1) * 0x40 + Tail(b, 2), 3))
    else if 0xF0 <= b[0] <= 0xF4 && IsTail(b, 1) && IsTail(b, 2) && IsTail(b, 3) then
      if (b[0] == 0xF0 && b[1] < 0x90) || (b[0] == 0xF4 && b[1] > 0x8F) then None
      else Some(Decoded(b[0] % 0x8 * 0x4_0000 + Tail(b, 1) * 0x1000 + Tail(b, 2) * 0x40 + Tail(b, 3), 4))
    else None
  }

  function Decode(b: seq<Byte>): Option<seq<UInt32>> {
    if b == [] then Some([])
    else
      var first := DecodeFirst(b);
      if first.None? then None
      else
        var rest := Decode(b[first.value.length..]);
        if rest.None? then None else Some([first.value.code] + rest.value)
  }

  // ----- what is output -----

  /** The code points that stand in the output: itself, or the text for an invalid one. */
  function Displayed(c: UInt32): seq<UInt32> {
    if c <= MAX_CODE_POINT_4 then [c] else InvalidText(c)
  }

  function DisplayedAll(cs: seq<UInt32>): seq<UInt32> {
    if cs == [] then [] else Displayed(cs[0]) + DisplayedAll(cs[1..])
  }

  /** Surrogates and numbers above U+10FFFF that fit 21 bits are written in the pattern of a code point. */
  predicate Malformed(c: UInt32) {
    IsSurrogate(c) || 0x10FFFF < c <= MAX_CODE_POINT_4
  }

  /** The digits of `c` to the base 64, in a pattern of three or four bytes. */
  lemma Digits(c: UInt32)
    requires c <= MAX_CODE_POINT_4
    ensures c % 0x40 + c / 0x40 % 0x40 * 0x40 + c / 0x1000 % 0x40 * 0x1000 + c / 0x4_0000 * 0x4_0000 == c
    ensures c / 0x40 / 0x40 == c / 0x1000 && c / 0x1000 / 0x40 == c / 0x4_0000
  {
  }

  lemma DecodeTwo(c: UInt32, b: seq<Byte>)
    requires MAX_CODE_POINT_1 < c <= MAX_CODE_POINT_2 && |b| >= 2 && b[..2] == Utf8Of(c)
    ensures DecodeFirst(b) == Some(Decoded(c, 2))
  {
    assert b[0] == b[..2][0] && b[1] == b[..2][1];
  }

  lemma DecodeThree(c: UInt32, b: seq<Byte>)
    requires MAX_CODE_POINT_2 < c <= MAX_CODE_POINT_3 && |b| >= 3 && b[..3] == Utf8Of(c)
    ensures DecodeFirst(b) == if IsSurrogate(c) then None else Some(Decoded(c, 3))
  {
    assert b[0] == b[..3][0] && b[1] == b[..3][1] && b[2] == b[..3][2];
    Digits(c);
    assert c / 0x4_0000 == 0 && c / 0x1000 < 0x10;
  }

  lemma DecodeDigits(d3: nat, d2: nat, d1: nat, d0: nat, c: nat, b: seq<Byte>)
    requires d3 < 8 && d2 < 0x40 && d1 < 0x40 && d0 < 0x40
    requires c == d3 * 0x4_0000 + d2 * 0x1000 + d1 * 0x40 + d0 && c > MAX_CODE_POINT_3
    requires |b| >= 4 && b[0] == 0xF0 + d3 && b[1] == 0x80 + d2 && b[2] == 0x80 + d1 && b[3] == 0x80 + d0
    ensures DecodeFirst(b) == if c <= 0x10FFFF then Some(Decoded(c, 4)) else None
  {
    assert b[0] % 8 == d3 && Tail(b, 1) == d2 && Tail(b, 2) == d1 && Tail(b, 3) == d0;
  }

  lemma DecodeFour(c: UInt32, b: seq<Byte>)
    requires MAX_CODE_POINT_3 < c <= MAX_CODE_POINT_4 && |b| >= 4 && b[..4] == Utf8Of(c)
    ensures DecodeFirst(b) == if c <= 0x10FFFF then Some(Decoded(c, 4)) else None
  {
    assert b[0] == b[..4][0] && b[1] == b[..4][1] && b[2] == b[..4][2] && b[3] == b[..4][3];
    Digits(c);
    DecodeDigits(c / 0x4_0000, c / 0x1000 % 0x40, c / 0x40 % 0x40, c % 0x40, c, b);
  }

  lemma DecodeShown(c: UInt32, rest: seq<Byte>)
    requires c <= MAX_CODE_POINT_4
    ensures DecodeFirst(Utf8Of(c) + rest) == if IsScalar(c) then Some(Decoded(c, |Utf8Of(c)|)) else None
  {
    var s := Utf8Of(c);
    assert (s + rest)[..|s|] == s;
    if c <= MAX_CODE_POINT_1 {
    } else if c <= MAX_CODE_POINT_2 {
      DecodeTwo(c, s + rest);
    } else if c <= MAX_CODE_POINT_3 {
      DecodeThree(c, s + rest);
    } else {
      DecodeFour(c, s + rest);
    }
  }

  /** A text of ASCII characters decodes to itself. */
  lemma {:induction false} DecodeAscii(s: seq<Byte>, rest: seq<Byte>)
    requires forall i :: 0 <= i < |s| ==> s[i] <= 0x7F
    ensures Decode(s + rest) == match Decode(rest) case None => None case Some(cs) => Some(s + cs)
  {
    if s == [] {
      assert s + rest == rest;
      assert Decode(rest).Some? ==> s + Decode(rest).value == Decode(rest).value;
    } else {
      assert (s + rest)[1..] == s[1..] + rest;
      DecodeAscii(s[1..], rest);
      assert Decode(rest).Some? ==> s + Decode(rest).value == [s[0]] + (s[1..] + Decode(rest).value);
    }
  }

  lemma InvalidTextIsAscii(c: UInt32)
    ensures forall i :: 0 <= i < |InvalidText(c)| ==> InvalidText(c)[i] <= 0x7F
  {
    assert forall b: Byte :: b in INVALID_PREFIX ==> b <= 0x7F;
    var digits := Ascii(Hex(c));
    assert forall i :: 0 <= i < |digits| ==> digits[i] <= 0x7F;
    var n := |INVALID_PREFIX|;
    assert forall i :: 0 <= i < |InvalidText(c)| ==>
      InvalidText(c)[i] == if i < n then INVALID_PREFIX[i] else if i < n + |digits| then digits[i - n] else 0x29;
  }

  predicate AnyMalformed(cs: seq<UInt32>) {
    exists i :: 0 <= i < |cs| && Malformed(cs[i])
  }

  lemma AnyMalformedFirst(cs: seq<UInt32>)
    requires cs != []
    ensures AnyMalformed(cs) <==> Malformed(cs[0]) || AnyMalformed(cs[1..])
  {
    assert forall i :: 0 < i < |cs| ==> cs[i] == cs[1..][i - 1];
  }

  /** The output decodes exactly if no code point is malformed: to the code points, with a text for those beyond 21
  bits. */
  lemma {:induction false} ShownDecodes(cs: seq<UInt32>)
    ensures Decode(ShownAll(cs)) == if AnyMalformed(cs) then None else Some(DisplayedAll(cs))
  {
    if cs != [] {
      var c, rest := cs[0], ShownAll(cs[1..]);
      ShownDecodes(cs[1..]);
      AnyMalformedFirst(cs);
      if c <= MAX_CODE_POINT_4 {
        DecodeShown(c, rest);
        assert (Utf8Of(c) + rest)[|Utf8Of(c)|..] == rest;
      } else {
        InvalidTextIsAscii(c);
        DecodeAscii(InvalidText(c), rest);
      }
    }
  }

  // ----- UTF-16 -----

  /** A code point in UTF-16 (section 2.1 of RFC 2781); a surrogate stands for itself. */
  function Utf16Of(c: UInt32): seq<UInt32>
    requires c <= 0x10FFFF
  {
    if c < 0x10000 then [c] else [0xD800 + (c - 0x10000) / 0x400, 0xDC00 + (c - 0x10000) % 0x400]
  }

  predicate CodePointRange(cs: seq<UInt32>) {
    forall i :: 0 <= i < |cs| ==> cs[i] <= 0x10FFFF
  }

  function Utf16(cs: seq<UInt32>): seq<UInt32>
    requires CodePointRange(cs)
  {
    if cs == [] then [] else Utf16Of(cs[0]) + Utf16(cs[1..])
  }

  /** No two adjacent surrogates form a pair. */
  predicate NoSplitPair(cs: seq<UInt32>) {
    forall i :: 0 <= i < |cs| - 1 ==> !IsUtf16SurrogatePair(2, cs[i], cs[i + 1])
  }

  predicate TwoBytes(s: seq<UInt32>) {
    forall i :: 0 <= i < |s| ==> s[i] < 0x10000
  }

  lemma PairOf(first: UInt32, second: UInt32)
    requires first < 0x10000 && second < 0x10000 && IsUtf16SurrogatePair(2, first, second)
    ensures var c := CodePointFromSurrogatePair(first, second); 0x10000 <= c <= 0x10FFFF && Utf16Of(c) == [first, second]
  {
    var c := CodePointFromSurrogatePair(first, second);
    assert (c - 0x10000) / 0x400 == first % 0x400 && (c - 0x10000) % 0x400 == second % 0x400;
  }

  lemma OfPair(c: UInt32)
    requires 0x10000 <= c <= 0x10FFFF
    ensures IsUtf16SurrogatePair(2, Utf16Of(c)[0], Utf16Of(c)[1])
    ensures CodePointFromSurrogatePair(Utf16Of(c)[0], Utf16Of(c)[1]) == c
  {
  }

  /** Every 16-bit string is the UTF-16 of the code points that are read from it, and no pair is left unread. */
  lemma {:induction false} CodePointsEncode(s: seq<UInt32>)
    requires TwoBytes(s)
    ensures var cs := CodePoints(2, s); CodePointRange(cs) && Utf16(cs) == s && NoSplitPair(cs)
    ensures s != [] ==> CodePoints(2, s)[0] == s[0] || CodePoints(2, s)[0] >= 0x10000
  {
    if s != [] {
      var pair := |s| > 1 && IsUtf16SurrogatePair(2, s[0], s[1]);
      var n := if pair then 2 else 1;
      CodePointsEncode(s[n..]);
      var cs := CodePoints(2, s);
      assert cs[1..] == CodePoints(2, s[n..]);
      if pair {
        PairOf(s[0], s[1]);
      }
      assert s == s[..n] + s[n..] && s[..n] == Utf16Of(cs[0]);
      forall i | 0 <= i < |cs| - 1 ensures !IsUtf16SurrogatePair(2, cs[i], cs[i + 1]) {
        if i > 0 {
          assert !IsUtf16SurrogatePair(2, cs[1..][i - 1], cs[1..][i]);
        }
      }
    }
  }

  /** Reading the UTF-16 of code points gives them back, for all sequences that can be read at all. */
  lemma {:induction false} CodePointsDecode(cs: seq<UInt32>)
    requires CodePointRange(cs) && NoSplitPair(cs)
    ensures CodePoints(2, Utf16(cs)) == cs
  {
    if cs != [] {
      var rest := Utf16(cs[1..]);
      assert NoSplitPair(cs[1..]) by {
        forall i | 0 <= i < |cs[1..]| - 1 ensures !IsUtf16SurrogatePair(2, cs[1..][i], cs[1..][i + 1]) {
          assert !IsUtf16SurrogatePair(2, cs[i + 1], cs[i + 2]);
        }
      }
      CodePointsDecode(cs[1..]);
      var s := Utf16(cs);
      if cs[0] >= 0x10000 {
        OfPair(cs[0]);
        assert s[2..] == rest;
      } else {
        assert s[1..] == rest;
        if |cs| > 1 {
          assert !IsUtf16SurrogatePair(2, cs[0], cs[1]);
          assert rest[0] == Utf16Of(cs[1])[0];
        }
      }
    }
  }

  predicate Scalars(cs: seq<UInt32>) {
    forall i :: 0 <= i < |cs| ==> IsScalar(cs[i])
  }

  lemma {:induction false} DisplayedScalars(cs: seq<UInt32>)
    requires CodePointRange(cs)
    ensures DisplayedAll(cs) == cs
  {
    if cs != [] {
      DisplayedScalars(cs[1..]);
    }
  }

  /** UTF-16 in, UTF-8 out: decoding the output gives the code points of the input. */
  lemma Utf16ToUtf8(cs: seq<UInt32>)
    requires Scalars(cs)
    ensures Decode(ShownAll(CodePoints(2, Utf16(cs)))) == Some(cs)
  {
    CodePointsDecode(cs);
    ShownDecodes(cs);
    DisplayedScalars(cs);
  }

  /** For 16-bit strings the output is well-formed UTF-8 exactly if the input is the UTF-16 of scalar values. */
  lemma WellFormedIff(s: seq<UInt32>)
    requires TwoBytes(s)
    ensures Decode(ShownAll(CodePoints(2, s))).Some? <==> exists cs :: Scalars(cs) && Utf16(cs) == s
  {
    var cs := CodePoints(2, s);
    CodePointsEncode(s);
    ShownDecodes(cs);
    if Decode(ShownAll(cs)).Some? {
      forall i | 0 <= i < |cs| ensures IsScalar(cs[i]) {
        assert !Malformed(cs[i]);
      }
      assert Scalars(cs) && Utf16(cs) == s;
    }
    if ds :| Scalars(ds) && Utf16(ds) == s {
      CodePointsDecode(ds);
      assert ds == cs;
    }
  }

  // ----- UTF-32 -----

  lemma {:induction false} CodePointsOfUtf32(size: nat, s: seq<UInt32>)
    requires size != 2
    ensures CodePoints(size, s) == s
  {
    if s != [] {
      CodePointsOfUtf32(size, s[1..]);
    }
  }

  lemma {:induction false} DisplayedLength(cs: seq<UInt32>)
    ensures |DisplayedAll(cs)| >= |cs|
    ensures |DisplayedAll(cs)| == |cs| ==> forall i :: 0 <= i < |cs| ==> cs[i] <= MAX_CODE_POINT_4
  {
    if cs != [] {
      DisplayedLength(cs[1..]);
      assert forall i :: 0 < i < |cs| ==> cs[i] == cs[1..][i - 1];
    }
  }

  /** With 4-byte wchar_t, decoding the output gives the input back exactly if it is UTF-32, a string of scalar values;
  the output is well-formed UTF-8 also with numbers beyond 21 bits, which appear as a text. */
  lemma Utf32ToUtf8Iff(s: seq<UInt32>)
    ensures Decode(ShownAll(CodePoints(4, s))) == if AnyMalformed(s) then None else Some(DisplayedAll(s))
    ensures Decode(ShownAll(CodePoints(4, s))) == Some(s) <==> Scalars(s)
  {
    CodePointsOfUtf32(4, s);
    ShownDecodes(s);
    DisplayedLength(s);
    if Scalars(s) {
      DisplayedScalars(s);
    }
  }

  /** The text for an invalid code point stands for those beyond 21 bits, not for all beyond U+10FFFF. */
  lemma InvalidTextIff(c: UInt32)
    ensures c > MAX_CODE_POINT_4 <==> Shown(c) == InvalidText(c)
    ensures Decode(Shown(c)) == if Malformed(c) then None else Some(Displayed(c))
  {
    ShownDecodes([c]);
    assert ShownAll([c]) == Shown(c) + ShownAll([]) && Shown(c) + [] == Shown(c);
    assert DisplayedAll([c]) == Displayed(c) + DisplayedAll([]) && Displayed(c) + [] == Displayed(c);
    assert Malformed([c][0]) == Malformed(c);
  }

  /** U+110000 is no code point, and yet is written as if it were one. */
  lemma BeyondUnicode()
    ensures !IsScalar(0x110000) && Shown(0x110000) != InvalidText(0x110000)
  {
    InvalidTextIff(0x110000);
  }
}
