/** Wide strings as UTF-8 (gtest.cc).  Bit patterns are numbers: the low n bits are a remainder by 2^n, a shift by n
bits is a quotient, and | of patterns without common bits is a sum. */
module Utf8 {
  import opened CStrings
  import opened Hexadecimal

  type Byte = b: int | 0 <= b < 0x100
  type UInt32 = c: int | 0 <= c < 0x1_0000_0000

  const MAX_CODE_POINT_1: UInt32 := 0x7F
  const MAX_CODE_POINT_2: UInt32 := 0x7FF
  const MAX_CODE_POINT_3: UInt32 := 0xFFFF
  const MAX_CODE_POINT_4: UInt32 := 0x1F_FFFF

  const BUFFER_SIZE: nat := 32

  predicate IsSurrogate(c: UInt32) {
    0xD800 <= c <= 0xDFFF
  }

  /** A Unicode scalar value. */
  predicate IsScalar(c: UInt32) {
    c <= 0x10FFFF && !IsSurrogate(c)
  }

  // ----- encoding -----

  /** "(Invalid Unicode 0x" */
  const INVALID_PREFIX: seq<Byte> := [0x28, 0x49, 0x6E, 0x76, 0x61, 0x6C, 0x69, 0x64, 0x20, 0x55, 0x6E, 0x69, 0x63, 0x6F, 0x64, 0x65,
                                      0x20, 0x30, 0x78]

  function Ascii(s: string): (b: seq<Byte>)
    requires forall i :: 0 <= i < |s| ==> s[i] as int < 0x80
    ensures |b| == |s| && forall i :: 0 <= i < |s| ==> b[i] == s[i] as int
  {
    seq(|s|, i requires 0 <= i < |s| => s[i] as int)
  }

  function InvalidText(c: UInt32): seq<Byte> {
    INVALID_PREFIX + Ascii(Hex(c)) + [0x29]
  }

  /** The bytes for a code point (the pattern of section 3 of RFC 3629, up to its limit of 21 bits). */
  function Utf8Of(c: UInt32): (s: seq<Byte>)
    requires c <= MAX_CODE_POINT_4
  {
    if c <= MAX_CODE_POINT_1 then [c]
    else if c <= MAX_CODE_POINT_2 then [0xC0 + c / 0x40, 0x80 + c % 0x40]
    else if c <= MAX_CODE_POINT_3 then [0xE0 + c / 0x1000, 0x80 + c / 0x40 % 0x40, 0x80 + c % 0x40]
    else [0xF0 + c / 0x4_0000, 0x80 + c / 0x1000 % 0x40, 0x80 + c / 0x40 % 0x40, 0x80 + c % 0x40]
  }

  function Shown(c: UInt32): seq<Byte> {
    if c <= MAX_CODE_POINT_4 then Utf8Of(c) else InvalidText(c)
  }

  function ShownAll(cs: seq<UInt32>): seq<Byte> {
    if cs == [] then [] else Shown(cs[0]) + ShownAll(cs[1..])
  }

  /** The C string that starts at the beginning of a buffer. */
  function Terminated(b: seq<Byte>): seq<Byte> {
    if b == [] || b[0] == 0 then [] else [b[0]] + Terminated(b[1..])
  }

  /** The number of bits is 6 in all calls. */
  method ChopLowBits(bits: UInt32) returns (low: nat, shifted: UInt32)
    ensures low == bits % 0x40 && shifted == bits / 0x40
  {
    low, shifted := bits % 0x40, bits / 0x40;
  }

  lemma {:induction false} TerminatedPrefix(b: seq<Byte>, s: seq<Byte>)
    requires |s| < |b| && b[..|s|] == s && b[|s|] == 0 && 0 !in s
    ensures Terminated(b) == s
  {
    if s != [] {
      assert b[0] == s[0];
      TerminatedPrefix(b[1..], s[1..]);
    }
  }

  lemma InvalidTextFits(c: UInt32)
    ensures |InvalidText(c)| <= 28 && 0 !in InvalidText(c)
  {
    assert Power16(8) == 0x1_0000_0000;
    HexLength(c, 8);
  }

  method CodePointToUtf8(codePoint: UInt32, str: array<Byte>)
    requires str.Length >= BUFFER_SIZE
    modifies str
    ensures Terminated(str[..]) == if codePoint == 0 then [] else Shown(codePoint)
  {
    if codePoint <= MAX_CODE_POINT_1 {
      str[1] := 0;
      str[0] := codePoint;
      TerminatedPrefix(str[..], if codePoint == 0 then [] else [codePoint]);
    } else if codePoint <= MAX_CODE_POINT_2 {
      PutTwoBytes(codePoint, str);
    } else if codePoint <= MAX_CODE_POINT_3 {
      PutThreeBytes(codePoint, str);
    } else if codePoint <= MAX_CODE_POINT_4 {
      PutFourBytes(codePoint, str);
    } else {
      InvalidTextFits(codePoint);
      StrNCpy(str, InvalidText(codePoint));
      str[31] := 0;
      assert str[..|InvalidText(codePoint)|] == InvalidText(codePoint);
      TerminatedPrefix(str[..], InvalidText(codePoint));
    }
  }

  method PutTwoBytes(codePoint: UInt32, str: array<Byte>)
    requires str.Length >= BUFFER_SIZE && MAX_CODE_POINT_1 < codePoint <= MAX_CODE_POINT_2
    modifies str
    ensures Terminated(str[..]) == Utf8Of(codePoint)
  {
    str[2] := 0;
    var low, code := ChopLowBits(codePoint);
    str[1] := 0x80 + low;
    str[0] := 0xC0 + code;
    assert str[..2] == [str[0], str[1]];
    TerminatedPrefix(str[..], Utf8Of(codePoint));
  }

  method PutThreeBytes(codePoint: UInt32, str: array<Byte>)
    requires str.Length >= BUFFER_SIZE && MAX_CODE_POINT_2 < codePoint <= MAX_CODE_POINT_3
    modifies str
    ensures Terminated(str[..]) == Utf8Of(codePoint)
  {
    str[3] := 0;
    var low, code := ChopLowBits(codePoint);
    str[2] := 0x80 + low;
    low, code := ChopLowBits(code);
    str[1] := 0x80 + low;
    str[0] := 0xE0 + code;
    assert str[..3] == [str[0], str[1], str[2]];
    TerminatedPrefix(str[..], Utf8Of(codePoint));
  }

  method PutFourBytes(codePoint: UInt32, str: array<Byte>)
    requires str.Length >= BUFFER_SIZE && MAX_CODE_POINT_3 < codePoint <= MAX_CODE_POINT_4
    modifies str
    ensures Terminated(str[..]) == Utf8Of(codePoint)
  {
    str[4] := 0;
    var low, code := ChopLowBits(codePoint);
    str[3] := 0x80 + low;
    low, code := ChopLowBits(code);
    str[2] := 0x80 + low;
    low, code := ChopLowBits(code);
    str[1] := 0x80 + low;
    str[0] := 0xF0 + code;
    assert str[..4] == [str[0], str[1], str[2], str[3]];
    TerminatedPrefix(str[..], Utf8Of(codePoint));
  }

  /** Copies `s`, and fills the rest of the buffer with NUL. */
  method StrNCpy(str: array<Byte>, s: seq<Byte>)
    requires |s| <= BUFFER_SIZE <= str.Length
    modifies str
    ensures str[..|s|] == s && forall k :: |s| <= k < BUFFER_SIZE ==> str[k] == 0
  {
    for i := 0 to BUFFER_SIZE
      invariant forall k :: 0 <= k < i ==> str[k] == if k < |s| then s[k] else 0
    {
      str[i] := if i < |s| then s[i] else 0;
    }
  }

  // ----- UTF-16 -----

  predicate IsUtf16SurrogatePair(size: nat, first: UInt32, second: UInt32) {
    size == 2 && first / 0x400 == 0xD800 / 0x400 && second / 0x400 == 0xDC00 / 0x400
  }

  function CodePointFromSurrogatePair(first: UInt32, second: UInt32): (c: UInt32)
    ensures c >= 0x10000
  {
    first % 0x400 * 0x400 + second % 0x400 + 0x10000
  }

  /** The code points of a wide string, where `size` is that of a wchar_t. */
  function CodePoints(size: nat, s: seq<UInt32>): seq<UInt32> {
    if s == [] then []
    else if |s| > 1 && IsUtf16SurrogatePair(size, s[0], s[1]) then
      [CodePointFromSurrogatePair(s[0], s[1])] + CodePoints(size, s[2..])
    else [s[0]] + CodePoints(size, s[1..])
  }

  /** The characters that are processed; `str` ends before its NUL. */
  function Taken(str: seq<UInt32>, numChars: int): seq<UInt32> {
    if numChars == -1 || numChars >= |str| then str else if numChars < 0 then [] else str[..numChars]
  }

  /** How many characters make up the code point at `i`. */
  function Units(size: nat, s: seq<UInt32>, i: nat): nat
    requires i < |s|
  {
    if i + 1 < |s| && IsUtf16SurrogatePair(size, s[i], s[i + 1]) then 2 else 1
  }

  function CodePointAt(size: nat, s: seq<UInt32>, i: nat): UInt32
    requires i < |s|
  {
    if Units(size, s, i) == 2 then CodePointFromSurrogatePair(s[i], s[i + 1]) else s[i]
  }

  /** What is shown of the characters from `i` on. */
  function ShownFrom(size: nat, s: seq<UInt32>, i: nat): seq<Byte>
    requires i <= |s|
  {
    ShownAll(CodePoints(size, s[i..]))
  }

  lemma NextShown(size: nat, s: seq<UInt32>, i: nat, stream: seq<Byte>, c: UInt32, next: nat)
    requires i < |s| && c == CodePointAt(size, s, i) && next == i + Units(size, s, i)
    ensures i < next <= |s| && stream + ShownFrom(size, s, i) == (stream + Shown(c)) + ShownFrom(size, s, next)
  {
    var rest, n := s[i..], next - i;
    assert rest[n..] == s[i + n..];
    var cs := CodePoints(size, s[i + n..]);
    assert CodePoints(size, rest) == [c] + cs;
    assert ([c] + cs)[1..] == cs;
  }

  lemma ShownFromEnds(size: nat, s: seq<UInt32>)
    ensures ShownFrom(size, s, 0) == ShownAll(CodePoints(size, s)) && ShownFrom(size, s, |s|) == []
  {
    assert s[0..] == s;
  }

  method ShowCodePoint(codePoint: UInt32) returns (s: seq<Byte>)
    requires codePoint != 0
    ensures s == Shown(codePoint)
  {
    var buffer := new Byte[BUFFER_SIZE];
    CodePointToUtf8(codePoint, buffer);
    s := Terminated(buffer[..]);
  }

  /** Reads the code point at `i`, within the first `n` characters.  The terminating NUL is no part of a surrogate
  pair. */
  method NextCodePoint(size: nat, str: seq<UInt32>, n: nat, i: nat, ghost taken: seq<UInt32>)
    returns (codePoint: UInt32, next: nat)
    requires 0 !in str && i < n && i < |str| && taken == if n >= |str| then str else str[..n]
    ensures codePoint == CodePointAt(size, taken, i) != 0 && next == i + Units(size, taken, i)
  {
    if i + 1 < n && i + 1 < |str| && IsUtf16SurrogatePair(size, str[i], str[i + 1]) {
      codePoint := CodePointFromSurrogatePair(str[i], str[i + 1]);
      next := i + 2;
    } else {
      codePoint := str[i];
      next := i + 1;
    }
  }

  method WideStringToUtf8(size: nat, str: seq<UInt32>, numChars: int) returns (stream: seq<Byte>)
    requires 0 !in str
    ensures stream == ShownAll(CodePoints(size, Taken(str, numChars)))
  {
    var n := if numChars == -1 then |str| else numChars;
    ghost var taken := Taken(str, numChars);
    ShownFromEnds(size, taken);
    stream := [];
    var i := 0;
    while i < n
      invariant 0 <= i <= |taken| && (n <= i ==> i == |taken|)
      invariant stream + ShownFrom(size, taken, i) == ShownFrom(size, taken, 0)
    {
      if i == |str| {
        // the terminating NUL
        break;
      }
      var codePoint, next := NextCodePoint(size, str, n, i, taken);
      NextShown(size, taken, i, stream, codePoint, next);
      var shown := ShowCodePoint(codePoint);
      stream := stream + shown;
      i := next;
    }
  }
}
