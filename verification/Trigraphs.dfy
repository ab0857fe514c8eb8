/** Reading a printed string back where trigraphs are replaced first (gtest-printers.cc; section 2.4 of ISO/IEC
14882:2011). */
module Trigraphs {
  import opened CStrings
  import opened Hexadecimal
  import opened Printers
  import opened PrinterProperties

  const QUESTION: nat := 0x3F
  const BACKSLASH: nat := 0x5C

  /** What two question marks and this character stand for. */
  function Trigraph(c: nat): Option<char> {
    if c == '=' as nat then Some('#')
    else if c == '/' as nat then Some('\\')
    else if c == '\'' as nat then Some('^')
    else if c == '(' as nat then Some('[')
    else if c == ')' as nat then Some(']')
    else if c == '!' as nat then Some('|')
    else if c == '<' as nat then Some('{')
    else if c == '>' as nat then Some('}')
    else if c == '-' as nat then Some('~')
    else None
  }

  predicate TextStartsTrigraph(t: string) {
    |t| > 2 && t[0] == '?' && t[1] == '?' && Trigraph(t[2] as nat).Some?
  }

  function Replaced(t: string): string {
    if t == [] then []
    else if TextStartsTrigraph(t) then [Trigraph(t[2] as nat).value] + Replaced(t[3..])
    else [t[0]] + Replaced(t[1..])
  }

  predicate StartsTrigraph(s: seq<nat>) {
    |s| > 2 && s[0] == QUESTION && s[1] == QUESTION && Trigraph(s[2]).Some?
  }

  predicate HasTrigraph(s: seq<nat>) {
    exists i :: 0 <= i < |s| && StartsTrigraph(s[i..])
  }

  // ----- replacing in printed text -----

  lemma {:induction false} ReplacedSkips(e: string, t: string)
    requires '?' !in e
    ensures Replaced(e + t) == e + Replaced(t)
  {
    if e == [] {
      assert e + t == t;
    } else {
      assert (e + t)[0] == e[0] && e[0] in e && (e + t)[1..] == e[1..] + t;
      ReplacedSkips(e[1..], t);
    }
  }

  lemma NoQuestion(c: nat)
    requires c != QUESTION
    ensures '?' !in StringElement(c).0
  {
    assert forall i :: 0 <= i < |Hex(c)| ==> Hex(c)[i] != '?';
  }

  /** The printed text, with trigraphs replaced. */
  function Text(wide: bool, s: seq<nat>): string {
    Replaced(Printed(wide, s, false))
  }

  /** A printed text starts with a character of the string, or with one that means something in a literal. */
  lemma PrintedFirst(wide: bool, s: seq<nat>)
    ensures var t := Printed(wide, s, false);
      t != [] && (t[0] == QUOTE || t[0] == '\\' ||
        (s != [] && t == [s[0] as char] + Printed(wide, s[1..], false) && IsPrintableAscii(s[0]) && s[0] != BACKSLASH && s[0] != 0x22))
    ensures s != [] && IsPrintableAscii(s[0]) && s[0] != BACKSLASH && s[0] != 0x22 ==>
      Printed(wide, s, false) == [s[0] as char] + Printed(wide, s[1..], false)
  {
    if s != [] {
      FirstElement(s[0]);
    }
  }

  lemma TrigraphCharacters(c: nat)
    ensures Trigraph(c).Some? ==> IsPrintableAscii(c) && c != BACKSLASH && c != 0x22
    ensures Trigraph(c).Some? ==> var z := Trigraph(c).value; z != QUOTE && z != '\n' && z != '?' && !IsXDigit(z as nat)
    ensures Trigraph(c).Some? && Trigraph(c).value != '\\' ==>
      SimpleEscape(Trigraph(c).value).None? && Trigraph(c).value != 'x'
  {
  }

  lemma PrintedQuestion(wide: bool, s: seq<nat>)
    ensures Printed(wide, s, false)[0] == '?' <==> s != [] && s[0] == QUESTION
    ensures s != [] && s[0] == QUESTION ==> Printed(wide, s, false) == ['?'] + Printed(wide, s[1..], false)
  {
    PrintedFirst(wide, s);
  }

  lemma PrintedThird(wide: bool, s: seq<nat>)
    ensures Trigraph(Printed(wide, s, false)[0] as nat).Some? <==> s != [] && Trigraph(s[0]).Some?
    ensures s != [] && Trigraph(s[0]).Some? ==> Printed(wide, s, false) == [s[0] as char] + Printed(wide, s[1..], false)
  {
    PrintedFirst(wide, s);
    if s != [] {
      TrigraphCharacters(s[0]);
    }
  }

  /** The text starts a trigraph exactly if the string does. */
  lemma TextStarts(wide: bool, s: seq<nat>)
    ensures TextStartsTrigraph(Printed(wide, s, false)) <==> StartsTrigraph(s)
    ensures StartsTrigraph(s) ==> Text(wide, s) == [Trigraph(s[2]).value] + Text(wide, s[3..])
  {
    var t := Printed(wide, s, false);
    PrintedQuestion(wide, s);
    if s != [] && s[0] == QUESTION {
      var u := s[1..];
      PrintedQuestion(wide, u);
      assert t[1..] == Printed(wide, u, false);
      if u != [] && u[0] == QUESTION {
        var v := u[1..];
        PrintedThird(wide, v);
        assert t[2..] == Printed(wide, v, false);
        if v != [] && Trigraph(v[0]).Some? {
          assert v[0] == s[2] && v[1..] == s[3..] && t[3..] == Printed(wide, v[1..], false);
        }
      }
    }
  }

  /** Any other character is printed as before. */
  lemma TextNext(wide: bool, s: seq<nat>)
    requires s != [] && !StartsTrigraph(s)
    ensures Text(wide, s) == StringElement(s[0]).0 + Replaced(Printed(wide, s[1..], StringElement(s[0]).1 == HexEscape))
  {
    TextStarts(wide, s);
    if s[0] == QUESTION {
      assert StringElement(QUESTION) == (['?'], AsIs);
      var t := Printed(wide, s, false);
      assert t[1..] == Printed(wide, s[1..], false);
    } else {
      NoQuestion(s[0]);
      ReplacedSkips(StringElement(s[0]).0, Printed(wide, s[1..], StringElement(s[0]).1 == HexEscape));
    }
  }

  /** How the text starts. */
  lemma TextFirst(wide: bool, s: seq<nat>)
    ensures var w := Text(wide, s);
      && w != []
      && (s == [] ==> w == [QUOTE])
      && (StartsTrigraph(s) ==> w[0] == Trigraph(s[2]).value)
      && (s != [] && !StartsTrigraph(s) && w[0] != '\\' ==>
           IsPrintableAscii(s[0]) && s[0] != BACKSLASH && s[0] != 0x22 && w == [s[0] as char] + Text(wide, s[1..]))
      && (s != [] ==> w[0] != QUOTE)
  {
    TextStarts(wide, s);
    if s == [] {
      assert Replaced([]) == [];
    } else if StartsTrigraph(s) {
      TrigraphCharacters(s[2]);
    } else {
      TextNext(wide, s);
      FirstElement(s[0]);
    }
  }

  // ----- reading the first character -----

  /** Digits at the head of the text are characters of the string. */
  lemma {:induction false} PlainRun(wide: bool, s: seq<nat>, n: nat)
    requires n <= |Text(wide, s)| && forall i :: 0 <= i < n ==> IsXDigit(Text(wide, s)[i] as nat)
    ensures n <= |s| && BACKSLASH !in s[..n] && Text(wide, s)[n..] == Text(wide, s[n..])
    decreases n
  {
    if n > 0 {
      var w, rest := Text(wide, s), s[1..];
      TextFirst(wide, s);
      assert IsXDigit(w[0] as nat);
      if StartsTrigraph(s) {
        TrigraphCharacters(s[2]);
      }
      var v := Text(wide, rest);
      assert w == [w[0]] + v;
      assert forall i :: 0 <= i < n - 1 ==> v[i] == w[i + 1];
      PlainRun(wide, rest, n - 1);
      assert v[n - 1..] == w[n..] && rest[n - 1..] == s[n..];
      assert s[..n] == [s[0]] + rest[..n - 1];
    }
  }

  lemma PlainRunAfter(wide: bool, s: seq<nat>, n: nat)
    requires s != [] && s[0] != BACKSLASH
    requires n <= |Text(wide, s[1..])| && forall i :: 0 <= i < n ==> IsXDigit(Text(wide, s[1..])[i] as nat)
    ensures 1 + n <= |s| && BACKSLASH !in s[..1 + n] && Text(wide, s[1..])[n..] == Text(wide, s[1 + n..])
  {
    PlainRun(wide, s[1..], n);
    assert s[..1 + n] == [s[0]] + s[1..][..n];
    assert s[1..][n..] == s[1 + n..];
  }

  /** What reading the text finds first: nothing that can be read, a backslash, or a character for the first `k` of the
  string. */
  datatype First = Unreadable | Backslash | Step(code: nat, k: nat)

  function Prepend(code: nat, rest: Option<seq<nat>>): Option<seq<nat>> {
    if rest.None? then None else Some([code] + rest.value)
  }

  /** `r` is what reading `before` and the text of `s` gives. */
  ghost predicate Finds(wide: bool, r: Option<seq<nat>>, s: seq<nat>, first: First) {
    match first
    case Unreadable => r == None
    case Backslash => r.Some? ==> r.value != [] && r.value[0] == BACKSLASH
    case Step(code, k) => k <= |s| && BACKSLASH !in s[..k] && r == Prepend(code, ReadInside(wide, Text(wide, s[k..])))
  }

  /** An element, and then the rest. */
  lemma ReadNext(wide: bool, t: string, e: Element)
    requires t != [] && t[0] != QUOTE && ReadElement(QUOTE, MaxChar(wide), t) == Some(e)
    ensures ReadInside(wide, t) == Prepend(e.code, ReadInside(wide, t[e.length..]))
  {
  }

  lemma NoElement(wide: bool, t: string)
    requires t != [] && t[0] != QUOTE && ReadElement(QUOTE, MaxChar(wide), t) == None
    ensures ReadInside(wide, t) == None
  {
  }

  /** A backslash made from a trigraph takes in what follows. */
  lemma AfterBackslash(wide: bool, s: seq<nat>) returns (first: First)
    ensures Finds(wide, ReadInside(wide, ['\\'] + Text(wide, s)), s, first)
    ensures first.Step? ==> first.k > 0
  {
    var w := Text(wide, s);
    var t := ['\\'] + w;
    TextFirst(wide, s);
    assert t[1..] == w && t[2..] == w[1..];
    var r := ReadElement(QUOTE, MaxChar(wide), t);
    if s == [] {
      first := Unreadable;
      ReadNext(wide, t, Element(0x22, 2));
      assert t[2..] == [];
    } else if w[0] == '\\' {
      first := Backslash;
      ReadNext(wide, t, Element(BACKSLASH, 2));
    } else if r.None? {
      first := Unreadable;
      NoElement(wide, t);
    } else {
      if StartsTrigraph(s) {
        TrigraphCharacters(s[2]);
        assert false;
      }
      var j := r.value.length - 1;
      TakenAfterBackslash(wide, s, j);
      ReadNext(wide, t, r.value);
      assert t[1 + j..] == w[j..];
      first := Step(r.value.code, j);
    }
  }

  /** What an escape sequence takes after its backslash are characters of the string. */
  lemma TakenAfterBackslash(wide: bool, s: seq<nat>, j: nat)
    requires s != [] && !StartsTrigraph(s) && Text(wide, s)[0] != '\\'
    requires var r := ReadElement(QUOTE, MaxChar(wide), ['\\'] + Text(wide, s)); r.Some? && r.value.length == 1 + j
    ensures 0 < j <= |s| && BACKSLASH !in s[..j] && Text(wide, s)[j..] == Text(wide, s[j..])
  {
    var w := Text(wide, s);
    var t := ['\\'] + w;
    TextFirst(wide, s);
    assert t[1..] == w && t[2..] == w[1..] == Text(wide, s[1..]);
    if SimpleEscape(w[0]).Some? {
      assert j == 1;
    } else if w[0] == 'x' {
      PlainRunAfter(wide, s, j - 1);
      assert w[1..][j - 1..] == w[j..];
    } else {
      assert j == OctalRun(w);
      assert forall i :: 0 <= i < j ==> IsXDigit(w[i] as nat);
      PlainRun(wide, s, j);
    }
  }

  /** What the escape sequence of a NUL takes. */
  lemma NulElementTakes(wide: bool, w: string) returns (e: Element)
    ensures ReadElement(QUOTE, MaxChar(wide), ['\\', '0'] + w) == Some(e) && 2 <= e.length <= 4 && e.length <= 2 + |w|
    ensures forall i :: 0 <= i < e.length - 2 ==> IsOctal(w[i] as nat)
    ensures if w != [] && IsOctal(w[0] as nat) then e.length > 2 else e == Element(0, 2)
  {
    var t := ['\\', '0'] + w;
    var u := t[1..];
    assert u == ['0'] + w;
    var n := OctalRun(u);
    assert forall i :: 0 <= i < n - 1 ==> w[i] == u[i + 1];
    OctalBound(u[..n]);
    e := Element(OctalValue(u[..n]), 1 + n);
    if w == [] || !IsOctal(w[0] as nat) {
      assert u[..1] == ['0'];
      OctalZero();
    }
  }

  /** A NUL takes in octal digits that follow. */
  lemma AfterNul(wide: bool, s: seq<nat>) returns (first: First)
    ensures Finds(wide, ReadInside(wide, ['\\', '0'] + Text(wide, s)), s, first) && first.Step?
    ensures s != [] && IsOctal(s[0]) ==> first.k > 0
    ensures s == [] || !IsOctal(s[0]) ==> first == Step(0, 0)
  {
    var w := Text(wide, s);
    var t := ['\\', '0'] + w;
    var e := NulElementTakes(wide, w);
    OctalHead(wide, s);
    PlainRun(wide, s, e.length - 2);
    ReadNext(wide, t, e);
    assert t[e.length..] == w[e.length - 2..];
    first := Step(e.code, e.length - 2);
  }

  /** The text starts with an octal digit exactly if the string does. */
  lemma OctalHead(wide: bool, s: seq<nat>)
    ensures Text(wide, s) != [] && (IsOctal(Text(wide, s)[0] as nat) <==> s != [] && IsOctal(s[0]))
  {
    TextFirst(wide, s);
    if StartsTrigraph(s) {
      TrigraphCharacters(s[2]);
    } else if s != [] && IsOctal(s[0]) {
      TextNext(wide, s);
      OctalElement(s[0]);
    }
  }

  lemma OctalZero()
    ensures OctalValue(['0']) == 0
  {
    assert ['0'][..0] == [];
    assert OctalValue([]) == 0;
  }

  lemma OctalBound(digits: string)
    requires 0 < |digits| <= 3 && digits[0] == '0' && forall i :: 0 <= i < |digits| ==> IsOctal(digits[i] as nat)
    ensures OctalValue(digits) <= 63
  {
    OctalZero();
    var a := digits[..|digits| - 1];
    if |digits| == 1 {
      assert digits == ['0'];
    } else if |digits| == 2 {
      assert a == ['0'];
    } else {
      assert a[..1] == ['0'];
    }
  }

  // ----- reading the whole text -----

  /** A NUL before an octal digit. */
  predicate NulOctal(s: seq<nat>) {
    |s| > 1 && s[0] == 0 && IsOctal(s[1])
  }

  lemma EndsAfterReplacing(t: string)
    ensures EndsHex(t) ==> EndsHex(Replaced(t))
  {
    if TextStartsTrigraph(t) {
      TrigraphCharacters(t[2] as nat);
    }
  }

  lemma ReplacedBreak(wide: bool, t: string)
    ensures ReadInside(wide, Replaced(Break(wide) + t)) == ReadInside(wide, Replaced(t))
  {
    ReplacedSkips(Break(wide), t);
    ReadBreak(wide, Replaced(t));
  }

  lemma ReadRestAfterHex(wide: bool, s: seq<nat>, afterHex: bool)
    ensures ReadInside(wide, Replaced(Printed(wide, s, afterHex))) == ReadInside(wide, Text(wide, s))
  {
    if NeedsBreak(afterHex, s) {
      ReplacedBreak(wide, Printed(wide, s, false));
    }
  }

  /** A character that is neither replaced nor takes in what follows reads as itself. */
  lemma ReadPlain(wide: bool, s: seq<nat>)
    requires s != [] && s[0] <= MaxChar(wide) && s[0] != 0 && !StartsTrigraph(s)
    ensures ReadInside(wide, Text(wide, s)) == Prepend(s[0], ReadInside(wide, Text(wide, s[1..])))
  {
    var e, hex := StringElement(s[0]).0, StringElement(s[0]).1 == HexEscape;
    var rest := Replaced(Printed(wide, s[1..], hex));
    TextNext(wide, s);
    PrintedStarts(wide, s[1..], hex);
    EndsAfterReplacing(Printed(wide, s[1..], hex));
    StringElementReads(s[0], MaxChar(wide), rest);
    FirstElement(s[0]);
    ReadNext(wide, e + rest, Element(s[0], |e|));
    assert (e + rest)[|e|..] == rest;
    ReadRestAfterHex(wide, s[1..], hex);
  }

  /** What the rest of the string after `m` characters finds, counted from the start. */
  lemma FoundLater(wide: bool, r: Option<seq<nat>>, s: seq<nat>, m: nat, inner: First) returns (first: First)
    requires m <= |s| && BACKSLASH !in s[..m] && Finds(wide, r, s[m..], inner)
    ensures first == (if inner.Step? then Step(inner.code, m + inner.k) else inner) && Finds(wide, r, s, first)
  {
    first := inner;
    if inner.Step? {
      first := Step(inner.code, m + inner.k);
      assert s[m..][inner.k..] == s[m + inner.k..];
      assert s[..m + inner.k] == s[..m] + s[m..][..inner.k];
    }
  }

  lemma TrigraphFirst(wide: bool, s: seq<nat>) returns (first: First)
    requires StartsTrigraph(s)
    ensures Finds(wide, ReadInside(wide, Text(wide, s)), s, first) && (first.Step? ==> first.k > 1)
  {
    TextStarts(wide, s);
    var z := Trigraph(s[2]).value;
    TrigraphCharacters(s[2]);
    if z == '\\' {
      var inner := AfterBackslash(wide, s[3..]);
      first := FoundLater(wide, ReadInside(wide, Text(wide, s)), s, 3, inner);
    } else {
      var t := Text(wide, s);
      ReadNext(wide, t, Element(z as nat, 1));
      assert t[1..] == Text(wide, s[3..]);
      first := Step(z as nat, 3);
    }
  }

  lemma NulText(wide: bool, s: seq<nat>)
    requires s != [] && s[0] == 0
    ensures Text(wide, s) == ['\\', '0'] + Text(wide, s[1..])
  {
    TextNext(wide, s);
    assert StringElement(0) == (['\\', '0'], SpecialEscape);
  }

  lemma NulFirst(wide: bool, s: seq<nat>) returns (first: First)
    requires s != [] && s[0] == 0
    ensures Finds(wide, ReadInside(wide, Text(wide, s)), s, first) && first.Step? && first.k > 0
    ensures if NulOctal(s) then first.k > 1 else first == Step(0, 1)
  {
    NulText(wide, s);
    var inner := AfterNul(wide, s[1..]);
    first := FoundLater(wide, ReadInside(wide, Text(wide, s)), s, 1, inner);
  }

  /** The first character that is read: the string's own, unless it starts a trigraph or is a NUL before an octal
  digit; then more than one character of the string is gone, or a backslash comes first. */
  lemma FirstRead(wide: bool, s: seq<nat>) returns (first: First)
    requires s != [] && Chars(wide, s)
    ensures StartsTrigraph(s) || NulOctal(s) ==>
      Finds(wide, ReadInside(wide, Text(wide, s)), s, first) && s[0] != BACKSLASH && (first.Step? ==> first.k > 1)
    ensures !StartsTrigraph(s) && !NulOctal(s) ==>
      ReadInside(wide, Text(wide, s)) == Prepend(s[0], ReadInside(wide, Text(wide, s[1..])))
  {
    if StartsTrigraph(s) {
      first := TrigraphFirst(wide, s);
    } else if s[0] == 0 {
      first := NulFirst(wide, s);
    } else {
      ReadPlain(wide, s);
      first := Step(s[0], 1);
    }
  }

  /** What is read first is no part of what was passed over, or reading is as far behind as before. */
  lemma BehindByOne(passed: seq<nat>, s: seq<nat>, code: nat, k: nat, rest: Option<seq<nat>>)
    requires passed != [] && k <= |s| && rest != Some(passed[1..] + s[..k] + s[k..])
    ensures Prepend(code, rest) != Some(passed + s)
  {
    assert (passed + s)[1..] == passed[1..] + s[..k] + s[k..];
    assert rest.Some? ==> ([code] + rest.value)[1..] == rest.value;
  }

  /** Once reading is behind, it stays behind: what is read is never what was passed over, followed by the rest. */
  lemma {:induction false} StaysBehind(wide: bool, s: seq<nat>, passed: seq<nat>)
    requires Chars(wide, s) && passed != [] && BACKSLASH !in passed
    ensures ReadInside(wide, Text(wide, s)) != Some(passed + s)
    decreases |s|
  {
    if s == [] {
      TextFirst(wide, s);
      assert [QUOTE][1..] == [];
      assert ReadInside(wide, [QUOTE]) == Some([]);
    } else {
      var first := FirstRead(wide, s);
      var plain := !StartsTrigraph(s) && !NulOctal(s);
      if plain && s[0] == BACKSLASH {
        OtherFirst(passed, s, ReadInside(wide, Text(wide, s)));
      } else if !plain && first.Backslash? {
        OtherFirst(passed, s, ReadInside(wide, Text(wide, s)));
      } else if plain || first.Step? {
        var code, k := if plain then s[0] else first.code, if plain then 1 else first.k;
        assert BACKSLASH !in passed[1..] + s[..k];
        StaysBehind(wide, s[k..], passed[1..] + s[..k]);
        BehindByOne(passed, s, code, k, ReadInside(wide, Text(wide, s[k..])));
      }
    }
  }

  lemma OtherFirst(passed: seq<nat>, s: seq<nat>, r: Option<seq<nat>>)
    requires passed != [] && BACKSLASH !in passed && (r.Some? ==> r.value != [] && r.value[0] == BACKSLASH)
    ensures r != Some(passed + s)
  {
    assert passed[0] in passed && (passed + s)[0] == passed[0];
  }

  // ----- the exact condition -----

  lemma FlawsShift(s: seq<nat>)
    requires s != []
    ensures HasTrigraph(s) <==> StartsTrigraph(s) || HasTrigraph(s[1..])
    ensures NulBeforeOctal(s) <==> NulOctal(s) || NulBeforeOctal(s[1..])
  {
    assert forall i :: 0 < i <= |s| ==> s[i..] == s[1..][i - 1..];
    assert s[0..] == s;
    if i :| 0 <= i < |s[1..]| && StartsTrigraph(s[1..][i..]) {
      assert StartsTrigraph(s[i + 1..]);
    }
    if i :| 0 <= i < |s[1..]| - 1 && s[1..][i] == 0 && IsOctal(s[1..][i + 1]) {
      assert s[i + 1] == 0 && IsOctal(s[i + 1 + 1]);
    }
    if i :| 0 < i < |s| - 1 && s[i] == 0 && IsOctal(s[i + 1]) {
      assert s[1..][i - 1] == 0 && IsOctal(s[1..][i - 1 + 1]);
    }
  }

  lemma PassedOver(s: seq<nat>, k: nat)
    requires 1 < k <= |s| && BACKSLASH !in s[..k]
    ensures s[1..k] != [] && BACKSLASH !in s[1..k] && s[1..] == s[1..k] + s[k..]
  {
    assert s[..k] == [s[0]] + s[1..k];
  }

  lemma FlawedFirst(wide: bool, s: seq<nat>)
    requires Chars(wide, s) && (StartsTrigraph(s) || NulOctal(s))
    ensures ReadInside(wide, Text(wide, s)) != Some(s)
  {
    var first := FirstRead(wide, s);
    if first.Step? {
      var k := first.k;
      PassedOver(s, k);
      StaysBehind(wide, s[k..], s[1..k]);
      PrependOther(first.code, ReadInside(wide, Text(wide, s[k..])), s);
    }
  }

  lemma PrependOther(code: nat, rest: Option<seq<nat>>, s: seq<nat>)
    requires s != [] && rest != Some(s[1..])
    ensures Prepend(code, rest) != Some(s)
  {
    assert rest.Some? ==> ([code] + rest.value)[1..] == rest.value;
  }

  lemma {:induction false} TextReadsBackIff(wide: bool, s: seq<nat>)
    requires Chars(wide, s)
    ensures ReadInside(wide, Text(wide, s)) == Some(s) <==> !NulBeforeOctal(s) && !HasTrigraph(s)
  {
    if s == [] {
      TextFirst(wide, s);
      assert [QUOTE][1..] == [];
      assert ReadInside(wide, [QUOTE]) == Some([]);
    } else {
      FlawsShift(s);
      if StartsTrigraph(s) || NulOctal(s) {
        FlawedFirst(wide, s);
      } else {
        TextReadsBackIff(wide, s[1..]);
        var first := FirstRead(wide, s);
        var rest := ReadInside(wide, Text(wide, s[1..]));
        assert [s[0]] + s[1..] == s;
        if rest != Some(s[1..]) {
          PrependOther(s[0], rest, s);
        }
      }
    }
  }

  /** Where trigraphs are replaced, the printed string reads back as itself exactly if it has no NUL directly before an
  octal digit and no trigraph. */
  lemma ReadsBackWithTrigraphsIff(wide: bool, s: seq<nat>)
    requires Chars(wide, s)
    ensures Read(wide, Replaced(StringLiteral(wide, s))) == Some(s) <==> !NulBeforeOctal(s) && !HasTrigraph(s)
  {
    var start := Prefix(wide) + [QUOTE];
    ReplacedSkips(start, Printed(wide, s, false));
    assert StringLiteral(wide, s) == start + Printed(wide, s, false);
    ReadLiteral(wide, Text(wide, s));
    TextReadsBackIff(wide, s);
  }

  lemma ReadLiteral(wide: bool, t: string)
    ensures Read(wide, Prefix(wide) + [QUOTE] + t) == ReadInside(wide, t)
  {
    var u := Prefix(wide) + [QUOTE] + t;
    assert u[..|Prefix(wide)|] == Prefix(wide) && u[|Prefix(wide)| + 1..] == t;
  }
}
