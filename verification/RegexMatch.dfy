/** The meaning of a simple regex, and the backtracking matcher proved against it (gtest-port.cc). */
module RegexMatch {
  import opened CStrings
  import opened RegexSyntax

  // ----- meaning -----

  /** Does the atom match the single character `ch`? */
  predicate AtomMatchesChar(escaped: bool, patternChar: char, ch: char) {
    if escaped then
      match patternChar
      case 'd' => IsAsciiDigit(ch)
      case 'D' => !IsAsciiDigit(ch)
      case 'f' => ch == '\U{0C}'
      case 'n' => ch == '\n'
      case 'r' => ch == '\r'
      case 's' => IsAsciiWhiteSpace(ch)
      case 'S' => !IsAsciiWhiteSpace(ch)
      case 't' => ch == '\t'
      case 'v' => ch == '\U{0B}'
      case 'w' => IsAsciiWordChar(ch)
      case 'W' => !IsAsciiWordChar(ch)
      case _ => IsAsciiPunct(patternChar) && patternChar == ch
    else
      (patternChar == '.' && ch != '\n') || patternChar == ch
  }

  /** \d, \s and \w are classes of characters, and their capitals the complements. */
  lemma AtomClasses(ch: char)
    ensures AtomMatchesChar(true, 'd', ch) <==> ch in "0123456789"
    ensures AtomMatchesChar(true, 's', ch) <==> ch in " \t\n\r\U{0B}\U{0C}"
    ensures AtomMatchesChar(true, 'w', ch) <==>
            'a' <= ch <= 'z' || 'A' <= ch <= 'Z' || ch == '_' || AtomMatchesChar(true, 'd', ch)
    ensures AtomMatchesChar(true, 'D', ch) <==> !AtomMatchesChar(true, 'd', ch)
    ensures AtomMatchesChar(true, 'S', ch) <==> !AtomMatchesChar(true, 's', ch)
    ensures AtomMatchesChar(true, 'W', ch) <==> !AtomMatchesChar(true, 'w', ch)
    ensures AtomMatchesChar(true, 's', ch) ==> !AtomMatchesChar(true, 'w', ch)
  {
  }

  /** Every other atom but '.' is a single character; the punctuation marks are the printable characters outside \w and
  \s, and '_'. */
  lemma AtomLiterals(ch: char)
    ensures AtomMatchesChar(false, '.', ch) <==> ch != '\n'
    ensures forall c {:trigger AtomMatchesChar(false, c, ch)} :: c != '.' ==> (AtomMatchesChar(false, c, ch) <==> ch == c)
    ensures forall c {:trigger AtomMatchesChar(true, c, ch)} :: IsAsciiPunct(c) ==> (AtomMatchesChar(true, c, ch) <==> ch == c)
    ensures AtomMatchesChar(true, 'n', ch) <==> ch == '\n'
    ensures AtomMatchesChar(true, 'r', ch) <==> ch == '\r'
    ensures AtomMatchesChar(true, 't', ch) <==> ch == '\t'
    ensures AtomMatchesChar(true, 'v', ch) <==> ch == '\U{0B}'
    ensures AtomMatchesChar(true, 'f', ch) <==> ch == '\U{0C}'
    ensures IsAsciiPunct(ch) <==> '!' <= ch <= '~' && (ch == '_' || !AtomMatchesChar(true, 'w', ch))
  {
  }

  predicate CountAllowed(rep: Rep, n: nat) {
    match rep
    case Once => n == 1
    case Optional => n <= 1
    case Star => true
    case Plus => n >= 1
  }

  /** The words of one token: an allowed number of characters, each matching the atom. */
  ghost predicate TokenLang(t: Token, w: string) {
    CountAllowed(t.rep, |w|) && forall i :: 0 <= i < |w| ==> AtomMatchesChar(t.escaped, t.c, w[i])
  }

  /** The language of a body: the concatenation of its tokens' languages ('$' consumes nothing). */
  ghost predicate Lang(b: Body, w: string)
    decreases b
  {
    match b
    case Done => w == ""
    case EndAnchor => w == ""
    case Cons(t, rest) => exists k :: 0 <= k <= |w| && TokenLang(t, w[..k]) && Lang(rest, w[k..])
  }

  predicate Anchored(b: Body) {
    b.EndAnchor? || (b.Cons? && Anchored(b.rest))
  }

  /** Some prefix of `s` is in the language: all of `s` if the body ends in '$'. */
  ghost predicate HeadMatch(b: Body, s: string) {
    exists k :: 0 <= k <= |s| && Lang(b, s[..k]) && (Anchored(b) ==> k == |s|)
  }

  /** Some substring of `s` is in the language, respecting the anchors. */
  ghost predicate Occurs(p: Pattern, s: string) {
    exists i, j :: 0 <= i <= j <= |s| && Lang(p.body, s[i..j]) &&
      (p.atStart ==> i == 0) && (Anchored(p.body) ==> j == |s|)
  }

  // ----- how a match splits -----

  lemma HeadMatchSplit(t: Token, rest: Body, s: string)
    ensures HeadMatch(Cons(t, rest), s) <==>
            exists n :: 0 <= n <= |s| && TokenLang(t, s[..n]) && HeadMatch(rest, s[n..])
  {
    var b := Cons(t, rest);
    if HeadMatch(b, s) {
      var k :| 0 <= k <= |s| && Lang(b, s[..k]) && (Anchored(b) ==> k == |s|);
      var n :| 0 <= n <= |s[..k]| && TokenLang(t, s[..k][..n]) && Lang(rest, s[..k][n..]);
      assert s[..k][..n] == s[..n];
      assert s[..k][n..] == s[n..][..k - n];
    }
    if n :| 0 <= n <= |s| && TokenLang(t, s[..n]) && HeadMatch(rest, s[n..]) {
      var m :| 0 <= m <= |s[n..]| && Lang(rest, s[n..][..m]) && (Anchored(rest) ==> m == |s[n..]|);
      assert s[..n + m][..n] == s[..n];
      assert s[..n + m][n..] == s[n..][..m];
      assert Lang(b, s[..n + m]);
    }
  }

  lemma HeadMatchOnce(t: Token, rest: Body, s: string)
    requires t.rep == Once
    ensures HeadMatch(Cons(t, rest), s) <==>
            |s| > 0 && AtomMatchesChar(t.escaped, t.c, s[0]) && HeadMatch(rest, s[1..])
  {
    HeadMatchSplit(t, rest, s);
    assert |s| > 0 && AtomMatchesChar(t.escaped, t.c, s[0]) ==> TokenLang(t, s[..1]);
    forall n | 0 <= n <= |s| && TokenLang(t, s[..n])
      ensures n == 1 && AtomMatchesChar(t.escaped, t.c, s[0])
    {
      assert s[..n][0] == s[0];
    }
  }

  lemma HeadMatchEnd(b: Body, s: string)
    requires !b.Cons?
    ensures HeadMatch(b, s) <==> (b.EndAnchor? ==> s == "")
  {
    assert s[..0] == "" && Lang(b, s[..0]);
    assert forall k :: 0 <= k <= |s| && Lang(b, s[..k]) ==> k == 0;
  }

  /** A nonempty body that does not start with '$' is a token followed by a shorter body. */
  lemma BodyTail(r: string)
    requires IsBody(r) && r != "" && r[0] != '$'
    ensures r[0] == '\\' ==> |r| > 1
    ensures var t := ReadToken(r);
      && TokenLength(t) <= |r| && IsBody(r[TokenLength(t)..])
      && ParseBody(r) == Cons(t, ParseBody(r[TokenLength(t)..]))
  {
    var b := ParseBody(r);
    assert b.Cons?;
    BodyHead(b.rest);
    ReadPrintedToken(b.token, PrintBody(b.rest));
    ParseBodyPrint(b.rest);
  }

  // ----- the matcher -----

  /** Matches an atom repeated as `repeat` says, followed by the regex `regex`. */
  method MatchRepetitionAndRegexAtHead(escaped: bool, c: char, repeat: char, regex: CString, str: CString)
    returns (b: bool)
    requires IsRepeat(repeat) && IsBody(regex)
    ensures b <==> HeadMatch(Cons(Token(escaped, c, RepOf(repeat)), ParseBody(regex)), str)
    decreases |regex|, 1
  {
    ghost var t, rest := Token(escaped, c, RepOf(repeat)), ParseBody(regex);
    HeadMatchSplit(t, rest, str);
    var minCount := if repeat == '+' then 1 else 0;
    var maxCount := if repeat == '?' then 1 else SIZE_MAX - 1;
    var i := 0;
    while i <= maxCount
      invariant 0 <= i <= |str| && i <= maxCount + 1
      invariant forall q :: 0 <= q < i ==> AtomMatchesChar(escaped, c, str[q])
      invariant forall n :: 0 <= n < i && TokenLang(t, str[..n]) ==> !HeadMatch(rest, str[n..])
      decreases |str| + 1 - i
    {
      if i >= minCount {
        var tail := MatchRegexAtHead(regex, str[i..]);
        if tail {
          assert TokenLang(t, str[..i]);
          return true;
        }
      }
      if At(str, i) == '\0' || !AtomMatchesChar(escaped, c, str[i]) {
        forall n | i < n <= |str|
          ensures !TokenLang(t, str[..n])
        {
          assert str[..n][i] == str[i];
        }
        return false;
      }
      i := i + 1;
    }
    return false;
  }

  /** Decides whether `regex` matches a prefix of `str`. */
  method MatchRegexAtHead(regex: CString, str: CString) returns (b: bool)
    requires IsBody(regex)
    ensures b <==> HeadMatch(ParseBody(regex), str)
    decreases |regex|, 0
  {
    var r: string := regex;
    if At(r, 0) == '\0' {
      HeadMatchEnd(Done, str);
      return true;
    }
    if r[0] == '$' {
      HeadMatchEnd(EndAnchor, str);
      return At(str, 0) == '\0';
    }
    BodyTail(r);
    ghost var t := ReadToken(r);
    var escaped := r[0] == '\\';
    if escaped {
      r := r[1..];
    }
    if IsRepeat(At(r, 1)) {
      assert r[2..] == regex[TokenLength(t)..];
      b := MatchRepetitionAndRegexAtHead(escaped, r[0], r[1], r[2..], str);
    } else {
      assert r[1..] == regex[TokenLength(t)..];
      HeadMatchOnce(t, ParseBody(r[1..]), str);
      if At(str, 0) != '\0' && AtomMatchesChar(escaped, r[0], str[0]) {
        b := MatchRegexAtHead(r[1..], str[1..]);
      } else {
        b := false;
      }
    }
  }

  /** Decides whether `regex` matches a substring of `str`. */
  method MatchRegexAnywhere(regex: Option<CString>, str: Option<CString>) returns (b: bool)
    requires regex.Some? ==> IsSimpleRegex(regex.value)
    ensures b <==> regex.Some? && str.Some? && Occurs(Parse(regex.value), str.value)
  {
    if regex.None? || str.None? {
      return false;
    }
    var r: string, s: string := regex.value, str.value;
    ParseOfSimpleRegex(r);
    ghost var p := Parse(r);
    if At(r, 0) == '^' {
      OccursAtStart(p, s);
      b := MatchRegexAtHead(r[1..], s);
    } else {
      OccursSomewhere(p, s);
      b := MatchFromSomewhere(r, s);
    }
  }

  /** Tries each start in turn. */
  method MatchFromSomewhere(r: CString, s: CString) returns (b: bool)
    requires IsBody(r)
    ensures b <==> exists i :: 0 <= i <= |s| && HeadMatch(ParseBody(r), s[i..])
  {
    ghost var body := ParseBody(r);
    var i := 0;
    while true
      invariant 0 <= i <= |s|
      invariant forall j :: 0 <= j < i ==> !HeadMatch(body, s[j..])
      decreases |s| - i
    {
      b := MatchRegexAtHead(r, s[i..]);
      if b {
        return true;
      }
      if At(s, i) == '\0' {
        break;
      }
      i := i + 1;
    }
    return false;
  }

  /** A pattern occurs exactly where a head match starts: only at 0 if it begins with '^'. */
  lemma OccursFrom(p: Pattern, s: string, i: nat)
    requires i <= |s|
    ensures HeadMatch(p.body, s[i..]) <==>
            exists j :: i <= j <= |s| && Lang(p.body, s[i..j]) && (Anchored(p.body) ==> j == |s|)
  {
    if k :| 0 <= k <= |s[i..]| && Lang(p.body, s[i..][..k]) && (Anchored(p.body) ==> k == |s[i..]|) {
      assert s[i..][..k] == s[i..i + k];
    }
    if j :| i <= j <= |s| && Lang(p.body, s[i..j]) && (Anchored(p.body) ==> j == |s|) {
      assert s[i..j] == s[i..][..j - i];
    }
  }

  lemma OccursSomewhere(p: Pattern, s: string)
    requires !p.atStart
    ensures Occurs(p, s) <==> exists i :: 0 <= i <= |s| && HeadMatch(p.body, s[i..])
  {
    if Occurs(p, s) {
      var i, j :| 0 <= i <= j <= |s| && Lang(p.body, s[i..j]) && (Anchored(p.body) ==> j == |s|);
      OccursFrom(p, s, i);
    }
    if i :| 0 <= i <= |s| && HeadMatch(p.body, s[i..]) {
      OccursFrom(p, s, i);
    }
  }

  lemma OccursAtStart(p: Pattern, s: string)
    requires p.atStart
    ensures Occurs(p, s) <==> HeadMatch(p.body, s)
  {
    OccursFrom(p, s, 0);
    assert s[0..] == s;
  }
}
