/** Compiled regexes: full and partial matches, and where the full match falls short (gtest-port.cc). */
module RegexFullMatch {
  import opened CStrings
  import opened RegexSyntax
  import opened RegexMatch

  /** The last token is the escape `\$`, and no '$' anchor follows it. */
  predicate EndsInEscapedDollar(b: Body) {
    b.Cons? && if b.rest.Done? then b.token == Token(true, '$', Once) else EndsInEscapedDollar(b.rest)
  }

  function MissingCaret(regex: string): string {
    if regex != "" && regex[0] == '^' then [] else ['^']
  }

  function MissingDollar(regex: string): string {
    if regex != "" && regex[|regex| - 1] == '$' then [] else ['$']
  }

  /** The regex that `Init` compiles for full matches. */
  function FullPattern(regex: string): string {
    MissingCaret(regex) + regex + MissingDollar(regex)
  }

  function AnchorEnd(b: Body): Body {
    match b
    case Done => EndAnchor
    case EndAnchor => EndAnchor
    case Cons(t, rest) => Cons(t, AnchorEnd(rest))
  }

  lemma {:induction false} AnchorEndProperties(b: Body)
    requires WellFormed(b)
    ensures WellFormed(AnchorEnd(b)) && Anchored(AnchorEnd(b))
    ensures PrintBody(AnchorEnd(b)) == PrintBody(b) + if Anchored(b) then [] else ['$']
  {
    if b.Cons? {
      AnchorEndProperties(b.rest);
    }
  }

  lemma {:induction false} AnchorEndKeepsLang(b: Body, w: string)
    ensures Lang(AnchorEnd(b), w) <==> Lang(b, w)
    decreases b
  {
    if b.Cons? {
      forall k | 0 <= k <= |w| ensures Lang(AnchorEnd(b.rest), w[k..]) <==> Lang(b.rest, w[k..]) {
        AnchorEndKeepsLang(b.rest, w[k..]);
      }
    }
  }

  /** A printed body ends in the character '$' for one of two reasons. */
  lemma {:induction false} LastCharacter(b: Body)
    requires WellFormed(b)
    ensures PrintBody(b) != "" && PrintBody(b)[|PrintBody(b)| - 1] == '$' <==> Anchored(b) || EndsInEscapedDollar(b)
    ensures !(Anchored(b) && EndsInEscapedDollar(b))
  {
    if b.Cons? {
      LastCharacter(b.rest);
      if b.rest.Done? {
        assert PrintBody(b) == PrintToken(b.token);
      }
    }
  }

  lemma CaretPrinted(p: Pattern)
    requires WellFormed(p.body)
    ensures MissingCaret(Print(p)) + Print(p) == ['^'] + PrintBody(p.body)
  {
    BodyHead(p.body);
    assert !p.atStart ==> Print(p) == PrintBody(p.body);
  }

  lemma DollarPrinted(p: Pattern)
    requires WellFormed(p.body)
    ensures MissingDollar(Print(p)) == if Anchored(p.body) || EndsInEscapedDollar(p.body) then [] else ['$']
  {
    LastCharacter(p.body);
    var printed := PrintBody(p.body);
    if printed != "" {
      assert Print(p)[|Print(p)| - 1] == printed[|printed| - 1];
    }
  }

  lemma FullPatternPrinted(p: Pattern)
    requires WellFormed(p.body)
    ensures var full := if EndsInEscapedDollar(p.body) then p.body else AnchorEnd(p.body);
      WellFormed(full) && FullPattern(Print(p)) == ['^'] + PrintBody(full)
  {
    CaretPrinted(p);
    DollarPrinted(p);
    AnchorEndProperties(p.body);
    LastCharacter(p.body);
  }

  /** The compiled regex is valid; an escaped final dollar is the one case that it does not anchor. */
  lemma FullPatternParses(regex: string)
    requires IsSimpleRegex(regex)
    ensures IsSimpleRegex(FullPattern(regex))
    ensures var b := Parse(regex).body;
      Parse(FullPattern(regex)) == Pattern(true, if EndsInEscapedDollar(b) then b else AnchorEnd(b))
  {
    ParseOfSimpleRegex(regex);
    var p := Parse(regex);
    FullPatternPrinted(p);
    var q := Pattern(true, if EndsInEscapedDollar(p.body) then p.body else AnchorEnd(p.body));
    assert Print(q) == FullPattern(regex);
    ParsePrint(q);
  }

  /** What `FullMatch` decides: the language, except after an escaped final dollar, where a prefix will do. */
  ghost predicate FullMatchDecides(regex: string, s: string) {
    var b := Parse(regex).body;
    if EndsInEscapedDollar(b) then exists k :: 0 <= k <= |s| && Lang(b, s[..k]) else Lang(b, s)
  }

  lemma FullPatternOccurs(regex: string, s: string)
    requires IsSimpleRegex(regex)
    ensures Occurs(Parse(FullPattern(regex)), s) <==> FullMatchDecides(regex, s)
  {
    FullPatternParses(regex);
    ParseOfSimpleRegex(regex);
    var b := Parse(regex).body;
    LastCharacter(b);
    AnchorEndProperties(b);
    AnchorEndKeepsLang(b, s);
    OccursFromStart(Parse(FullPattern(regex)), s);
  }

  /** Where a pattern with both anchors, or with the first one only, occurs. */
  lemma OccursFromStart(p: Pattern, s: string)
    requires p.atStart
    ensures Occurs(p, s) <==> if Anchored(p.body) then Lang(p.body, s) else exists k :: 0 <= k <= |s| && Lang(p.body, s[..k])
  {
    assert forall k :: 0 <= k <= |s| ==> s[0..k] == s[..k];
    assert s[..|s|] == s;
  }

  /** A compiled regex. */
  class RE {
    var pattern: Option<CString>
    var fullPattern: Option<CString>
    var isValid: bool

    ghost predicate Valid()
      reads this
    {
      && (isValid <==> pattern.Some? && IsSimpleRegex(pattern.value))
      && (isValid ==> fullPattern.Some? && fullPattern.value == FullPattern(pattern.value))
      && (!isValid ==> fullPattern.None?)
    }

    constructor (regex: Option<CString>)
      requires regex.Some? ==> |regex.value| + 3 <= SIZE_MAX
      ensures Valid() && pattern == regex
    {
      new;
      Init(regex);
    }

    method Init(regex: Option<CString>)
      requires regex.Some? ==> |regex.value| + 3 <= SIZE_MAX
      modifies this
      ensures Valid() && pattern == regex
    {
      pattern, fullPattern := None, None;
      if regex.Some? {
        pattern := regex;
      }
      isValid := ValidateRegex(regex);
      if isValid {
        var full := CompileFullPattern(regex.value);
        fullPattern := Some(full);
      }
    }

    /** Builds the full-match regex in a buffer of `len + 3` bytes, a size that the precondition says can be
    asked of `malloc`; every write is inside it. */
    static method CompileFullPattern(r: CString) returns (full: CString)
      requires |r| + 3 <= SIZE_MAX
      ensures full == FullPattern(r)
    {
      var len := |r|;
      var buffer := new char[len + 3];
      var n := 0;
      if At(r, 0) != '^' {
        buffer[n] := '^';
        n := n + 1;
      }
      forall i | 0 <= i < len {
        buffer[n + i] := r[i];
      }
      n := n + len;
      assert buffer[..n] == MissingCaret(r) + r;
      if len == 0 || r[len - 1] != '$' {
        buffer[n] := '$';
        n := n + 1;
      }
      assert buffer[..n] == FullPattern(r);
      buffer[n] := '\0';
      full := buffer[..n];
    }

    /** Does the regex match all of `str`?  Exactly if `FullMatchDecides` says so. */
    static method FullMatch(str: Option<CString>, re: RE) returns (b: bool)
      requires re.Valid()
      ensures b <==> re.isValid && str.Some? && FullMatchDecides(re.pattern.value, str.value)
    {
      b := false;
      if re.isValid {
        FullPatternParses(re.pattern.value);
        if str.Some? {
          FullPatternOccurs(re.pattern.value, str.value);
        }
        b := MatchRegexAnywhere(re.fullPattern, str);
      }
    }

    /** Does the regex match some substring of `str`? */
    static method PartialMatch(str: Option<CString>, re: RE) returns (b: bool)
      requires re.Valid()
      ensures b <==> re.isValid && str.Some? && Occurs(Parse(re.pattern.value), str.value)
    {
      b := false;
      if re.isValid {
        b := MatchRegexAnywhere(re.pattern, str);
      }
    }
  }

  // ----- the exact condition -----

  /** Every supported atom matches some character. */
  lemma AtomMatchesSomething(t: Token)
    requires WellFormedToken(t)
    ensures exists ch :: ch != '\0' && AtomMatchesChar(t.escaped, t.c, ch)
  {
    if t.escaped {
      assert t.c == 's' ==> AtomMatchesChar(t.escaped, t.c, ' ');
      assert t.c == 'w' || t.c == 'D' || t.c == 'S' ==> AtomMatchesChar(t.escaped, t.c, 'a');
      assert t.c == 'W' ==> AtomMatchesChar(t.escaped, t.c, ' ');
      assert t.c == 'd' ==> AtomMatchesChar(t.escaped, t.c, '0');
      assert t.c == 'f' ==> AtomMatchesChar(t.escaped, t.c, '\U{0C}');
      assert t.c == 'n' ==> AtomMatchesChar(t.escaped, t.c, '\n');
      assert t.c == 'r' ==> AtomMatchesChar(t.escaped, t.c, '\r');
      assert t.c == 't' ==> AtomMatchesChar(t.escaped, t.c, '\t');
      assert t.c == 'v' ==> AtomMatchesChar(t.escaped, t.c, '\U{0B}');
    }
    assert IsAsciiPunct(t.c) || !t.escaped ==> AtomMatchesChar(t.escaped, t.c, t.c);
  }

  /** No valid regex has an empty language: some word, no longer than the regex, is in it. */
  lemma {:induction false} LangNonempty(b: Body) returns (w: string)
    requires WellFormed(b)
    ensures Lang(b, w) && '\0' !in w
    ensures |w| + (if EndsInEscapedDollar(b) then 1 else 0) <= |PrintBody(b)|
  {
    if b.Cons? {
      AtomMatchesSomething(b.token);
      var ch :| ch != '\0' && AtomMatchesChar(b.token.escaped, b.token.c, ch);
      var v := LangNonempty(b.rest);
      w := [ch] + v;
      assert w[..1] == [ch] && w[1..] == v;
      assert TokenLang(b.token, w[..1]);
    } else {
      w := "";
    }
  }

  lemma {:induction false} WordsEndInDollar(b: Body, w: string)
    requires EndsInEscapedDollar(b) && Lang(b, w)
    ensures w != "" && w[|w| - 1] == '$'
  {
    var k :| 0 <= k <= |w| && TokenLang(b.token, w[..k]) && Lang(b.rest, w[k..]);
    if b.rest.Done? {
      assert w[..k][0] == w[0] == '$';
    } else {
      WordsEndInDollar(b.rest, w[k..]);
    }
  }

  /** `FullMatch` decides "the whole string is in the language" exactly for the valid regexes whose last
  token is not the escape `\$`: `Init` takes that dollar for an anchor and adds none. */
  lemma FullMatchIsFull(regex: CString)
    requires IsSimpleRegex(regex)
    ensures (forall s: CString :: FullMatchDecides(regex, s) <==> Lang(Parse(regex).body, s))
       <==> !EndsInEscapedDollar(Parse(regex).body)
  {
    ParseOfSimpleRegex(regex);
    var b := Parse(regex).body;
    if EndsInEscapedDollar(b) {
      var w := LangNonempty(b);
      var s: CString := w + ['x'];
      assert s[..|w|] == w;
      assert FullMatchDecides(regex, s);
      if Lang(b, s) {
        WordsEndInDollar(b, s);
        assert false;
      }
    }
  }

  /** A concrete instance: `\$` compiles to `^\$`, so the two-character string "$x" is a full match of it. */
  lemma EscapedDollarCounterexample()
    ensures IsSimpleRegex("\\$") && FullMatchDecides("\\$", "$x") && !Lang(Parse("\\$").body, "$x")
  {
    var regex, s := "\\$", "$x";
    var t := Token(true, '$', Once);
    var p := Pattern(false, Cons(t, Done));
    assert Print(p) == regex;
    ParsePrint(p);
    assert TokenLang(t, s[..1]) && s[..1][1..] == "";
    assert s[..1][..1] == s[..1];
    assert Lang(p.body, s[..1]);
    if Lang(p.body, s) {
      WordsEndInDollar(p.body, s);
      assert false;
    }
  }
}
