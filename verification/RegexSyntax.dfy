/** The grammar of Google Test's "simple regular expressions" and its validator (gtest-port.cc). */
module RegexSyntax {
  import opened CStrings

  datatype Rep = Once | Optional | Star | Plus

  /** An atom `c` or `\c`, with the repetition character that follows it, if any. */
  datatype Token = Token(escaped: bool, c: char, rep: Rep)

  /** What may follow an optional leading '^': tokens, then possibly a final '$'. */
  datatype Body = Done | EndAnchor | Cons(token: Token, rest: Body)

  datatype Pattern = Pattern(atStart: bool, body: Body)

  // ----- character classes -----

  predicate IsAsciiDigit(ch: char) {
    '0' <= ch <= '9'
  }

  predicate IsAsciiPunct(ch: char) {
    ch in {'^', '-', '!', '\"', '#', '$', '%', '&', '\'', '(', ')', '*', '+', ',', '.', '/', ':', ';', '<', '=', '>',
           '?', '@', '[', '\\', ']', '_', '`', '{', '|', '}', '~'}
  }

  predicate IsRepeat(ch: char) {
    ch in {'?', '*', '+'}
  }

  predicate IsUnsupported(ch: char) {
    ch in {'(', ')', '[', ']', '{', '}', '|'}
  }

  predicate IsAsciiWhiteSpace(ch: char) {
    ch in {' ', '\U{0C}', '\n', '\r', '\t', '\U{0B}'}
  }

  predicate IsAsciiWordChar(ch: char) {
    'a' <= ch <= 'z' || 'A' <= ch <= 'Z' || '0' <= ch <= '9' || ch == '_'
  }

  predicate IsValidEscape(c: char) {
    IsAsciiPunct(c) || c in {'d', 'D', 'f', 'n', 'r', 's', 'S', 't', 'v', 'w', 'W'}
  }

  // ----- the grammar, as printable syntax trees -----

  function PrintRep(rep: Rep): string {
    match rep
    case Once => ""
    case Optional => "?"
    case Star => "*"
    case Plus => "+"
  }

  function PrintToken(t: Token): string {
    (if t.escaped then ['\\', t.c] else [t.c]) + PrintRep(t.rep)
  }

  function PrintBody(b: Body): string {
    match b
    case Done => ""
    case EndAnchor => "$"
    case Cons(t, rest) => PrintToken(t) + PrintBody(rest)
  }

  function Print(p: Pattern): string {
    (if p.atStart then ['^'] else []) + PrintBody(p.body)
  }

  /** An escape must be a supported one; a plain atom may be no metacharacter. */
  predicate WellFormedToken(t: Token) {
    t.c != '\0' && if t.escaped then IsValidEscape(t.c) else (t.c !in {'\\', '^', '$'} && !IsRepeat(t.c) && !IsUnsupported(t.c))
  }

  predicate WellFormed(b: Body) {
    b.Cons? ==> WellFormedToken(b.token) && WellFormed(b.rest)
  }

  /** `regex` is what some well-formed syntax tree prints. */
  ghost predicate IsSimpleRegex(regex: string) {
    exists p: Pattern :: WellFormed(p.body) && Print(p) == regex
  }

  // ----- reading a syntax tree back -----

  function RepOf(ch: char): Rep {
    match ch
    case '?' => Optional
    case '*' => Star
    case '+' => Plus
    case _ => Once
  }

  /** The token at the head of `r`, and how many characters it takes. */
  function ReadToken(r: string): Token
    requires |r| > 0 && (r[0] == '\\' ==> |r| > 1)
  {
    if r[0] == '\\' then Token(true, r[1], RepOf(At(r, 2))) else Token(false, r[0], RepOf(At(r, 1)))
  }

  function TokenLength(t: Token): nat {
    (if t.escaped then 2 else 1) + (if t.rep == Once then 0 else 1)
  }

  function ParseBody(r: string): Body
    decreases |r|
  {
    if |r| == 0 then Done
    else if r[0] == '$' then EndAnchor
    else if r[0] == '\\' && |r| == 1 then Done
    else
      var t := ReadToken(r);
      Cons(t, ParseBody(r[TokenLength(t)..]))
  }

  function Parse(r: string): Pattern {
    if r != "" && r[0] == '^' then Pattern(true, ParseBody(r[1..])) else Pattern(false, ParseBody(r))
  }

  /** `r` is a valid regex in which a leading '^' is not an option. */
  predicate IsBody(r: string) {
    WellFormed(ParseBody(r)) && PrintBody(ParseBody(r)) == r
  }

  lemma ReadPrintedToken(t: Token, rest: string)
    requires WellFormedToken(t) && (rest != "" ==> !IsRepeat(rest[0]))
    ensures var r := PrintToken(t) + rest;
      && |r| > 0 && r[0] != '$' && (r[0] == '\\' ==> |r| > 1)
      && ReadToken(r) == t && r[TokenLength(t)..] == rest
  {
    var r := PrintToken(t) + rest;
    var n := if t.escaped then 2 else 1;
    assert r[n - 1] == t.c;
    if t.rep == Once {
      assert At(r, n) == At(rest, 0);
    } else {
      assert r[n] == PrintRep(t.rep)[0];
    }
  }

  /** The grammar is unambiguous: parsing recovers every printed tree. */
  lemma {:induction false} ParseBodyPrint(b: Body)
    requires WellFormed(b)
    ensures ParseBody(PrintBody(b)) == b
  {
    if b.Cons? {
      ParseBodyPrint(b.rest);
      BodyHead(b.rest);
      ReadPrintedToken(b.token, PrintBody(b.rest));
    }
  }

  /** What a printed body starts with: never a repetition character or an unescaped '^'. */
  lemma BodyHead(b: Body)
    requires WellFormed(b)
    ensures PrintBody(b) != "" ==> !IsRepeat(PrintBody(b)[0]) && PrintBody(b)[0] != '^'
    ensures b.Cons? ==> PrintBody(b) != "" && PrintBody(b)[0] != '$'
  {
  }

  /** Parsing inverts printing, so every simple regex has exactly one syntax tree. */
  lemma ParsePrint(p: Pattern)
    requires WellFormed(p.body)
    ensures Parse(Print(p)) == p
  {
    ParseBodyPrint(p.body);
    BodyHead(p.body);
    var r := Print(p);
    assert if p.atStart then r[1..] == PrintBody(p.body) else r == PrintBody(p.body);
  }

  /** A simple regex is recognised by printing back what it parses to. */
  lemma ParseOfSimpleRegex(r: string)
    requires IsSimpleRegex(r)
    ensures WellFormed(Parse(r).body) && Print(Parse(r)) == r
    ensures r != "" && r[0] == '^' ==> IsBody(r[1..])
    ensures r == "" || r[0] != '^' ==> IsBody(r)
  {
    var p: Pattern :| WellFormed(p.body) && Print(p) == r;
    ParsePrint(p);
    BodyHead(p.body);
    assert if p.atStart then r[1..] == PrintBody(p.body) else r == PrintBody(p.body);
  }

  // ----- the validator's left-to-right scan -----

  /** The scan accepts the rest `r`; `first` and `prev` say what it remembers of the part before. */
  ghost predicate ValidFrom(r: string, first: bool, prev: bool)
    decreases |r|
  {
    if r == "" then true
    else if r[0] == '\\' then |r| > 1 && IsValidEscape(r[1]) && ValidFrom(r[2..], false, true)
    else
      && !(r[0] == '^' && !first)
      && !(r[0] == '$' && |r| > 1)
      && !IsUnsupported(r[0])
      && !(IsRepeat(r[0]) && !prev)
      && ValidFrom(r[1..], false, r[0] !in {'^', '$', '?', '*', '+'})
  }

  lemma {:induction false} ScanAcceptsBody(b: Body, first: bool, prev: bool)
    requires WellFormed(b)
    ensures ValidFrom(PrintBody(b), first, prev)
  {
    match b
    case Done =>
    case EndAnchor =>
    case Cons(t, rest) =>
      ScanAcceptsBody(rest, false, true);
      ScanAcceptsBody(rest, false, false);
      ScanAcceptsToken(t, PrintBody(rest), first, prev);
      assert PrintBody(b) == PrintToken(t) + PrintBody(rest);
  }

  lemma ScanAcceptsToken(t: Token, rest: string, first: bool, prev: bool)
    requires WellFormedToken(t) && ValidFrom(rest, false, true) && ValidFrom(rest, false, false)
    ensures ValidFrom(PrintToken(t) + rest, first, prev)
  {
    var r := PrintToken(t) + rest;
    var tail := PrintRep(t.rep) + rest;
    assert r == (if t.escaped then ['\\', t.c] else [t.c]) + tail;
    assert r[if t.escaped then 2 else 1..] == tail;
    assert t.rep != Once ==> tail[1..] == rest;
    assert t.rep == Once ==> tail == rest;
    assert ValidFrom(tail, false, true);
  }

  lemma {:induction false} ScannedIsBody(r: string, first: bool, prev: bool)
    requires '\0' !in r && ValidFrom(r, first, prev)
    requires r != "" ==> r[0] != '^' && !IsRepeat(r[0])
    ensures IsBody(r)
    decreases |r|
  {
    if r != "" && r[0] != '$' {
      var t := ReadToken(r);
      ScannedToken(r, first, prev);
      ScannedIsBody(r[TokenLength(t)..], false, t.rep == Once);
      assert r == PrintToken(t) + r[TokenLength(t)..];
    }
  }

  /** One token of scanned text is well-formed and printed as it stands; the scan goes on after it. */
  lemma ScannedToken(r: string, first: bool, prev: bool)
    requires '\0' !in r && ValidFrom(r, first, prev)
    requires r != "" && r[0] !in {'^', '$'} && !IsRepeat(r[0])
    ensures r[0] == '\\' ==> |r| > 1
    ensures var t := ReadToken(r);
      && WellFormedToken(t) && TokenLength(t) <= |r| && r[..TokenLength(t)] == PrintToken(t)
      && var rest := r[TokenLength(t)..];
         ValidFrom(rest, false, t.rep == Once) && (rest != "" ==> rest[0] != '^' && !IsRepeat(rest[0]))
  {
    var t := ReadToken(r);
    var tail := r[if t.escaped then 2 else 1..];
    assert ValidFrom(tail, false, true);
    if t.rep != Once {
      assert tail[1..] == r[TokenLength(t)..];
    }
  }

  lemma ScanAcceptsRegex(p: Pattern)
    requires WellFormed(p.body)
    ensures ValidFrom(Print(p), true, false)
  {
    var r := Print(p);
    ScanAcceptsBody(p.body, !p.atStart, false);
    assert if p.atStart then r[1..] == PrintBody(p.body) else r == PrintBody(p.body);
  }

  lemma ScannedIsRegex(r: string)
    requires '\0' !in r && ValidFrom(r, true, false)
    ensures IsSimpleRegex(r)
  {
    var atStart := r != "" && r[0] == '^';
    var body := if atStart then r[1..] else r;
    ScannedIsBody(body, !atStart, false);
    var p := Pattern(atStart, ParseBody(body));
    assert WellFormed(p.body) && Print(p) == r;
  }

  /** The scan decides the grammar. */
  lemma ScanDecidesGrammar(r: string)
    requires '\0' !in r
    ensures ValidFrom(r, true, false) <==> IsSimpleRegex(r)
  {
    if ValidFrom(r, true, false) {
      ScannedIsRegex(r);
    }
    if IsSimpleRegex(r) {
      var p: Pattern :| WellFormed(p.body) && Print(p) == r;
      ScanAcceptsRegex(p);
    }
  }

  /** Accepts exactly the strings of the grammar; NULL is rejected. */
  method ValidateRegex(regex: Option<CString>) returns (ok: bool)
    ensures ok <==> regex.Some? && IsSimpleRegex(regex.value)
  {
    if regex.None? {
      return false;
    }
    var r: string := regex.value;
    ScanDecidesGrammar(r);
    var isValid := true;
    var prevRepeatable := false;
    var i := 0;
    while i < |r|
      invariant 0 <= i <= |r|
      invariant isValid ==> (ValidFrom(r, true, false) <==> ValidFrom(r[i..], i == 0, prevRepeatable))
      invariant !isValid ==> !ValidFrom(r, true, false)
    {
      ghost var rest := r[i..];
      if r[i] == '\\' {
        i := i + 1;
        if At(r, i) == '\0' {
          return false;
        }
        if !IsValidEscape(r[i]) {
          isValid := false;
        }
        prevRepeatable := true;
        assert rest[2..] == r[i + 1..];
      } else {
        var ch := r[i];
        if ch == '^' && i > 0 {
          isValid := false;
        } else if ch == '$' && At(r, i + 1) != '\0' {
          isValid := false;
        } else if IsUnsupported(ch) {
          isValid := false;
        } else if IsRepeat(ch) && !prevRepeatable {
          isValid := false;
        }
        prevRepeatable := ch !in {'^', '$', '?', '*', '+'};
        assert rest[1..] == r[i + 1..];
      }
      i := i + 1;
    }
    return isValid;
  }
}
