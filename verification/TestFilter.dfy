/** Glob patterns and the --gtest_filter syntax (gtest.cc). */
module TestFilter {
  import opened CStrings

  // ----- meaning -----

  /** What one pattern character may stand for. */
  predicate StandsFor(p: char, w: string) {
    if p == '*' then true else if p == '?' then |w| == 1 else w == [p]
  }

  function Flatten(parts: seq<string>): string {
    if parts == [] then "" else parts[0] + Flatten(parts[1..])
  }

  /** `s` can be cut into one piece for each character of the glob, each piece allowed by its character. */
  ghost predicate GlobMatches(glob: string, s: string) {
    exists parts: seq<string> :: IsCut(glob, s, parts)
  }

  ghost predicate IsCut(glob: string, s: string, parts: seq<string>) {
    |parts| == |glob| && Flatten(parts) == s && forall i :: 0 <= i < |glob| ==> StandsFor(glob[i], parts[i])
  }

  /** The part of `s` before its first `sep`, or all of it. */
  function Before(s: string, sep: char): string {
    if s == "" || s[0] == sep then "" else [s[0]] + Before(s[1..], sep)
  }

  function Split(s: string, sep: char): seq<string>
    decreases |s|
  {
    var head := Before(s, sep);
    BeforeIsPrefix(s, sep);
    if head == s then [head] else [head] + Split(s[|head| + 1..], sep)
  }

  function Join(parts: seq<string>, sep: char): string {
    if parts == [] then "" else if |parts| == 1 then parts[0] else parts[0] + [sep] + Join(parts[1..], sep)
  }

  lemma BeforeIsPrefix(s: string, sep: char)
    ensures var head := Before(s, sep);
      |head| <= |s| && head == s[..|head|] && sep !in head && (head != s ==> |head| < |s| && s[|head|] == sep)
  {
  }

  /** The segments are the separator-free strings that the filter text joins. */
  lemma {:induction false} SplitJoins(s: string, sep: char)
    ensures Split(s, sep) != [] && Join(Split(s, sep), sep) == s
    ensures forall i :: 0 <= i < |Split(s, sep)| ==> sep !in Split(s, sep)[i]
    decreases |s|
  {
    BeforeIsPrefix(s, sep);
    var head := Before(s, sep);
    if head != s {
      SplitJoins(s[|head| + 1..], sep);
      assert Split(s, sep)[1..] == Split(s[|head| + 1..], sep);
      assert s == head + [sep] + s[|head| + 1..];
    }
  }

  /** Some ':'-separated glob of the filter matches the name. */
  ghost predicate FilterAccepts(filter: string, name: string) {
    exists i :: 0 <= i < |Split(filter, ':')| && GlobMatches(Split(filter, ':')[i], name)
  }

  /** A test filter: globs, one of which must match (an empty list before a '-' admits all names), and, after
  the first '-', globs of which none may match. */
  ghost predicate TestSelected(filter: string, fullName: string) {
    if '-' !in filter then
      FilterAccepts(filter, fullName)
    else
      var positive := Before(filter, '-');
      BeforeIsPrefix(filter, '-');
      (positive == "" || FilterAccepts(positive, fullName)) && !FilterAccepts(filter[|positive| + 1..], fullName)
  }

  // ----- globs, one character at a time -----

  lemma GlobEmpty(s: string)
    ensures GlobMatches("", s) <==> s == ""
  {
    assert s == "" ==> IsCut("", s, []);
  }

  lemma GlobCons(p: char, glob: string, s: string)
    ensures GlobMatches([p] + glob, s) <==>
            exists k :: 0 <= k <= |s| && StandsFor(p, s[..k]) && GlobMatches(glob, s[k..])
  {
    if parts: seq<string> :| IsCut([p] + glob, s, parts) {
      var k := |parts[0]|;
      assert s == parts[0] + Flatten(parts[1..]);
      assert StandsFor(([p] + glob)[0], s[..k]);
      assert forall i :: 0 <= i < |glob| ==> StandsFor(([p] + glob)[i + 1], parts[1..][i]);
      assert IsCut(glob, s[k..], parts[1..]);
    }
    if k :| 0 <= k <= |s| && StandsFor(p, s[..k]) && GlobMatches(glob, s[k..]) {
      var rest: seq<string> :| IsCut(glob, s[k..], rest);
      var parts := [s[..k]] + rest;
      assert parts[1..] == rest;
      assert IsCut([p] + glob, s, parts);
    }
  }

  /** A single character of the pattern against a single character of the name. */
  lemma GlobOne(p: char, glob: string, s: string)
    requires p != '*'
    ensures GlobMatches([p] + glob, s) <==> |s| > 0 && (p == '?' || p == s[0]) && GlobMatches(glob, s[1..])
  {
    GlobCons(p, glob, s);
    assert |s| > 0 && (p == '?' || p == s[0]) ==> StandsFor(p, s[..1]);
    assert forall k :: 0 <= k <= |s| && StandsFor(p, s[..k]) ==> k == 1 && (p == '?' || p == s[0]);
  }

  /** A star takes one more character, or none. */
  lemma GlobStar(glob: string, s: string)
    ensures GlobMatches(['*'] + glob, s) <==>
            (|s| > 0 && GlobMatches(['*'] + glob, s[1..])) || GlobMatches(glob, s)
  {
    GlobCons('*', glob, s);
    assert s[0..] == s;
    if |s| > 0 {
      GlobCons('*', glob, s[1..]);
      if k :| 1 <= k <= |s| && GlobMatches(glob, s[k..]) {
        assert s[1..][k - 1..] == s[k..];
      }
      if k :| 0 <= k <= |s[1..]| && GlobMatches(glob, s[1..][k..]) {
        assert s[1..][k..] == s[k + 1..];
      }
    }
  }

  // ----- the code -----

  /** Does the pattern, which ends at its first ':' or at its end, match the string? */
  predicate PatternMatchesString(pattern: CString, str: CString)
    decreases |pattern| + |str|
  {
    var p: string, s: string := pattern, str;
    match At(p, 0)
    case '\0' => At(s, 0) == '\0'
    case ':' => At(s, 0) == '\0'
    case '?' => At(s, 0) != '\0' && PatternMatchesString(p[1..], s[1..])
    case '*' => (At(s, 0) != '\0' && PatternMatchesString(p, s[1..])) || PatternMatchesString(p[1..], s)
    case c => c == At(s, 0) && PatternMatchesString(p[1..], s[1..])
  }

  /** The recursion decides the declarative meaning of the pattern's first segment. */
  lemma {:induction false} PatternMatchesGlob(pattern: CString, str: CString)
    ensures PatternMatchesString(pattern, str) <==> GlobMatches(Before(pattern, ':'), str)
    decreases |pattern| + |str|
  {
    var p: string, s: string := pattern, str;
    if p == "" || p[0] == ':' {
      GlobEmpty(s);
    } else {
      var glob := Before(p[1..], ':');
      if p[0] == '*' {
        GlobStar(glob, s);
        PatternMatchesGlob(p[1..], s);
        if s != "" {
          PatternMatchesGlob(p, s[1..]);
        }
      } else {
        GlobOne(p[0], glob, s);
        if s != "" {
          PatternMatchesGlob(p[1..], s[1..]);
        }
      }
    }
  }

  /** `strchr`: the first position of `ch`, if any. */
  method Strchr(s: CString, ch: char) returns (at: Option<nat>)
    requires ch != '\0'
    ensures at.None? <==> Before(s, ch) == s
    ensures at.Some? ==> at.value < |s| && at.value == |Before(s, ch)|
  {
    var t: string := s;
    BeforeIsPrefix(t, ch);
    var i := 0;
    while i < |t|
      invariant 0 <= i <= |t| && i <= |Before(t, ch)|
      invariant ch !in t[..i]
    {
      if t[i] == ch {
        return Some(i);
      }
      assert i < |Before(t, ch)|;
      i := i + 1;
    }
    return None;
  }

  /** Does some pattern of the ':'-separated filter match the name? */
  method MatchesFilter(name: CString, filter: CString) returns (b: bool)
    ensures b <==> FilterAccepts(filter, name)
  {
    var cur: string := filter;
    ghost var seen := 0;
    while true
      invariant '\0' !in cur && |cur| < SIZE_MAX
      invariant 0 <= seen < |Split(filter, ':')| && Split(filter, ':')[seen..] == Split(cur, ':')
      invariant forall i :: 0 <= i < seen ==> !GlobMatches(Split(filter, ':')[i], name)
      decreases |cur|
    {
      PatternMatchesGlob(cur, name);
      assert Split(filter, ':')[seen] == Split(cur, ':')[0] == Before(cur, ':');
      if PatternMatchesString(cur, name) {
        return true;
      }
      var colon := Strchr(cur, ':');
      if colon.None? {
        return false;
      }
      ghost var rest := Split(cur, ':')[1..];
      cur := cur[colon.value + 1..];
      assert rest == Split(cur, ':');
      seen := seen + 1;
    }
  }

  /** An empty filter accepts the empty name only, and a full test name is never empty. */
  lemma EmptyFilter(name: string)
    ensures FilterAccepts("", name) <==> name == ""
  {
    GlobEmpty(name);
    assert Split("", ':')[0] == "";
  }

  lemma UniversalFilter(name: string)
    ensures FilterAccepts("*", name)
  {
    assert Before("*"[1..], ':') == "";
    assert Before("*", ':') == "*";
    assert Flatten([name]) == name + Flatten([name][1..]) == name;
    assert StandsFor('*', name);
    assert IsCut("*", name, [name]);
    assert Split("*", ':')[0] == "*";
  }

  // ----- full names -----

  /** `String::Format` prints into a buffer of this size, the terminator included. */
  const FORMAT_BUFFER_SIZE: nat := 4096

  const FORMAT_ERROR: CString := "<formatting error or buffer exceeded>"

  /** What `String::Format` makes of the text that its arguments print. */
  function Formatted(text: string): string {
    if |text| < FORMAT_BUFFER_SIZE then text else FORMAT_ERROR
  }

  /** The name of a test with its case's, which the filters see. */
  function FullName(testCaseName: CString, testName: CString): (s: CString)
    ensures s != ""
  {
    Formatted(testCaseName + ['.'] + testName)
  }

  /** Is the test selected by the filter flag? */
  method FilterMatchesTest(testCaseName: CString, testName: CString, flag: CString) returns (b: bool)
    ensures b <==> TestSelected(flag, FullName(testCaseName, testName))
  {
    var fullName := FullName(testCaseName, testName);
    var p: string := flag;
    var dash := Strchr(p, '-');
    BeforeIsPrefix(p, '-');
    EmptyFilter(fullName);
    var positive: CString;
    var negative: CString;
    if dash.None? {
      positive := p;
      negative := "";
    } else {
      positive := p[..dash.value];
      negative := p[dash.value + 1..];
      if positive == "" {
        positive := "*";
        UniversalFilter(fullName);
      }
    }
    b := MatchesFilter(fullName, positive);
    if b {
      b := MatchesFilter(fullName, negative);
      b := !b;
    }
  }

  // ----- filters and long names -----

  /** A text without the characters that mean something in a filter. */
  predicate IsPlain(text: string) {
    forall i :: 0 <= i < |text| ==> text[i] !in {'*', '?', ':', '-'}
  }

  lemma {:induction false} PlainGlob(glob: string, s: string)
    requires IsPlain(glob)
    ensures GlobMatches(glob, s) <==> s == glob
  {
    if glob == "" {
      GlobEmpty(s);
    } else {
      assert glob == [glob[0]] + glob[1..];
      GlobOne(glob[0], glob[1..], s);
      if s != "" {
        PlainGlob(glob[1..], s[1..]);
        assert s == [s[0]] + s[1..];
      }
    }
  }

  lemma NoSeparator(text: string, sep: char)
    requires sep !in text
    ensures Before(text, sep) == text
  {
    BeforeIsPrefix(text, sep);
  }

  /** A filter of one glob without a '-'. */
  lemma OneGlob(glob: string, s: string)
    requires ':' !in glob && '-' !in glob
    ensures TestSelected(glob, s) <==> GlobMatches(glob, s)
  {
    NoSeparator(glob, ':');
    assert Split(glob, ':') == [glob];
    assert Split(glob, ':')[0] == glob;
  }

  lemma PlainFilter(text: string, s: string)
    requires IsPlain(text)
    ensures TestSelected(text, s) <==> s == text
  {
    OneGlob(text, s);
    PlainGlob(text, s);
  }

  /** The flag means for a formatted name what it means for the name exactly if the name fits the buffer: for the
  others the filters see an error text instead. */
  lemma FilterSeesNameIff(name: CString)
    ensures (forall flag: CString :: TestSelected(flag, Formatted(name)) <==> TestSelected(flag, name))
       <==> |name| < FORMAT_BUFFER_SIZE
  {
    if |name| >= FORMAT_BUFFER_SIZE {
      ErrorIsPlain();
      PlainFilter(FORMAT_ERROR, name);
      PlainFilter(FORMAT_ERROR, FORMAT_ERROR);
      assert TestSelected(FORMAT_ERROR, Formatted(name)) && !TestSelected(FORMAT_ERROR, name);
    }
  }

  lemma ErrorIsPlain()
    ensures IsPlain(FORMAT_ERROR) && FORMAT_ERROR[0] == '<' && |FORMAT_ERROR| < FORMAT_BUFFER_SIZE
  {
  }

  /** The glob `p*` asks for a first character. */
  lemma StarAfter(p: char, s: string)
    requires p !in {'*', '?'}
    ensures GlobMatches([p, '*'], s) <==> s != "" && s[0] == p
  {
    assert [p] + ['*'] == [p, '*'];
    GlobOne(p, ['*'], s);
    if s != "" {
      assert Flatten([s[1..]]) == s[1..] + Flatten([]);
      assert IsCut(['*'], s[1..], [s[1..]]);
    }
  }

  /** So of the tests whose names start with an A and are too long, the flag "A*" selects none, and "-A*" all. */
  lemma LongNamesEscapeFilters(name: CString)
    requires |name| >= FORMAT_BUFFER_SIZE && name[0] == 'A'
    ensures TestSelected(['A', '*'], name) && !TestSelected(['A', '*'], Formatted(name))
    ensures !TestSelected(['-', 'A', '*'], name) && TestSelected(['-', 'A', '*'], Formatted(name))
  {
    ErrorIsPlain();
    forall s: string ensures TestSelected(['-', 'A', '*'], s) <==> !TestSelected(['A', '*'], s) {
      assert Before(['-', 'A', '*'], '-') == [];
      assert ['-', 'A', '*'][1..] == ['A', '*'];
    }
    OneGlob(['A', '*'], name);
    OneGlob(['A', '*'], FORMAT_ERROR);
    StarAfter('A', name);
    StarAfter('A', FORMAT_ERROR);
  }
}
