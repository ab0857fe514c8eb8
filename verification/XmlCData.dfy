/** CDATA sections in the XML report (gtest.cc), and a reader of them (section 2.7 of XML 1.0). */
module XmlCData {
  import opened CStrings
  import opened Xml

  /** "<![CDATA[" */
  const CDATA_START: string := ['<', '!', '[', 'C', 'D', 'A', 'T', 'A', '[']

  /** Does "]]>" stand at `i`? */
  predicate EndsAt(t: string, i: nat) {
    i + 2 < |t| && t[i] == ']' && t[i + 1] == ']' && t[i + 2] == '>'
  }

  // ----- reading -----

  /** Reads CDATA sections and character data between them. */
  function ReadContent(t: string): Option<string> {
    if t == [] then Some([])
    else if t[0] == '&' then
      var r := ReadReference(t);
      if r.None? then None
      else
        var rest := ReadContent(t[r.value.length..]);
        if rest.None? then None else Some([r.value.c] + rest.value)
    else if t[0] == '<' then
      if |t| >= |CDATA_START| && t[..|CDATA_START|] == CDATA_START then ReadSection(t[|CDATA_START|..]) else None
    else if EndsAt(t, 0) then None
    else
      var rest := ReadContent(t[1..]);
      if rest.None? then None else Some([t[0]] + rest.value)
  }

  function ReadSection(t: string): Option<string> {
    if t == [] then None
    else if EndsAt(t, 0) then ReadContent(t[3..])
    else
      var rest := ReadSection(t[1..]);
      if rest.None? then None else Some([t[0]] + rest.value)
  }

  // ----- writing -----

  /** "]]>" in the data, between two sections. */
  const CDATA_SPLIT: string := [']', ']', '>', ']', ']', '&', 'g', 't', ';'] + CDATA_START

  /** The data from within a section, and the end of the last one. */
  function Section(s: string): string {
    if s == [] then [']', ']', '>']
    else if EndsAt(s, 0) then CDATA_SPLIT + Section(s[3..])
    else [s[0]] + Section(s[1..])
  }

  /** The first "]]>" from `i` on. */
  method Strstr(s: string, i: nat) returns (found: Option<nat>)
    requires i <= |s|
    ensures found.Some? ==> i <= found.value && EndsAt(s, found.value)
    ensures forall k :: i <= k < (if found.Some? then found.value else |s|) ==> !EndsAt(s, k)
  {
    for k := i to |s|
      invariant forall j :: i <= j < k ==> !EndsAt(s, j)
    {
      if EndsAt(s, k) {
        return Some(k);
      }
    }
    return None;
  }

  /** Data without "]]>" is copied. */
  lemma {:induction false} SectionCopies(s: string, i: nat, j: nat)
    requires i <= j <= |s| && forall k :: i <= k < j ==> !EndsAt(s, k)
    ensures Section(s[i..]) == s[i..j] + Section(s[j..])
    decreases j - i
  {
    if i < j {
      SectionCopies(s, i + 1, j);
      SectionCopiesOne(s, i);
      OneMoreCopied(s, i, j, Section(s[j..]));
    }
  }

  lemma OneMoreCopied(s: string, i: nat, j: nat, rest: string)
    requires i < j <= |s|
    ensures [s[i]] + (s[i + 1..j] + rest) == s[i..j] + rest
  {
    assert s[i..j] == [s[i]] + s[i + 1..j];
  }

  lemma SectionCopiesOne(s: string, i: nat)
    requires i < |s| && !EndsAt(s, i)
    ensures Section(s[i..]) == [s[i]] + Section(s[i + 1..])
  {
    assert !EndsAt(s[i..], 0);
    assert s[i..][1..] == s[i + 1..];
  }

  lemma SectionSplits(s: string, i: nat)
    requires EndsAt(s, i)
    ensures Section(s[i..]) == CDATA_SPLIT + Section(s[i + 3..])
  {
    assert s[i..][3..] == s[i + 3..];
  }

  lemma NextSection(s: string, i: nat, j: nat, out: string)
    requires i <= j && EndsAt(s, j) && forall k :: i <= k < j ==> !EndsAt(s, k)
    ensures out + Section(s[i..]) == out + s[i..j] + CDATA_SPLIT + Section(s[j + 3..])
  {
    SectionCopies(s, i, j);
    SectionSplits(s, j);
  }

  lemma LastSection(s: string, i: nat, out: string)
    requires i <= |s| && forall k :: i <= k < |s| ==> !EndsAt(s, k)
    ensures out + Section(s[i..]) == out + s[i..] + Section(s[|s|..])
  {
    SectionCopies(s, i, |s|);
    assert s[i..|s|] == s[i..];
  }

  method OutputXmlCDataSection(stream: string, data: CString) returns (out: string)
    ensures out == stream + CDATA_START + Section(data)
  {
    var segment := 0;
    out := stream + CDATA_START;
    ghost var all := out + Section(data);
    while true
      invariant 0 <= segment <= |data|
      invariant out + Section(data[segment..]) == all
      decreases |data| - segment
    {
      var next := Strstr(data, segment);
      if next.Some? {
        NextSection(data, segment, next.value, out);
        out := out + data[segment..next.value];
        out := out + CDATA_SPLIT;
        segment := next.value + 3;
      } else {
        LastSection(data, segment, out);
        out := out + data[segment..];
        segment := |data|;
        break;
      }
    }
    assert data[segment..] == [];
    out := out + [']', ']', '>'];
  }

  // ----- reading back -----

  lemma {:induction false} SectionFirst(s: string)
    ensures |Section(s)| >= 3 && Section(s)[0] == (if s == [] then ']' else s[0])
    ensures s == [] || EndsAt(s, 0) ==> Section(s)[1] == ']'
    ensures s != [] && !EndsAt(s, 0) ==> Section(s)[1..] == Section(s[1..])
  {
    if s != [] && !EndsAt(s, 0) {
      SectionFirst(s[1..]);
      assert Section(s) == [s[0]] + Section(s[1..]);
    }
  }

  /** Data that does not start with "]]>" is not written so that it does. */
  lemma SectionStarts(s: string)
    requires s != [] && !EndsAt(s, 0)
    ensures !EndsAt(Section(s), 0)
  {
    var t := s[1..];
    SectionFirst(s);
    SectionFirst(t);
    assert forall k :: 1 <= k < 3 ==> Section(s)[k] == Section(s)[1..][k - 1];
    if t != [] && !EndsAt(t, 0) {
      SectionFirst(t[1..]);
      assert Section(t)[1] == Section(t)[1..][0];
    }
  }

  lemma ReadChar(t: string)
    requires t != [] && t[0] == ']' && !EndsAt(t, 0) && ReadContent(t[1..]).Some?
    ensures ReadContent(t) == Some([']'] + ReadContent(t[1..]).value)
  {
  }

  /** Within a section, what stands for "]]>" reads as "]]>". */
  lemma ReadSplit(t: string)
    requires ReadSection(t).Some?
    ensures ReadSection(CDATA_SPLIT + t) == Some([']', ']', '>'] + ReadSection(t).value)
  {
    var v := ReadSection(t).value;
    var a := CDATA_SPLIT + t;
    var b := a[3..];
    var c := b[2..];
    var d := c[4..];
    assert d == CDATA_START + t;
    assert d[..|CDATA_START|] == CDATA_START && d[|CDATA_START|..] == t;
    assert ReadContent(d) == Some(v);
    assert ReadReference(c) == Some(Reference('>', 4));
    assert ReadContent(c) == Some(['>'] + v);
    assert b[1..][1..] == c;
    ReadChar(b[1..]);
    ReadChar(b);
    assert [']'] + ([']'] + (['>'] + v)) == [']', ']', '>'] + v;
  }

  lemma {:induction false} ReadSectionBack(s: string)
    ensures ReadSection(Section(s)) == Some(s)
  {
    if s == [] {
      assert [']', ']', '>'][3..] == [];
    } else if EndsAt(s, 0) {
      ReadSectionBack(s[3..]);
      ReadSplit(Section(s[3..]));
      assert s == [']', ']', '>'] + s[3..];
    } else {
      ReadSectionBack(s[1..]);
      SectionStarts(s);
      SectionFirst(s);
      assert s == [s[0]] + s[1..];
    }
  }

  /** What is written reads back as the data, whatever the data. */
  lemma CDataReadsBack(s: string)
    ensures ReadContent(CDATA_START + Section(s)) == Some(s)
  {
    var t := CDATA_START + Section(s);
    assert t[..|CDATA_START|] == CDATA_START && t[|CDATA_START|..] == Section(s);
    ReadSectionBack(s);
  }

  lemma {:induction false} SectionIsLonger(s: string, i: nat)
    requires i <= |s|
    ensures |Section(s[i..])| >= |s| - i + 3
    ensures (exists k :: i <= k && EndsAt(s, k)) ==> |Section(s[i..])| > |s| - i + 3
    decreases |s| - i
  {
    if i < |s| && EndsAt(s, i) {
      SectionSplits(s, i);
      SectionIsLonger(s, i + 3);
    } else if i < |s| {
      SectionCopiesOne(s, i);
      SectionIsLonger(s, i + 1);
    }
  }

  /** Data is one section, unchanged, exactly if "]]>" is not in it. */
  lemma OneSectionIff(s: string)
    ensures Section(s) == s + [']', ']', '>'] <==> forall k :: 0 <= k < |s| ==> !EndsAt(s, k)
  {
    assert s[0..] == s && s[|s|..] == [] && s[..|s|] == s;
    if forall k :: 0 <= k < |s| ==> !EndsAt(s, k) {
      SectionCopies(s, 0, |s|);
    } else {
      SectionIsLonger(s, 0);
    }
  }
}
