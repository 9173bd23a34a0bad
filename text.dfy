/**
 * The string primitives the reader builds its output with:
 *  - `str_replace` / `implode(explode(...))` as a left-to-right,
 *    non-overlapping replacement of every occurrence of a pattern;
 *  - `strpos` / `stripos` as substring tests;
 *  - `htmlentities($v, ENT_QUOTES | ENT_XML1, "UTF-8")`, which replaces the
 *    five characters that have a predefined entity in section 4.6 of
 *    XML 1.0 (& < > " ');
 *  - the CDATA wrapping of the character-data handler (section 2.7 of
 *    XML 1.0), where every "]]>" inside the data is replaced by
 *    "]]]]><![CDATA[": the "]]" stays in one section, the next section
 *    starts right after, and the ">" of the data is dropped.
 */
module Text {

  import opened XmlPaths

  // ---------------------------------------------------------------------
  //  Substrings

  predicate OccursAt(pattern: string, s: string, i: int) {
    0 <= i && i + |pattern| <= |s| && s[i..i + |pattern|] == pattern
  }

  /** `strpos($haystack, $needle) !== false` (an empty needle is found). */
  predicate IsSubstring(needle: string, haystack: string) {
    exists i :: 0 <= i <= |haystack| - |needle| && OccursAt(needle, haystack, i)
  }

  /** ASCII lower-casing, as `stripos` compares. */
  function LowerChar(c: char): char {
    if 'A' <= c <= 'Z' then (c as int + 32) as char else c
  }

  function Lower(s: string): (r: string)
    ensures |r| == |s|
    ensures forall i :: 0 <= i < |s| ==> r[i] == LowerChar(s[i])
  {
    if s == [] then [] else [LowerChar(s[0])] + Lower(s[1..])
  }

  /** `stripos($haystack, $needle) !== false` for a lower-case needle. */
  predicate ContainsIgnoringCase(needle: string, haystack: string) {
    IsSubstring(needle, Lower(haystack))
  }

  /** A prefix is a substring. */
  lemma PrefixIsSubstring(p: string, s: string)
    requires |p| <= |s| && s[..|p|] == p
    ensures IsSubstring(p, s)
  {
    assert OccursAt(p, s, 0);
  }

  // ---------------------------------------------------------------------
  //  Replacement of every occurrence

  /** Scans `s` from the left; an occurrence of `pattern` is replaced and
      scanning resumes after it, so occurrences never overlap. */
  function ReplaceAll(s: string, pattern: string, replacement: string): string
    requires |pattern| > 0
    decreases |s|
  {
    if |s| < |pattern| then s
    else if s[..|pattern|] == pattern then
      replacement + ReplaceAll(s[|pattern|..], pattern, replacement)
    else
      [s[0]] + ReplaceAll(s[1..], pattern, replacement)
  }

  /** Where `s` does not start with the pattern, the first character is
      copied. */
  lemma ReplaceAllHead(s: string, pattern: string, replacement: string)
    requires |pattern| > 0 && |s| > 0
    requires !(|s| >= |pattern| && s[..|pattern|] == pattern)
    ensures ReplaceAll(s, pattern, replacement)
         == [s[0]] + ReplaceAll(s[1..], pattern, replacement)
  {
    if |s| < |pattern| {
      assert ReplaceAll(s[1..], pattern, replacement) == s[1..];
      assert [s[0]] + s[1..] == s;
    }
  }

  /** Text without an occurrence of the pattern is left as it is. */
  lemma {:induction false} ReplaceAllAbsent(s: string, pattern: string, replacement: string)
    requires |pattern| > 0 && !IsSubstring(pattern, s)
    ensures ReplaceAll(s, pattern, replacement) == s
    decreases |s|
  {
    if |s| >= |pattern| {
      if s[..|pattern|] == pattern {
        assert OccursAt(pattern, s, 0);
        assert false;
      }
      if IsSubstring(pattern, s[1..]) {
        var i :| 0 <= i <= |s[1..]| - |pattern| && OccursAt(pattern, s[1..], i);
        assert s[1..][i..i + |pattern|] == s[i + 1..i + 1 + |pattern|];
        assert OccursAt(pattern, s, i + 1);
        assert false;
      }
      ReplaceAllAbsent(s[1..], pattern, replacement);
      assert [s[0]] + s[1..] == s;
    }
  }

  // ---------------------------------------------------------------------
  //  Predefined entities (htmlentities with ENT_QUOTES | ENT_XML1)

  function EscapeChar(c: char): string {
    if c == '&' then "&amp;"
    else if c == '<' then "&lt;"
    else if c == '>' then "&gt;"
    else if c == '"' then "&quot;"
    else if c == '\'' then "&apos;"
    else [c]
  }

  function EscapeEntities(v: string): string {
    if v == [] then [] else EscapeChar(v[0]) + EscapeEntities(v[1..])
  }

  /** The inverse: how an XML processor reads an attribute value back. An
      '&' that does not start one of the five entities makes the text
      malformed. */
  function UnescapeEntities(t: string): Option<string>
    decreases |t|
  {
    if t == [] then Some([])
    else if t[0] != '&' then
      match UnescapeEntities(t[1..])
      case Some(r) => Some([t[0]] + r)
      case None => None
    else
      var decoded :=
        if |t| >= 5 && t[..5] == "&amp;" then Some(('&', 5))
        else if |t| >= 4 && t[..4] == "&lt;" then Some(('<', 4))
        else if |t| >= 4 && t[..4] == "&gt;" then Some(('>', 4))
        else if |t| >= 6 && t[..6] == "&quot;" then Some(('"', 6))
        else if |t| >= 6 && t[..6] == "&apos;" then Some(('\'', 6))
        else None;
      match decoded
      case None => None
      case Some(d) =>
        match UnescapeEntities(t[d.1..])
        case Some(r) => Some([d.0] + r)
        case None => None
  }

  lemma UnescapeAmp(rest: string)
    ensures UnescapeEntities("&amp;" + rest)
         == match UnescapeEntities(rest)
            case Some(r) => Some(['&'] + r)
            case None => None
  {
    var t := "&amp;" + rest;
    assert t[..5] == "&amp;" && t[5..] == rest;
  }

  lemma UnescapeLt(rest: string)
    ensures UnescapeEntities("&lt;" + rest)
         == match UnescapeEntities(rest)
            case Some(r) => Some(['<'] + r)
            case None => None
  {
    var t := "&lt;" + rest;
    assert t[1] == 'l' && t[..4] == "&lt;" && t[4..] == rest;
  }

  lemma UnescapeGt(rest: string)
    ensures UnescapeEntities("&gt;" + rest)
         == match UnescapeEntities(rest)
            case Some(r) => Some(['>'] + r)
            case None => None
  {
    var t := "&gt;" + rest;
    assert t[1] == 'g' && t[..4] == "&gt;" && t[4..] == rest;
  }

  lemma UnescapeQuot(rest: string)
    ensures UnescapeEntities("&quot;" + rest)
         == match UnescapeEntities(rest)
            case Some(r) => Some(['"'] + r)
            case None => None
  {
    var t := "&quot;" + rest;
    assert t[1] == 'q' && t[..6] == "&quot;" && t[6..] == rest;
  }

  lemma UnescapeApos(rest: string)
    ensures UnescapeEntities("&apos;" + rest)
         == match UnescapeEntities(rest)
            case Some(r) => Some(['\''] + r)
            case None => None
  {
    var t := "&apos;" + rest;
    assert t[1] == 'a' && t[2] == 'p' && t[..6] == "&apos;" && t[6..] == rest;
  }

  /** One escaped character is read back as that character. */
  lemma UnescapeAfterChar(c: char, rest: string)
    ensures UnescapeEntities(EscapeChar(c) + rest)
         == match UnescapeEntities(rest)
            case Some(r) => Some([c] + r)
            case None => None
  {
    if c == '&' {
      UnescapeAmp(rest);
    } else if c == '<' {
      UnescapeLt(rest);
    } else if c == '>' {
      UnescapeGt(rest);
    } else if c == '"' {
      UnescapeQuot(rest);
    } else if c == '\'' {
      UnescapeApos(rest);
    } else {
      var t := EscapeChar(c) + rest;
      assert t[0] == c && t[1..] == rest;
    }
  }

  /** Reading the escaped value back gives the value (the partner of
      EscapeEntities). */
  lemma {:induction false} EscapeRoundTrip(v: string)
    ensures UnescapeEntities(EscapeEntities(v)) == Some(v)
  {
    if v != [] {
      EscapeRoundTrip(v[1..]);
      UnescapeAfterChar(v[0], EscapeEntities(v[1..]));
      assert [v[0]] + v[1..] == v;
    }
  }

  /** The escaped text can stand between double or single quotes and inside
      markup: none of < > " ' is left. */
  lemma {:induction false} EscapedHasNoMarkup(v: string)
    ensures forall i :: 0 <= i < |EscapeEntities(v)| ==>
      EscapeEntities(v)[i] !in {'<', '>', '"', '\''}
  {
    if v != [] {
      EscapedHasNoMarkup(v[1..]);
      var e := EscapeEntities(v);
      assert e == EscapeChar(v[0]) + EscapeEntities(v[1..]);
      forall i | 0 <= i < |e|
        ensures e[i] !in {'<', '>', '"', '\''}
      {
        if i >= |EscapeChar(v[0])| {
          assert e[i] == EscapeEntities(v[1..])[i - |EscapeChar(v[0])|];
        }
      }
    }
  }

  // ---------------------------------------------------------------------
  //  CDATA sections

  const SectionStart := "<![CDATA["
  const SectionEnd := "]]>"

  /** The glue addCData puts in place of every "]]>": "]]" of the data, then
      "]]>" ending the section and "<![CDATA[" starting the next one.  The
      ">" of the data is not written again. */
  const Glue := "]]]]><![CDATA["

  /** The glue that keeps the ">": the usual way to split a "]]>" across two
      sections. */
  const IntendedGlue := "]]]]><![CDATA[>"

  /** `implode("]]]]><![CDATA[", explode("]]>", $data))` */
  function EscapeCData(data: string): string {
    ReplaceAll(data, SectionEnd, Glue)
  }

  /** "<![CDATA[" + escaped data + "]]>" */
  function CDataSection(data: string): string {
    SectionStart + EscapeCData(data) + SectionEnd
  }

  /** The escape with the glue that keeps the ">". */
  function IntendedEscapeCData(data: string): string {
    ReplaceAll(data, SectionEnd, IntendedGlue)
  }

  function IntendedCDataSection(data: string): string {
    SectionStart + IntendedEscapeCData(data) + SectionEnd
  }

  /** How an XML processor reads the text after an opening "<![CDATA[": the
      content runs to the first "]]>", which must end the text or be followed
      at once by the next section. */
  function DecodeSections(t: string): Option<string>
    decreases |t|
  {
    if |t| >= 3 && t[..3] == SectionEnd then
      if |t| == 3 then Some([])
      else if |t| >= 12 && t[3..12] == SectionStart then DecodeSections(t[12..])
      else None
    else if t == [] then None
    else
      match DecodeSections(t[1..])
      case Some(r) => Some([t[0]] + r)
      case None => None
  }

  /** The decoded text of a whole section string. */
  function DecodeCData(t: string): Option<string> {
    if |t| >= 9 && t[..9] == SectionStart then DecodeSections(t[9..]) else None
  }

  /** A glue starting with "]]" keeps the first character of the data. */
  lemma SplitKeepsFirst(x: string, glue: string)
    requires |x| >= 1 && |glue| >= 2 && glue[..2] == "]]"
    ensures |ReplaceAll(x, SectionEnd, glue)| >= 1 && ReplaceAll(x, SectionEnd, glue)[0] == x[0]
  {
    if |x| >= 3 && x[..3] == SectionEnd {
      assert x[0] == ']' && glue[0] == ']';
    } else {
      ReplaceAllHead(x, SectionEnd, glue);
    }
  }

  /** ... and its first two characters. */
  lemma SplitKeepsFirstTwo(x: string, glue: string)
    requires |x| >= 2 && |glue| >= 2 && glue[..2] == "]]"
    ensures |ReplaceAll(x, SectionEnd, glue)| >= 2 && ReplaceAll(x, SectionEnd, glue)[..2] == x[..2]
  {
    var e := ReplaceAll(x, SectionEnd, glue);
    if |x| >= 3 && x[..3] == SectionEnd {
      assert x[..2] == "]]";
      assert e == glue + ReplaceAll(x[3..], SectionEnd, glue);
      assert e[..2] == glue[..2];
    } else {
      ReplaceAllHead(x, SectionEnd, glue);
      SplitKeepsFirst(x[1..], glue);
    }
  }

  /** A section boundary "]]><![CDATA[" is skipped. */
  lemma DecodeBoundary(y: string)
    ensures DecodeSections(SectionEnd + SectionStart + y) == DecodeSections(y)
  {
    var u := SectionEnd + SectionStart + y;
    assert u[..3] == SectionEnd;
    assert u[3..12] == SectionStart;
    assert u[12..] == y;
  }

  lemma GlueShape()
    ensures Glue == "]" + ("]" + (SectionEnd + SectionStart))
  {
  }

  /** The glue reads as "]]" followed by the next section. */
  lemma DecodeSplit(y: string)
    ensures DecodeSections(Glue + y)
         == match DecodeSections(y)
            case Some(r) => Some("]]" + r)
            case None => None
  {
    var u := SectionEnd + SectionStart + y;
    DecodeBoundary(y);
    var v := "]" + u;
    assert v[2] == ']' && v[1..] == u;
    DecodeFirstChar(v);
    var t := "]" + v;
    assert t[2] == ']' && t[1..] == v;
    DecodeFirstChar(t);
    assert t == Glue + y by {
      GlueShape();
    }
    match DecodeSections(y)
    case Some(r) =>
      assert "]" + ("]" + r) == "]]" + r;
    case None =>
  }

  /** Escaped data that does not start with "]]>", followed by "]]>", does
      not start with "]]>" either. */
  lemma EscapedStart(d: string, glue: string)
    requires |d| >= 1 && !(|d| >= 3 && d[..3] == SectionEnd)
    requires |glue| >= 2 && glue[..2] == "]]"
    ensures var t := ReplaceAll(d, SectionEnd, glue) + SectionEnd;
      |t| >= 3 && t[..3] != SectionEnd
  {
    var e := ReplaceAll(d, SectionEnd, glue);
    var t := e + SectionEnd;
    if |d| >= 3 {
      ReplaceAllHead(d, SectionEnd, glue);
      SplitKeepsFirstTwo(d[1..], glue);
      assert t[..3] == d[..3] by {
        assert t[0] == d[0];
        assert t[1..3] == e[1..3] == d[1..3];
      }
    } else {
      assert ReplaceAll(d, SectionEnd, glue) == d;
      assert t[2] == ']';
    }
  }

  /** Any character of the data that does not start a "]]>" is copied and
      read back as itself. */
  lemma CopyCase(d: string, glue: string)
    requires |d| >= 1 && !(|d| >= 3 && d[..3] == SectionEnd)
    requires |glue| >= 2 && glue[..2] == "]]"
    ensures DecodeSections(ReplaceAll(d, SectionEnd, glue) + SectionEnd)
         == match DecodeSections(ReplaceAll(d[1..], SectionEnd, glue) + SectionEnd)
            case Some(r) => Some([d[0]] + r)
            case None => None
  {
    var t := ReplaceAll(d, SectionEnd, glue) + SectionEnd;
    ReplaceAllHead(d, SectionEnd, glue);
    assert t == [d[0]] + (ReplaceAll(d[1..], SectionEnd, glue) + SectionEnd);
    EscapedStart(d, glue);
    assert t[1..] == ReplaceAll(d[1..], SectionEnd, glue) + SectionEnd;
    DecodeFirstChar(t);
  }

  /** Text that does not start with "]]>" keeps its first character. */
  lemma DecodeFirstChar(t: string)
    requires |t| >= 1 && !(|t| >= 3 && t[..3] == SectionEnd)
    ensures DecodeSections(t)
         == match DecodeSections(t[1..])
            case Some(r) => Some([t[0]] + r)
            case None => None
  {
  }

  /** What addCData's section reads back as: the data with every "]]>"
      turned into "]]" — the ">" is lost. */
  lemma {:induction false} CDataReadsBack(d: string)
    ensures DecodeSections(EscapeCData(d) + SectionEnd) == Some(ReplaceAll(d, SectionEnd, "]]"))
    decreases |d|
  {
    if d == [] {
      assert EscapeCData(d) + SectionEnd == SectionEnd;
    } else if |d| >= 3 && d[..3] == SectionEnd {
      CDataReadsBack(d[3..]);
      DecodeSplit(EscapeCData(d[3..]) + SectionEnd);
      assert EscapeCData(d) + SectionEnd == Glue + (EscapeCData(d[3..]) + SectionEnd);
    } else {
      CopyCase(d, Glue);
      CDataReadsBack(d[1..]);
      ReplaceAllHead(d, SectionEnd, "]]");
    }
  }

  /** The whole section string addCData builds reads back as the data with
      every "]]>" turned into "]]". */
  lemma CDataSectionReadsBack(d: string)
    ensures DecodeCData(CDataSection(d)) == Some(ReplaceAll(d, SectionEnd, "]]"))
  {
    var t := CDataSection(d);
    assert t[..9] == SectionStart;
    assert t[9..] == EscapeCData(d) + SectionEnd;
    CDataReadsBack(d);
  }

  /** Data without "]]>" is read back unchanged. */
  lemma CDataWithoutEndRoundTrip(d: string)
    requires !IsSubstring(SectionEnd, d)
    ensures DecodeCData(CDataSection(d)) == Some(d)
  {
    CDataSectionReadsBack(d);
    ReplaceAllAbsent(d, SectionEnd, "]]");
  }

  /** For "a]]>b" the section reads back as "a]]b". */
  lemma CDataLosesGreaterThan()
    ensures DecodeCData(CDataSection("a]]>b")) == Some("a]]b")
    ensures DecodeCData(IntendedCDataSection("a]]>b")) == Some("a]]>b")
  {
    var d := "a]]>b";
    CDataSectionReadsBack(d);
    assert d[..3][0] == 'a';
    ReplaceAllHead(d, SectionEnd, "]]");
    var e := d[1..];
    assert e == "]]>b";
    assert e[..3] == SectionEnd && e[3..] == "b";
    assert ReplaceAll(e, SectionEnd, "]]") == "]]" + ReplaceAll("b", SectionEnd, "]]");
    assert ReplaceAll("b", SectionEnd, "]]") == "b";
    assert ReplaceAll(d, SectionEnd, "]]") == "a]]b";
    IntendedCDataSectionRoundTrip(d);
  }

  /** With the intended glue, a leading "]]>" becomes the glue of addCData
      followed by the escaped rest, which starts with the ">". */
  lemma IntendedSplitCase(d: string)
    requires |d| >= 3 && d[..3] == SectionEnd
    ensures IntendedEscapeCData(d) == Glue + IntendedEscapeCData(">" + d[3..])
    ensures "]]" + (">" + d[3..]) == d
  {
    var d' := ">" + d[3..];
    ReplaceAllHead(d', SectionEnd, IntendedGlue);
    assert d'[1..] == d[3..];
  }

  /** With the intended glue, reading a section back gives the data: a "]]>"
      in the data never ends the text early. */
  lemma {:induction false} IntendedCDataRoundTrip(d: string)
    ensures DecodeSections(IntendedEscapeCData(d) + SectionEnd) == Some(d)
    decreases |d|
  {
    if d == [] {
      assert IntendedEscapeCData(d) + SectionEnd == SectionEnd;
    } else if |d| >= 3 && d[..3] == SectionEnd {
      var d' := ">" + d[3..];
      IntendedSplitCase(d);
      IntendedCDataRoundTrip(d');
      DecodeSplit(IntendedEscapeCData(d') + SectionEnd);
      assert IntendedEscapeCData(d) + SectionEnd == Glue + (IntendedEscapeCData(d') + SectionEnd);
    } else {
      CopyCase(d, IntendedGlue);
      IntendedCDataRoundTrip(d[1..]);
      assert [d[0]] + d[1..] == d;
    }
  }

  /** The whole intended section string reads back as the data. */
  lemma IntendedCDataSectionRoundTrip(d: string)
    ensures DecodeCData(IntendedCDataSection(d)) == Some(d)
  {
    var t := IntendedCDataSection(d);
    assert t[..9] == SectionStart;
    assert t[9..] == IntendedEscapeCData(d) + SectionEnd;
    IntendedCDataRoundTrip(d);
  }
}
