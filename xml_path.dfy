/**
 * The path value object of the reader (src/Reader/XmlPath.php).
 *
 * A path is accepted when it matches the pattern
 *   (?mi-Us)^(/[a-zA-Z][a-zA-Z0-9_-]*)+(/@[a-zA-Z][a-zA-Z0-9_-]*)?$
 * Because of the `m` flag, `^` and `$` also match at line breaks, so the
 * pattern accepts a string as soon as ONE of its '\n'-separated lines matches
 * the grammar.  The grammar itself is recognised by a hand-written
 * deterministic automaton over the characters of one line.
 */
module XmlPaths {

  datatype Option<+T> = None | Some(value: T)

  datatype Result<+T, +E> = Success(value: T) | Failure(error: E)

  /** The failure of the constructor: an invalid-argument assertion whose
      message ends in "does not match expression." */
  datatype PathError = DoesNotMatchExpression(value: string)

  predicate IsLetter(c: char) {
    'a' <= c <= 'z' || 'A' <= c <= 'Z'
  }

  predicate IsNameChar(c: char) {
    IsLetter(c) || '0' <= c <= '9' || c == '_' || c == '-'
  }

  /** A segment name: a letter followed by letters, digits, '_' and '-'. */
  predicate IsName(s: string) {
    |s| >= 1 && IsLetter(s[0]) && forall i :: 1 <= i < |s| ==> IsNameChar(s[i])
  }

  // ---------------------------------------------------------------------
  //  The recognizer for one line

  /** States of the automaton: what has been read of the line so far. */
  datatype State =
    | Begin         // nothing
    | Slash         // the leading '/'
    | InSegment     // inside an element segment name (accepting)
    | SegmentSlash  // a '/' after at least one segment
    | At            // "/@"
    | InAttribute   // inside the attribute name (accepting)
    | Reject

  function Step(q: State, c: char): State {
    match q
    case Begin => if c == '/' then Slash else Reject
    case Slash => if IsLetter(c) then InSegment else Reject
    case InSegment =>
      if IsNameChar(c) then InSegment else if c == '/' then SegmentSlash else Reject
    case SegmentSlash =>
      if IsLetter(c) then InSegment else if c == '@' then At else Reject
    case At => if IsLetter(c) then InAttribute else Reject
    case InAttribute => if IsNameChar(c) then InAttribute else Reject
    case Reject => Reject
  }

  /** Feeds the characters of `s`, left to right, to the automaton. */
  function RunFrom(q: State, s: string): State
    decreases |s|
  {
    if s == [] then q else RunFrom(Step(q, s[0]), s[1..])
  }

  predicate IsAccepting(q: State) {
    q == InSegment || q == InAttribute
  }

  /** One line (no '\n') matches the grammar anchored at both ends. */
  predicate LineMatches(s: string) {
    IsAccepting(RunFrom(Begin, s))
  }

  // ---------------------------------------------------------------------
  //  Multi-line acceptance (the `m` flag)

  function IndexOfNewline(s: string): (i: nat)
    requires '\n' in s
    ensures i < |s| && s[i] == '\n' && '\n' !in s[..i]
  {
    if s[0] == '\n' then 0 else 1 + IndexOfNewline(s[1..])
  }

  /** The '\n'-separated lines of `s` (the last one may be empty). */
  function Lines(s: string): (r: seq<string>)
    ensures |r| >= 1
    ensures forall k :: 0 <= k < |r| ==> '\n' !in r[k]
    decreases |s|
  {
    if '\n' !in s then [s]
    else
      var i := IndexOfNewline(s);
      [s[..i]] + Lines(s[i + 1..])
  }

  predicate SomeLineMatches(lines: seq<string>) {
    |lines| > 0 && (LineMatches(lines[0]) || SomeLineMatches(lines[1..]))
  }

  /** The check of XmlPath.php:43: some line of `s` matches the grammar. */
  predicate Accepts(s: string) {
    SomeLineMatches(Lines(s))
  }

  // ---------------------------------------------------------------------
  //  The value object

  /** A validated path; its text is stored unchanged. */
  type XmlPath = s: string | Accepts(s) witness "/a"

  /** `new XmlPath($path)`: fails exactly when the check fails, and otherwise
      keeps the given text as the path. */
  function Construct(path: string): (r: Result<XmlPath, PathError>)
    ensures r.Success? <==> Accepts(path)
    ensures r.Success? ==> GetPath(r.value) == path
    ensures r.Failure? ==> r.error == DoesNotMatchExpression(path)
  {
    if Accepts(path) then Success(path) else Failure(DoesNotMatchExpression(path))
  }

  /** `getPath()`. */
  function GetPath(p: XmlPath): string {
    p
  }

  // ---------------------------------------------------------------------
  //  The grammar, written as the paths it generates

  /** "/n1/n2/.../nk" */
  function Segments(names: seq<string>): string {
    if names == [] then "" else "/" + names[0] + Segments(names[1..])
  }

  /** "" or "/@a" */
  function AttributeSuffix(attribute: Option<string>): string {
    match attribute
    case None => ""
    case Some(a) => "/@" + a
  }

  function PathText(names: seq<string>, attribute: Option<string>): string {
    Segments(names) + AttributeSuffix(attribute)
  }

  predicate AllNames(names: seq<string>) {
    forall k :: 0 <= k < |names| ==> IsName(names[k])
  }

  /** (/name)+ followed by at most one /@name */
  predicate IsPathShape(names: seq<string>, attribute: Option<string>) {
    |names| >= 1 && AllNames(names) && (attribute.Some? ==> IsName(attribute.value))
  }

  predicate AllNameChars(s: string) {
    forall i :: 0 <= i < |s| ==> IsNameChar(s[i])
  }

  // ---------------------------------------------------------------------
  //  Facts about the automaton

  lemma {:induction false} RunAppend(q: State, a: string, b: string)
    ensures RunFrom(q, a + b) == RunFrom(RunFrom(q, a), b)
    decreases |a|
  {
    if a == [] {
      assert a + b == b;
    } else {
      assert (a + b)[1..] == a[1..] + b;
      RunAppend(Step(q, a[0]), a[1..], b);
    }
  }

  lemma {:induction false} RunRejectStays(s: string)
    ensures RunFrom(Reject, s) == Reject
    decreases |s|
  {
    if s != [] {
      RunRejectStays(s[1..]);
    }
  }

  lemma {:induction false} RunNameTail(q: State, t: string)
    requires q == InSegment || q == InAttribute
    requires AllNameChars(t)
    ensures RunFrom(q, t) == q
    decreases |t|
  {
    if t != [] {
      RunNameTail(q, t[1..]);
    }
  }

  /** Reading one name from the state after a '/' (or "/@") lands in the
      state inside that name. */
  lemma RunName(q: State, n: string)
    requires q == Slash || q == SegmentSlash || q == At
    requires IsName(n)
    ensures RunFrom(q, n) == if q == At then InAttribute else InSegment
  {
    var inside := if q == At then InAttribute else InSegment;
    assert RunFrom(q, n) == RunFrom(inside, n[1..]);
    RunNameTail(inside, n[1..]);
  }

  lemma SegmentsCons(n: string, names: seq<string>, suffix: string)
    ensures PathText([n] + names, None) + suffix == "/" + n + (Segments(names) + suffix)
  {
    assert ([n] + names)[1..] == names;
  }

  /** Direction 1 of the grammar: the tail after one segment. */
  lemma {:induction false} TailRuns(names: seq<string>, attribute: Option<string>)
    requires AllNames(names) && (attribute.Some? ==> IsName(attribute.value))
    ensures RunFrom(InSegment, PathText(names, attribute))
         == if attribute.Some? then InAttribute else InSegment
    decreases |names|
  {
    if names == [] {
      match attribute
      case None =>
      case Some(a) =>
        assert PathText(names, attribute) == "/@" + a;
        assert RunFrom(InSegment, "/@" + a) == RunFrom(At, a);
        RunName(At, a);
    } else {
      var n := names[0];
      var rest := PathText(names[1..], attribute);
      calc {
        PathText(names, attribute);
        Segments(names) + AttributeSuffix(attribute);
        ("/" + n + Segments(names[1..])) + AttributeSuffix(attribute);
        ("/" + n) + rest;
      }
      RunAppend(InSegment, "/" + n, rest);
      assert RunFrom(InSegment, "/" + n) == RunFrom(SegmentSlash, n);
      RunName(SegmentSlash, n);
      TailRuns(names[1..], attribute);
    }
  }

  /** Every path of the grammar is a matching line. */
  lemma GrammarMatches(names: seq<string>, attribute: Option<string>)
    requires IsPathShape(names, attribute)
    ensures LineMatches(PathText(names, attribute))
  {
    var n := names[0];
    var rest := PathText(names[1..], attribute);
    assert PathText(names, attribute) == ("/" + n) + rest;
    RunAppend(Begin, "/" + n, rest);
    assert RunFrom(Begin, "/" + n) == RunFrom(Slash, n);
    RunName(Slash, n);
    TailRuns(names[1..], attribute);
  }

  lemma {:induction false} AttributeTail(s: string)
    requires IsAccepting(RunFrom(InAttribute, s))
    ensures AllNameChars(s)
    decreases |s|
  {
    if s != [] {
      if IsNameChar(s[0]) {
        AttributeTail(s[1..]);
      } else {
        RunRejectStays(s[1..]);
      }
    }
  }

  /** What the automaton accepts after "/@" is one attribute name. */
  lemma ParseAttribute(s: string)
    requires IsAccepting(RunFrom(At, s))
    ensures IsName(s)
  {
    if s == [] {
      assert false;
    }
    if !IsLetter(s[0]) {
      RunRejectStays(s[1..]);
      assert false;
    }
    assert RunFrom(At, s) == RunFrom(InAttribute, s[1..]);
    AttributeTail(s[1..]);
    forall i | 1 <= i < |s| ensures IsNameChar(s[i]) {
      assert s[i] == s[1..][i - 1];
    }
  }

  lemma NameFromParts(d: char, t: string)
    requires IsLetter(d) && AllNameChars(t)
    ensures IsName([d] + t)
  {
    var n := [d] + t;
    forall i | 1 <= i < |n| ensures IsNameChar(n[i]) {
      assert n[i] == t[i - 1];
    }
  }

  lemma PrependSegment(u: string, t': string, names': seq<string>, attribute: Option<string>)
    requires |u| >= 1 && u[1..] == t' + PathText(names', attribute)
    ensures "/" + u == PathText([[u[0]] + t'] + names', attribute)
  {
    var d := u[0];
    var names := [[d] + t'] + names';
    assert names[0] == [d] + t' && names[1..] == names';
    assert Segments(names) == "/" + ([d] + t') + Segments(names');
    Regroup(d, t', Segments(names'), AttributeSuffix(attribute));
    assert u == [d] + u[1..];
  }

  lemma Regroup(d: char, t: string, a: string, b: string)
    ensures "/" + ([d] + t) + a + b == "/" + ([d] + (t + (a + b)))
  {
  }

  /** Direction 2 of the grammar, from inside a segment name: what remains is
      more name characters followed by a tail of the grammar. */
  lemma {:induction false} ParseTail(s: string)
    returns (t: string, names: seq<string>, attribute: Option<string>)
    requires IsAccepting(RunFrom(InSegment, s))
    ensures AllNameChars(t) && AllNames(names)
    ensures attribute.Some? ==> IsName(attribute.value)
    ensures s == t + PathText(names, attribute)
    decreases |s|, 2
  {
    if s == [] {
      t, names, attribute := "", [], None;
      return;
    }
    var c := s[0];
    if IsNameChar(c) {
      assert RunFrom(InSegment, s) == RunFrom(InSegment, s[1..]);
      var t', names', attribute' := ParseTail(s[1..]);
      t, names, attribute := [c] + t', names', attribute';
      assert s == [c] + s[1..];
      return;
    }
    if c != '/' {
      RunRejectStays(s[1..]);
      assert false;
    }
    assert RunFrom(InSegment, s) == RunFrom(SegmentSlash, s[1..]);
    names, attribute := ParseAfterSlash(s[1..]);
    t := "";
    assert s == "/" + s[1..];
  }

  /** The same after a '/' that follows a segment: another segment or the
      attribute. */
  lemma {:induction false} ParseAfterSlash(u: string)
    returns (names: seq<string>, attribute: Option<string>)
    requires IsAccepting(RunFrom(SegmentSlash, u))
    ensures AllNames(names)
    ensures attribute.Some? ==> IsName(attribute.value)
    ensures "/" + u == PathText(names, attribute)
    decreases |u|, 1
  {
    if u == [] {
      assert false;
    }
    if IsLetter(u[0]) {
      names, attribute := ParseSegmentAfterSlash(u);
    } else if u[0] == '@' {
      AttributeAfterSlash(u);
      names, attribute := [], Some(u[1..]);
    } else {
      RunRejectStays(u[1..]);
      assert false;
    }
  }

  /** After a '/' and a letter: a segment, then a tail of the grammar. */
  lemma {:induction false} ParseSegmentAfterSlash(u: string)
    returns (names: seq<string>, attribute: Option<string>)
    requires |u| >= 1 && IsLetter(u[0]) && IsAccepting(RunFrom(SegmentSlash, u))
    ensures AllNames(names)
    ensures attribute.Some? ==> IsName(attribute.value)
    ensures "/" + u == PathText(names, attribute)
    decreases |u|, 0
  {
    var d := u[0];
    assert RunFrom(SegmentSlash, u) == RunFrom(InSegment, u[1..]);
    var t', names', attribute' := ParseTail(u[1..]);
    NameFromParts(d, t');
    PrependSegment(u, t', names', attribute');
    names, attribute := [[d] + t'] + names', attribute';
  }

  /** After a '/' and an '@': the attribute name ends the line. */
  lemma AttributeAfterSlash(u: string)
    requires |u| >= 1 && u[0] == '@' && IsAccepting(RunFrom(SegmentSlash, u))
    ensures IsName(u[1..]) && "/" + u == PathText([], Some(u[1..]))
  {
    assert RunFrom(SegmentSlash, u) == RunFrom(At, u[1..]);
    ParseAttribute(u[1..]);
    assert "/" + u == "/@" + u[1..];
  }

  /** Every matching line is a path of the grammar. */
  lemma MatchesGrammar(s: string)
    returns (names: seq<string>, attribute: Option<string>)
    requires LineMatches(s)
    ensures IsPathShape(names, attribute) && s == PathText(names, attribute)
  {
    if s == [] || s[0] != '/' {
      if s != [] {
        RunRejectStays(s[1..]);
      }
      assert false;
    }
    var u := s[1..];
    assert RunFrom(Begin, s) == RunFrom(Slash, u);
    if u == [] {
      assert false;
    }
    if !IsLetter(u[0]) {
      RunRejectStays(u[1..]);
      assert false;
    }
    assert RunFrom(Slash, u) == RunFrom(InSegment, u[1..]);
    var t, names', attribute' := ParseTail(u[1..]);
    NameFromParts(u[0], t);
    PrependSegment(u, t, names', attribute');
    names, attribute := [[u[0]] + t] + names', attribute';
    assert s == "/" + u;
  }

  lemma {:induction false} SomeLineMatchesAt(lines: seq<string>)
    ensures SomeLineMatches(lines) <==> exists k :: 0 <= k < |lines| && LineMatches(lines[k])
    decreases |lines|
  {
    if lines != [] {
      SomeLineMatchesAt(lines[1..]);
      if exists k :: 0 <= k < |lines| && LineMatches(lines[k]) {
        var k :| 0 <= k < |lines| && LineMatches(lines[k]);
        if k > 0 {
          assert lines[1..][k - 1] == lines[k];
        }
      }
      if exists k :: 0 <= k < |lines[1..]| && LineMatches(lines[1..][k]) {
        var k :| 0 <= k < |lines[1..]| && LineMatches(lines[1..][k]);
        assert lines[k + 1] == lines[1..][k];
      }
    }
  }

  // ---------------------------------------------------------------------
  //  Properties of the check

  /** The check accepts a string exactly when one of its lines matches. */
  lemma AcceptsSomeLine(s: string)
    ensures Accepts(s) <==> exists k :: 0 <= k < |Lines(s)| && LineMatches(Lines(s)[k])
  {
    assert Accepts(s) == SomeLineMatches(Lines(s));
    SomeLineMatchesAt(Lines(s));
  }

  /** Without a line break, a string is accepted exactly when it is one or
      more "/name" segments optionally followed by one "/@name". */
  lemma NewlineFreeAcceptance(s: string)
    requires '\n' !in s
    ensures Accepts(s) <==>
      exists names, attribute :: IsPathShape(names, attribute) && s == PathText(names, attribute)
  {
    assert Lines(s) == [s];
    assert Accepts(s) == LineMatches(s) by {
      assert [s][1..] == [];
      assert !SomeLineMatches([]);
      assert Accepts(s) == SomeLineMatches([s]);
    }
    if Accepts(s) {
      var names, attribute := MatchesGrammar(s);
    }
    if exists names, attribute :: IsPathShape(names, attribute) && s == PathText(names, attribute) {
      var names, attribute :| IsPathShape(names, attribute) && s == PathText(names, attribute);
      GrammarMatches(names, attribute);
    }
  }

  // ---------------------------------------------------------------------
  //  The shape of an accepted path

  predicate NoDoubleSlash(s: string) {
    forall i :: 0 <= i < |s| - 1 ==> !(s[i] == '/' && s[i + 1] == '/')
  }

  predicate AtMostOneAt(s: string) {
    forall i, j :: 0 <= i < j < |s| ==> !(s[i] == '@' && s[j] == '@')
  }

  /** An '@' comes right after a '/', and no '/' or '@' follows it. */
  predicate AtEndsPath(s: string) {
    forall i :: 0 <= i < |s| && s[i] == '@' ==>
      0 < i && s[i - 1] == '/' && forall j :: i < j < |s| ==> s[j] != '/' && s[j] != '@'
  }

  /** What is known about the text read so far in each state. */
  ghost predicate StateFacts(q: State, s: string) {
    && (q == Begin <==> s == [])
    && (s != [] ==> s[0] == '/')
    && NoDoubleSlash(s)
    && ((q == Slash || q == SegmentSlash) ==> s[|s| - 1] == '/')
    && (q == At ==> s[|s| - 1] == '@')
    && (IsAccepting(q) ==> IsNameChar(s[|s| - 1]))
    && ((q == Begin || q == Slash || q == InSegment || q == SegmentSlash) ==> '@' !in s)
    && AtEndsPath(s)
  }

  lemma RunSnoc(q: State, s: string, c: char)
    ensures RunFrom(q, s + [c]) == Step(RunFrom(q, s), c)
  {
    RunAppend(q, s, [c]);
    assert RunFrom(Step(RunFrom(q, s), c), []) == Step(RunFrom(q, s), c);
  }

  lemma StepFacts(q: State, p: string, c: char)
    requires q != Reject && StateFacts(q, p) && Step(q, c) != Reject
    ensures StateFacts(Step(q, c), p + [c])
  {
    var s := p + [c];
    var q' := Step(q, c);
    assert forall i :: 0 <= i < |p| ==> s[i] == p[i];
    assert '@' in s <==> '@' in p || c == '@';
    forall i | 0 <= i < |s| && s[i] == '@'
      ensures 0 < i && s[i - 1] == '/' && forall j :: i < j < |s| ==> s[j] != '/' && s[j] != '@'
    {
      if i < |p| {
        assert '@' in p;
      }
    }
  }

  lemma {:induction false} ReachedFacts(s: string)
    requires RunFrom(Begin, s) != Reject
    ensures StateFacts(RunFrom(Begin, s), s)
    decreases |s|
  {
    if s != [] {
      var p, c := s[..|s| - 1], s[|s| - 1];
      assert s == p + [c];
      RunSnoc(Begin, p, c);
      var q := RunFrom(Begin, p);
      if q == Reject {
        assert false;
      }
      ReachedFacts(p);
      StepFacts(q, p, c);
    }
  }

  /** Every accepted path without a line break starts with '/', does not end
      with '/', has no empty segment, and has at most one '@', which follows a
      '/' and is followed by no further '/'. */
  lemma AcceptedShape(s: string)
    requires '\n' !in s && Accepts(s)
    ensures |s| >= 2 && s[0] == '/' && s[|s| - 1] != '/'
    ensures NoDoubleSlash(s) && AtMostOneAt(s) && AtEndsPath(s)
  {
    NewlineFreeAcceptance(s);
    var names, attribute :| IsPathShape(names, attribute) && s == PathText(names, attribute);
    GrammarMatches(names, attribute);
    ReachedFacts(s);
  }

  /** A string without line breaks is accepted exactly when it matches. */
  lemma SingleLine(s: string)
    requires '\n' !in s
    ensures Accepts(s) <==> LineMatches(s)
  {
    assert Lines(s) == [s];
    assert [s][1..] == [];
    assert !SomeLineMatches([]);
  }

  /** Splitting at the first line break: the first line, or any later one. */
  lemma AcceptsAcrossLineBreak(a: string, b: string)
    requires '\n' !in a
    ensures Accepts(a + "\n" + b) <==> LineMatches(a) || Accepts(b)
  {
    var s := a + "\n" + b;
    assert s[|a|] == '\n';
    var i := IndexOfNewline(s);
    if i < |a| {
      assert false;
    }
    if i > |a| {
      assert false;
    }
    assert s[..i] == a && s[i + 1..] == b;
    assert Lines(s) == [a] + Lines(b);
    assert ([a] + Lines(b))[1..] == Lines(b);
  }

  lemma GrammarAccepted(names: seq<string>, attribute: Option<string>)
    requires IsPathShape(names, attribute) && '\n' !in PathText(names, attribute)
    ensures Construct(PathText(names, attribute)) == Success(PathText(names, attribute))
  {
    NewlineFreeAcceptance(PathText(names, attribute));
    GrammarMatches(names, attribute);
  }

  lemma RejectedAfter(prefix: string, rest: string)
    requires RunFrom(Begin, prefix) == Reject && '\n' !in prefix + rest
    ensures Construct(prefix + rest) == Failure(DoesNotMatchExpression(prefix + rest))
  {
    SingleLine(prefix + rest);
    RunAppend(Begin, prefix, rest);
    RunRejectStays(rest);
  }

  // One lemma per sample keeps each literal's evaluation a proof of its own.

  lemma ValidSample0()
    ensures Construct("/foo") == Success("/foo")
  {
    assert PathText(["foo"], None) == "/foo";
    GrammarAccepted(["foo"], None);
  }

  lemma ValidSample1()
    ensures Construct("/foo/bar") == Success("/foo/bar")
  {
    assert PathText(["foo", "bar"], None) == "/foo/bar";
    GrammarAccepted(["foo", "bar"], None);
  }

  lemma ValidSample2()
    ensures Construct("/foo/bar/baz") == Success("/foo/bar/baz")
  {
    assert PathText(["foo", "bar", "baz"], None) == "/foo/bar/baz";
    GrammarAccepted(["foo", "bar", "baz"], None);
  }

  lemma ValidSample3()
    ensures Construct("/foo/@quux") == Success("/foo/@quux")
  {
    assert PathText(["foo"], Some("quux")) == "/foo/@quux";
    GrammarAccepted(["foo"], Some("quux"));
  }

  lemma ValidSample4()
    ensures Construct("/foo/bar/@quux") == Success("/foo/bar/@quux")
  {
    assert PathText(["foo", "bar"], Some("quux")) == "/foo/bar/@quux";
    GrammarAccepted(["foo", "bar"], Some("quux"));
  }

  lemma ValidSample5()
    ensures Construct("/foo/b123") == Success("/foo/b123")
  {
    assert PathText(["foo", "b123"], None) == "/foo/b123";
    GrammarAccepted(["foo", "b123"], None);
  }

  lemma ValidSample6()
    ensures Construct("/foo/b123/@a123") == Success("/foo/b123/@a123")
  {
    assert PathText(["foo", "b123"], Some("a123")) == "/foo/b123/@a123";
    GrammarAccepted(["foo", "b123"], Some("a123"));
  }

  lemma ValidSample7()
    ensures Construct("/foo/b123/@abc") == Success("/foo/b123/@abc")
  {
    assert PathText(["foo", "b123"], Some("abc")) == "/foo/b123/@abc";
    GrammarAccepted(["foo", "b123"], Some("abc"));
  }

  lemma ValidSample8()
    ensures Construct("/f-o-o/b-123/@a-3") == Success("/f-o-o/b-123/@a-3")
  {
    assert PathText(["f-o-o", "b-123"], Some("a-3")) == "/f-o-o/b-123/@a-3";
    GrammarAccepted(["f-o-o", "b-123"], Some("a-3"));
  }

  lemma ValidSample9()
    ensures Construct("/a_b_c/@a_b-c") == Success("/a_b_c/@a_b-c")
  {
    assert PathText(["a_b_c"], Some("a_b-c")) == "/a_b_c/@a_b-c";
    GrammarAccepted(["a_b_c"], Some("a_b-c"));
  }

  /** The valid paths of the test suite construct and keep their text. */
  lemma TestSuiteValidPaths()
    ensures Construct("/foo") == Success("/foo")
    ensures Construct("/foo/bar") == Success("/foo/bar")
    ensures Construct("/foo/bar/baz") == Success("/foo/bar/baz")
    ensures Construct("/foo/@quux") == Success("/foo/@quux")
    ensures Construct("/foo/bar/@quux") == Success("/foo/bar/@quux")
    ensures Construct("/foo/b123") == Success("/foo/b123")
    ensures Construct("/foo/b123/@a123") == Success("/foo/b123/@a123")
    ensures Construct("/foo/b123/@abc") == Success("/foo/b123/@abc")
    ensures Construct("/f-o-o/b-123/@a-3") == Success("/f-o-o/b-123/@a-3")
    ensures Construct("/a_b_c/@a_b-c") == Success("/a_b_c/@a_b-c")
  {
    ValidSample0();
    ValidSample1();
    ValidSample2();
    ValidSample3();
    ValidSample4();
    ValidSample5();
    ValidSample6();
    ValidSample7();
    ValidSample8();
    ValidSample9();
  }

  lemma InvalidSample0()
    ensures Construct("/foo::siblings/bar") == Failure(DoesNotMatchExpression("/foo::siblings/bar"))
  {
    assert "/foo::siblings/bar" == "/foo:" + ":siblings/bar";
    RejectedAfter("/foo:", ":siblings/bar");
  }

  lemma InvalidSample1()
    ensures Construct("/foo[/bar]") == Failure(DoesNotMatchExpression("/foo[/bar]"))
  {
    assert "/foo[/bar]" == "/foo[" + "/bar]";
    RejectedAfter("/foo[", "/bar]");
  }

  lemma InvalidSample2()
    ensures Construct("/foo/@bar/baz") == Failure(DoesNotMatchExpression("/foo/@bar/baz"))
  {
    assert "/foo/@bar/baz" == "/foo/@bar/" + "baz";
    assert '\n' !in "/foo/@bar/baz";
    AttributeThenSlash();
    RejectedAfter("/foo/@bar/", "baz");
  }

  /** Nothing may follow the attribute segment. */
  lemma AttributeThenSlash()
    ensures RunFrom(Begin, "/foo/@bar/") == Reject
  {
    assert RunFrom(Begin, "/foo/@") == At;
    assert RunFrom(At, "bar/") == Reject;
    RunAppend(Begin, "/foo/@", "bar/");
    assert "/foo/@" + "bar/" == "/foo/@bar/";
  }

  lemma InvalidSampleEmpty()
    ensures Construct("") == Failure(DoesNotMatchExpression(""))
  {
    SingleLine("");
  }

  /** The invalid paths of the test suite, and the empty string, fail with
      the assertion error. */
  lemma TestSuiteInvalidPaths()
    ensures Construct("/foo::siblings/bar") == Failure(DoesNotMatchExpression("/foo::siblings/bar"))
    ensures Construct("/foo[/bar]") == Failure(DoesNotMatchExpression("/foo[/bar]"))
    ensures Construct("/foo/@bar/baz") == Failure(DoesNotMatchExpression("/foo/@bar/baz"))
    ensures Construct("") == Failure(DoesNotMatchExpression(""))
  {
    InvalidSample0();
    InvalidSample1();
    InvalidSample2();
    InvalidSampleEmpty();
  }

  lemma JunkLineRejected()
    ensures !LineMatches("junk\n/foo")
  {
    assert "junk\n/foo" == "j" + "unk\n/foo";
    assert RunFrom(Begin, "j") == Reject;
    RunAppend(Begin, "j", "unk\n/foo");
    RunRejectStays("unk\n/foo");
  }

  lemma LaterLineAccepted()
    ensures Construct("junk\n/foo").Success?
  {
    ValidSample0();
    SingleLine("/foo");
    assert "junk\n/foo" == "junk" + "\n" + "/foo";
    AcceptsAcrossLineBreak("junk", "/foo");
  }

  lemma TrailingLineBreakAccepted()
    ensures Construct("/foo\n").Success?
  {
    ValidSample0();
    SingleLine("/foo");
    assert "/foo\n" == "/foo" + "\n" + "";
    AcceptsAcrossLineBreak("/foo", "");
  }

  /** With the `m` flag one matching line is enough: text before or after a
      line break does not make the path invalid, although the whole string
      does not match the grammar. */
  lemma LineBreakAccepted()
    ensures Construct("junk\n/foo").Success?
    ensures Construct("/foo\n").Success?
    ensures !LineMatches("junk\n/foo")
  {
    LaterLineAccepted();
    TrailingLineBreakAccepted();
    JunkLineRejected();
  }
}
