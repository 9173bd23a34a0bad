/**
 * What the expat tokenizer hands to the reader's handlers, and how the
 * reader writes it back as text (src/Reader/XmlStreamReader.php:296-309,
 * 318).
 *
 * The tokenizer itself is not modelled: a document is given as the sequence
 * of handler calls it produces.  A well-formed document is also given as a
 * tree of nodes, whose events and whose markup are defined here.
 */
module Events {

  import opened XmlPaths
  import opened Text

  /** One attribute of a start tag, value as the tokenizer decoded it. */
  datatype Attribute = Attribute(name: string, value: string)

  /** One handler call: element start and end (parseNodeStart/parseNodeEnd),
      default-handler text such as comments and processing instructions
      (addData), character data (addCData), or a tokenizer error, which makes
      `xml_parse` fail. */
  datatype Event =
    | Start(tag: string, attributes: seq<Attribute>)
    | End(tag: string)
    | Default(text: string)
    | CData(text: string)
    | Malformed

  predicate IsSpace(c: char) {
    c == ' ' || c == '\t' || c == '\n' || c == '\U{B}' || c == '\U{C}' || c == '\r'
  }

  /** What the tokenizer can report as an element or attribute name: not
      empty, and without '/', '@', whitespace, '=', quotes or '>'. */
  predicate IsTokenName(s: string) {
    |s| >= 1 && forall i :: 0 <= i < |s| ==>
      s[i] != '/' && s[i] != '@' && !IsSpace(s[i]) && s[i] != '=' && s[i] != '"'
      && s[i] != '>' && s[i] != '<'
  }

  /** ` name="escaped value"` */
  function OneAttributeText(a: Attribute): string {
    " " + a.name + "=\"" + EscapeEntities(a.value) + "\""
  }

  /** The text of each attribute, in order. */
  function AttributeText(attributes: seq<Attribute>): string {
    if attributes == [] then "" else OneAttributeText(attributes[0]) + AttributeText(attributes[1..])
  }

  /** Attribute text grows one attribute at a time. */
  lemma {:induction false} AttributeTextSnoc(attributes: seq<Attribute>, a: Attribute)
    ensures AttributeText(attributes + [a]) == AttributeText(attributes) + OneAttributeText(a)
    decreases |attributes|
  {
    if attributes == [] {
      assert [a][1..] == [];
    } else {
      assert (attributes + [a])[1..] == attributes[1..] + [a];
      AttributeTextSnoc(attributes[1..], a);
    }
  }

  /** The start tag text up to the attribute at `k`, one attribute further,
      written piece by piece as parseNodeStart appends it. */
  lemma OpenTagStep(tag: string, attributes: seq<Attribute>, k: nat)
    requires k < |attributes|
    ensures var a := attributes[k];
      "<" + tag + AttributeText(attributes[..k + 1])
      == "<" + tag + AttributeText(attributes[..k]) + " " + a.name + "=\"" + EscapeEntities(a.value) + "\""
  {
    var a := attributes[k];
    assert attributes[..k + 1] == attributes[..k] + [a];
    AttributeTextSnoc(attributes[..k], a);
    AppendPieces("<" + tag + AttributeText(attributes[..k]), a.name, EscapeEntities(a.value));
  }

  /** Appending an attribute's text piece by piece appends it whole. */
  lemma AppendPieces(x: string, name: string, value: string)
    ensures x + (" " + name + "=\"" + value + "\"") == x + " " + name + "=\"" + value + "\""
  {
  }

  /** The start tag as parseNodeStart rebuilds it (296-308). */
  function StartTagText(tag: string, attributes: seq<Attribute>): string {
    "<" + tag + AttributeText(attributes) + ">"
  }

  /** The end tag as parseNodeEnd rebuilds it (318). */
  function EndTagText(tag: string): string {
    "</" + tag + ">"
  }

  // ---------------------------------------------------------------------
  //  Documents as trees

  /** An element, or a piece of default-handler text. */
  datatype Node =
    | Element(tag: string, attributes: seq<Attribute>, children: seq<Node>)
    | Other(text: string)

  function NodeEvents(n: Node): seq<Event>
    decreases n, 1
  {
    match n
    case Element(tag, attributes, children) =>
      [Start(tag, attributes)] + ChildrenEvents(children) + [End(tag)]
    case Other(text) => [Default(text)]
  }

  function ChildrenEvents(cs: seq<Node>): seq<Event>
    decreases cs, 0
  {
    if cs == [] then [] else NodeEvents(cs[0]) + ChildrenEvents(cs[1..])
  }

  /** The text the reader writes for a node. */
  function Markup(n: Node): string
    decreases n, 1
  {
    match n
    case Element(tag, attributes, children) =>
      StartTagText(tag, attributes) + ChildrenMarkup(children) + EndTagText(tag)
    case Other(text) => text
  }

  function ChildrenMarkup(cs: seq<Node>): string
    decreases cs, 0
  {
    if cs == [] then "" else Markup(cs[0]) + ChildrenMarkup(cs[1..])
  }

  /** All element and attribute names of the tree are tokenizer names. */
  predicate WellNamed(n: Node)
    decreases n, 1
  {
    match n
    case Element(tag, attributes, children) =>
      IsTokenName(tag)
      && (forall k :: 0 <= k < |attributes| ==> IsTokenName(attributes[k].name))
      && AllWellNamed(children)
    case Other(_) => true
  }

  predicate AllWellNamed(cs: seq<Node>)
    decreases cs, 0
  {
    cs == [] || (WellNamed(cs[0]) && AllWellNamed(cs[1..]))
  }

  // ---------------------------------------------------------------------
  //  Reading a start tag back

  /** The length of the longest prefix of `s` without `stop`. */
  function RunLength(s: string, stop: char): (n: nat)
    ensures n <= |s|
    ensures forall i :: 0 <= i < n ==> s[i] != stop
    ensures n < |s| ==> s[n] == stop
  {
    if s == [] || s[0] == stop then 0 else 1 + RunLength(s[1..], stop)
  }

  /** Reads a quoted value's text up to the next '"' and unescapes it;
      returns what follows the quote. */
  function ReadValue(w: string): (r: Option<(string, string)>)
    ensures r.Some? ==> |r.value.1| < |w|
  {
    var v := RunLength(w, '"');
    if v < |w| then
      match UnescapeEntities(w[..v])
      case None => None
      case Some(value) => Some((value, w[v + 1..]))
    else None
  }

  /** Reads `name="value"`: the name runs to '=', then comes the quoted
      value; returns what follows. */
  function ReadPair(u: string): (r: Option<(Attribute, string)>)
    ensures r.Some? ==> |r.value.1| < |u|
  {
    var n := RunLength(u, '=');
    if n >= 1 && n + 1 < |u| && u[n + 1] == '"' then
      match ReadValue(u[n + 2..])
      case None => None
      case Some(r) => Some((Attribute(u[..n], r.0), r.1))
    else None
  }

  /** Reads the attribute pairs of a start tag up to its closing '>';
      returns what follows the tag. */
  function ReadAttributes(t: string): Option<(seq<Attribute>, string)>
    decreases |t|
  {
    if |t| >= 1 && t[0] == '>' then Some(([], t[1..]))
    else if |t| >= 1 && t[0] == ' ' then
      match ReadPair(t[1..])
      case None => None
      case Some(p) =>
        match ReadAttributes(p.1)
        case None => None
        case Some(r) => Some(([p.0] + r.0, r.1))
    else None
  }

  /** Reads a start tag: '<', the name up to the first space or '>', then the
      attributes. */
  function ReadStartTag(t: string): Option<(string, seq<Attribute>, string)> {
    if |t| >= 1 && t[0] == '<' then
      var n := NameLength(t[1..]);
      match ReadAttributes(t[1 + n..])
      case None => None
      case Some(r) => Some((t[1..1 + n], r.0, r.1))
    else None
  }

  function NameLength(s: string): (n: nat)
    ensures n <= |s|
    ensures forall i :: 0 <= i < n ==> s[i] != ' ' && s[i] != '>'
    ensures n < |s| ==> s[n] == ' ' || s[n] == '>'
  {
    if s == [] || s[0] == ' ' || s[0] == '>' then 0 else 1 + NameLength(s[1..])
  }

  lemma RunLengthOf(a: string, stop: char, b: string)
    requires forall i :: 0 <= i < |a| ==> a[i] != stop
    ensures RunLength(a + [stop] + b, stop) == |a|
  {
    var s := a + [stop] + b;
    assert s[|a|] == stop;
    assert forall i :: 0 <= i < |a| ==> s[i] == a[i];
  }

  lemma NameLengthOf(a: string, b: string)
    requires forall i :: 0 <= i < |a| ==> a[i] != ' ' && a[i] != '>'
    requires |b| >= 1 && (b[0] == ' ' || b[0] == '>')
    ensures NameLength(a + b) == |a|
  {
    var s := a + b;
    assert s[|a|] == b[0];
    assert forall i :: 0 <= i < |a| ==> s[i] == a[i];
  }

  /** An escaped value is read back up to its closing quote. */
  lemma ReadValueOf(value: string, rest: string)
    ensures ReadValue(EscapeEntities(value) + "\"" + rest) == Some((value, rest))
  {
    var e := EscapeEntities(value);
    var w := e + "\"" + rest;
    EscapedHasNoMarkup(value);
    assert forall i :: 0 <= i < |e| ==> e[i] != '"';
    RunLengthOf(e, '"', rest);
    assert w[..|e|] == e && w[|e| + 1..] == rest;
    EscapeRoundTrip(value);
  }

  /** One pair is read back from its text. */
  lemma ReadPairOf(a: Attribute, rest: string)
    requires IsTokenName(a.name)
    ensures ReadPair(a.name + ("=\"" + (EscapeEntities(a.value) + "\"" + rest))) == Some((a, rest))
  {
    PairShape(a.name, EscapeEntities(a.value) + "\"" + rest);
    ReadValueOf(a.value, rest);
  }

  lemma PairShape(name: string, w: string)
    requires forall i :: 0 <= i < |name| ==> name[i] != '='
    ensures var u := name + ("=\"" + w);
      && RunLength(u, '=') == |name| && |name| + 1 < |u| && u[|name| + 1] == '"'
      && u[..|name|] == name && u[|name| + 2..] == w
  {
    var u := name + ("=\"" + w);
    assert u == name + ['='] + ("\"" + w);
    RunLengthOf(name, '=', "\"" + w);
    assert u[|name| + 2..] == w;
  }

  /** One attribute's text is read back, then reading goes on after it. */
  lemma ReadOneAttribute(a: Attribute, rest: string)
    requires IsTokenName(a.name)
    ensures ReadAttributes(OneAttributeText(a) + rest)
         == match ReadAttributes(rest)
            case None => None
            case Some(r) => Some(([a] + r.0, r.1))
  {
    var t := OneAttributeText(a) + rest;
    assert t[1..] == a.name + ("=\"" + (EscapeEntities(a.value) + "\"" + rest));
    ReadPairOf(a, rest);
  }

  /** The attribute text is read back as the attributes. */
  lemma {:induction false} ReadAttributesRoundTrip(attributes: seq<Attribute>, rest: string)
    requires forall k :: 0 <= k < |attributes| ==> IsTokenName(attributes[k].name)
    ensures ReadAttributes(AttributeText(attributes) + ">" + rest) == Some((attributes, rest))
  {
    if attributes == [] {
      assert AttributeText(attributes) + ">" + rest == ">" + rest;
    } else {
      var a := attributes[0];
      var after := AttributeText(attributes[1..]) + ">" + rest;
      ReadAttributesRoundTrip(attributes[1..], rest);
      assert AttributeText(attributes) + ">" + rest == OneAttributeText(a) + after;
      ReadOneAttribute(a, after);
      assert [a] + attributes[1..] == attributes;
    }
  }

  /** A start tag whose name runs up to a space or '>' is read as that name
      and the attributes read from what follows. */
  lemma ReadStartTagOf(tag: string, tail: string)
    requires forall i :: 0 <= i < |tag| ==> tag[i] != ' ' && tag[i] != '>'
    requires |tail| >= 1 && (tail[0] == ' ' || tail[0] == '>')
    requires ReadAttributes(tail).Some?
    ensures ReadStartTag("<" + (tag + tail))
         == Some((tag, ReadAttributes(tail).value.0, ReadAttributes(tail).value.1))
  {
    SplitAfterFirst('<', tag, tail);
    NameLengthOf(tag, tail);
  }

  lemma SplitAfterFirst(c: char, a: string, b: string)
    ensures var t := [c] + (a + b);
      t[0] == c && t[1..] == a + b && t[1 + |a|..] == b && t[1..1 + |a|] == a && t[..1 + |a|] == [c] + a
  {
  }

  /** A start tag followed by more text: '<', the name, then the rest. */
  lemma StartTagShape(tag: string, attributes: seq<Attribute>, rest: string)
    ensures StartTagText(tag, attributes) + rest == "<" + (tag + (AttributeText(attributes) + ">" + rest))
  {
  }

  /** What follows the tag name starts with a space or with '>'. */
  lemma AttributeTextStart(attributes: seq<Attribute>, rest: string)
    ensures var tail := AttributeText(attributes) + ">" + rest;
      |tail| >= 1 && (tail[0] == ' ' || tail[0] == '>')
  {
    if attributes != [] {
      assert AttributeText(attributes) == OneAttributeText(attributes[0]) + AttributeText(attributes[1..]);
      assert OneAttributeText(attributes[0])[0] == ' ';
    }
  }

  /** A rebuilt start tag reads back as the tag name and the attributes with
      their original values (the partner of StartTagText). */
  lemma StartTagRoundTrip(tag: string, attributes: seq<Attribute>, rest: string)
    requires IsTokenName(tag)
    requires forall k :: 0 <= k < |attributes| ==> IsTokenName(attributes[k].name)
    ensures ReadStartTag(StartTagText(tag, attributes) + rest) == Some((tag, attributes, rest))
  {
    var tail := AttributeText(attributes) + ">" + rest;
    StartTagShape(tag, attributes, rest);
    assert IsSpace(' ');
    ReadAttributesRoundTrip(attributes, rest);
    AttributeTextStart(attributes, rest);
    ReadStartTagOf(tag, tail);
  }
}
