/**
 * The namespace table of the reader and the element fragment built from a
 * buffer (src/Reader/XmlStreamReader.php:303-306, 413-435).
 *
 * `$parsedNamespaces` is a PHP array: ordered, one value per key, and an
 * assignment to an existing key keeps that key's position.  The fragment
 * handed to `SimpleXMLElement` is the buffer with declarations
 * ` xmlns:KEY="URI"` inserted right after its leading `<tagname`, one for
 * each table entry whose key was not captured by the scan for
 * `xmlns:NAME="..."` in the buffer.
 */
module Namespaces {

  import opened XmlPaths
  import opened Text
  import opened Events

  datatype Binding = Binding(key: string, uri: string)

  type NsTable = seq<Binding>

  function KeysOf(t: NsTable): (ks: seq<string>)
    ensures |ks| == |t|
    ensures forall k :: 0 <= k < |t| ==> ks[k] == t[k].key
  {
    if t == [] then [] else [t[0].key] + KeysOf(t[1..])
  }

  predicate UniqueKeys(t: NsTable) {
    forall i, j :: 0 <= i < j < |t| ==> t[i].key != t[j].key
  }

  /** `$table[$key]`, None when the key is not set. */
  function Lookup(t: NsTable, key: string): Option<string> {
    if t == [] then None
    else if t[0].key == key then Some(t[0].uri)
    else Lookup(t[1..], key)
  }

  /** `$table[$key] = $uri`: overwrite in place, or append. */
  function Upsert(t: NsTable, key: string, uri: string): NsTable {
    if t == [] then [Binding(key, uri)]
    else if t[0].key == key then [Binding(key, uri)] + t[1..]
    else [t[0]] + Upsert(t[1..], key, uri)
  }

  /** `stripos($name, "xmlns:") !== false` (case-insensitive). */
  predicate DeclaresNamespace(name: string) {
    ContainsIgnoringCase("xmlns:", name)
  }

  /** `str_replace("xmlns", "", $name)` (case-sensitive). */
  function NamespaceKey(name: string): string {
    ReplaceAll(name, "xmlns", "")
  }

  /** The table after one attribute (303-306): the stored value is the
      entity-escaped one. */
  function RecordOne(t: NsTable, a: Attribute): NsTable {
    if DeclaresNamespace(a.name) then Upsert(t, NamespaceKey(a.name), EscapeEntities(a.value))
    else t
  }

  /** The table after the attributes of one start tag, in order. */
  function RecordNamespaces(t: NsTable, attributes: seq<Attribute>): NsTable {
    if attributes == [] then t
    else RecordOne(RecordNamespaces(t, attributes[..|attributes| - 1]), attributes[|attributes| - 1])
  }

  // ---------------------------------------------------------------------
  //  The table

  /** Upsert either keeps the key order or appends the new key. */
  lemma {:induction false} UpsertKeyOrder(t: NsTable, key: string, uri: string)
    ensures KeysOf(Upsert(t, key, uri))
         == if key in KeysOf(t) then KeysOf(t) else KeysOf(t) + [key]
  {
    if t != [] && t[0].key != key {
      UpsertKeyOrder(t[1..], key, uri);
      var tail := Upsert(t[1..], key, uri);
      assert Upsert(t, key, uri) == [t[0]] + tail;
      assert KeysOf(t) == [t[0].key] + KeysOf(t[1..]);
    } else if t != [] {
      assert KeysOf(t)[0] == key;
    }
  }

  /** Upsert keeps the keys unique, and the key order as above. */
  lemma UpsertKeys(t: NsTable, key: string, uri: string)
    requires UniqueKeys(t)
    ensures UniqueKeys(Upsert(t, key, uri))
    ensures KeysOf(Upsert(t, key, uri))
         == if key in KeysOf(t) then KeysOf(t) else KeysOf(t) + [key]
  {
    UpsertKeyOrder(t, key, uri);
    var r := Upsert(t, key, uri);
    forall i, j | 0 <= i < j < |r|
      ensures r[i].key != r[j].key
    {
      assert r[i].key == KeysOf(r)[i] && r[j].key == KeysOf(r)[j];
    }
  }

  /** After an upsert the key has the new value and every other key its old
      one. */
  lemma {:induction false} UpsertLookup(t: NsTable, key: string, uri: string, other: string)
    ensures Lookup(Upsert(t, key, uri), key) == Some(uri)
    ensures other != key ==> Lookup(Upsert(t, key, uri), other) == Lookup(t, other)
  {
    if t != [] && t[0].key != key {
      UpsertLookup(t[1..], key, uri, other);
    }
  }

  /** The attribute at position `j` declares `key`. */
  predicate DeclaresKey(attributes: seq<Attribute>, j: int, key: string) {
    0 <= j < |attributes| && DeclaresNamespace(attributes[j].name)
    && NamespaceKey(attributes[j].name) == key
  }

  /** Recording keeps the keys unique, removes none, and keeps the
      existing keys in front in their order. */
  lemma {:induction false} RecordKeys(t: NsTable, attributes: seq<Attribute>)
    requires UniqueKeys(t)
    ensures UniqueKeys(RecordNamespaces(t, attributes))
    ensures |t| <= |RecordNamespaces(t, attributes)|
    ensures KeysOf(RecordNamespaces(t, attributes))[..|t|] == KeysOf(t)
    decreases |attributes|
  {
    if attributes != [] {
      var init := attributes[..|attributes| - 1];
      var a := attributes[|attributes| - 1];
      var before := RecordNamespaces(t, init);
      RecordKeys(t, init);
      if DeclaresNamespace(a.name) {
        UpsertKeys(before, NamespaceKey(a.name), EscapeEntities(a.value));
        var after := RecordNamespaces(t, attributes);
        assert KeysOf(after)[..|before|] == KeysOf(before);
        assert KeysOf(after)[..|t|] == KeysOf(before)[..|t|];
      }
    }
  }

  /** A key that no attribute declares keeps its value. */
  lemma {:induction false} RecordUndeclared(t: NsTable, attributes: seq<Attribute>, key: string)
    requires forall j :: !DeclaresKey(attributes, j, key)
    ensures Lookup(RecordNamespaces(t, attributes), key) == Lookup(t, key)
    decreases |attributes|
  {
    if attributes != [] {
      var init := attributes[..|attributes| - 1];
      var a := attributes[|attributes| - 1];
      assert !DeclaresKey(attributes, |attributes| - 1, key);
      forall j | 0 <= j < |init|
        ensures !DeclaresKey(init, j, key)
      {
        assert init[j] == attributes[j];
        assert !DeclaresKey(attributes, j, key);
      }
      RecordUndeclared(t, init, key);
      if DeclaresNamespace(a.name) {
        UpsertLookup(RecordNamespaces(t, init), NamespaceKey(a.name), EscapeEntities(a.value), key);
      }
    }
  }

  /** The last declaration of a key wins. */
  lemma {:induction false} RecordLastWins(t: NsTable, attributes: seq<Attribute>, key: string, j: nat)
    requires DeclaresKey(attributes, j, key)
    requires forall j' :: j < j' < |attributes| ==> !DeclaresKey(attributes, j', key)
    ensures Lookup(RecordNamespaces(t, attributes), key) == Some(EscapeEntities(attributes[j].value))
    decreases |attributes|
  {
    var init := attributes[..|attributes| - 1];
    var a := attributes[|attributes| - 1];
    if j < |init| {
      assert !DeclaresKey(attributes, |attributes| - 1, key);
      assert init[j] == attributes[j];
      assert DeclaresKey(init, j, key);
      forall j' | j < j' < |init|
        ensures !DeclaresKey(init, j', key)
      {
        assert init[j'] == attributes[j'];
        assert !DeclaresKey(attributes, j', key);
      }
      RecordLastWins(t, init, key, j);
      if DeclaresNamespace(a.name) {
        UpsertLookup(RecordNamespaces(t, init), NamespaceKey(a.name), EscapeEntities(a.value), key);
      }
    } else {
      UpsertLookup(RecordNamespaces(t, init), key, EscapeEntities(a.value), key);
    }
  }

  /** A declaration `xmlns:p` is stored under ":p": the prefix keeps the
      colon. */
  lemma KeyKeepsColon(p: string)
    requires !IsSubstring("xmlns", p)
    ensures DeclaresNamespace("xmlns:" + p)
    ensures NamespaceKey("xmlns:" + p) == ":" + p
  {
    var name := "xmlns:" + p;
    assert Lower(name)[..6] == "xmlns:";
    assert OccursAt("xmlns:", Lower(name), 0);
    assert name[..5] == "xmlns" && name[5..] == ":" + p;
    ReplaceAllAbsent(p, "xmlns", "");
    ReplaceAllHead(":" + p, "xmlns", "");
    assert (":" + p)[1..] == p;
  }

  /** The check is case-insensitive but the replacement is not: an
      upper-case declaration is stored under its whole name. */
  lemma UpperCaseDeclaration()
    ensures DeclaresNamespace("XMLNS:a")
    ensures NamespaceKey("XMLNS:a") == "XMLNS:a"
  {
    UpperCaseDetected();
    UpperCaseKeptWhole();
  }

  lemma UpperCaseDetected()
    ensures DeclaresNamespace("XMLNS:a")
  {
    assert Lower("XMLNS:a")[..6] == "xmlns:";
    assert OccursAt("xmlns:", Lower("XMLNS:a"), 0);
  }

  lemma UpperCaseKeptWhole()
    ensures NamespaceKey("XMLNS:a") == "XMLNS:a"
  {
    assert "XMLNS:a"[..5][0] != "xmlns"[0];
    ReplaceAllHead("XMLNS:a", "xmlns", "");
    assert "MLNS:a"[..5][0] != "xmlns"[0];
    ReplaceAllHead("MLNS:a", "xmlns", "");
    assert "LNS:a"[..5][0] != "xmlns"[0];
    ReplaceAllHead("LNS:a", "xmlns", "");
  }

  // ---------------------------------------------------------------------
  //  The scan for xmlns:NAME="..." (preg_match_all at 419-421)

  /** A match of `xmlns:([^=]+)="[^"]+"` starting at `i`: the captured
      name and the position after the match.  Both runs are greedy and
      their stop character must follow, so a match at `i` is unique. */
  function MatchAt(s: string, i: nat): (r: Option<(string, nat)>)
    requires i <= |s|
    ensures r.Some? ==> i < r.value.1 <= |s|
  {
    if OccursAt("xmlns:", s, i) then
      var a := i + 6;
      var n := RunLength(s[a..], '=');
      if n >= 1 && a + n + 1 < |s| && s[a + n + 1] == '"' then
        var v := RunLength(s[a + n + 2..], '"');
        if v >= 1 && a + n + 2 + v < |s| then Some((s[a..a + n], a + n + 2 + v + 1))
        else None
      else None
    else None
  }

  /** All matches from `i` on, left to right and without overlap: after a
      match the scan resumes at its end, otherwise one character later. */
  function ScanFrom(s: string, i: nat): seq<string>
    requires i <= |s|
    decreases |s| - i
  {
    if i == |s| then []
    else
      match MatchAt(s, i)
      case Some(m) => [m.0] + ScanFrom(s, m.1)
      case None => ScanFrom(s, i + 1)
  }

  /** `$matches["namespace"]` */
  function DeclaredPrefixes(s: string): seq<string> {
    ScanFrom(s, 0)
  }

  /** What one match captures: a nonempty run without '=' standing between
      "xmlns:" and `="`. */
  lemma MatchSound(s: string, i: nat)
    requires i <= |s| && MatchAt(s, i).Some?
    ensures var name := MatchAt(s, i).value.0;
      |name| >= 1 && '=' !in name && IsSubstring("xmlns:" + name + "=\"", s)
  {
    var m := MatchAt(s, i).value;
    var a := i + 6;
    var n := RunLength(s[a..], '=');
    assert m.0 == s[a..a + n];
    assert s[i..a + n + 2] == "xmlns:" + m.0 + "=\"";
    assert OccursAt("xmlns:" + m.0 + "=\"", s, i);
    assert forall c :: 0 <= c < n ==> s[a..][c] != '=';
    assert forall c :: 0 <= c < |m.0| ==> m.0[c] != '=';
  }

  /** Every captured name is a nonempty run without '=' that stands between
      "xmlns:" and `="` in the scanned text. */
  lemma {:induction false} ScanSound(s: string, i: nat)
    requires i <= |s|
    ensures forall k :: 0 <= k < |ScanFrom(s, i)| ==>
      |ScanFrom(s, i)[k]| >= 1 && '=' !in ScanFrom(s, i)[k]
      && IsSubstring("xmlns:" + ScanFrom(s, i)[k] + "=\"", s)
    decreases |s| - i
  {
    if i < |s| {
      match MatchAt(s, i)
      case Some(m) =>
        ScanSound(s, m.1);
        MatchSound(s, i);
      case None =>
        ScanSound(s, i + 1);
    }
  }

  // ---------------------------------------------------------------------
  //  Declarations and their injection (422-435)

  /** The table without the bindings whose key was captured (the unset loop
      at 422-427). */
  function Undeclared(t: NsTable, names: seq<string>): NsTable {
    if t == [] then []
    else if t[0].key in names then Undeclared(t[1..], names)
    else [t[0]] + Undeclared(t[1..], names)
  }

  /** Exactly the bindings whose key was not captured remain. */
  lemma {:induction false} UndeclaredMembers(t: NsTable, names: seq<string>)
    ensures forall b :: b in Undeclared(t, names) <==> b in t && b.key !in names
  {
    if t != [] {
      UndeclaredMembers(t[1..], names);
      assert t == [t[0]] + t[1..];
    }
  }

  /** `unset($table[$name])` */
  function RemoveKey(t: NsTable, name: string): NsTable {
    if t == [] then []
    else if t[0].key == name then RemoveKey(t[1..], name)
    else [t[0]] + RemoveKey(t[1..], name)
  }

  /** Unsetting a key that is not set changes nothing. */
  lemma {:induction false} RemoveMissingKey(t: NsTable, name: string)
    requires Lookup(t, name).None?
    ensures RemoveKey(t, name) == t
  {
    if t != [] {
      RemoveMissingKey(t[1..], name);
      assert [t[0]] + t[1..] == t;
    }
  }

  /** Unsetting the names one after the other leaves the undeclared
      bindings, in table order. */
  lemma {:induction false} UndeclaredStep(t: NsTable, names: seq<string>, name: string)
    ensures Undeclared(t, names + [name]) == RemoveKey(Undeclared(t, names), name)
  {
    if t != [] {
      UndeclaredStep(t[1..], names, name);
    }
  }

  /** One round of the unset loop of createElementPayload (423-427): a key
      that is set is removed, a missing one is skipped. */
  lemma UnsetStep(t: NsTable, names: seq<string>, j: nat)
    requires j < |names|
    ensures var before := Undeclared(t, names[..j]);
      Undeclared(t, names[..j + 1])
      == if Lookup(before, names[j]).Some? then RemoveKey(before, names[j]) else before
  {
    UndeclaredStep(t, names[..j], names[j]);
    assert names[..j + 1] == names[..j] + [names[j]];
    if Lookup(Undeclared(t, names[..j]), names[j]).None? {
      RemoveMissingKey(Undeclared(t, names[..j]), names[j]);
    }
  }

  /** ` xmlns:KEY="URI"` (431) */
  function DeclarationText(b: Binding): string {
    " xmlns:" + b.key + "=\"" + b.uri + "\""
  }

  /** The declarations of all bindings, in table order. */
  function Declarations(t: NsTable): string {
    if t == [] then "" else Declarations(t[..|t| - 1]) + DeclarationText(t[|t| - 1])
  }

  /** The length of `^(<[^\s>]+)` at the start of `s`, 0 when it does not
      match. */
  function LeadingTagLength(s: string): (n: nat)
    ensures n == 0 || (2 <= n <= |s| && s[0] == '<')
  {
    if |s| >= 2 && s[0] == '<' then
      var m := TagNameRun(s[1..]);
      if m >= 1 then 1 + m else 0
    else 0
  }

  /** The length of the longest prefix without whitespace or '>'. */
  function TagNameRun(s: string): (n: nat)
    ensures n <= |s|
    ensures forall i :: 0 <= i < n ==> !IsSpace(s[i]) && s[i] != '>'
    ensures n < |s| ==> IsSpace(s[n]) || s[n] == '>'
  {
    if s == [] || IsSpace(s[0]) || s[0] == '>' then 0 else 1 + TagNameRun(s[1..])
  }

  /** `preg_replace("(^(<[^\s>]+))", '$1' . $declarations, $s)` */
  function Inject(s: string, declarations: string): string {
    var n := LeadingTagLength(s);
    if n == 0 then s else s[..n] + declarations + s[n..]
  }

  /** The string handed to `SimpleXMLElement` for a buffer. */
  function ElementFragment(t: NsTable, buffer: string): string {
    Inject(buffer, Declarations(Undeclared(t, DeclaredPrefixes(buffer))))
  }

  lemma TagNameRunOf(a: string, b: string)
    requires forall i :: 0 <= i < |a| ==> !IsSpace(a[i]) && a[i] != '>'
    requires |b| >= 1 && (IsSpace(b[0]) || b[0] == '>')
    ensures TagNameRun(a + b) == |a|
  {
    var s := a + b;
    assert s[|a|] == b[0];
    assert forall i :: 0 <= i < |a| ==> s[i] == a[i];
  }

  /** The declarations go right after the tag name of a rebuilt start tag
      and the rest of the buffer is kept byte for byte. */
  lemma InjectAfterTagName(tag: string, attributes: seq<Attribute>, rest: string, d: string)
    requires IsTokenName(tag)
    ensures Inject(StartTagText(tag, attributes) + rest, d)
         == "<" + tag + d + AttributeText(attributes) + ">" + rest
  {
    var tail := AttributeText(attributes) + ">" + rest;
    AttributeTextStart(attributes, rest);
    TagNameRunOf(tag, tail);
    var s := "<" + (tag + tail);
    StartTagShape(tag, attributes, rest);
    SplitAfterFirst('<', tag, tail);
    assert LeadingTagLength(s) == 1 + |tag|;
    assert Inject(s, d) == "<" + tag + d + tail;
    AppendTail("<" + tag + d, AttributeText(attributes), rest);
  }

  lemma AppendTail(x: string, a: string, rest: string)
    ensures x + (a + ">" + rest) == x + a + ">" + rest
  {
  }

  /** A colon-prefixed key is never captured unless the buffer contains
      "xmlns::", so with keys stored as ":p" nothing is taken out of the
      table. */
  lemma NothingRemoved(t: NsTable, buffer: string)
    requires forall k :: 0 <= k < |t| ==> |t[k].key| >= 1 && t[k].key[0] == ':'
    requires !IsSubstring("xmlns::", buffer)
    ensures Undeclared(t, DeclaredPrefixes(buffer)) == t
  {
    var names := DeclaredPrefixes(buffer);
    ScanSound(buffer, 0);
    forall k | 0 <= k < |t|
      ensures t[k].key !in names
    {
      forall j | 0 <= j < |names|
        ensures names[j] != t[k].key
      {
        DeclaredNameNoColon(names[j], buffer);
      }
    }
    UndeclaredKeepsAll(t, names);
  }

  /** A name captured from a buffer without "xmlns::" does not start with
      a colon. */
  lemma DeclaredNameNoColon(p: string, buffer: string)
    requires |p| >= 1 && IsSubstring("xmlns:" + p + "=\"", buffer)
    requires !IsSubstring("xmlns::", buffer)
    ensures p[0] != ':'
  {
    var w := "xmlns:" + p + "=\"";
    var i :| 0 <= i <= |buffer| - |w| && OccursAt(w, buffer, i);
    assert buffer[i + 6] == w[6] == p[0];
    assert buffer[i..i + 6] == w[..6] == "xmlns:";
    assert buffer[i..i + 7] == buffer[i..i + 6] + [buffer[i + 6]];
    assert !OccursAt("xmlns::", buffer, i);
  }

  lemma {:induction false} UndeclaredKeepsAll(t: NsTable, names: seq<string>)
    requires forall k :: 0 <= k < |t| ==> t[k].key !in names
    ensures Undeclared(t, names) == t
  {
    if t != [] {
      UndeclaredKeepsAll(t[1..], names);
      assert [t[0]] + t[1..] == t;
    }
  }

  /** One `xmlns:p` attribute gives the one binding ":p". */
  lemma RecordPrefix(p: string, v: string)
    requires !IsSubstring("xmlns", p)
    ensures RecordNamespaces([], [Attribute("xmlns:" + p, v)]) == [Binding(":" + p, EscapeEntities(v))]
  {
    var attrs := [Attribute("xmlns:" + p, v)];
    KeyKeepsColon(p);
    assert attrs[..0] == [];
    assert RecordOne([], attrs[0]) == [Binding(":" + p, EscapeEntities(v))];
  }

  /** `xmlns:p="v"` on a start tag ends up as ` xmlns::p="v"` (escaped)
      right after the tag name of every later fragment whose buffer does
      not contain "xmlns::". */
  lemma DoubleColonInjected(p: string, v: string, tag: string, attributes: seq<Attribute>, rest: string)
    requires !IsSubstring("xmlns", p) && IsTokenName(tag)
    requires !IsSubstring("xmlns::", StartTagText(tag, attributes) + rest)
    ensures ElementFragment(RecordNamespaces([], [Attribute("xmlns:" + p, v)]), StartTagText(tag, attributes) + rest)
         == "<" + tag + DeclarationText(Binding(":" + p, EscapeEntities(v))) + AttributeText(attributes) + ">" + rest
  {
    var b := Binding(":" + p, EscapeEntities(v));
    var buffer := StartTagText(tag, attributes) + rest;
    RecordPrefix(p, v);
    NothingRemoved([b], buffer);
    OneDeclaration(b);
    InjectAfterTagName(tag, attributes, rest, DeclarationText(b));
  }

  lemma OneDeclaration(b: Binding)
    ensures Declarations([b]) == DeclarationText(b)
  {
    assert [b][..0] == [];
  }

  /** With no namespace recorded, the fragment is the buffer unchanged. */
  lemma FragmentWithoutNamespaces(buffer: string)
    ensures ElementFragment([], buffer) == buffer
  {
    assert Undeclared([], DeclaredPrefixes(buffer)) == [];
    assert Declarations([]) == "";
    var n := LeadingTagLength(buffer);
    if n != 0 {
      assert buffer[..n] + "" + buffer[n..] == buffer;
    }
  }
}
