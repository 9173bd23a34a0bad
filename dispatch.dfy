/**
 * What the reader does with the handler calls of one parse
 * (src/Reader/XmlStreamReader.php:179-196, 219-229, 250-261, 277-440),
 * written as functions over a session value.  The class in reader.dfy
 * runs the same steps on its fields and is proved against these functions.
 *
 * Callbacks are opaque: what a callback returns is given by an oracle that
 * sees the position of the invocation in the session's call trace and the
 * invocation itself.  A session records every invocation in that trace.
 */
module Dispatch {

  import opened XmlPaths
  import opened Text
  import opened Registry
  import opened Events
  import opened Namespaces

  /** What a callback returns, as far as the switch statements can tell:
      STOP_PATH_PROCESSING, STOP_FILE_PROCESSING, or anything else. */
  datatype Signal = Continue | StopPath | StopFile

  /** The argument of a callback: the DOM element built from a fragment
      (createElementPayload), or a DOM attribute (createAttributePayload). */
  datatype Payload =
    | ElementPayload(fragment: string)
    | AttributePayload(name: string, value: string)

  /** One call `$callback($payload)` made for the key `path`. */
  datatype Invocation = Invocation(path: PathRef, callback: CallbackId, payload: Payload)

  type Oracle = (nat, Invocation) -> Signal

  // ---------------------------------------------------------------------
  //  The current path

  /** `implode("/", $parts)` */
  function Join(parts: seq<string>): string {
    if |parts| == 0 then ""
    else if |parts| == 1 then parts[0]
    else Join(parts[..|parts| - 1]) + "/" + parts[|parts| - 1]
  }

  // ---------------------------------------------------------------------
  //  Calling back

  /** The inner loop of 329-339 and 389-398: call each callback of one key
      in order; a STOP_PATH_PROCESSING or STOP_FILE_PROCESSING answer ends
      the loop and is passed up. */
  function RunCallbacks(p: PathRef, cbs: seq<CallbackId>, payload: Payload, oracle: Oracle, calls: seq<Invocation>)
    : (r: (seq<Invocation>, Signal))
    ensures calls <= r.0 && |r.0| <= |calls| + |cbs|
    ensures forall k :: |calls| <= k < |r.0| ==> r.0[k] == Invocation(p, cbs[k - |calls|], payload)
    ensures forall k :: |calls| <= k < |r.0| - 1 ==> oracle(k, r.0[k]) == Continue
    ensures r.1 == Continue ==> |r.0| == |calls| + |cbs|
    ensures |r.0| > |calls| ==> oracle(|r.0| - 1, r.0[|r.0| - 1]) == r.1
    ensures r.1 != Continue ==> |r.0| > |calls|
    decreases |cbs|
  {
    if cbs == [] then (calls, Continue)
    else
      var call := Invocation(p, cbs[0], payload);
      var signal := oracle(|calls|, call);
      if signal == Continue then RunCallbacks(p, cbs[1..], payload, oracle, calls + [call])
      else (calls + [call], signal)
  }

  /** Some key of the registry carries the path text `target`. */
  predicate HasPath(entries: Table, target: string) {
    exists k :: 0 <= k < |entries| && entries[k].key.path == target
  }

  /** The outer loop of 321-340 and 381-399: run the callbacks of every key
      whose text is `target`, in key order.  STOP_PATH_PROCESSING only ends
      one key's callbacks; STOP_FILE_PROCESSING also skips the remaining
      keys and is reported as `true`. */
  function FirePaths(entries: Table, target: string, payload: Payload, oracle: Oracle, calls: seq<Invocation>)
    : (r: (seq<Invocation>, bool))
    ensures calls <= r.0
    decreases |entries|
  {
    if entries == [] then (calls, false)
    else if entries[0].key.path != target then FirePaths(entries[1..], target, payload, oracle, calls)
    else
      var r := RunCallbacks(entries[0].key, entries[0].callbacks, payload, oracle, calls);
      if r.1 == StopFile then (r.0, true)
      else FirePaths(entries[1..], target, payload, oracle, r.0)
  }

  /** Every call made is for a key whose text is `target`, with `payload`. */
  lemma {:induction false} FirePathsCalls(entries: Table, target: string, payload: Payload, oracle: Oracle, calls: seq<Invocation>)
    ensures forall k :: |calls| <= k < |FirePaths(entries, target, payload, oracle, calls).0| ==>
      FirePaths(entries, target, payload, oracle, calls).0[k].path.path == target
      && FirePaths(entries, target, payload, oracle, calls).0[k].payload == payload
    decreases |entries|
  {
    if entries != [] {
      if entries[0].key.path != target {
        FirePathsCalls(entries[1..], target, payload, oracle, calls);
        assert FirePaths(entries, target, payload, oracle, calls) == FirePaths(entries[1..], target, payload, oracle, calls);
      } else {
        var r := RunCallbacks(entries[0].key, entries[0].callbacks, payload, oracle, calls);
        if r.1 != StopFile {
          FirePathsCalls(entries[1..], target, payload, oracle, r.0);
        }
      }
    }
  }

  /** Without a key for `target`, no callback runs and nothing stops. */
  lemma {:induction false} FirePathsNoKey(entries: Table, target: string, payload: Payload, oracle: Oracle, calls: seq<Invocation>)
    requires !HasPath(entries, target)
    ensures FirePaths(entries, target, payload, oracle, calls) == (calls, false)
    decreases |entries|
  {
    if entries != [] {
      assert entries[0].key.path != target;
      FirePathsNoKey(entries[1..], target, payload, oracle, calls);
    }
  }

  /** `p` is one of the keys entries[0], ..., entries[j]. */
  predicate KeyUpTo(entries: Table, j: nat, p: PathRef) {
    exists i :: 0 <= i <= j && i < |entries| && p == entries[i].key
  }

  /** Every call from index `from` on is for one of the keys
      entries[0], ..., entries[j]. */
  predicate CalledUpTo(entries: Table, j: nat, r: seq<Invocation>, from: nat) {
    forall k :: from <= k < |r| ==> KeyUpTo(entries, j, r[k].path)
  }

  /** Calls to entries[0] followed by calls to the keys of the rest. */
  lemma CalledUpToCons(entries: Table, j: nat, r: seq<Invocation>, from: nat, mid: nat)
    requires 1 <= |entries| && j < |entries| - 1 && from <= mid
    requires forall k :: from <= k < mid && k < |r| ==> r[k].path == entries[0].key
    requires CalledUpTo(entries[1..], j, r, mid)
    ensures CalledUpTo(entries, j + 1, r, from)
  {
    forall k | from <= k < |r|
      ensures KeyUpTo(entries, j + 1, r[k].path)
    {
      if k < mid {
        assert r[k].path == entries[0].key;
      } else {
        var i' :| 0 <= i' <= j && i' < |entries[1..]| && r[k].path == entries[1..][i'].key;
        assert r[k].path == entries[i' + 1].key;
      }
    }
  }

  /** The last call of `r`, made after index `from`, went to some key
      entries[j] whose text is `target`, and every call from `from` on went
      to entries[0], ..., entries[j]. */
  predicate StoppedAt(entries: Table, target: string, r: seq<Invocation>, from: nat) {
    && |r| > from
    && exists j :: 0 <= j < |entries| && entries[j].key.path == target
         && r[|r| - 1].path == entries[j].key && CalledUpTo(entries, j, r, from)
  }

  lemma StoppedAtCons(entries: Table, target: string, r: seq<Invocation>, from: nat, mid: nat)
    requires 1 <= |entries| && from <= mid
    requires forall k :: from <= k < mid && k < |r| ==> r[k].path == entries[0].key
    requires StoppedAt(entries[1..], target, r, mid)
    ensures StoppedAt(entries, target, r, from)
  {
    var j :| 0 <= j < |entries[1..]| && entries[1..][j].key.path == target
             && r[|r| - 1].path == entries[1..][j].key && CalledUpTo(entries[1..], j, r, mid);
    CalledUpToCons(entries, j, r, from, mid);
    assert entries[j + 1] == entries[1..][j];
  }

  /** The first key's callbacks answered STOP_FILE_PROCESSING. */
  lemma StoppedAtFirst(entries: Table, target: string, payload: Payload, oracle: Oracle, calls: seq<Invocation>)
    requires 1 <= |entries| && entries[0].key.path == target
    requires RunCallbacks(entries[0].key, entries[0].callbacks, payload, oracle, calls).1 == StopFile
    ensures StoppedAt(entries, target, FirePaths(entries, target, payload, oracle, calls).0, |calls|)
  {
    var r := RunCallbacks(entries[0].key, entries[0].callbacks, payload, oracle, calls).0;
    assert FirePaths(entries, target, payload, oracle, calls).0 == r;
    assert KeyUpTo(entries, 0, entries[0].key);
    assert CalledUpTo(entries, 0, r, |calls|);
  }

  /** The first key's callbacks ran to the end; a later key stopped. */
  lemma StoppedAfterFirst(entries: Table, target: string, payload: Payload, oracle: Oracle, calls: seq<Invocation>)
    requires 1 <= |entries| && entries[0].key.path == target
    requires RunCallbacks(entries[0].key, entries[0].callbacks, payload, oracle, calls).1 != StopFile
    requires var q := RunCallbacks(entries[0].key, entries[0].callbacks, payload, oracle, calls);
      StoppedAt(entries[1..], target, FirePaths(entries[1..], target, payload, oracle, q.0).0, |q.0|)
    ensures StoppedAt(entries, target, FirePaths(entries, target, payload, oracle, calls).0, |calls|)
  {
    var q := RunCallbacks(entries[0].key, entries[0].callbacks, payload, oracle, calls);
    var r := FirePaths(entries[1..], target, payload, oracle, q.0).0;
    assert FirePaths(entries, target, payload, oracle, calls).0 == r;
    forall k | |calls| <= k < |q.0| && k < |r|
      ensures r[k].path == entries[0].key
    {
      assert r[k] == q.0[k];
    }
    StoppedAtCons(entries, target, r, |calls|, |q.0|);
  }

  /** The first key's text differs: the loop goes on with the rest. */
  lemma StoppedAfterSkip(entries: Table, target: string, payload: Payload, oracle: Oracle, calls: seq<Invocation>)
    requires 1 <= |entries| && entries[0].key.path != target
    requires StoppedAt(entries[1..], target, FirePaths(entries[1..], target, payload, oracle, calls).0, |calls|)
    ensures StoppedAt(entries, target, FirePaths(entries, target, payload, oracle, calls).0, |calls|)
  {
    var r := FirePaths(entries[1..], target, payload, oracle, calls).0;
    assert FirePaths(entries, target, payload, oracle, calls).0 == r;
    StoppedAtCons(entries, target, r, |calls|, |calls|);
  }

  /** A reported STOP_FILE_PROCESSING is the answer to the last call. */
  lemma {:induction false} FirePathsStopAnswer(entries: Table, target: string, payload: Payload, oracle: Oracle, calls: seq<Invocation>)
    requires FirePaths(entries, target, payload, oracle, calls).1
    ensures var r := FirePaths(entries, target, payload, oracle, calls).0;
      |r| > |calls| && oracle(|r| - 1, r[|r| - 1]) == StopFile
    decreases |entries|
  {
    var r := FirePaths(entries, target, payload, oracle, calls);
    if entries[0].key.path != target {
      assert r == FirePaths(entries[1..], target, payload, oracle, calls);
      FirePathsStopAnswer(entries[1..], target, payload, oracle, calls);
    } else {
      var q := RunCallbacks(entries[0].key, entries[0].callbacks, payload, oracle, calls);
      if q.1 != StopFile {
        assert r == FirePaths(entries[1..], target, payload, oracle, q.0);
        FirePathsStopAnswer(entries[1..], target, payload, oracle, q.0);
      } else {
        assert r.0 == q.0;
      }
    }
  }

  /** ... and it went to a key with the path, after which no key was
      called. */
  lemma {:induction false} FirePathsStoppedAt(entries: Table, target: string, payload: Payload, oracle: Oracle, calls: seq<Invocation>)
    requires FirePaths(entries, target, payload, oracle, calls).1
    ensures StoppedAt(entries, target, FirePaths(entries, target, payload, oracle, calls).0, |calls|)
    decreases |entries|
  {
    if entries[0].key.path != target {
      FirePathsStoppedAt(entries[1..], target, payload, oracle, calls);
      StoppedAfterSkip(entries, target, payload, oracle, calls);
    } else {
      var q := RunCallbacks(entries[0].key, entries[0].callbacks, payload, oracle, calls);
      if q.1 == StopFile {
        StoppedAtFirst(entries, target, payload, oracle, calls);
      } else {
        FirePathsStoppedAt(entries[1..], target, payload, oracle, q.0);
        StoppedAfterFirst(entries, target, payload, oracle, calls);
      }
    }
  }

  /** When FirePaths reports STOP_FILE_PROCESSING, its last call was answered
      with it, that call went to some key entries[j] whose text is `target`,
      and no key after entries[j] was called. */
  lemma {:induction false} FirePathsStops(entries: Table, target: string, payload: Payload, oracle: Oracle, calls: seq<Invocation>)
    requires FirePaths(entries, target, payload, oracle, calls).1
    ensures var r := FirePaths(entries, target, payload, oracle, calls).0;
      StoppedAt(entries, target, r, |calls|) && oracle(|r| - 1, r[|r| - 1]) == StopFile
  {
    FirePathsStopAnswer(entries, target, payload, oracle, calls);
    FirePathsStoppedAt(entries, target, payload, oracle, calls);
  }

  /** fireAttributeCallbacks (376-402): for each attribute in order, the
      keys whose text is the current path followed by "@" and the
      attribute name.  STOP_FILE_PROCESSING returns at once, reported as
      `true` (`return false` in the source). */
  function FireAttributes(entries: Table, current: string, attributes: seq<Attribute>, oracle: Oracle, calls: seq<Invocation>)
    : (r: (seq<Invocation>, bool))
    ensures calls <= r.0
    ensures forall k :: |calls| <= k < |r.0| ==> r.0[k].payload.AttributePayload? && current < r.0[k].path.path
    decreases |attributes|
  {
    if attributes == [] then (calls, false)
    else
      var a := attributes[0];
      var r := FirePaths(entries, current + "@" + a.name, AttributePayload(a.name, a.value), oracle, calls);
      FirePathsCalls(entries, current + "@" + a.name, AttributePayload(a.name, a.value), oracle, calls);
      assert current < current + "@" + a.name;
      if r.1 then r
      else FireAttributes(entries, current, attributes[1..], oracle, r.0)
  }

  // ---------------------------------------------------------------------
  //  Buffers

  /** 285-294: a buffer is opened for the current path when some key has
      that text and no buffer is open for it yet. */
  function OpenBuffer(entries: Table, buffers: map<string, string>, current: string): (r: map<string, string>)
    ensures HasPath(entries, current) ==> current in r
    ensures r.Keys == if HasPath(entries, current) then buffers.Keys + {current} else buffers.Keys
    ensures forall k :: k in buffers ==> r[k] == buffers[k]
    ensures current !in buffers && HasPath(entries, current) ==> r[current] == ""
  {
    if HasPath(entries, current) && current !in buffers then buffers[current := ""] else buffers
  }

  /** addData (358-369): append to every buffer whose key occurs in the
      current path. */
  function AppendData(buffers: map<string, string>, current: string, data: string): (r: map<string, string>)
    ensures r.Keys == buffers.Keys
    ensures forall k :: k in buffers && IsSubstring(k, current) ==> r[k] == buffers[k] + data
    ensures forall k :: k in buffers && !IsSubstring(k, current) ==> r[k] == buffers[k]
  {
    map k | k in buffers :: if IsSubstring(k, current) then buffers[k] + data else buffers[k]
  }

  // ---------------------------------------------------------------------
  //  A session

  /** The parser variables (`currentPath`, `pathData`, `parsedNamespaces`)
      and the calls made so far. */
  datatype Session = Session(
    stack: seq<string>,
    buffers: map<string, string>,
    namespaces: NsTable,
    calls: seq<Invocation>)

  /** initializeInternalParserVariables (219-229). */
  function InitialSession(): Session {
    Session([""], map[], [], [])
  }

  /** parseNodeStart (277-312).  Whether an attribute callback asked to stop
      is computed and then ignored (283). */
  function StartStep(entries: Table, s: Session, tag: string, attributes: seq<Attribute>, oracle: Oracle): Session {
    var stack := s.stack + [tag];
    var current := Join(stack);
    var fired := FireAttributes(entries, current, attributes, oracle, s.calls);
    var buffers := OpenBuffer(entries, s.buffers, current);
    Session(stack, AppendData(buffers, current, StartTagText(tag, attributes)),
            RecordNamespaces(s.namespaces, attributes), fired.0)
  }

  datatype StepResult = Stepped(session: Session) | PayloadError(session: Session)

  /** parseNodeEnd (314-346).  The end tag goes to the open buffers; every
      key whose text is the current path gets the element built from the
      buffer of that path; STOP_FILE_PROCESSING only skips the remaining keys
      of this end tag.  Then the buffer is dropped and the path popped.
      When some key matches but no buffer is open, the buffer reads as null
      and building the element throws. */
  function EndStep(entries: Table, s: Session, tag: string, oracle: Oracle): StepResult {
    var current := Join(s.stack);
    var buffers := AppendData(s.buffers, current, EndTagText(tag));
    if HasPath(entries, current) && current !in buffers then
      PayloadError(s.(buffers := buffers))
    else
      var payload := ElementPayload(if current in buffers then ElementFragment(s.namespaces, buffers[current]) else "");
      var fired := FirePaths(entries, current, payload, oracle, s.calls);
      Stepped(Session(if |s.stack| == 0 then [] else s.stack[..|s.stack| - 1],
                      buffers - {current}, s.namespaces, fired.0))
  }

  /** addData called by the default handler (358-369). */
  function DataStep(s: Session, text: string): Session {
    s.(buffers := AppendData(s.buffers, Join(s.stack), text))
  }

  /** How a parse ends: the events ran out; a character-data handler call
      never returned (addCData calls itself without end); the tokenizer
      reported an error (the RuntimeException of 253-260); building an
      element payload threw. */
  datatype Outcome = Completed | Diverged | ParseFailed | PayloadFailed

  /** The handler calls of one parse, in order. */
  function Run(entries: Table, events: seq<Event>, s: Session, oracle: Oracle): (Session, Outcome)
    decreases |events|
  {
    if events == [] then (s, Completed)
    else
      match events[0]
      case Start(tag, attributes) => Run(entries, events[1..], StartStep(entries, s, tag, attributes, oracle), oracle)
      case End(tag) =>
        (match EndStep(entries, s, tag, oracle)
         case Stepped(next) => Run(entries, events[1..], next, oracle)
         case PayloadError(next) => (next, PayloadFailed))
      case Default(text) => Run(entries, events[1..], DataStep(s, text), oracle)
      case CData(_) => (s, Diverged)
      case Malformed => (s, ParseFailed)
  }

  /** parse (179-196): nothing happens without keys; otherwise the parser
      variables are reset and the events run. */
  function Parse(entries: Table, events: seq<Event>, oracle: Oracle): Option<(Session, Outcome)> {
    if |entries| == 0 then None
    else Some(Run(entries, events, InitialSession(), oracle))
  }

  // ---------------------------------------------------------------------
  //  The current path is the path text of the open elements

  lemma {:induction false} SegmentsSnoc(names: seq<string>, name: string)
    ensures Segments(names + [name]) == Segments(names) + "/" + name
    decreases |names|
  {
    if names == [] {
      assert [name][1..] == [];
    } else {
      assert (names + [name])[1..] == names[1..] + [name];
      SegmentsSnoc(names[1..], name);
    }
  }

  lemma JoinSnoc(parts: seq<string>, part: string)
    requires |parts| >= 1
    ensures Join(parts + [part]) == Join(parts) + "/" + part
  {
    assert (parts + [part])[..|parts|] == parts;
  }

  /** Below the "" the stack starts with, the current path is
      "/tag1/tag2/..." — the text an XmlPath names. */
  lemma {:induction false} JoinSegments(tags: seq<string>)
    ensures Join([""] + tags) == Segments(tags)
    decreases |tags|
  {
    if tags != [] {
      var init := tags[..|tags| - 1];
      var last := tags[|tags| - 1];
      assert [""] + tags == ([""] + init) + [last];
      JoinSnoc([""] + init, last);
      JoinSegments(init);
      SegmentsSnoc(init, last);
      assert init + [last] == tags;
    }
  }

  /** The path text of the document element "dummy" is "/dummy". */
  lemma RootPath()
    ensures Join(InitialSession().stack + ["dummy"]) == "/dummy"
  {
    JoinSnoc([""], "dummy");
  }

  // ---------------------------------------------------------------------
  //  What callbacks return never changes the parse

  /** Two sessions that agree on everything but the call trace. */
  predicate SameState(a: Session, b: Session) {
    a.stack == b.stack && a.buffers == b.buffers && a.namespaces == b.namespaces
  }

  /** The outcome and the final parser variables do not depend on what the
      callbacks return: in particular STOP_FILE_PROCESSING never ends the
      parse, since the flag computed at 283 and the `break(3)` at 337 leave
      `parserRunning` (252) untouched. */
  lemma {:induction false} OracleIndependent(entries: Table, events: seq<Event>, s1: Session, s2: Session, o1: Oracle, o2: Oracle)
    requires SameState(s1, s2)
    ensures Run(entries, events, s1, o1).1 == Run(entries, events, s2, o2).1
    ensures SameState(Run(entries, events, s1, o1).0, Run(entries, events, s2, o2).0)
    decreases |events|
  {
    if events != [] {
      match events[0]
      case Start(tag, attributes) =>
        OracleIndependent(entries, events[1..], StartStep(entries, s1, tag, attributes, o1),
                          StartStep(entries, s2, tag, attributes, o2), o1, o2);
      case End(tag) =>
        var e1 := EndStep(entries, s1, tag, o1);
        var e2 := EndStep(entries, s2, tag, o2);
        assert e1.Stepped? == e2.Stepped? && SameState(e1.session, e2.session);
        if e1.Stepped? {
          OracleIndependent(entries, events[1..], e1.session, e2.session, o1, o2);
        }
      case Default(text) =>
        OracleIndependent(entries, events[1..], DataStep(s1, text), DataStep(s2, text), o1, o2);
      case CData(_) =>
      case Malformed =>
    }
  }

  /** A callback answering STOP_FILE_PROCESSING to every call leaves the
      parse exactly as far as one answering nothing. */
  lemma StopFileKeepsParsing(entries: Table, events: seq<Event>)
    ensures Run(entries, events, InitialSession(), (_, _) => StopFile).1
         == Run(entries, events, InitialSession(), (_, _) => Continue).1
  {
    OracleIndependent(entries, events, InitialSession(), InitialSession(), (_, _) => StopFile, (_, _) => Continue);
  }

  // ---------------------------------------------------------------------
  //  Attribute callbacks never fire

  /** The attribute path built at 379 puts "@" right after the last tag
      name, with no "/" before it, so no XmlPath ever has that text. */
  lemma AttributePathRejected(current: string, name: string)
    requires '\n' !in current && '\n' !in name
    requires current == [] || current[|current| - 1] != '/'
    ensures !Accepts(current + "@" + name)
  {
    var s := current + "@" + name;
    assert forall i :: 0 <= i < |s| ==> s[i] != '\n';
    assert s[|current|] == '@';
    assert |current| > 0 ==> s[|current| - 1] == current[|current| - 1];
    assert !AtEndsPath(s);
    if Accepts(s) {
      AcceptedShape(s);
      assert false;
    }
  }

  /** So for tokenizer names, fireAttributeCallbacks calls nothing. */
  lemma {:induction false} NoAttributeCallbacks(entries: Table, current: string, attributes: seq<Attribute>, oracle: Oracle, calls: seq<Invocation>)
    requires Validated(entries)
    requires '\n' !in current && (current == [] || current[|current| - 1] != '/')
    requires forall k :: 0 <= k < |attributes| ==> IsTokenName(attributes[k].name)
    ensures FireAttributes(entries, current, attributes, oracle, calls) == (calls, false)
    decreases |attributes|
  {
    if attributes != [] {
      var a := attributes[0];
      var target := current + "@" + a.name;
      assert '\n' !in a.name by {
        assert forall i :: 0 <= i < |a.name| ==> !IsSpace(a.name[i]);
      }
      AttributePathRejected(current, a.name);
      assert !HasPath(entries, target) by {
        if HasPath(entries, target) {
          assert false;
        }
      }
      FirePathsNoKey(entries, target, AttributePayload(a.name, a.value), oracle, calls);
      NoAttributeCallbacks(entries, current, attributes[1..], oracle, calls);
    }
  }

  /** Parts without a line break join without one. */
  lemma {:induction false} JoinNoNewline(parts: seq<string>)
    requires forall k :: 0 <= k < |parts| ==> '\n' !in parts[k]
    ensures '\n' !in Join(parts)
    decreases |parts|
  {
    if |parts| >= 2 {
      var init := parts[..|parts| - 1];
      JoinNoNewline(init);
      assert Join(parts) == Join(init) + "/" + parts[|parts| - 1];
    }
  }

  /** A start tag with tokenizer names makes no call, whatever the keys. */
  lemma StartFiresNothing(entries: Table, s: Session, tag: string, attributes: seq<Attribute>, oracle: Oracle)
    requires Validated(entries) && IsTokenName(tag)
    requires forall k :: 0 <= k < |attributes| ==> IsTokenName(attributes[k].name)
    requires forall k :: 0 <= k < |s.stack| ==> '\n' !in s.stack[k]
    ensures StartStep(entries, s, tag, attributes, oracle).calls == s.calls
  {
    var stack := s.stack + [tag];
    assert '\n' !in tag by {
      assert forall i :: 0 <= i < |tag| ==> !IsSpace(tag[i]);
    }
    JoinNoNewline(stack);
    var current := Join(stack);
    if |s.stack| == 0 {
      assert current == tag;
    } else {
      JoinSnoc(s.stack, tag);
    }
    assert current[|current| - 1] == tag[|tag| - 1];
    NoAttributeCallbacks(entries, current, attributes, oracle, s.calls);
  }

  // ---------------------------------------------------------------------
  //  An element, start tag to end tag

  /** Every open buffer belongs to a path the current path starts with. */
  predicate KeysOnPath(s: Session) {
    |s.stack| >= 1 && forall k :: k in s.buffers ==> k <= Join(s.stack)
  }

  /** Every buffer with `data` appended. */
  function AppendAll(buffers: map<string, string>, data: string): (r: map<string, string>)
    ensures r.Keys == buffers.Keys
    ensures forall k :: k in buffers ==> r[k] == buffers[k] + data
  {
    map k | k in buffers :: buffers[k] + data
  }

  /** The namespace table after the start tags of a node, in document
      order. */
  function NodeNamespaces(t: NsTable, n: Node): NsTable
    decreases n, 1
  {
    match n
    case Element(_, attributes, children) => ChildrenNamespaces(RecordNamespaces(t, attributes), children)
    case Other(_) => t
  }

  function ChildrenNamespaces(t: NsTable, cs: seq<Node>): NsTable
    decreases cs, 0
  {
    if cs == [] then t else ChildrenNamespaces(NodeNamespaces(t, cs[0]), cs[1..])
  }

  /** What follows a run that completed. */
  function Then(entries: Table, r: (Session, Outcome), rest: seq<Event>, oracle: Oracle): (Session, Outcome) {
    if r.1 == Completed then Run(entries, rest, r.0, oracle) else r
  }

  /** Running two pieces of a stream is running the first, then the second
      if the first completed. */
  lemma {:induction false} RunAppend(entries: Table, a: seq<Event>, b: seq<Event>, s: Session, oracle: Oracle)
    ensures Run(entries, a + b, s, oracle) == Then(entries, Run(entries, a, s, oracle), b, oracle)
    decreases |a|
  {
    if a == [] {
      assert a + b == b;
    } else {
      assert (a + b)[0] == a[0] && (a + b)[1..] == a[1..] + b;
      match a[0]
      case Start(tag, attributes) =>
        RunAppend(entries, a[1..], b, StartStep(entries, s, tag, attributes, oracle), oracle);
      case End(tag) =>
        match EndStep(entries, s, tag, oracle) {
          case Stepped(next) => RunAppend(entries, a[1..], b, next, oracle);
          case PayloadError(_) =>
        }
      case Default(text) =>
        RunAppend(entries, a[1..], b, DataStep(s, text), oracle);
      case CData(_) =>
      case Malformed =>
    }
  }

  /** On such a session addData reaches every open buffer. */
  lemma AppendDataOnPath(buffers: map<string, string>, current: string, data: string)
    requires forall k :: k in buffers ==> k <= current
    ensures AppendData(buffers, current, data) == AppendAll(buffers, data)
  {
    forall k | k in buffers
      ensures IsSubstring(k, current)
    {
      PrefixIsSubstring(k, current);
    }
  }

  lemma AppendAllTwice(buffers: map<string, string>, a: string, b: string)
    ensures AppendAll(AppendAll(buffers, a), b) == AppendAll(buffers, a + b)
  {
    forall k | k in buffers
      ensures buffers[k] + a + b == buffers[k] + (a + b)
    {
    }
  }

  /** parseNodeStart on such a session: the path grows by the tag, a fresh
      buffer is opened when some key has the new path, every buffer gets the
      start tag, and every call it makes is for a longer path. */
  lemma StartFacts(entries: Table, s: Session, tag: string, attributes: seq<Attribute>, oracle: Oracle)
    requires KeysOnPath(s)
    ensures StartFactsHold(entries, s, tag, attributes, StartStep(entries, s, tag, attributes, oracle))
  {
    var stack := s.stack + [tag];
    JoinSnoc(s.stack, tag);
    var current := Join(stack);
    assert Join(s.stack) <= current;
    var buffers := OpenBuffer(entries, s.buffers, current);
    assert forall k :: k in buffers ==> k <= current;
    AppendDataOnPath(buffers, current, StartTagText(tag, attributes));
  }

  /** parseNodeEnd on such a session, when every key with the current path
      has its buffer: it completes, every buffer gets the end tag, the
      current one is dropped, the path shrinks, and every call it makes is
      for the current path with the element built from that buffer. */
  lemma EndFacts(entries: Table, s: Session, tag: string, oracle: Oracle)
    requires KeysOnPath(s)
    requires HasPath(entries, Join(s.stack)) ==> Join(s.stack) in s.buffers
    ensures EndStep(entries, s, tag, oracle).Stepped?
    ensures EndFactsHold(s, tag, EndStep(entries, s, tag, oracle).session)
  {
    var current := Join(s.stack);
    AppendDataOnPath(s.buffers, current, EndTagText(tag));
    var buffers := AppendData(s.buffers, current, EndTagText(tag));
    var payload := ElementPayload(if current in buffers then ElementFragment(s.namespaces, buffers[current]) else "");
    FirePathsCalls(entries, current, payload, oracle, s.calls);
    if !HasPath(entries, current) {
      FirePathsNoKey(entries, current, payload, oracle, s.calls);
    }
  }

  /** A node's events on such a session (the subtree theorem): the stream
      completes, the path is restored, every open buffer gets exactly the
      node's markup, and every call is for a path below the current one.
      The keys with the element's own path get the element built from its
      own markup, with the namespaces declared so far injected. */
  lemma {:induction false} NodeRun(entries: Table, n: Node, s: Session, oracle: Oracle)
    requires KeysOnPath(s)
    ensures var r := Run(entries, NodeEvents(n), s, oracle);
      && r.1 == Completed
      && r.0.stack == s.stack
      && r.0.buffers == AppendAll(s.buffers, Markup(n))
      && r.0.namespaces == NodeNamespaces(s.namespaces, n)
      && s.calls <= r.0.calls
      && (forall k :: |s.calls| <= k < |r.0.calls| ==> |Join(s.stack)| < |r.0.calls[k].path.path|)
      && (n.Element? ==>
            forall k :: |s.calls| <= k < |r.0.calls| && r.0.calls[k].path.path == Join(s.stack + [n.tag]) ==>
              r.0.calls[k].payload == ElementPayload(ElementFragment(NodeNamespaces(s.namespaces, n), Markup(n))))
    decreases n, 4
  {
    match n
    case Other(text) =>
      AppendDataOnPath(s.buffers, Join(s.stack), text);
    case Element(tag, attributes, children) =>
      ElementRun(entries, n, s, oracle);
  }

  /** The events of an element: its start tag, its children's, its end tag. */
  lemma ElementEvents(entries: Table, n: Node, s: Session, oracle: Oracle)
    requires n.Element?
    ensures Run(entries, NodeEvents(n), s, oracle)
         == Then(entries, Run(entries, ChildrenEvents(n.children), StartStep(entries, s, n.tag, n.attributes, oracle), oracle),
                 [End(n.tag)], oracle)
  {
    var inner := ChildrenEvents(n.children);
    assert NodeEvents(n) == [Start(n.tag, n.attributes)] + (inner + [End(n.tag)]);
    RunAppend(entries, inner, [End(n.tag)], StartStep(entries, s, n.tag, n.attributes, oracle), oracle);
  }

  lemma {:induction false} ElementRun(entries: Table, n: Node, s: Session, oracle: Oracle)
    requires KeysOnPath(s) && n.Element?
    ensures var r := Run(entries, NodeEvents(n), s, oracle);
      && r.1 == Completed
      && r.0.stack == s.stack
      && r.0.buffers == AppendAll(s.buffers, Markup(n))
      && r.0.namespaces == NodeNamespaces(s.namespaces, n)
      && s.calls <= r.0.calls
      && (forall k :: |s.calls| <= k < |r.0.calls| ==> |Join(s.stack)| < |r.0.calls[k].path.path|)
      && forall k :: |s.calls| <= k < |r.0.calls| && r.0.calls[k].path.path == Join(s.stack + [n.tag]) ==>
           r.0.calls[k].payload == ElementPayload(ElementFragment(NodeNamespaces(s.namespaces, n), Markup(n)))
    decreases n, 3
  {
    ElementState(entries, n, s, oracle);
    ElementCalls(entries, n, s, oracle);
  }

  /** The three steps of an element, as sessions. */
  lemma {:induction false} ElementSteps(entries: Table, n: Node, s: Session, oracle: Oracle)
    requires KeysOnPath(s) && n.Element?
    ensures var s1 := StartStep(entries, s, n.tag, n.attributes, oracle);
      var s2 := Run(entries, ChildrenEvents(n.children), s1, oracle).0;
      && StartFactsHold(entries, s, n.tag, n.attributes, s1)
      && ChildrenFactsHold(s1, n.children, s2)
      && EndStep(entries, s2, n.tag, oracle).Stepped?
      && EndFactsHold(s2, n.tag, EndStep(entries, s2, n.tag, oracle).session)
      && Run(entries, NodeEvents(n), s, oracle) == (EndStep(entries, s2, n.tag, oracle).session, Completed)
    decreases n, 1
  {
    var s1 := StartStep(entries, s, n.tag, n.attributes, oracle);
    StartFacts(entries, s, n.tag, n.attributes, oracle);
    ElementEvents(entries, n, s, oracle);
    ChildrenRun(entries, n.children, s1, oracle);
    var s2 := Run(entries, ChildrenEvents(n.children), s1, oracle).0;
    EndFacts(entries, s2, n.tag, oracle);
    EndAlone(entries, s2, n.tag, oracle);
  }

  lemma EndAlone(entries: Table, s: Session, tag: string, oracle: Oracle)
    requires EndStep(entries, s, tag, oracle).Stepped?
    ensures Run(entries, [End(tag)], s, oracle) == (EndStep(entries, s, tag, oracle).session, Completed)
  {
    assert [End(tag)][1..] == [];
  }

  lemma ElementState(entries: Table, n: Node, s: Session, oracle: Oracle)
    requires KeysOnPath(s) && n.Element?
    ensures var r := Run(entries, NodeEvents(n), s, oracle);
      && r.1 == Completed
      && r.0.stack == s.stack
      && r.0.buffers == AppendAll(s.buffers, Markup(n))
      && r.0.namespaces == NodeNamespaces(s.namespaces, n)
    decreases n, 2
  {
    ElementSteps(entries, n, s, oracle);
    var s1 := StartStep(entries, s, n.tag, n.attributes, oracle);
    var s2 := Run(entries, ChildrenEvents(n.children), s1, oracle).0;
    var s3 := EndStep(entries, s2, n.tag, oracle).session;
    ElementBuffers(n, s.buffers, s1.buffers, s2.buffers, s3.buffers, Join(s1.stack));
    assert s1.stack[..|s1.stack| - 1] == s.stack;
  }

  lemma ElementCalls(entries: Table, n: Node, s: Session, oracle: Oracle)
    requires KeysOnPath(s) && n.Element?
    ensures var r := Run(entries, NodeEvents(n), s, oracle);
      && s.calls <= r.0.calls
      && (forall k :: |s.calls| <= k < |r.0.calls| ==> |Join(s.stack)| < |r.0.calls[k].path.path|)
      && forall k :: |s.calls| <= k < |r.0.calls| && r.0.calls[k].path.path == Join(s.stack + [n.tag]) ==>
           r.0.calls[k].payload == ElementPayload(ElementFragment(NodeNamespaces(s.namespaces, n), Markup(n)))
    decreases n, 2
  {
    ElementSteps(entries, n, s, oracle);
    var s1 := StartStep(entries, s, n.tag, n.attributes, oracle);
    var s2 := Run(entries, ChildrenEvents(n.children), s1, oracle).0;
    ElementCallsOf(entries, n, s, s1, s2, EndStep(entries, s2, n.tag, oracle).session);
  }

  /** The calls of an element's three steps, from what each step states. */
  lemma ElementCallsOf(entries: Table, n: Node, s: Session, s1: Session, s2: Session, s3: Session)
    requires n.Element?
    requires StartFactsHold(entries, s, n.tag, n.attributes, s1)
    requires ChildrenFactsHold(s1, n.children, s2)
    requires EndFactsHold(s2, n.tag, s3)
    ensures s.calls <= s3.calls
    ensures forall k :: |s.calls| <= k < |s3.calls| ==> |Join(s.stack)| < |s3.calls[k].path.path|
    ensures forall k :: |s.calls| <= k < |s3.calls| && s3.calls[k].path.path == Join(s.stack + [n.tag]) ==>
      s3.calls[k].payload == ElementPayload(ElementFragment(NodeNamespaces(s.namespaces, n), Markup(n)))
  {
    var current := Join(s1.stack);
    ElementBuffers(n, s.buffers, s1.buffers, s2.buffers, s3.buffers, current);
    CallsBelow(s.calls, s1.calls, s2.calls, s3.calls, |Join(s.stack)|, current);
    var payload := ElementPayload(ElementFragment(NodeNamespaces(s.namespaces, n), Markup(n)));
    assert s2.namespaces == NodeNamespaces(s.namespaces, n);
    forall k | |s2.calls| <= k < |s3.calls|
      ensures s3.calls[k].payload == payload
    {
    }
    PayloadsAt(s.calls, s2.calls, s3.calls, current, payload);
  }

  /** Among calls of which the earlier ones are for longer paths and the
      later ones all get `payload`, the ones for `current` get `payload`. */
  lemma PayloadsAt(c0: seq<Invocation>, c2: seq<Invocation>, c3: seq<Invocation>, current: string, payload: Payload)
    requires c0 <= c2 <= c3
    requires forall k :: |c0| <= k < |c2| ==> |current| < |c3[k].path.path|
    requires forall k :: |c2| <= k < |c3| ==> c3[k].payload == payload
    ensures forall k :: |c0| <= k < |c3| && c3[k].path.path == current ==> c3[k].payload == payload
  {
  }

  /** What StartFacts states, for the sessions before and after. */
  predicate StartFactsHold(entries: Table, s: Session, tag: string, attributes: seq<Attribute>, s1: Session) {
    var current := Join(s1.stack);
    && s1.stack == s.stack + [tag]
    && current == Join(s.stack) + "/" + tag
    && current !in s.buffers
    && KeysOnPath(s1)
    && s1.buffers.Keys == (if HasPath(entries, current) then s.buffers.Keys + {current} else s.buffers.Keys)
    && (forall k :: k in s.buffers ==> s1.buffers[k] == s.buffers[k] + StartTagText(tag, attributes))
    && (current in s1.buffers ==> s1.buffers[current] == StartTagText(tag, attributes))
    && s1.namespaces == RecordNamespaces(s.namespaces, attributes)
    && s.calls <= s1.calls
    && forall k :: |s.calls| <= k < |s1.calls| ==> |current| < |s1.calls[k].path.path|
  }

  /** What ChildrenRun states, for the sessions before and after. */
  predicate ChildrenFactsHold(s: Session, cs: seq<Node>, r: Session) {
    && r.stack == s.stack
    && r.buffers == AppendAll(s.buffers, ChildrenMarkup(cs))
    && r.namespaces == ChildrenNamespaces(s.namespaces, cs)
    && s.calls <= r.calls
    && forall k :: |s.calls| <= k < |r.calls| ==> |Join(s.stack)| < |r.calls[k].path.path|
  }

  /** What EndFacts states, for the sessions before and after. */
  predicate EndFactsHold(s: Session, tag: string, e: Session) {
    var current := Join(s.stack);
    && |s.stack| >= 1
    && e.stack == s.stack[..|s.stack| - 1]
    && e.buffers == AppendAll(s.buffers, EndTagText(tag)) - {current}
    && e.namespaces == s.namespaces
    && s.calls <= e.calls
    && forall k :: |s.calls| <= k < |e.calls| ==>
         current in s.buffers && e.calls[k].path.path == current
         && e.calls[k].payload == ElementPayload(ElementFragment(s.namespaces, s.buffers[current] + EndTagText(tag)))
  }

  /** The buffers across one element: opened empty (if at all), then start
      tag, children, end tag; only the element's own buffer is dropped. */
  lemma ElementBuffers(n: Node, b0: map<string, string>, b1: map<string, string>, b2: map<string, string>,
                       b3: map<string, string>, current: string)
    requires n.Element?
    requires current !in b0
    requires b1.Keys == b0.Keys || b1.Keys == b0.Keys + {current}
    requires forall k :: k in b0 ==> b1[k] == b0[k] + StartTagText(n.tag, n.attributes)
    requires current in b1 ==> b1[current] == StartTagText(n.tag, n.attributes)
    requires b2 == AppendAll(b1, ChildrenMarkup(n.children))
    requires b3 == AppendAll(b2, EndTagText(n.tag)) - {current}
    ensures b3 == AppendAll(b0, Markup(n))
    ensures current in b2 ==> b2[current] + EndTagText(n.tag) == Markup(n)
  {
    var start, inner, end := StartTagText(n.tag, n.attributes), ChildrenMarkup(n.children), EndTagText(n.tag);
    assert Markup(n) == start + inner + end;
    var whole := AppendAll(b0, Markup(n));
    assert b3.Keys == whole.Keys;
    forall k | k in b0
      ensures b3[k] == whole[k]
    {
      assert k != current;
      AppendThree(b0[k], b1[k], b2[k], b3[k], start, inner, end);
    }
    SameBuffers(b3, whole);
  }

  lemma AppendThree(x0: string, x1: string, x2: string, x3: string, start: string, inner: string, end: string)
    requires x1 == x0 + start && x2 == x1 + inner && x3 == x2 + end
    ensures x3 == x0 + (start + inner + end)
  {
  }

  lemma SameBuffers(a: map<string, string>, b: map<string, string>)
    requires a.Keys == b.Keys && forall k :: k in a ==> a[k] == b[k]
    ensures a == b
  {
  }

  /** Calls of three consecutive steps, each for paths longer than `depth`. */
  lemma CallsBelow(c0: seq<Invocation>, c1: seq<Invocation>, c2: seq<Invocation>, c3: seq<Invocation>, depth: nat, current: string)
    requires c0 <= c1 <= c2 <= c3
    requires depth < |current|
    requires forall k :: |c0| <= k < |c1| ==> |current| < |c1[k].path.path|
    requires forall k :: |c1| <= k < |c2| ==> |current| < |c2[k].path.path|
    requires forall k :: |c2| <= k < |c3| ==> c3[k].path.path == current
    ensures forall k :: |c0| <= k < |c3| ==> depth < |c3[k].path.path|
    ensures forall k :: |c0| <= k < |c2| ==> |current| < |c3[k].path.path|
  {
    forall k | |c0| <= k < |c3|
      ensures depth < |c3[k].path.path|
    {
      if k < |c1| {
        assert c3[k] == c1[k];
      } else if k < |c2| {
        assert c3[k] == c2[k];
      }
    }
    forall k | |c0| <= k < |c2|
      ensures |current| < |c3[k].path.path|
    {
      if k < |c1| {
        assert c3[k] == c1[k];
      } else {
        assert c3[k] == c2[k];
      }
    }
  }

  /** The children's events, one node after another. */
  lemma {:induction false} ChildrenRun(entries: Table, cs: seq<Node>, s: Session, oracle: Oracle)
    requires KeysOnPath(s)
    ensures Run(entries, ChildrenEvents(cs), s, oracle).1 == Completed
    ensures ChildrenFactsHold(s, cs, Run(entries, ChildrenEvents(cs), s, oracle).0)
    decreases cs, 0
  {
    if cs == [] {
      assert AppendAll(s.buffers, "") == s.buffers by {
        forall k | k in s.buffers
          ensures s.buffers[k] + "" == s.buffers[k]
        {
        }
      }
    } else {
      RunAppend(entries, NodeEvents(cs[0]), ChildrenEvents(cs[1..]), s, oracle);
      NodeRun(entries, cs[0], s, oracle);
      var s1 := Run(entries, NodeEvents(cs[0]), s, oracle).0;
      ChildrenRun(entries, cs[1..], s1, oracle);
      AppendAllTwice(s.buffers, Markup(cs[0]), ChildrenMarkup(cs[1..]));
      var r := Run(entries, ChildrenEvents(cs[1..]), s1, oracle).0;
      forall k | |s.calls| <= k < |r.calls|
        ensures |Join(s.stack)| < |r.calls[k].path.path|
      {
        if k < |s1.calls| {
          assert r.calls[k] == s1.calls[k];
        }
      }
    }
  }

  /** A whole document: the parse completes, the path is back to the
      initial [""], no buffer is left open, and every key whose text is
      "/" followed by the document element's name gets the whole document,
      rebuilt, as its element. */
  lemma DocumentRun(entries: Table, root: Node, oracle: Oracle)
    requires |entries| >= 1 && root.Element?
    ensures var p := Parse(entries, NodeEvents(root), oracle);
      && p.Some?
      && p.value.1 == Completed
      && p.value.0.stack == [""]
      && p.value.0.buffers == map[]
      && p.value.0.namespaces == NodeNamespaces([], root)
      && forall k :: 0 <= k < |p.value.0.calls| && p.value.0.calls[k].path.path == "/" + root.tag ==>
           p.value.0.calls[k].payload == ElementPayload(ElementFragment(NodeNamespaces([], root), Markup(root)))
  {
    NodeRun(entries, root, InitialSession(), oracle);
    JoinSnoc([""], root.tag);
    assert AppendAll(map[], Markup(root)) == map[];
  }

  /** A key whose callbacks were all detached is still a key: the parse
      still runs. */
  lemma DetachedKeyStillParses(p: PathRef, cb: CallbackId, events: seq<Event>, oracle: Oracle)
    ensures DetachIn([Entry(p, [cb])], p, cb) == [Entry(p, [])]
    ensures Parse(DetachIn([Entry(p, [cb])], p, cb), events, oracle).Some?
  {
    assert Find([Entry(p, [cb])], p) == 0;
    assert Remove([cb], cb) == Remove([], cb) == [];
  }

  /** One key for a path that is not in the document "<dummy></dummy>": the
      path goes to "/dummy" and back to "", no buffer is opened and no
      callback runs. */
  lemma DummyDocumentWithoutMatch(oracle: Oracle)
    ensures var entries := [Entry(PathRef(0, "/not/existing/path"), [0])];
      Parse(entries, [Start("dummy", []), End("dummy")], oracle)
        == Some((Session([""], map[], [], []), Completed))
  {
    var entries := [Entry(PathRef(0, "/not/existing/path"), [0])];
    RootPath();
    var s1 := StartStep(entries, InitialSession(), "dummy", [], oracle);
    assert "/dummy" != "/not/existing/path" by {
      assert "/dummy"[1] != "/not/existing/path"[1];
    }
    assert !HasPath(entries, "/dummy");
    assert s1 == Session(["", "dummy"], map[], [], []);
    FirePathsNoKey(entries, "/dummy", ElementPayload(""), oracle, []);
    assert EndStep(entries, s1, "dummy", oracle) == Stepped(Session([""], map[], [], []));
    assert [Start("dummy", []), End("dummy")][1..] == [End("dummy")];
  }

  // ---------------------------------------------------------------------
  //  STOP_FILE_PROCESSING in a nested document

  /** The keys "/root/child" (registered first) and "/root", one callback
      each. */
  function NestedKeys(root: string, child: string): Table {
    [Entry(PathRef(0, "/" + root + "/" + child), [0]), Entry(PathRef(1, "/" + root), [1])]
  }

  /** "<root><child></child></root>" as handler calls. */
  function NestedEvents(root: string, child: string): seq<Event> {
    [Start(root, []), Start(child, []), End(child), End(root)]
  }

  lemma NestedPaths(root: string, child: string)
    ensures Join(["", root]) == "/" + root
    ensures Join(["", root, child]) == "/" + root + "/" + child
    ensures "/" + root != "/" + root + "/" + child
    ensures IsSubstring("/" + root, "/" + root + "/" + child)
    ensures IsSubstring("/" + root, "/" + root)
    ensures IsSubstring("/" + root + "/" + child, "/" + root + "/" + child)
  {
    JoinSnoc([""], root);
    assert [""] + [root] == ["", root];
    JoinSnoc(["", root], child);
    assert ["", root] + [child] == ["", root, child];
    var outer := "/" + root;
    var current := "/" + root + "/" + child;
    assert |outer| < |current|;
    assert OccursAt(outer, current, 0) by { assert current[..|outer|] == outer; }
    assert OccursAt(outer, outer, 0);
    assert OccursAt(current, current, 0);
  }

  /** Appending to the one buffer of the current path. */
  lemma AppendOnly(current: string, text: string, data: string)
    requires IsSubstring(current, current)
    ensures AppendData(map[current := text], current, data) == map[current := text + data]
  {
    var r := AppendData(map[current := text], current, data);
    assert r.Keys == {current};
  }

  /** Appending to the buffers of an element and its parent. */
  lemma AppendNested(outer: string, current: string, outerText: string, text: string, data: string)
    requires outer != current && IsSubstring(outer, current) && IsSubstring(current, current)
    ensures AppendData(map[outer := outerText, current := text], current, data)
         == map[outer := outerText + data, current := text + data]
  {
    var r := AppendData(map[outer := outerText, current := text], current, data);
    assert r.Keys == {outer, current};
  }

  lemma NestedOpenRoot(root: string, child: string, oracle: Oracle)
    ensures StartStep(NestedKeys(root, child), InitialSession(), root, [], oracle)
         == Session(["", root], map["/" + root := StartTagText(root, [])], [], [])
  {
    var keys := NestedKeys(root, child);
    var current := "/" + root;
    var start := StartTagText(root, []);
    NestedPaths(root, child);
    assert InitialSession().stack + [root] == ["", root];
    assert HasPath(keys, current) by { assert keys[1].key.path == current; }
    assert FireAttributes(keys, current, [], oracle, []) == ([], false);
    assert OpenBuffer(keys, map[], current) == map[current := ""];
    AppendOnly(current, "", start);
    assert "" + start == start;
    assert RecordNamespaces([], []) == [];
  }

  lemma NestedOpenChild(root: string, child: string, rootText: string, oracle: Oracle)
    ensures StartStep(NestedKeys(root, child), Session(["", root], map["/" + root := rootText], [], []), child, [], oracle)
         == Session(["", root, child],
                    map["/" + root := rootText + StartTagText(child, []), "/" + root + "/" + child := StartTagText(child, [])], [], [])
  {
    var keys := NestedKeys(root, child);
    var outer := "/" + root;
    var current := "/" + root + "/" + child;
    var start := StartTagText(child, []);
    NestedPaths(root, child);
    assert ["", root] + [child] == ["", root, child];
    assert HasPath(keys, current) by { assert keys[0].key.path == current; }
    assert FireAttributes(keys, current, [], oracle, []) == ([], false);
    assert OpenBuffer(keys, map[outer := rootText], current) == map[outer := rootText, current := ""];
    AppendNested(outer, current, rootText, "", start);
    assert "" + start == start;
    assert RecordNamespaces([], []) == [];
  }

  lemma NestedFireChild(root: string, child: string, payload: Payload, oracle: Oracle)
    requires forall n, c :: oracle(n, c) == StopFile
    ensures FirePaths(NestedKeys(root, child), "/" + root + "/" + child, payload, oracle, [])
         == ([Invocation(PathRef(0, "/" + root + "/" + child), 0, payload)], true)
  {
    var key := PathRef(0, "/" + root + "/" + child);
    var call := Invocation(key, 0, payload);
    var none: seq<Invocation> := [];
    assert oracle(|none|, call) == StopFile;
    assert none + [call] == [call];
    assert RunCallbacks(key, [0], payload, oracle, none) == ([call], StopFile);
  }

  lemma NestedFireRoot(root: string, child: string, payload: Payload, first: Invocation, oracle: Oracle)
    requires forall n, c :: oracle(n, c) == StopFile
    ensures FirePaths(NestedKeys(root, child), "/" + root, payload, oracle, [first])
         == ([first, Invocation(PathRef(1, "/" + root), 1, payload)], true)
  {
    var keys := NestedKeys(root, child);
    var key := PathRef(1, "/" + root);
    var call := Invocation(key, 1, payload);
    assert oracle(|[first]|, call) == StopFile;
    assert [first] + [call] == [first, call];
    assert RunCallbacks(key, [1], payload, oracle, [first]) == ([first, call], StopFile);
    assert keys[0].key.path != "/" + root by { assert |keys[0].key.path| > |"/" + root|; }
    assert FirePaths(keys[1..], "/" + root, payload, oracle, [first]) == ([first, call], true);
  }

  /** An end tag whose path has an open buffer. */
  lemma EndStepOpen(entries: Table, s: Session, tag: string, oracle: Oracle, current: string, buffers: map<string, string>)
    requires current == Join(s.stack) && |s.stack| >= 1
    requires buffers == AppendData(s.buffers, current, EndTagText(tag)) && current in buffers
    ensures EndStep(entries, s, tag, oracle)
         == Stepped(Session(s.stack[..|s.stack| - 1], buffers - {current}, s.namespaces,
                            FirePaths(entries, current, ElementPayload(ElementFragment(s.namespaces, buffers[current])), oracle, s.calls).0))
  {
  }

  lemma NestedCloseChild(root: string, child: string, rootText: string, childText: string, oracle: Oracle)
    requires forall n, c :: oracle(n, c) == StopFile
    ensures EndStep(NestedKeys(root, child),
                    Session(["", root, child], map["/" + root := rootText, "/" + root + "/" + child := childText], [], []),
                    child, oracle)
         == Stepped(Session(["", root], map["/" + root := rootText + EndTagText(child)], [],
                            [Invocation(PathRef(0, "/" + root + "/" + child), 0, ElementPayload(childText + EndTagText(child)))]))
  {
    var outer := "/" + root;
    var current := "/" + root + "/" + child;
    var end := EndTagText(child);
    var s := Session(["", root, child], map[outer := rootText, current := childText], [], []);
    NestedPaths(root, child);
    AppendNested(outer, current, rootText, childText, end);
    var buffers := map[outer := rootText + end, current := childText + end];
    EndStepOpen(NestedKeys(root, child), s, child, oracle, current, buffers);
    FragmentWithoutNamespaces(childText + end);
    NestedFireChild(root, child, ElementPayload(childText + end), oracle);
    assert s.stack[..2] == ["", root];
    assert buffers - {current} == map[outer := rootText + end];
  }

  lemma NestedCloseRoot(root: string, child: string, rootText: string, first: Invocation, oracle: Oracle)
    requires forall n, c :: oracle(n, c) == StopFile
    ensures EndStep(NestedKeys(root, child), Session(["", root], map["/" + root := rootText], [], [first]), root, oracle)
         == Stepped(Session([""], map[], [],
                            [first, Invocation(PathRef(1, "/" + root), 1, ElementPayload(rootText + EndTagText(root)))]))
  {
    var current := "/" + root;
    var end := EndTagText(root);
    var s := Session(["", root], map[current := rootText], [], [first]);
    NestedPaths(root, child);
    AppendOnly(current, rootText, end);
    var buffers := map[current := rootText + end];
    EndStepOpen(NestedKeys(root, child), s, root, oracle, current, buffers);
    FragmentWithoutNamespaces(rootText + end);
    NestedFireRoot(root, child, ElementPayload(rootText + end), first, oracle);
    assert s.stack[..1] == [""];
    assert buffers - {current} == map[];
  }

  /** STOP_FILE_PROCESSING from the callback of "/root/child" does not end
      the stream: in "<root><child></child></root>", with every callback
      answering STOP_FILE_PROCESSING, the end tag of the outer element
      still calls the callback of "/root" (with the whole document), and
      the parse completes. */
  lemma StopFileDoesNotEndStream(root: string, child: string, oracle: Oracle)
    requires forall n, c :: oracle(n, c) == StopFile
    ensures var inner := StartTagText(child, []) + EndTagText(child);
      Parse(NestedKeys(root, child), NestedEvents(root, child), oracle)
        == Some((Session([""], map[], [],
                         [Invocation(PathRef(0, "/" + root + "/" + child), 0, ElementPayload(inner)),
                          Invocation(PathRef(1, "/" + root), 1, ElementPayload(StartTagText(root, []) + inner + EndTagText(root)))]),
                 Completed))
  {
    var keys := NestedKeys(root, child);
    var rootText := StartTagText(root, []);
    var start := StartTagText(child, []);
    var inner := start + EndTagText(child);
    var s1 := Session(["", root], map["/" + root := rootText], [], []);
    var s2 := Session(["", root, child], map["/" + root := rootText + start, "/" + root + "/" + child := start], [], []);
    var first := Invocation(PathRef(0, "/" + root + "/" + child), 0, ElementPayload(inner));
    var s3 := Session(["", root], map["/" + root := rootText + inner], [], [first]);
    var last := Invocation(PathRef(1, "/" + root), 1, ElementPayload(rootText + inner + EndTagText(root)));
    var s4 := Session([""], map[], [], [first, last]);
    NestedOpenRoot(root, child, oracle);
    NestedOpenChild(root, child, rootText, oracle);
    NestedCloseChild(root, child, rootText + start, start, oracle);
    assert rootText + start + EndTagText(child) == rootText + inner;
    NestedCloseRoot(root, child, rootText + inner, first, oracle);
    var events := NestedEvents(root, child);
    assert Run(keys, events[3..], s3, oracle) == (s4, Completed) by {
      assert events[3..] == [End(root)];
    }
    assert Run(keys, events[2..], s2, oracle) == (s4, Completed) by {
      assert events[2..][1..] == events[3..];
    }
    assert Run(keys, events[1..], s1, oracle) == (s4, Completed) by {
      assert events[1..][1..] == events[2..];
    }
  }

  // ---------------------------------------------------------------------
  //  Who is called, when every callback returns nothing

  /** One call per callback of `p`, in attach order. */
  function Invocations(p: PathRef, cbs: seq<CallbackId>, payload: Payload): (r: seq<Invocation>)
    ensures |r| == |cbs|
    ensures forall k :: 0 <= k < |cbs| ==> r[k] == Invocation(p, cbs[k], payload)
  {
    seq(|cbs|, k requires 0 <= k < |cbs| => Invocation(p, cbs[k], payload))
  }

  /** Every callback of every key whose text is `target`, key by key. */
  function AllInvocations(entries: Table, target: string, payload: Payload): seq<Invocation> {
    if entries == [] then []
    else (if entries[0].key.path == target then Invocations(entries[0].key, entries[0].callbacks, payload) else [])
         + AllInvocations(entries[1..], target, payload)
  }

  lemma {:induction false} RunCallbacksAnswered(p: PathRef, cbs: seq<CallbackId>, payload: Payload, oracle: Oracle, calls: seq<Invocation>)
    requires forall k: nat, c: Invocation :: oracle(k, c) == Continue
    ensures RunCallbacks(p, cbs, payload, oracle, calls) == (calls + Invocations(p, cbs, payload), Continue)
  {
    var r := RunCallbacks(p, cbs, payload, oracle, calls);
    assert r.0 == calls + Invocations(p, cbs, payload);
  }

  lemma MatchingKeyStep(entries: Table, target: string, payload: Payload, oracle: Oracle, calls: seq<Invocation>, mid: seq<Invocation>)
    requires entries != [] && entries[0].key.path == target
    requires RunCallbacks(entries[0].key, entries[0].callbacks, payload, oracle, calls) == (mid, Continue)
    ensures FirePaths(entries, target, payload, oracle, calls) == FirePaths(entries[1..], target, payload, oracle, mid)
  {
  }

  /** With callbacks that return nothing special, the key loop calls every
      callback of every matching key exactly once, in order (the partner of
      FirePaths). */
  lemma {:induction false} FirePathsAnswered(entries: Table, target: string, payload: Payload, oracle: Oracle, calls: seq<Invocation>)
    requires forall k: nat, c: Invocation :: oracle(k, c) == Continue
    ensures FirePaths(entries, target, payload, oracle, calls) == (calls + AllInvocations(entries, target, payload), false)
    decreases |entries|, 1
  {
    if entries == [] {
      assert calls + [] == calls;
    } else if entries[0].key.path == target {
      AnsweredMatching(entries, target, payload, oracle, calls);
    } else {
      AnsweredSkipping(entries, target, payload, oracle, calls);
    }
  }

  lemma {:induction false} AnsweredMatching(entries: Table, target: string, payload: Payload, oracle: Oracle, calls: seq<Invocation>)
    requires forall k: nat, c: Invocation :: oracle(k, c) == Continue
    requires entries != [] && entries[0].key.path == target
    ensures FirePaths(entries, target, payload, oracle, calls) == (calls + AllInvocations(entries, target, payload), false)
    decreases |entries|, 0
  {
    RunCallbacksAnswered(entries[0].key, entries[0].callbacks, payload, oracle, calls);
    var first := Invocations(entries[0].key, entries[0].callbacks, payload);
    var mid := calls + first;
    MatchingKeyStep(entries, target, payload, oracle, calls, mid);
    FirePathsAnswered(entries[1..], target, payload, oracle, mid);
    MatchingInvocations(entries, target, payload, calls);
  }

  lemma MatchingInvocations(entries: Table, target: string, payload: Payload, calls: seq<Invocation>)
    requires entries != [] && entries[0].key.path == target
    ensures calls + Invocations(entries[0].key, entries[0].callbacks, payload) + AllInvocations(entries[1..], target, payload)
         == calls + AllInvocations(entries, target, payload)
  {
  }

  lemma {:induction false} AnsweredSkipping(entries: Table, target: string, payload: Payload, oracle: Oracle, calls: seq<Invocation>)
    requires forall k: nat, c: Invocation :: oracle(k, c) == Continue
    requires entries != [] && entries[0].key.path != target
    ensures FirePaths(entries, target, payload, oracle, calls) == (calls + AllInvocations(entries, target, payload), false)
    decreases |entries|, 0
  {
    FirePathsAnswered(entries[1..], target, payload, oracle, calls);
    assert FirePaths(entries, target, payload, oracle, calls) == FirePaths(entries[1..], target, payload, oracle, calls);
    assert AllInvocations(entries, target, payload) == [] + AllInvocations(entries[1..], target, payload);
    assert [] + AllInvocations(entries[1..], target, payload) == AllInvocations(entries[1..], target, payload);
  }

  // ---------------------------------------------------------------------
  //  One iteration at a time (for the loops of the reader class)

  lemma HasPathSnoc(entries: Table, j: nat, target: string)
    requires j < |entries|
    ensures HasPath(entries[..j + 1], target) <==> HasPath(entries[..j], target) || entries[j].key.path == target
  {
    if HasPath(entries[..j + 1], target) {
      var k :| 0 <= k < j + 1 && entries[..j + 1][k].key.path == target;
      if k < j {
        assert entries[..j][k] == entries[k];
      }
    }
    if HasPath(entries[..j], target) {
      var k :| 0 <= k < j && entries[..j][k].key.path == target;
      assert entries[..j + 1][k] == entries[k];
    }
    assert entries[..j + 1][j] == entries[j];
  }

  lemma NoPathIn(entries: Table, target: string)
    requires forall k :: 0 <= k < |entries| ==> entries[k].key.path != target
    ensures !HasPath(entries, target)
  {
  }

  lemma RunCallbacksStep(p: PathRef, cbs: seq<CallbackId>, k: nat, payload: Payload, oracle: Oracle, calls: seq<Invocation>)
    requires k < |cbs|
    ensures var call := Invocation(p, cbs[k], payload);
      RunCallbacks(p, cbs[k..], payload, oracle, calls)
        == if oracle(|calls|, call) == Continue then RunCallbacks(p, cbs[k + 1..], payload, oracle, calls + [call])
           else (calls + [call], oracle(|calls|, call))
  {
    assert cbs[k..][0] == cbs[k] && cbs[k..][1..] == cbs[k + 1..];
  }

  lemma FirePathsStep(entries: Table, j: nat, target: string, payload: Payload, oracle: Oracle, calls: seq<Invocation>)
    requires j < |entries|
    ensures var r := RunCallbacks(entries[j].key, entries[j].callbacks, payload, oracle, calls);
      FirePaths(entries[j..], target, payload, oracle, calls)
        == if entries[j].key.path != target then FirePaths(entries[j + 1..], target, payload, oracle, calls)
           else if r.1 == StopFile then (r.0, true)
           else FirePaths(entries[j + 1..], target, payload, oracle, r.0)
  {
    assert entries[j..][0] == entries[j] && entries[j..][1..] == entries[j + 1..];
  }

  /** FirePathsStep for a key with another path. */
  lemma FirePathsSkip(entries: Table, j: nat, target: string, payload: Payload, oracle: Oracle, calls: seq<Invocation>)
    requires j < |entries| && entries[j].key.path != target
    ensures FirePaths(entries[j..], target, payload, oracle, calls) == FirePaths(entries[j + 1..], target, payload, oracle, calls)
  {
    assert entries[j..][0] == entries[j] && entries[j..][1..] == entries[j + 1..];
  }

  /** FirePathsStep for a key with the target path. */
  lemma FirePathsMatch(entries: Table, j: nat, target: string, payload: Payload, oracle: Oracle, calls: seq<Invocation>)
    requires j < |entries| && entries[j].key.path == target
    ensures var r := RunCallbacks(entries[j].key, entries[j].callbacks, payload, oracle, calls);
      FirePaths(entries[j..], target, payload, oracle, calls)
        == if r.1 == StopFile then (r.0, true) else FirePaths(entries[j + 1..], target, payload, oracle, r.0)
  {
    assert entries[j..][0] == entries[j] && entries[j..][1..] == entries[j + 1..];
  }

  lemma FireAttributesStep(entries: Table, current: string, attributes: seq<Attribute>, i: nat, oracle: Oracle, calls: seq<Invocation>)
    requires i < |attributes|
    ensures var a := attributes[i];
      var r := FirePaths(entries, current + "@" + a.name, AttributePayload(a.name, a.value), oracle, calls);
      FireAttributes(entries, current, attributes[i..], oracle, calls)
        == if r.1 then r else FireAttributes(entries, current, attributes[i + 1..], oracle, r.0)
  {
    assert attributes[i..][0] == attributes[i] && attributes[i..][1..] == attributes[i + 1..];
  }

  /** addData part way through its loop: the buffers outside `todo` have
      been appended to, the ones in `todo` are untouched. */
  ghost predicate PartlyAppended(orig: map<string, string>, cur: map<string, string>, todo: set<string>,
                                 current: string, data: string) {
    && cur.Keys == orig.Keys && todo <= orig.Keys
    && (forall k :: k in todo ==> cur[k] == orig[k])
    && (forall k :: k in orig && k !in todo ==> cur[k] == AppendData(orig, current, data)[k])
  }

  lemma AppendDataStep(orig: map<string, string>, cur: map<string, string>, todo: set<string>,
                       key: string, current: string, data: string)
    requires PartlyAppended(orig, cur, todo, current, data) && key in todo
    ensures PartlyAppended(orig, if IsSubstring(key, current) then cur[key := cur[key] + data] else cur,
                           todo - {key}, current, data)
  {
  }

  lemma AppendDataDone(orig: map<string, string>, cur: map<string, string>, current: string, data: string)
    requires PartlyAppended(orig, cur, {}, current, data)
    ensures cur == AppendData(orig, current, data)
  {
  }
}
