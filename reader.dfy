/**
 * The reader object (src/Reader/XmlStreamReader.php): the callback
 * registry and the parser variables are fields that its methods update in
 * place, as in the source.  Every method is proved against the functions
 * of Registry, Namespaces and Dispatch, whose properties are proved there.
 *
 * `calls` is not a field of the source: it records the callback
 * invocations of the current parse, so that what the callbacks were handed
 * can be stated.
 */
module Reader {

  import opened XmlPaths
  import opened Text
  import opened Registry
  import opened Events
  import opened Namespaces
  import opened Dispatch

  class XmlStreamReader {
    var callbacks: Table
    var parserRunning: bool
    var currentPath: seq<string>
    var parsedNamespaces: NsTable
    var pathData: map<string, string>
    var calls: seq<Invocation>

    /** Keys are path objects, each once, with each callback once. */
    ghost predicate Valid()
      reads this
    {
      Registry.Valid(callbacks) && Validated(callbacks)
    }

    /** The parser variables and the call trace, as a session. */
    function State(): Session
      reads this
    {
      Session(currentPath, pathData, parsedNamespaces, calls)
    }

    /** getCurrentPath (371-374). */
    function GetCurrentPath(): string
      reads this
    {
      Join(currentPath)
    }

    /** The registry starts empty (the storage the source creates on first
        use). */
    constructor()
      ensures Valid()
      ensures callbacks == [] && !parserRunning
      ensures State() == Session([], map[], [], [])
    {
      callbacks := [];
      parserRunning := false;
      currentPath := [];
      parsedNamespaces := [];
      pathData := map[];
      calls := [];
    }

    // -------------------------------------------------------------------
    //  The registry

    /** registerCallback (124-137). */
    method RegisterCallback(path: PathRef, callback: CallbackId)
      requires Valid() && IsPathObject(path)
      modifies this`callbacks
      ensures Valid()
      ensures callbacks == Register(old(callbacks), path, callback)
    {
      RegisterAttaches(callbacks, path, callback);
      RegisterValidated(callbacks, path, callback);
      var storage := callbacks;
      var i := Find(storage, path);
      if i == |storage| {
        storage := storage + [Entry(path, [])];
      }
      if callback !in storage[i].callbacks {
        storage := storage[i := storage[i].(callbacks := storage[i].callbacks + [callback])];
      }
      assert i == |callbacks| ==> storage == callbacks + [Entry(path, [callback])];
      callbacks := storage;
    }

    /** deregisterCallback (144-157).  Without a path, the source hands null
        to deregisterCallbackInPath, whose parameter is not nullable: a
        TypeError (`thrown`), nothing detached.  With a path, the callback is
        detached from every key, whichever path was given. */
    method DeregisterCallback(callback: CallbackId, path: Option<PathRef>) returns (thrown: bool)
      requires Valid()
      modifies this`callbacks
      ensures Valid()
      ensures thrown <==> path.None?
      ensures callbacks == if path.None? then old(callbacks) else DetachEverywhere(old(callbacks), callback)
    {
      if path.None? {
        return true;
      }
      thrown := false;
      var j := 0;
      while j < |callbacks|
        invariant Valid()
        invariant 0 <= j <= |callbacks| == |old(callbacks)|
        invariant forall k :: 0 <= k < j ==>
          callbacks[k] == old(callbacks)[k].(callbacks := Remove(old(callbacks)[k].callbacks, callback))
        invariant forall k :: j <= k < |callbacks| ==> callbacks[k] == old(callbacks)[k]
      {
        FindAt(callbacks, callbacks[j].key, j);
        DeregisterCallbackInPath(callbacks[j].key, callback);
        j := j + 1;
      }
      DetachEverywhereEffect(old(callbacks), callback);
    }

    /** deregisterPath (163-174). */
    method DeregisterPath(path: PathRef)
      requires Valid()
      modifies this`callbacks
      ensures Valid()
      ensures callbacks == RemovePath(old(callbacks), path)
    {
      RemovePathRemoves(callbacks, path);
      var i := Find(callbacks, path);
      if i < |callbacks| {
        callbacks := callbacks[..i] + callbacks[i + 1..];
      }
    }

    /** deregisterCallbackInPath (203-214). */
    method DeregisterCallbackInPath(path: PathRef, callback: CallbackId)
      requires Valid()
      modifies this`callbacks
      ensures Valid()
      ensures callbacks == DetachIn(old(callbacks), path, callback)
    {
      DetachInValid(callbacks, path, callback);
      var i := Find(callbacks, path);
      if i == |callbacks| {
        return;
      }
      if callback in callbacks[i].callbacks {
        callbacks := callbacks[i := callbacks[i].(callbacks := Remove(callbacks[i].callbacks, callback))];
      } else {
        RemoveAbsent(callbacks[i].callbacks, callback);
      }
    }

    // -------------------------------------------------------------------
    //  Parsing

    /** parse (179-196) over the handler calls the tokenizer makes for the
        stream.  Without keys nothing happens.  Otherwise the variables are
        reset, `parserRunning` is set and the handlers run in order until
        the events run out or one of them does not return.  `stackDepth`
        bounds the nesting of PHP calls. */
    method Parse(events: seq<Event>, oracle: Oracle, stackDepth: nat) returns (outcome: Option<Outcome>)
      requires Valid()
      modifies this`parserRunning, this`currentPath, this`parsedNamespaces, this`pathData, this`calls
      ensures outcome.None? <==> |callbacks| == 0
      ensures outcome.None? ==> State() == old(State()) && parserRunning == old(parserRunning)
      ensures outcome.Some? ==> parserRunning && Dispatch.Parse(callbacks, events, oracle) == Some((State(), outcome.value))
    {
      if |callbacks| == 0 {
        return None;
      }
      InitializeInternalParserVariables();
      parserRunning := true;
      var i := 0;
      while parserRunning && i < |events|
        invariant 0 <= i <= |events| && parserRunning
        invariant Run(callbacks, events, InitialSession(), oracle) == Run(callbacks, events[i..], State(), oracle)
        decreases |events| - i
      {
        assert events[i..][0] == events[i] && events[i..][1..] == events[i + 1..];
        match events[i] {
          case Start(tag, attributes) =>
            ParseNodeStart(tag, attributes, oracle);
          case End(tag) =>
            var failed := ParseNodeEnd(tag, oracle);
            if failed {
              return Some(PayloadFailed);
            }
          case Default(text) =>
            AddData(text);
          case CData(text) =>
            var finished := AddCData(text, stackDepth);
            return Some(Diverged);
          case Malformed =>
            return Some(ParseFailed);
        }
        i := i + 1;
      }
      return Some(Completed);
    }

    /** initializeInternalParserVariables (219-229); the call trace of the
        new parse starts empty. */
    method InitializeInternalParserVariables()
      modifies this`parserRunning, this`currentPath, this`parsedNamespaces, this`pathData, this`calls
      ensures !parserRunning && State() == InitialSession()
    {
      parserRunning := false;
      currentPath := [""];
      parsedNamespaces := [];
      pathData := map[];
      calls := [];
    }

    /** parseNodeStart (277-312). */
    method ParseNodeStart(tag: string, attributes: seq<Attribute>, oracle: Oracle)
      modifies this`currentPath, this`parsedNamespaces, this`pathData, this`calls
      ensures State() == StartStep(callbacks, old(State()), tag, attributes, oracle)
    {
      currentPath := currentPath + [tag];
      var stopParsing := FireAttributeCallbacks(attributes, oracle);
      OpenBuffers();
      var data := StartTagData(tag, attributes);
      AddData(data);
    }

    /** The loop of parseNodeStart (284-293): a key equal to the current
        path gets an empty buffer unless one is open already. */
    method OpenBuffers()
      modifies this`pathData
      ensures pathData == OpenBuffer(callbacks, old(pathData), GetCurrentPath())
    {
      var current := GetCurrentPath();
      var j := 0;
      while j < |callbacks|
        invariant 0 <= j <= |callbacks|
        invariant pathData == OpenBuffer(callbacks[..j], old(pathData), current)
      {
        HasPathSnoc(callbacks, j, current);
        if callbacks[j].key.path == current && current !in pathData {
          pathData := pathData[current := ""];
        }
        j := j + 1;
      }
      assert callbacks[..j] == callbacks;
    }

    /** The start tag text of parseNodeStart (295-308), recording every
        namespace declaration among the attributes on the way. */
    method StartTagData(tag: string, attributes: seq<Attribute>) returns (data: string)
      modifies this`parsedNamespaces
      ensures data == StartTagText(tag, attributes)
      ensures parsedNamespaces == RecordNamespaces(old(parsedNamespaces), attributes)
    {
      data := "<" + tag;
      var k := 0;
      while k < |attributes|
        invariant 0 <= k <= |attributes|
        invariant data == "<" + tag + AttributeText(attributes[..k])
        invariant parsedNamespaces == RecordNamespaces(old(parsedNamespaces), attributes[..k])
      {
        var name := attributes[k].name;
        var value := EscapeEntities(attributes[k].value);
        OpenTagStep(tag, attributes, k);
        assert attributes[..k + 1][..k] == attributes[..k];
        data := data + " " + name + "=\"" + value + "\"";
        if DeclaresNamespace(name) {
          parsedNamespaces := Upsert(parsedNamespaces, NamespaceKey(name), value);
        }
        k := k + 1;
      }
      assert attributes[..k] == attributes;
      data := data + ">";
    }

    /** parseNodeEnd (314-346).  `failed` is the exception thrown when an
        element is built from a buffer that is not there. */
    method ParseNodeEnd(tag: string, oracle: Oracle) returns (failed: bool)
      modifies this`currentPath, this`pathData, this`calls
      ensures failed == EndStep(callbacks, old(State()), tag, oracle).PayloadError?
      ensures State() == EndStep(callbacks, old(State()), tag, oracle).session
    {
      AddData("</" + tag + ">");
      var current := GetCurrentPath();
      failed := FireElementCallbacks(current, oracle);
      if failed {
        return;
      }
      pathData := pathData - {current};
      if |currentPath| > 0 {
        currentPath := currentPath[..|currentPath| - 1];
      }
    }

    /** What the callbacks of `current` are handed at its end tag: the
        element built from its buffer (empty when there is none, in which
        case building it throws). */
    ghost function EndPayload(current: string): Payload
      reads this`pathData, this`parsedNamespaces
    {
      ElementPayload(if current in pathData then ElementFragment(parsedNamespaces, pathData[current]) else "")
    }

    /** The key loop of parseNodeEnd (321-340): every key whose text is
        `current` gets the element built from the buffer of `current`,
        until a callback answers STOP_FILE_PROCESSING.  Building the element
        fails, before any callback runs, when that buffer is not open. */
    method FireElementCallbacks(current: string, oracle: Oracle) returns (failed: bool)
      modifies this`calls
      ensures failed <==> HasPath(callbacks, current) && current !in pathData
      ensures failed ==> calls == old(calls)
      ensures !failed ==> calls == FirePaths(callbacks, current, EndPayload(current), oracle, old(calls)).0
    {
      ghost var present := current in pathData;
      ghost var payload := EndPayload(current);
      ghost var fired := FirePaths(callbacks, current, payload, oracle, calls);
      var j := 0;
      while j < |callbacks|
        invariant 0 <= j <= |callbacks|
        invariant !present ==> calls == old(calls) && forall k :: 0 <= k < j ==> callbacks[k].key.path != current
        invariant fired == FirePaths(callbacks[j..], current, payload, oracle, calls)
      {
        var thrown, stop := FireKeyAt(j, current, payload, oracle);
        if thrown {
          assert callbacks[j].key.path == current;
          return true;
        }
        if stop {
          return false;
        }
        j := j + 1;
      }
      if !present {
        NoPathIn(callbacks, current);
      }
      return false;
    }

    /** One iteration of the key loop of parseNodeEnd (322-339): a key with
        another text is skipped; for a key whose text is `current` the
        element is built, which throws when its buffer is not open, and its
        callbacks run. */
    method FireKeyAt(j: nat, current: string, ghost payload: Payload, oracle: Oracle) returns (thrown: bool, stop: bool)
      requires j < |callbacks|
      requires payload == EndPayload(current)
      modifies this`calls
      ensures thrown <==> callbacks[j].key.path == current && current !in pathData
      ensures thrown || callbacks[j].key.path != current ==> calls == old(calls)
      ensures stop ==> callbacks[j].key.path == current
      ensures !thrown && stop ==> FirePaths(callbacks[j..], current, payload, oracle, old(calls)) == (calls, true)
      ensures !thrown && !stop ==>
        FirePaths(callbacks[j..], current, payload, oracle, old(calls)) == FirePaths(callbacks[j + 1..], current, payload, oracle, calls)
    {
      if callbacks[j].key.path != current {
        FirePathsSkip(callbacks, j, current, payload, oracle, calls);
        return false, false;
      }
      FirePathsMatch(callbacks, j, current, payload, oracle, calls);
      var signal;
      thrown, signal := FireKey(callbacks[j].key, callbacks[j].callbacks, current, oracle);
      stop := signal == StopFile;
    }

    /** One matching key of parseNodeEnd (327-339): the element is built
        from the buffer of `current`, which throws when there is none, and
        handed to the key's callbacks. */
    method FireKey(key: PathRef, cbs: seq<CallbackId>, current: string, oracle: Oracle) returns (thrown: bool, signal: Signal)
      modifies this`calls
      ensures thrown <==> current !in pathData
      ensures thrown ==> calls == old(calls)
      ensures !thrown ==>
        (calls, signal) == RunCallbacks(key, cbs, ElementPayload(ElementFragment(parsedNamespaces, pathData[current])), oracle, old(calls))
    {
      var element, ok := CreateElementPayload(current);
      if !ok {
        return true, Continue;
      }
      signal := InvokeCallbacks(key, cbs, element, oracle);
      thrown := false;
    }

    /** The inner loop of 329-339 and 389-398: the callbacks of one key, in
        attach order, until one answers STOP_PATH_PROCESSING or
        STOP_FILE_PROCESSING, which is returned. */
    method InvokeCallbacks(key: PathRef, cbs: seq<CallbackId>, payload: Payload, oracle: Oracle) returns (signal: Signal)
      modifies this`calls
      ensures (calls, signal) == RunCallbacks(key, cbs, payload, oracle, old(calls))
    {
      var k := 0;
      while k < |cbs|
        invariant 0 <= k <= |cbs|
        invariant RunCallbacks(key, cbs, payload, oracle, old(calls)) == RunCallbacks(key, cbs[k..], payload, oracle, calls)
      {
        RunCallbacksStep(key, cbs, k, payload, oracle, calls);
        var call := Invocation(key, cbs[k], payload);
        var answer := oracle(|calls|, call);
        calls := calls + [call];
        if answer != Continue {
          return answer;
        }
        k := k + 1;
      }
      return Continue;
    }

    /** addCData (348-356): the data is escaped for a CDATA section and
        handed, wrapped in one, to addCData itself, without end.  Each call
        takes one level of the PHP call stack; `depth` is how many are left.
        It never returns normally. */
    method AddCData(data: string, depth: nat) returns (finished: bool)
      ensures !finished
      decreases depth
    {
      var section := CDataSection(data);
      if depth == 0 {
        return false;
      }
      finished := AddCData(section, depth - 1);
    }

    /** addData (358-369): every buffer whose key occurs in the current path
        gets `data`. */
    method AddData(data: string)
      modifies this`pathData
      ensures pathData == AppendData(old(pathData), GetCurrentPath(), data)
    {
      var current := GetCurrentPath();
      var todo := pathData.Keys;
      while todo != {}
        invariant PartlyAppended(old(pathData), pathData, todo, current, data)
        decreases |todo|
      {
        var key :| key in todo;
        AppendDataStep(old(pathData), pathData, todo, key, current, data);
        if IsSubstring(key, current) {
          pathData := pathData[key := pathData[key] + data];
        }
        todo := todo - {key};
      }
      AppendDataDone(old(pathData), pathData, current, data);
    }

    /** fireAttributeCallbacks (376-402); `stopped` is its `return false`. */
    method FireAttributeCallbacks(attributes: seq<Attribute>, oracle: Oracle) returns (stopped: bool)
      modifies this`calls
      ensures (calls, stopped) == FireAttributes(callbacks, GetCurrentPath(), attributes, oracle, old(calls))
    {
      var current := GetCurrentPath();
      var i := 0;
      while i < |attributes|
        invariant 0 <= i <= |attributes|
        invariant FireAttributes(callbacks, current, attributes, oracle, old(calls))
               == FireAttributes(callbacks, current, attributes[i..], oracle, calls)
      {
        var name := attributes[i].name;
        var target := current + "@" + name;
        var payload := AttributePayload(name, attributes[i].value);
        FireAttributesStep(callbacks, current, attributes, i, oracle, calls);
        ghost var fired := FirePaths(callbacks, target, payload, oracle, calls);
        var j := 0;
        while j < |callbacks|
          invariant 0 <= j <= |callbacks|
          invariant fired == FirePaths(callbacks[j..], target, payload, oracle, calls)
        {
          FirePathsStep(callbacks, j, target, payload, oracle, calls);
          if callbacks[j].key.path == target {
            var signal := InvokeCallbacks(callbacks[j].key, callbacks[j].callbacks, payload, oracle);
            if signal == StopFile {
              return true;
            }
          }
          j := j + 1;
        }
        i := i + 1;
      }
      return false;
    }

    /** createElementPayload (413-440): the bindings whose key is declared
        in the buffer are dropped, the rest are written as declarations
        right after the first tag name.  `ok` is false when there is no
        buffer for the path: the null buffer becomes "", which the element
        constructor rejects. */
    method CreateElementPayload(path: string) returns (payload: Payload, ok: bool)
      ensures ok <==> path in pathData
      ensures ok ==> payload == ElementPayload(ElementFragment(parsedNamespaces, pathData[path]))
    {
      if path !in pathData {
        return ElementPayload(""), false;
      }
      var buffer := pathData[path];
      var namespaces := UnsetDeclared(parsedNamespaces, DeclaredPrefixes(buffer));
      var declarations := DeclarationList(namespaces);
      return ElementPayload(Inject(buffer, declarations)), true;
    }

    /** The first loop of createElementPayload (421-428): a copy of the
        recorded namespaces without every prefix the buffer declares itself. */
    static method UnsetDeclared(table: NsTable, names: seq<string>) returns (namespaces: NsTable)
      ensures namespaces == Undeclared(table, names)
    {
      namespaces := table;
      UndeclaredKeepsAll(table, names[..0]);
      var j := 0;
      while j < |names|
        invariant 0 <= j <= |names|
        invariant namespaces == Undeclared(table, names[..j])
      {
        UnsetStep(table, names, j);
        if Lookup(namespaces, names[j]).Some? {
          namespaces := RemoveKey(namespaces, names[j]);
        }
        j := j + 1;
      }
      assert names[..j] == names;
    }

    /** The second loop of createElementPayload (430-432): one declaration
        per remaining namespace, in table order. */
    static method DeclarationList(namespaces: NsTable) returns (declarations: string)
      ensures declarations == Declarations(namespaces)
    {
      declarations := "";
      var k := 0;
      while k < |namespaces|
        invariant 0 <= k <= |namespaces|
        invariant declarations == Declarations(namespaces[..k])
      {
        assert namespaces[..k + 1][..k] == namespaces[..k];
        declarations := declarations + DeclarationText(namespaces[k]);
        k := k + 1;
      }
      assert namespaces[..k] == namespaces;
    }
  }
}
