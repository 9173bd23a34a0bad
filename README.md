# XML stream reader: path validation and path-matching dispatch

This project models the core of MetaSyntactical XML Tools, a PHP library that reads an XML document as a stream and, for every element whose path has been registered, hands that element (rebuilt as a standalone fragment) to the registered callbacks.

Two source files are modelled:

- `src/Reader/XmlPath.php` is the path value object. Its constructor accepts a string only when the string matches
  `(?mi-Us)^(/[a-zA-Z][a-zA-Z0-9_-]*)+(/@[a-zA-Z][a-zA-Z0-9_-]*)?$`, and it then stores the string unchanged.
  - Module `XmlPaths` (`xml_path.dfy`) implements this as a hand-written automaton for one line.
  - Because of the `m` flag, a string is accepted as soon as one of its `\n`-separated lines matches. The model accepts exactly that.
  - The lemmas prove that the automaton recognises exactly the path grammar. They also prove the shape of every accepted path and the accept and reject lists of the test suite.
- `src/Reader/XmlStreamReader.php` is the reader. Its model is split into five modules:
  - `Registry` (`registry.dfy`): the callback registry. It is an insertion-ordered storage keyed by path-object identity, holding identity-deduplicated callbacks.
  - `Text` (`text.dfy`): the string primitives the reader uses.
    - `str_replace`, `strpos` and `stripos`.
    - The entity escaping of `htmlentities` (the five predefined entities of section 4.6 of XML 1.0), proved against a decoder.
    - The CDATA escaping of `addCData` (section 2.7 of XML 1.0), read back by a decoder. The code drops the `>` of every `]]>`, so a section reads back with each `]]>` turned into `]]`. The escape that keeps the `>` is modelled beside it and proved to round-trip.
  - `Events` (`events.dfy`): what the expat tokenizer hands to the handlers.
    - A document is given as its sequence of handler calls, or as a tree.
    - Start and end tags are rebuilt as text. A reader for the rebuilt start tag proves that the rebuilding loses nothing.
  - `Namespaces` (`namespaces.dfy`): two pieces of `createElementPayload`.
    - The namespace table that `parseNodeStart` fills.
    - The fragment string `createElementPayload` builds: the scan for `xmlns:NAME="..."` and the injection of declarations after the leading tag name.
  - `Dispatch` (`dispatch.dfy`): the handlers as functions over a session value. A session is the path stack, the open buffers, the namespace table and the trace of callback invocations.
    - The subtree theorem: at an element's end tag, every open buffer holds exactly the element's markup.
    - Independence of the parse from what callbacks return.
    - The proof that attribute callbacks never fire.
    - The calls made when every callback returns nothing special.
- `Reader` (`reader.dfy`) is the class `XmlStreamReader`. Its fields are updated in place by methods with the source's loops. Each method is proved against the functions of the modules above.

Callbacks are opaque. The value a callback returns comes from an oracle, which is given the invocation's position in the session's call trace and the invocation itself.

The result is one of three signals:

- STOP_PATH_PROCESSING;
- STOP_FILE_PROCESSING;
- anything else (`Continue`).

The call trace (`calls`) is not a field of the PHP class. It records every invocation, as (path object, callback, payload), so that the contracts can state what the callbacks were handed.

The model follows the code as written where it differs from what the doc-comments promise:

- STOP_FILE_PROCESSING never ends the stream.
  - In an end tag it only skips the remaining path objects of that end tag (`Dispatch.FirePathsStops`, `Dispatch.StopFileDoesNotEndStream`).
  - In an attribute it only skips the remaining attributes, and its result is ignored.
- The attribute path is the current path followed by `@name`, without a `/`. So it never equals a validated path, and attribute callbacks never fire.
- `deregisterCallback` with a path removes the callback from every path. Without a path it passes `null` on and throws a type error.
- `addCData` calls itself, not `addData`. So any character data makes the handler recurse until the PHP call stack is exhausted.
- `addCData` replaces every `]]>` of the data with `]]]]><![CDATA[`, without a `>` after the second `<![CDATA[`. So the `>` is lost: `a]]>b` reads back as `a]]b` (`Text.CDataLosesGreaterThan`). The section string the model builds uses this escape; `Text.IntendedEscapeCData` is the escape with the `>` kept.
- A namespace key keeps its colon (`xmlns:a` is stored under `:a`). The scan in `createElementPayload` captures names without the colon, so nothing is ever taken out of the table, and every fragment gets `xmlns::a="..."` declarations.
- At an end tag, a key may match the current path while no buffer is open for it. Building the payload then reads a missing buffer and throws; the model reports this as `PayloadFailed`. The buffer is opened at the start tag, so this cannot happen in a stream whose tags nest (see `Dispatch.EndFacts` and `Dispatch.NodeRun`).

## Model

| member | source | states |
|---|---|---|
| XmlPaths.Construct | src/Reader/XmlPath.php:27-45 | construction succeeds exactly when the check accepts the string; the stored path is then the input unchanged; otherwise the failure carries the input |
| XmlPaths.NewlineFreeAcceptance | src/Reader/XmlPath.php:43 | a string without a line break is accepted iff it is one or more `/name` segments (letter, then letters, digits, `_`, `-`) optionally followed by one `/@name` |
| XmlPaths.GrammarMatches | src/Reader/XmlPath.php:43 | every string of the grammar drives the automaton to an accepting state |
| XmlPaths.MatchesGrammar | src/Reader/XmlPath.php:43 | every line the automaton accepts is a string of the grammar, whose segments and attribute it returns |
| XmlPaths.AcceptsSomeLine | src/Reader/XmlPath.php:43 | with the `m` flag, a string is accepted iff one of its `\n`-separated lines matches |
| XmlPaths.AcceptsAcrossLineBreak | src/Reader/XmlPath.php:43 | splitting at the first line break: accepted iff the first line matches or the rest is accepted |
| XmlPaths.SingleLine | src/Reader/XmlPath.php:43 | without a line break, acceptance is matching the whole string |
| XmlPaths.AcceptedShape | src/Reader/XmlPath.php:43 | an accepted newline-free path has length at least 2, starts with `/`, does not end with `/`, has no `//`, at most one `@`, and that `@` follows a `/` and is followed by no `/` or `@` |
| XmlPaths.ReachedFacts | src/Reader/XmlPath.php:43 | what is known of the text read so far in each automaton state, kept by every step |
| XmlPaths.GrammarAccepted | src/Reader/XmlPath.php:43-45 | a newline-free string of the grammar constructs and keeps its text |
| XmlPaths.RejectedAfter | src/Reader/XmlPath.php:43 | a newline-free string with a prefix the automaton rejects fails with the assertion error |
| XmlPaths.TestSuiteValidPaths | tests/Reader/XmlPathTest.php:50-61 | all ten valid paths of the test suite construct and keep their text |
| XmlPaths.TestSuiteInvalidPaths | tests/Reader/XmlPathTest.php:40-42 | `/foo::siblings/bar`, `/foo[/bar]`, `/foo/@bar/baz` and the empty string fail with the "does not match expression" error |
| XmlPaths.InvalidSample0 | tests/Reader/XmlPathTest.php:71 | `/foo::siblings/bar` is rejected |
| XmlPaths.InvalidSample1 | tests/Reader/XmlPathTest.php:72 | `/foo[/bar]` is rejected |
| XmlPaths.InvalidSample2 | tests/Reader/XmlPathTest.php:73 | `/foo/@bar/baz` is rejected: nothing may follow the attribute |
| XmlPaths.AttributeThenSlash | tests/Reader/XmlPathTest.php:73 | the automaton rejects `/foo/@bar/` |
| XmlPaths.InvalidSampleEmpty | src/Reader/XmlPath.php:43 | the empty string is rejected |
| XmlPaths.LineBreakAccepted | src/Reader/XmlPath.php:43 | `"junk\n/foo"` and `"/foo\n"` are accepted, although `"junk\n/foo"` as a whole does not match |
| Text.ReplaceAllAbsent | src/Reader/XmlStreamReader.php:304 | replacing a pattern that does not occur leaves the text unchanged |
| Text.EscapeRoundTrip | src/Reader/XmlStreamReader.php:300 | decoding the entity-escaped value gives back the value |
| Text.EscapedHasNoMarkup | src/Reader/XmlStreamReader.php:300-301 | the escaped value contains none of `<`, `>`, `"`, `'`, so it can stand inside a quoted attribute |
| Text.CDataReadsBack | src/Reader/XmlStreamReader.php:352 | the escaped data followed by `]]>` reads back as the data with every `]]>` turned into `]]`: the glue drops the `>` |
| Text.CDataSectionReadsBack | src/Reader/XmlStreamReader.php:352-353 | the whole `<![CDATA[...]]>` string built for the data reads back as the data with every `]]>` turned into `]]` |
| Text.CDataWithoutEndRoundTrip | src/Reader/XmlStreamReader.php:352-353 | data that holds no `]]>` reads back unchanged |
| Text.CDataLosesGreaterThan | src/Reader/XmlStreamReader.php:352 | for `a]]>b` the section reads back as `a]]b`, while the escape that keeps the `>` reads back as `a]]>b` |
| Text.IntendedCDataRoundTrip | src/Reader/XmlStreamReader.php:352 | with the glue `]]]]><![CDATA[>` the escaped data followed by `]]>` reads back as the data |
| Text.IntendedCDataSectionRoundTrip | src/Reader/XmlStreamReader.php:352-353 | with the glue `]]]]><![CDATA[>` the whole section string reads back as the data |
| Registry.Find | src/Reader/XmlStreamReader.php:129 | the position of the first key that is the path object, or the table length when it is not a key |
| Registry.FindInKeys | src/Reader/XmlStreamReader.php:129 | `isset` of a path object holds iff it is among the keys |
| Registry.Remove | src/Reader/XmlStreamReader.php:209-211 | detaching removes the callback and keeps the count of every other callback |
| Registry.RegisterAttaches | src/Reader/XmlStreamReader.php:124-137 | registration keeps the registry valid, appends a new key after the existing ones, appends a new callback after the key's existing ones, and leaves the callback attached exactly once |
| Registry.RegisterIdempotent | src/Reader/XmlStreamReader.php:129-134 | registering the same pair twice equals registering it once |
| Registry.RegisterKeepsOthers | src/Reader/XmlStreamReader.php:124-137 | registration leaves the callbacks of every other key unchanged |
| Registry.RegisterValidated | src/Reader/XmlStreamReader.php:124 | only validated path objects become keys |
| Registry.RemovePathRemoves | src/Reader/XmlStreamReader.php:163-174 | deregisterPath keeps the registry valid, removes the key with all its callbacks, and changes nothing when the key is absent |
| Registry.RemovePathKeepsOthers | src/Reader/XmlStreamReader.php:169-171 | every other key stays, with its callbacks |
| Registry.RemovePathFind | src/Reader/XmlStreamReader.php:169-171 | every other key keeps its relative order |
| Registry.DetachEverywhereEffect | src/Reader/XmlStreamReader.php:152-154 | the loop of deregisterCallback keeps every key in place and detaches the callback from each |
| Registry.RemoveKeepsOrder | src/Reader/XmlStreamReader.php:209-211 | detaching keeps the other callbacks in their order |
| Registry.DetachInEffect | src/Reader/XmlStreamReader.php:203-214 | deregisterCallbackInPath detaches the callback from that key only, and keeps every key |
| Registry.RemoveAbsent | src/Reader/XmlStreamReader.php:209 | detaching a callback that is not attached changes nothing |
| Registry.RemoveDistinct | src/Reader/XmlStreamReader.php:209-211 | detaching keeps each callback attached at most once |
| Registry.DetachInValid | src/Reader/XmlStreamReader.php:203-214 | detaching keeps the registry valid |
| Events.AttributeTextSnoc | src/Reader/XmlStreamReader.php:297-307 | the attribute text grows by one ` name="escaped value"` per attribute, in order |
| Events.OpenTagStep | src/Reader/XmlStreamReader.php:296-301 | one round of the attribute loop appends exactly the next attribute's text |
| Events.ReadAttributesRoundTrip | src/Reader/XmlStreamReader.php:297-308 | the rebuilt attribute list reads back as the attributes with their original values |
| Events.StartTagRoundTrip | src/Reader/XmlStreamReader.php:296-308 | a rebuilt start tag reads back as its tag name and attributes, and reading stops right after its `>` |
| Namespaces.UpsertKeys | src/Reader/XmlStreamReader.php:305 | an assignment keeps the keys unique, keeps the order of existing keys, and appends a new one |
| Namespaces.UpsertLookup | src/Reader/XmlStreamReader.php:305 | after an assignment the key has the new value and every other key its old one |
| Namespaces.RecordKeys | src/Reader/XmlStreamReader.php:297-307 | the attributes of a start tag keep the keys unique, remove none, and keep the existing keys first in their order |
| Namespaces.RecordUndeclared | src/Reader/XmlStreamReader.php:303-306 | a key no attribute declares keeps its value |
| Namespaces.RecordLastWins | src/Reader/XmlStreamReader.php:303-306 | the last declaration of a key in a start tag wins, with its escaped value |
| Namespaces.KeyKeepsColon | src/Reader/XmlStreamReader.php:303-305 | `xmlns:p` is detected as a declaration and stored under `:p` |
| Namespaces.UpperCaseDeclaration | src/Reader/XmlStreamReader.php:303-304 | `XMLNS:a` is detected (case-insensitive) but stored under its whole name (case-sensitive replacement) |
| Namespaces.MatchAt | src/Reader/XmlStreamReader.php:419-421 | a match of the declaration pattern ends after its start and within the text |
| Namespaces.ScanSound | src/Reader/XmlStreamReader.php:419-421 | every captured name is nonempty, contains no `=`, and stands between `xmlns:` and `="` in the buffer |
| Namespaces.UndeclaredMembers | src/Reader/XmlStreamReader.php:422-427 | exactly the bindings whose key was not captured remain |
| Namespaces.UnsetStep | src/Reader/XmlStreamReader.php:423-426 | one round of the unset loop removes a key that is set and skips a missing one |
| Namespaces.RemoveMissingKey | src/Reader/XmlStreamReader.php:423-425 | unsetting a key that is not set changes nothing |
| Namespaces.LeadingTagLength | src/Reader/XmlStreamReader.php:435 | `^(<[^\s>]+)` matches nothing or a prefix of at least two characters starting with `<` |
| Namespaces.TagNameRun | src/Reader/XmlStreamReader.php:435 | the tag name runs to the first whitespace or `>` |
| Namespaces.InjectAfterTagName | src/Reader/XmlStreamReader.php:430-435 | the declarations go right after the tag name of a rebuilt start tag; the rest of the buffer is kept byte for byte |
| Namespaces.NothingRemoved | src/Reader/XmlStreamReader.php:419-427 | with colon-prefixed keys and no `xmlns::` in the buffer, the scan removes nothing from the table |
| Namespaces.FragmentWithoutNamespaces | src/Reader/XmlStreamReader.php:413-437 | with no namespace recorded, the fragment handed to `SimpleXMLElement` is the buffer unchanged |
| Namespaces.DoubleColonInjected | src/Reader/XmlStreamReader.php:303-435 | `xmlns:p="v"` on a start tag ends up as ` xmlns::p="escaped v"` right after the tag name of a later fragment |
| Dispatch.RunCallbacks | src/Reader/XmlStreamReader.php:329-339 | the callbacks of one key are called in order with the payload; all but the last answered nothing special; a stop ends the loop and is passed up; without a stop every callback is called |
| Dispatch.FirePathsCalls | src/Reader/XmlStreamReader.php:321-340 | every call made at an end tag is for a key whose text is the current path, with the element built for it |
| Dispatch.FirePathsNoKey | src/Reader/XmlStreamReader.php:321-325 | without a key for the path, nothing is called and nothing stops |
| Dispatch.FirePathsStops | src/Reader/XmlStreamReader.php:321-340 | when the loop reports STOP_FILE_PROCESSING, its last call was answered with it, that call went to a key whose text is the current path, and no key registered after that one was called |
| Dispatch.FireAttributes | src/Reader/XmlStreamReader.php:376-402 | the attribute loop only extends the trace, with attribute payloads for paths longer than the current one |
| Dispatch.OpenBuffer | src/Reader/XmlStreamReader.php:285-294 | a buffer for the current path exists afterwards iff some key has that text or one existed; a new one is empty; existing ones are unchanged |
| Dispatch.AppendData | src/Reader/XmlStreamReader.php:358-369 | every buffer whose key occurs in the current path gets the data; the others and the set of keys are unchanged |
| Dispatch.JoinSegments | src/Reader/XmlStreamReader.php:371-374 | below the initial `""` (line 224), the current path is `/tag1/tag2/...`, the text an XmlPath names |
| Dispatch.RootPath | tests/Reader/XmlStreamReaderTest.php:115 | inside the document element `dummy` the current path is `/dummy` |
| Dispatch.OracleIndependent | src/Reader/XmlStreamReader.php:250-343 | the outcome and final parser variables do not depend on what callbacks return |
| Dispatch.StopFileKeepsParsing | src/Reader/XmlStreamReader.php:336-337 | a callback answering STOP_FILE_PROCESSING to everything leaves the parse going as far as one answering nothing |
| Dispatch.AttributePathRejected | src/Reader/XmlStreamReader.php:379-383 | the attribute path, with `@` right after a tag name, is never accepted by XmlPath |
| Dispatch.NoAttributeCallbacks | src/Reader/XmlStreamReader.php:376-402 | with validated keys and tokenizer names, the attribute loop calls nothing and never stops |
| Dispatch.StartFiresNothing | src/Reader/XmlStreamReader.php:277-312 | a start tag never adds to the call trace |
| Dispatch.RunAppend | src/Reader/XmlStreamReader.php:252-253 | handling two pieces of a stream is handling the first, then the second if the first completed |
| Dispatch.StartFacts | src/Reader/XmlStreamReader.php:277-312 | a start tag pushes the tag, opens the buffer where a key matches, and appends the start tag to every open buffer |
| Dispatch.EndFacts | src/Reader/XmlStreamReader.php:314-346 | an end tag completes, appends the end tag to every open buffer, calls only keys of the current path with that buffer's element, drops the buffer and pops the path |
| Dispatch.NodeRun | src/Reader/XmlStreamReader.php:277-369 | a node's events complete, restore the path, append exactly the node's markup to every open buffer, call only paths below the current one, and hand the element's keys the fragment built from the element's own markup |
| Dispatch.ChildrenRun | src/Reader/XmlStreamReader.php:277-369 | the same for a sequence of sibling nodes |
| Dispatch.DocumentRun | src/Reader/XmlStreamReader.php:179-369 | a whole document completes with the path back to `[""]` and no buffer open, and every key `/root` gets the whole rebuilt document as its element |
| Dispatch.FirePathsAnswered | src/Reader/XmlStreamReader.php:321-340 | when no callback answers a stop, every callback of every key with the path is called exactly once, key by key in registry order, each in attach order |
| Dispatch.StopFileDoesNotEndStream | src/Reader/XmlStreamReader.php:314-346 | for any tag names, in `<root><child></child></root>` with keys `/root/child` (registered first) and `/root`, and every callback answering STOP_FILE_PROCESSING, both callbacks are still called, in that order, each with its element, and the parse completes |
| Dispatch.DetachedKeyStillParses | src/Reader/XmlStreamReader.php:185-187 | a key whose callbacks were all detached still counts, so the parse still runs |
| Dispatch.DummyDocumentWithoutMatch | tests/Reader/XmlStreamReaderTest.php:51-156 | with one unmatched key, `<dummy></dummy>` completes with the path back to `""`, no buffer and no call |
| Reader.XmlStreamReader.constructor | src/Reader/XmlStreamReader.php:82-85 | the registry starts empty and the parser is not running |
| Reader.XmlStreamReader.RegisterCallback | src/Reader/XmlStreamReader.php:124-137 | the registry becomes `Register` of the old one and stays valid |
| Reader.XmlStreamReader.DeregisterCallback | src/Reader/XmlStreamReader.php:144-157 | without a path it throws and changes nothing; with any path it detaches the callback from every key |
| Reader.XmlStreamReader.DeregisterPath | src/Reader/XmlStreamReader.php:163-174 | the registry becomes `RemovePath` of the old one and stays valid |
| Reader.XmlStreamReader.DeregisterCallbackInPath | src/Reader/XmlStreamReader.php:203-214 | the registry becomes `DetachIn` of the old one and stays valid |
| Reader.XmlStreamReader.Parse | src/Reader/XmlStreamReader.php:179-262 | nothing happens iff the registry has no key; otherwise the parser is running and the final state and outcome are those of `Dispatch.Parse` |
| Reader.XmlStreamReader.InitializeInternalParserVariables | src/Reader/XmlStreamReader.php:219-229 | the stack is `[""]`, the buffers and the namespace table are empty, and the parser is not running |
| Reader.XmlStreamReader.ParseNodeStart | src/Reader/XmlStreamReader.php:277-312 | the new state is `StartStep` of the old one |
| Reader.XmlStreamReader.OpenBuffers | src/Reader/XmlStreamReader.php:285-294 | the buffers become `OpenBuffer` of the old ones |
| Reader.XmlStreamReader.StartTagData | src/Reader/XmlStreamReader.php:296-308 | returns the rebuilt start tag and records every namespace declaration of the attributes |
| Reader.XmlStreamReader.ParseNodeEnd | src/Reader/XmlStreamReader.php:314-346 | it fails exactly when `EndStep` does; the new state is `EndStep` of the old one |
| Reader.XmlStreamReader.FireElementCallbacks | src/Reader/XmlStreamReader.php:321-340 | it fails iff a key matches and the buffer is missing, calling nothing; otherwise the trace is `FirePaths` with the element built from the buffer |
| Reader.XmlStreamReader.FireKeyAt | src/Reader/XmlStreamReader.php:322-339 | one key of the loop: skipped when its text differs, otherwise its callbacks run, and the rest of the loop is what `FirePaths` leaves |
| Reader.XmlStreamReader.FireKey | src/Reader/XmlStreamReader.php:327-339 | building the element throws iff the buffer is missing; otherwise the key's callbacks get the fragment of the buffer |
| Reader.XmlStreamReader.InvokeCallbacks | src/Reader/XmlStreamReader.php:329-339 | the trace and the returned signal are those of `RunCallbacks` |
| Reader.XmlStreamReader.AddCData | src/Reader/XmlStreamReader.php:348-356 | the handler never returns normally |
| Reader.XmlStreamReader.AddData | src/Reader/XmlStreamReader.php:358-369 | the buffers become `AppendData` of the old ones for the current path |
| Reader.XmlStreamReader.FireAttributeCallbacks | src/Reader/XmlStreamReader.php:376-402 | the trace and the early `return false` are those of `FireAttributes` |
| Reader.XmlStreamReader.CreateElementPayload | src/Reader/XmlStreamReader.php:413-437 | succeeds iff the buffer exists, and then returns the fragment with the undeclared namespaces injected |
| Reader.XmlStreamReader.UnsetDeclared | src/Reader/XmlStreamReader.php:421-428 | the copied table without every captured name |
| Reader.XmlStreamReader.DeclarationList | src/Reader/XmlStreamReader.php:430-432 | one ` xmlns:KEY="URI"` per remaining binding, in table order |

## Left out

- Stream input (`src/XmlStream/`) is not modelled. Neither is the chunk loop of `runParser`, the `xml_parser_*` calls (`initializeParser`, `terminateParser` and the `finally` block), or the error message with its line number. The expat tokenizer is foreign code. The document is given as the sequence of handler calls it produces, a tokenizer error as a `Malformed` event.
- A chunk `"0"` ending the read loop early is not modelled, because it belongs to the stream loop above.
- Logging (`setLogger`, every `logger->debug` call) is not modelled. It is observability only.
- The DOM objects are not built.
  - The element payload is the fragment string handed to `SimpleXMLElement`.
  - The attribute payload is the (name, value) pair given to `createAttributePayload`.
  - A fragment that libxml would reject is not detected, except the missing-buffer case.
- `preg_replace` treats `$` and `\` in its replacement string specially. That is not modelled: the injected declarations are inserted literally.
- `htmlentities` returns `""` on invalid UTF-8; the model assumes valid input.
- PHP turns an integer-like array key into an integer. That is not modelled.
- The `switch` on a callback's return value compares loosely (`==`), so for example `true` matches STOP_PATH_PROCESSING. The model abstracts the return value as one of three signals.
- Callbacks that re-enter the reader (registering or deregistering during a parse) are not modelled: the registry is fixed during a parse.
- Callables that are not objects are not modelled, since `SplObjectStorage` cannot hold them.
- The storage is not created lazily: the constructor starts with an empty registry. This is the same state the source reaches on first use.
- Reader.XmlStreamReader.AddCData: the recursion without end is bounded by a `depth` parameter standing for the PHP call stack. The model proves only that the handler never returns normally, not how PHP reports the exhausted stack.
- Dispatch.Run: character data ends the session as `Diverged`, with the state as it was before. PHP's fatal error is not modelled further.
- Reader.XmlStreamReader.constructor: the parser variables are empty values rather than unset (`null`) as in the source. Every parse resets them first.
- Dispatch.NodeRun: the subtree theorem is stated for sessions whose open buffers all belong to paths the current path starts with. Every session reached from the initial one by the events of a tree is of that kind.
