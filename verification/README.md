# Verified models of the JSON printers, inspect, List, nm-symbols and small generators

The repository writes JSON text in four ways, builds trees from parser events, prints values with
`inspect`, keeps a sentinel linked list, follows symbol dependencies between object files, and
draws bounded random numbers. This project models those parts in Dafny, each in the form the code
has (loops over explicit stacks, buffers filled in place, linked nodes rewired in place), and
proves what they compute.

Files, in the order in which they build on each other:

- `Sequences.dfy`: an optional value, distinctness, element sets and facts about sequences.
- `JsonValue.dfy`, `JsonText.dfy`: JSON values as trees, and one recursive printer with three layouts:
  `Batch` (`js_json_write` and `JsonSerializer`), `Push` (`JsonWriter`), `Pretty` (`prettyPrint`).
  The printer is the common specification of all four writers.
- `JsonStyles.dfy`: when the layouts agree byte for byte, and that they always agree up to white space.
- `JsonLayout.dfy`: white space byte by byte: a pen that re-indents the dense text from left to right writes exactly
  what the printer does, so every line has `indent` blanks for each open bracket.
- `JsonGrammar.dfy`: an independent tokenizer and parser for RFC 8259, sections 2 to 7, and the
  theorem that it reads back what any of the printers emits.
- `JsonSink.dfy`, `JsonTraversal.dfy`, `JsonEmit.dfy`: the writer with its skip stage, the explicit
  stack of property enumerations, and the writing of one step.
- `JsonBatch.dfy`, `JsonSerializer.dfy`: the batch writer and the pull serializer. An interrupted
  step is replayed and swallows the bytes that were already delivered; the invariant is that the
  bytes delivered so far followed by those not delivered yet are the text of the batch writer.
- `JsonEvents.dfy`, `JsonAssemblyText.dfy`: what a stream of events stands for at every point, and the
  text that belongs to it; shared by the three event-driven components.
- `JsonPushWriter.dfy`, `JsonPretty.dfy`: `JsonWriter` and `prettyPrint` as machines on that stream.
- `JsonFold.dfy`: what a stream of events becomes when repeated keys overwrite, as setting a property does,
  with the addresses of values in the tree so far.
- `JsonBuilder.dfy`, `JsonBuilderRuns.dfy`: `JsonBuilder` on a heap of JavaScript objects, against that. Every
  container is attached to its parent while it is still empty and filled afterwards.
- `InspectRender.dfy`, `InspectCompact.dfy`, `InspectTraversal.dfy`: `inspect` with negative `compact`,
  from the in-place loop over the buffer to the whole traversal, against a recursive rendering by height.
- `InspectReader.dfy`: a reader that takes the printed text apart again, and the theorem that it gives the tree back.
- `InspectInline.dfy`: one-line rendering under a positive `compact`, on graphs that may be cyclic, and that the same
  reader reads it back.
- `SentinelList.dfy`, `ListFunctions.dfy`, `ListOperations.dfy`: the circular list. A ghost sequence of
  nodes is kept equal to the ring; rotating the point where the ring is entered carries the proofs.
- `NmWorklist.dfy`, `NmObjects.dfy`, `NmFunctions.dfy`, `NmReachable.dfy`, `NmCompare.dfy`: the dependency
  graphs. Results of the worklists are least sets closed under a relation.
- `NmRanges.dfy`: what the function graph records when the symbols of a section lie end to end, told from their sizes.
- `PcgGenerator.dfy`, `PcgOutput.dfy`, `PcgDraws.dfy`, `BoundedRandom.dfy`: the state of the random generator, which
  passes through all 2^64 values, the bits of the word drawn from a state, two draws by their numbers, and the
  division-light bounded generator.
- `Bitfield.dfy`: bit packing.

## Where the code does not do what it says or what one would expect

- `JsonWriter` with indentation puts the line break after an opening bracket twice and omits the one
  before the closing bracket of an empty container. Its text equals that of `js_json_write` if and
  only if there is no indentation or the value is a scalar (`JsonStyles.PushEqualsBatch`); without
  white space outside strings the two are always equal (`JsonStyles.TextStrips`).
- `prettyPrint` prints empty containers as `{}` and `[]`; `js_json_write` puts line breaks into them. The
  two agree if and only if there is no indentation or no empty container (`JsonStyles.PrettyEqualsBatch`).
- A printed value reads back as itself if and only if no part of it prints as `null` for want of a JSON
  representation (`JsonGrammar.RoundTripExact`).
- `inspect-compacting.md` plans the test for compaction as `leaf_depth <= compact`; the code compares with
  `>=` (quickjs-inspect.c:450), and so does the model: low containers go on one line, high ones do not.
- One-line rendering does not count the closing bracket, so a text may exceed `break_length` by two bytes;
  the exact condition is the contract of `InspectInline.CompactObject`, and `InspectInline.LimitCanBeExceeded`
  gives an example.
- A comment (nm-symbols.js:318-324) says that the function graph includes at least the objects of the object graph.
  For one entry point that is so if and only if nothing the object graph follows from an object that both include
  leads out of the function graph's objects (`NmCompare.OnlyInObjectGraphIsEmpty`). If every owner in the function
  graph is one in the object graph, it is so for all entry points if and only if the function graph, started at any
  symbol, reaches the symbol's owners in the object graph and the owners of every reference of those owners
  (`NmCompare.SupersetExactly`, for what `compareGraphs` reports `NmCompare.NeverOnlyInObjectGraphExactly`). It can
  fail for a weak definition: its objdump binding is blank, so only the object graph has an owner for it. Equal
  symbol tables, which is what `compareGraphs` looks at, are not enough either
  (`NmCompare.EqualTablesAreNotEnough`).
- A string read of the pull serializer leaves the surplus of its last step buffered, and a buffer read passes over that
  surplus. A sequence of reads delivers the text in order, for every document and indentation, if and only if no buffer
  read that asks for bytes follows a string read that asks for bytes (`JsonSerializer.ReadMixed`).
- `bitfield.fromArray` reserves bytes for the greatest number whatever the offset is. Every write is to a reserved
  byte if and only if each position, taken on 32 bits, is below the bits reserved (`Bitfield.FromNumbers`); `[7]` with
  offset -1 is not such an input and `[0]` with offset -1 is (`Bitfield.NegativeOffsetCanBeOutside`). Then the numbers
  are read back if and only if no difference to the offset wraps around (`Bitfield.NumbersRoundTrip`).

## Model

| member | source | states |
|---|---|---|
| `JsonStyles.DenseAgree` | quickjs-json.c:426-524 | at indentation 0 all three layouts are the same text, at any depth |
| `JsonStyles.PrettyEqualsBatch` | jsonpp.js:49-122 | prettyPrint's layout equals the batch layout if and only if nothing is indented or no container is empty |
| `JsonStyles.PushEqualsBatch` | quickjs-json.c:1563-1605 | JsonWriter's layout equals the batch layout if and only if nothing is indented or the value is a scalar |
| `JsonStyles.TextStrips` | quickjs-json.c:1563-1840 | in every layout and at every indentation, deleting white space outside strings leaves the dense batch text |
| `JsonLayout.TextIsReindented` | quickjs-json.c:399-524 | in each layout, at every positive indentation, the text is the dense batch text with the line breaks and blanks that a byte-by-byte pen puts in |
| `JsonLayout.TextIsRegular` | quickjs-json.c:399-424 | outside strings each line has exactly indent blanks for each bracket that is open, one less in front of a closing bracket, and each colon exactly one blank |
| `JsonLayout.ControlEscapes` | quickjs-json.c:240-277 | the escape of each control character: one of five letters, or four lower-case hexadecimal digits |
| `JsonLayout.OtherEscapes` | quickjs-json.c:240-277 | apart from control characters only the quotation mark and the backslash are escaped |
| `JsonGrammar.QuotedDecodes` | quickjs-json.c:240-277 | write_json_string is uniquely decodable by section 7 of RFC 8259, whatever follows it |
| `JsonGrammar.LexText` | quickjs-json.c:426-524 | printed text tokenizes to the tokens of the value, in any layout and context |
| `JsonGrammar.RoundTrip` | quickjs-json.c:426-524 | the RFC 8259 parser accepts the text and returns the value, with unrepresentable parts as null |
| `JsonGrammar.RoundTripExact` | quickjs-json.c:287-360 | the value itself comes back if and only if every part has a JSON representation |
| `JsonGrammar.TextIsInjective` | quickjs-json.c:426-524 | equal texts, in whatever layouts, come from equal values |
| `JsonSink.FeedConcat` | quickjs-json.c:221-238 | offering two texts byte by byte is offering their concatenation, also when the sink fills up in between |
| `JsonSink.FeedTwo` | quickjs-json.c:221-238 | a text offered after one that was accepted in full continues it, and nothing is accepted after a refusal |
| `JsonSink.Writer.WriteDestination` | quickjs-json.c:1085-1095 | write_capped takes all of a buffer or nothing, a DynBuf always takes it |
| `JsonSink.Writer.WriteSkip` | quickjs-json.c:1119-1147 | swallows what is still to be skipped before it passes bytes on |
| `JsonSink.Writer.Putc` | quickjs-json.c:221-238 | one byte is accepted or refused; the step's log grows by exactly it |
| `JsonSink.WriteAll` | quickjs-json.c:221-238 | stops at the first refusal and reports whether all was accepted |
| `JsonSink.WriteEscaped` | quickjs-json.c:240-277 | one byte of a string, with exactly the escapes of the switch |
| `JsonSink.WriteJsonString` | quickjs-json.c:240-277 | writes the quoted text, or its accepted prefix and failure |
| `JsonSink.WriteIndent` | quickjs-json.c:399-424 | a line break and indent * n blanks |
| `JsonSink.WriteJsonPrimitive` | quickjs-json.c:287-360 | the text of a scalar; for an object the string that its toString gives, or null |
| `JsonTraversal.StepIsPrefix` | quickjs-json.c:1224-1331 | every step emits at least one byte, and what remains is the step's text followed by what remains after it |
| `JsonTraversal.StackStep` | quickjs-json.c:464-513 | the same for the stack of the batch writer |
| `JsonTraversal.StepEmits` | quickjs-json.c:1224-1331 | a traversal that is not done always has a next byte |
| `JsonTraversal.Advance` | quickjs-json.c:464-513 | the stack after a step: pop, advance, or advance and push |
| `JsonEmit.WriteSeparator` | quickjs-json.c:464-513 | comma and line break before an entry |
| `JsonEmit.WriteKey` | quickjs-json.c:464-513 | quoted key, colon and blank |
| `JsonEmit.WriteLead` | quickjs-json.c:464-513 | all that precedes an entry's value |
| `JsonEmit.WriteStart` | quickjs-json.c:441-462 | a scalar, or an opening bracket and the line break after it |
| `JsonEmit.WriteEnd` | quickjs-json.c:464-513 | the line break before a closing bracket, and the bracket |
| `JsonEmit.WriteTop` | quickjs-json.c:1260-1331 | one whole step of the innermost frame |
| `JsonBatch.Drain` | quickjs-json.c:464-513 | from any stack, the loop appends all the text that remains for it |
| `JsonBatch.JsJsonWrite` | quickjs-json.c:426-524 | the loop over the explicit stack emits the recursive printer's text; an RFC 8259 parser takes it back to the value, and every line is indented by the number of open brackets |
| `JsonSerializer.Serializer.constructor` | quickjs-json.c:1441-1492 | nothing delivered yet: all of the document's text is undelivered |
| `JsonSerializer.Serializer.StepInner` | quickjs-json.c:1224-1331 | a step is taken if all of its text was accepted and otherwise leaves the traversal where it was |
| `JsonSerializer.Serializer.Step` | quickjs-json.c:1333-1344 | a step cut short adds what it delivered to the bytes to be skipped |
| `JsonSerializer.Serializer.StepOnce` | quickjs-json.c:1333-1344 | delivered followed by undelivered text stays the same, and a completed step leaves less to do |
| `JsonSerializer.StepConserves` | quickjs-json.c:1119-1147 | replaying a step and swallowing the delivered bytes loses, repeats and reorders nothing |
| `JsonSerializer.Serializer.FillDestination` | quickjs-json.c:1346-1379 | runs steps until the caller's buffer is full or the document ends |
| `JsonSerializer.Serializer.ReadBuffer` | quickjs-json.c:1346-1379 | delivers exactly min(capacity, bytes remaining), the next bytes of the text; finished if and only if nothing remains; inside a step it leaves exactly the rest of that step |
| `JsonSerializer.Serializer.FillBuffer` | quickjs-json.c:1381-1397 | runs steps until n bytes are buffered or the document ends, and none if n bytes are there already; one step if one is enough |
| `JsonSerializer.Serializer.TakeBuffered` | quickjs-json.c:1400-1418 | hands out the front of the buffer and moves the rest to its start |
| `JsonSerializer.Serializer.ReadString` | quickjs-json.c:1381-1421 | the next min(n, remaining) bytes; a negative size is a RangeError and loses nothing |
| `JsonSerializer.Serializer.FinishedMeansNothingLeft` | quickjs-json.c:1224-1331 | `finished` is set if and only if nothing is left to deliver |
| `JsonSerializer.ReadAllBuffers` | quickjs-json.c:1346-1379 | for any sequence of capacities the bytes read are the batch text cut to the total capacity; finished if and only if the capacities suffice |
| `JsonSerializer.ReadMixed` | quickjs-json.c:1346-1421 | any run loses and repeats no byte; if no buffer read that asks for bytes follows such a string read, the results are the batch text cut to the number of bytes asked for, and a prefix of the calls in that order delivers its bytes whatever follows; otherwise the results for [null] at a large indentation are no prefix of that text; `complete` says whether all was read |
| `JsonEvents.AssembleValue` | quickjs-json.c:785-809 | the events of a value are accepted wherever a value may come and assemble to that value |
| `JsonEvents.AssembleOk` | quickjs-json.c:785-809 | every prefix of any stream leaves a consistent assembly |
| `JsonAssemblyText.StepAppends` | quickjs-json.c:1607-1840 | an accepted event appends exactly one piece of text to what has been emitted |
| `JsonAssemblyText.SingleRoot` | quickjs-json.c:1607-1840 | the text of a stream that closed one root is the printed root |
| `JsonPushWriter.JsonWriter.BeforeValue` | quickjs-json.c:1607-1632 | comma and line break in arrays, nothing after a key, TypeError where a key is due |
| `JsonPushWriter.JsonWriter.AfterValue` | quickjs-json.c:1634-1642 | the frame is ready for the next key |
| `JsonPushWriter.JsonWriter.Start` | quickjs-json.c:1702-1748 | opens a container or is rejected and changes nothing |
| `JsonPushWriter.JsonWriter.WriteKey` | quickjs-json.c:1644-1700 | emits separator, key and colon, or is rejected and changes nothing |
| `JsonPushWriter.JsonWriter.End` | quickjs-json.c:1750-1818 | closes the innermost container if it is of that kind and no value is due, or is rejected and changes nothing |
| `JsonPushWriter.JsonWriter.WriteValue` | quickjs-json.c:1820-1840 | emits a scalar, or in place of an object one RFC 8259 string token that decodes to what its toString gives, null if it gives nothing; or is rejected and changes nothing |
| `JsonPushWriter.JsonWriter.Call` | quickjs-json.c:1851-1887 | every call keeps level = stack depth and written = bytes emitted; it returns the bytes it emitted or changes nothing |
| `JsonPushWriter.RunCalls` | quickjs-json.c:1543-1840 | over any sequence of calls the output is the text of the accepted ones, and the returned counts add up to it |
| `JsonPushWriter.TreeIsWritten` | quickjs-json.c:1543-1840 | the events of a value are all accepted and emit its text |
| `JsonPushWriter.TreeAgreesWithBatch` | quickjs-json.c:1563-1840 | the output for a tree is js_json_write's at indentation 0, exactly otherwise only for scalars, and always up to white space |
| `JsonPushWriter.ClosedRunIsDocument` | quickjs-json.c:1543-1840 | any run that makes one root value and closes every container emits a JSON text that parses to that value |
| `JsonPretty.Printer.BeforeValue` | jsonpp.js:54-66 | comma and padding before a value that is not preceded by its key |
| `JsonPretty.Printer.Close` | jsonpp.js:84-91 | closing bracket, padded if the container has entries; TypeError on an empty stack |
| `JsonPretty.Printer.WriteKey` | jsonpp.js:92-99 | comma, padding, key and colon; TypeError on an empty stack |
| `JsonPretty.Printer.Begin` | jsonpp.js:76-82 | opening bracket or scalar |
| `JsonPretty.Printer.Token` | jsonpp.js:68-121 | one token keeps output, counts and flag in step with what the stream stands for |
| `JsonPretty.PrettyPrint` | jsonpp.js:45-122 | on any acceptable stream the loop emits the text of what the stream stands for |
| `JsonPretty.PrettyTree` | jsonpp.js:45-122 | for a tree: equal to js_json_write under the exact condition, equal up to white space, and a JSON text that parses back |
| `JsonBuilder.JsObject.SetProperty` | quickjs-json.c:560-599 | replaces the value of an existing key or adds a property at the end |
| `JsonBuilder.JsObject.SetIndex` | quickjs-json.c:560-599 | sets an array element; the others stay and holes come before an index past the end |
| `JsonBuilder.RepresentsUnique` | quickjs-json.c:747-750 | a JavaScript value in the heap is at most one tree |
| `JsonBuilder.Builder.Push` | quickjs-json.c:560-599 | attaches an empty container where the next value is due and opens it |
| `JsonBuilder.Builder.Pop` | quickjs-json.c:601-617 | closes the innermost container, which is now complete in place |
| `JsonBuilder.Builder.SetKey` | quickjs-json.c:619-633 | keeps the key for the next value, which will overwrite if the object has the key |
| `JsonBuilder.Builder.PutValue` | quickjs-json.c:635-690 | attaches a scalar where the next value is due |
| `JsonBuilder.Builder.Callback` | quickjs-json.c:785-809 | after every event that may come, the heap is what the stream becomes, repeated keys included |
| `JsonBuilder.Builder.Path` | quickjs-json.c:692-745 | the path is the address of the next value in what the stream has become |
| `JsonFold.ValueLandsAtPath` | quickjs-json.c:692-745 | the value is at that address once it has come; before, the value of the same key is there, or nothing if the key is new |
| `JsonFold.ContainerLandsAtPath` | quickjs-json.c:560-599 | a container that starts is found at that address, still empty |
| `JsonFold.AcceptedIsTaken` | quickjs-json.c:785-809 | the streams that the builder can take are exactly those that the writers accept |
| `JsonFold.TreeIsTaken` | quickjs-json.c:785-809 | the events of any tree become that tree with repeated keys merged: the last value in the place of the first |
| `JsonFold.CleanTreeIsSeen` | quickjs-json.c:785-809 | a tree with distinct keys that hold no NUL byte stays as it is |
| `JsonFold.CStringEndsAtNul` | quickjs-json.c:619-633 | a key counts up to its first NUL byte, and whole if it has none |
| `JsonBuilderRuns.RootWhileOpen` | quickjs-json.c:560-690 | while containers are open, the root in the heap is the tree seen so far |
| `JsonBuilderRuns.Build` | quickjs-json.c:785-809 | folding any acceptable stream keeps the heap equal to what the stream becomes |
| `JsonBuilderRuns.PathThenValue` | quickjs-json.c:692-745 | after any acceptable stream, `path` is the address at which the tree on the heap holds the next value, or the empty container once it has started |
| `JsonBuilderRuns.BuildTree` | quickjs-json.c:785-809 | folding the events of any tree leaves the tree with repeated keys merged, and the tree itself if its keys are distinct |
| `InspectRender.OneLineIfLow` | quickjs-inspect.c:440-456 | in the rendering a non-empty container is on one line if and only if its height is at most k |
| `InspectRender.CompactConcat` | quickjs-inspect.c:409-424 | compacting works piecewise when the second piece does not start with a blank |
| `InspectRender.CompactBody` | quickjs-inspect.c:440-456 | compacting the broken-up body of a low container gives its text on one line, however it was compacted inside |
| `InspectReader.ReadsBack` | quickjs-inspect.c:1590-1800 | a reader with the brackets, commas and line widths written out takes the text back to the tree, with kinds, labels and order, at any depth and for any height limit |
| `InspectReader.RenderIsInjective` | quickjs-inspect.c:1590-1800 | equal texts, under whatever height limits, come from equal trees |
| `InspectCompact.CompactWhitespace` | quickjs-inspect.c:409-424 | the in-place loop with read and write indices replaces every line break and its blanks by one blank, and leaves the bytes before alone |
| `InspectCompact.OffsetsAreOrdered` | quickjs-inspect.c:1597-1600 | stacked offsets are nondecreasing and within the buffer |
| `InspectCompact.ItemWritten` | quickjs-inspect.c:1647-1765 | a finished item leaves the text that belongs to the next one |
| `InspectCompact.BoxOpened` | quickjs-inspect.c:1723-1738 | opening a container records the offset behind its bracket and no height |
| `InspectCompact.PropagateCountsHeight` | quickjs-inspect.c:426-436 | the least depth kept on the stack is minus the greatest height seen, and 0 only if no container was seen |
| `InspectCompact.BoxClosed` | quickjs-inspect.c:440-456 | closing a container, with or without compaction, leaves the recursive rendering of it |
| `InspectTraversal.Inspector.PropagateLeaf` | quickjs-inspect.c:426-436 | updates only the top level, and nothing on an empty stack |
| `InspectTraversal.Inspector.CloseLevel` | quickjs-inspect.c:438-456 | pops a level, compacts the tail if it is deep enough, and propagates |
| `InspectTraversal.Inspector.PutNewlineIndent` | include/stream-utils.h:90-99 | a line break and depth blanks |
| `InspectTraversal.Inspector.Enter` | quickjs-inspect.c:1723-1738 | pushes an enumeration and a level together |
| `InspectTraversal.Inspector.WriteLead` | quickjs-inspect.c:1655-1692 | comma, line break and key before an item |
| `InspectTraversal.Inspector.WriteFlat` | quickjs-inspect.c:1739-1754 | a primitive or an empty container, which counts as height 1 |
| `InspectTraversal.Inspector.Next` | quickjs-inspect.c:1757-1758 | moving on keeps buffer and levels equal to their specification |
| `InspectTraversal.Inspector.Leave` | quickjs-inspect.c:1760-1789 | the end of an enumeration leaves the recursive rendering of its container |
| `InspectTraversal.Inspector.FinishItem` | quickjs-inspect.c:1757-1793 | closes every container that has no item left, and gets nearer to the end |
| `InspectTraversal.Inspector.Recurse` | quickjs-inspect.c:1557-1800 | terminates and leaves the rendering by height in the buffer |
| `InspectTraversal.Inspect` | quickjs-inspect.c:1804-1841 | the result for any tree and any negative compact is the recursive rendering with k = -compact, and is read back to the tree if its texts are words |
| `InspectInline.AncestorHas` | quickjs-inspect.c:1435-1442 | membership in the chain of ancestors |
| `InspectInline.LessLeft` | quickjs-inspect.c:1451-1492 | entering an object leaves fewer objects that are not ancestors, so rendering ends on cyclic graphs |
| `InspectInline.EntriesGrow` | quickjs-inspect.c:1521-1548 | an ineligible or long prefix cannot be mended by later entries |
| `InspectInline.CompactValue` | quickjs-inspect.c:1450-1492 | appends a value's text; fails only if there is none or it would exceed the limit |
| `InspectInline.CompactObject` | quickjs-inspect.c:1501-1556 | succeeds if and only if all nested objects are eligible and the text but for the closing bracket stays within break_length |
| `InspectInline.ObjectReads` | quickjs-inspect.c:1501-1556 | the line of an eligible object is read back to its visible entries, each with its own key, cut off at cycles |
| `InspectInline.OneLine` | quickjs-inspect.c:1576-1588 | the line printed has at most break_length + 2 bytes, is refused only if ineligible or longer, and is read back to the object's visible entries |
| `InspectInline.LimitCanBeExceeded` | quickjs-inspect.c:1494-1500 | an object whose line is two bytes longer than break_length is accepted |
| `SentinelList.RotateCyclic` | quickjs-list.c:16-36 | a ring of nodes can be entered anywhere |
| `SentinelList.ListAdd` | quickjs-list.c:159-187 | linking a node between the ends of a ring gives a ring |
| `SentinelList.ListDel` | quickjs-list.c:191-197 | unlinking a node closes the ring behind it and clears its links |
| `SentinelList.List.constructor` | quickjs-list.c:141-154 | an empty ring |
| `SentinelList.List.Insert` | quickjs-list.c:159-170 | the value comes right after the node given, or at the head; size and ring follow |
| `SentinelList.List.InsertBefore` | quickjs-list.c:175-186 | the value comes right before the node given, or at the tail |
| `SentinelList.List.Erase` | quickjs-list.c:191-197 | exactly that node leaves the ring |
| `SentinelList.List.Rotate` | quickjs-list.c:945-959 | moving only the header turns s into s[k..] + s[..k]; a sentinel is refused and changes nothing |
| `ListFunctions.AssignedThenRead` | quickjs-list.c:1125-1157 | reading back an assigned index gives the value, at the length max(size, index + 1) or max(size, -index) |
| `ListFunctions.AssignedKeepsOrder` | quickjs-list.c:1125-1157 | earlier values keep their order and only undefined is put in between |
| `ListFunctions.MergedSorted` | quickjs-list.c:759-779 | merging two sorted lists under a total preorder gives a sorted list |
| `ListFunctions.MergedMultiset` | quickjs-list.c:759-779 | merging keeps every value of both lists, for any predicate |
| `ListFunctions.MergedStable` | quickjs-list.c:759-779 | among equal elements those of the receiver come first, each list in its own order |
| `ListFunctions.UniquedHasNoTwins` | quickjs-list.c:737-757 | afterwards no two neighbours are equal, for any predicate |
| `ListFunctions.UniquedKeepsRunHeads` | quickjs-list.c:737-757 | for an equivalence exactly the elements that differ from the one before them are kept |
| `ListOperations.ListAt` | quickjs-list.c:218-239 | the walk from the nearer end finds the node of the wrapped index, or null exactly when there is none |
| `ListOperations.EraseNode` | quickjs-list.c:699-706 | one node leaves and the iterator stands behind it |
| `ListOperations.EraseRange` | quickjs-list.c:675-707 | the nodes up to `end` leave, or all to the end of the list if `end` does not follow or is not a node of this list; the iterator stands at `end` |
| `ListOperations.InsertValuesBefore` | quickjs-list.c:709-735 | a splice in argument order; the iterator stands at its first node |
| `ListOperations.InsertValuesAfter` | quickjs-list.c:709-735 | a splice in argument order although inserted from the last; the iterator stands at its last node |
| `ListOperations.SetProperty` | quickjs-list.c:1125-1157 | the list becomes the assigned sequence, and list_at at the index now finds the value |
| `ListOperations.Unique` | quickjs-list.c:737-757 | the nested loops leave the specified sequence and return its length |
| `ListOperations.Merge` | quickjs-list.c:759-779 | the receiver becomes the merged sequence and the argument list is unchanged |
| `NmWorklist.Resolve` | nm-symbols.js:59-94 | the included objects are the least set with the owners of the entry point that is closed under owners of references; each is pushed once |
| `NmWorklist.LinkedIsMonotone` | nm-symbols.js:318-324 | more references and owners never include fewer objects |
| `NmWorklist.Partition` | nm-symbols.js:96-96 | included and unused objects split all objects |
| `NmObjects.ObjectDependencyGraph.constructor` | nm-symbols.js:31-43 | owners and references are exactly what the symbol tables say: the files that list a symbol with one of the 25 kinds, and the symbols that a file lists with kind U |
| `NmObjects.DefinedKinds` | nm-symbols.js:38-39 | the kinds of definitions are the 25 capital letters other than U, one by one |
| `NmObjects.ScanFile` | nm-symbols.js:34-42 | one file adds itself as an owner of what it defines and nothing else |
| `NmObjects.CollectUnresolved` | nm-symbols.js:97-105 | exactly the ownerless references of included objects |
| `NmObjects.ObjectDependencyGraph.Compute` | nm-symbols.js:59-112 | least set, partition of all objects, and exactly the symbols nobody defines among the entry point and the references of included objects; also told from the kinds in the tables alone |
| `NmFunctions.GroupBySection` | nm-symbols.js:149-163 | the symbols of each section in order |
| `NmFunctions.FindCovering` | nm-symbols.js:185-203 | the first symbol whose range holds the address, and none before it does; nothing only if no range holds it |
| `NmFunctions.ResolveTarget` | nm-symbols.js:174-187 | a section name stands for the local symbol at the addend, if there is one |
| `NmRanges.EachAddressOnce` | nm-symbols.js:174-203 | from the first byte of the first symbol to the last byte of the last one each address is in exactly one of the symbols that lie end to end, and no other address is in any |
| `NmRanges.SearchFindsTile` | nm-symbols.js:174-203 | the search through the symbols of a section finds that symbol |
| `NmFunctions.CalleesAreNeeded` | nm-symbols.js:167-214 | whatever a function calls is recorded as a reference of its own file |
| `NmFunctions.FunctionDependencyGraph.AddCall` | nm-symbols.js:167-172 | an edge enters both call graphs |
| `NmFunctions.FunctionDependencyGraph.ScanSymbols` | nm-symbols.js:150-163 | only global symbols with a section make a file an owner |
| `NmFunctions.FunctionDependencyGraph.ScanRelocs` | nm-symbols.js:174-203 | one edge and one reference per relocation inside a function, one reference otherwise |
| `NmFunctions.FunctionDependencyGraph.ScanCalls` | nm-symbols.js:205-214 | one edge and one reference per direct call |
| `NmFunctions.FunctionDependencyGraph.constructor` | nm-symbols.js:143-217 | owners, references, names and call graphs are exactly what the dumps say |
| `NmRanges.RecordedByTiles` | nm-symbols.js:143-217 | for files whose sections are laid out so, the calls and references recorded are exactly those of the relocations and direct calls, told from the sizes |
| `NmRanges.RelocationInTile` | nm-symbols.js:194-203 | a relocation anywhere from the first to the last byte of a function is a call from it |
| `NmRanges.AddendInTile` | nm-symbols.js:174-192 | a section-relative reference anywhere from the first to the last byte of a symbol refers to that symbol |
| `NmRanges.OwnersByBinding` | nm-symbols.js:150-163 | exactly the symbols with binding g and a section make a file an owner |
| `NmFunctions.FunctionDependencyGraph.CallGraphsAreConverse` | nm-symbols.js:293-313 | calledBy and calls are converse relations and hold exactly the edges of the dumps |
| `NmFunctions.FunctionDependencyGraph.Compute` | nm-symbols.js:225-270 | least set, partition of all objects, and exactly the symbols that are mentioned but never referenced |
| `NmFunctions.CalleeIsReference` | nm-symbols.js:167-217 | across all files, the callee of an edge is a reference of the caller's file |
| `NmReachable.ComputeReachableSymbols` | nm-symbols.js:371-390 | the least set with the entry point that is closed under calls of its definitions |
| `NmReachable.ReachedIsLinked` | nm-symbols.js:371-390 | owners of reached symbols are in the least set of objects when callees are references |
| `NmReachable.ReachableIsIncluded` | nm-symbols.js:371-409 | every object that owns a reached symbol is among includedObjects |
| `NmCompare.LinkIsLinked` | nm-symbols.js:59-94 | the objects in every sufficient set are the least sufficient set, so there always is one |
| `NmCompare.PulledInBySymbol` | nm-symbols.js:59-94 | every included object is an owner of a symbol all of whose owners are included |
| `NmCompare.OnlyInObjectGraphIsEmpty` | nm-symbols.js:318-365 | for one entry point and any tables, onlyInObjectGraph is empty if and only if nothing followed from a common object leaves the function graph's objects |
| `NmCompare.SupersetExactly` | nm-symbols.js:318-365 | if every owner of the function graph is one in the object graph: the function graph includes the object graph's objects from every entry point if and only if it reaches, from any symbol, the owners of that symbol and of every reference of its owners |
| `NmCompare.SupersetWithSameOwners` | nm-symbols.js:318-365 | if both graphs have the same owners, only the references matter |
| `NmCompare.NeverOnlyInObjectGraphExactly` | nm-symbols.js:318-365 | the same condition is exact for what is reported: onlyInObjectGraph is empty for every entry point, whatever lists the two compute methods return |
| `NmCompare.FunctionGraphIncludesMore` | nm-symbols.js:318-365 | also with different owners, onlyInObjectGraph is empty if the dumps show every reference and definition of the nm data |
| `NmCompare.EqualTablesAreNotEnough` | nm-symbols.js:318-365 | with equal symbol tables but an unused undefined symbol, onlyInObjectGraph is not empty |
| `PcgGenerator.PowerOfSteps` | quickjs-misc.c:261-270 | 2^k steps multiply the state by 1 modulo 4 * 2^k and add an odd multiple of 2^k times the increment |
| `PcgGenerator.EveryStateIsReached` | quickjs-misc.c:261-270 | from any state every one of the 2^64 states is reached |
| `PcgOutput.DrawnBits` | quickjs-misc.c:261-271 | bit i of a draw is the exclusive or of two bits of the state, 18 apart, at the place that the five highest bits of the state shift it to |
| `PcgOutput.DrawRotates` | quickjs-misc.c:261-271 | a draw is the xorshifted word rotated to the right by the five highest bits of the state |
| `PcgDraws.FirstDraw` | quickjs-misc.c:259-271 | the number drawn from the initial state, and the state after it |
| `BoundedRandom.ThresholdIsRemainder` | quickjs-misc.c:283-303 | -range % range on 32 bits is 2^32 mod range |
| `BoundedRandom.AcceptedDrawsAreInterval` | quickjs-misc.c:283-303 | the draws accepted for an outcome are an interval of floor(2^32 / range) numbers |
| `BoundedRandom.EachOutcomeEquallyOften` | quickjs-misc.c:283-303 | of the 2^32 draws exactly floor(2^32 / range) are accepted for each outcome below range |
| `BoundedRandom.SomeDrawIsAccepted` | quickjs-misc.c:283-303 | from every state and for every range above 0 some later draw is accepted, so that the redraw loop ends |
| `BoundedRandom.Pcg32.Random` | quickjs-misc.c:261-276 | the 64-bit state advances and the word, below 2^32, is taken from the state before |
| `BoundedRandom.Pcg32.RandomBounded` | quickjs-misc.c:283-303 | from every state it ends with the outcome of the first accepted draw, which is below range; all earlier draws are rejected; 0 for range 0 |
| `Bitfield.FromNumbers` | quickjs-misc.c:2392-2423 | for any numbers and offset: all writes are to reserved bytes if and only if every 32-bit position is below the bits reserved, and then exactly those positions are set |
| `Bitfield.ToNumbers` | quickjs-misc.c:2278-2294 | the positions of the set bits plus the offset, increasing |
| `Bitfield.NumbersRoundTrip` | quickjs-misc.c:2278-2294 | numbers written inside the bytes are read back, in increasing order, if and only if no difference to the offset wraps around on 32 bits |
| `Bitfield.OrdinaryOffsetIsInside` | quickjs-misc.c:2392-2423 | numbers not below a nonnegative offset are always inside |
| `Bitfield.NegativeOffsetCanBeOutside` | quickjs-misc.c:2392-2423 | an input whose write misses the reserved bytes, and one with the same offset whose write does not |
| `Bitfield.FromBools` | quickjs-misc.c:2379-2391 | bit i is set if and only if the i-th boolean is true |
| `Bitfield.ToBools` | quickjs-misc.c:2342-2361 | the bits of a whole buffer |
| `Bitfield.BoolsRoundTrip` | quickjs-misc.c:2342-2391 | booleans written and read back are followed only by false, up to a whole byte |
| `Bitfield.BufferRoundTrip` | quickjs-misc.c:2342-2391 | a buffer read as booleans and written again is the same buffer |

## Left out

JSON:

- The QuickJS engine, memory management, reference counts, allocation failure and getters with side effects: values are immutable acyclic trees.
- Circular references inside a tree. What toString gives for an object that is written as a primitive is a parameter.
- Numbers are tokens of section 6 of RFC 8259; how the engine prints a number is not modelled, and `JsonBuilder` keeps the token instead of the parsed number.
- Negative indentation in `write_indent`, and the growth of the buffer of blanks that it writes from.
- `JsonSink.WriteAll`: the return value of a failed write is modelled as "refused", not as the errno-like number of the destination.
- `JsonPushWriter.JsonWriter.Put`: destinations that fail are not modelled; the destination of a JsonWriter accepts every byte.
- Byte positions of `location_count`, integer-like keys that JavaScript moves to the front, and lone surrogates in `JSON.stringify`.
- `parse_val`, `js_json_read`, `jr_read` and `json_parse`: their scanners are in files that are not part of this model, so nothing is said about `json.read(json.write(x))`.

inspect:

- Colours, hidden keys, holes in arrays, `maxArrayLength`, prototype chains, promises, the text of primitives, Map, Set, Error and custom inspectors. Texts of primitives and keys are assumed to have no line break and not to start with a blank; that the text is read back is stated for texts that are words (structural bytes only in quotation marks).
- The modes without a number (`compact` true or false) and the rendering of objects that do not fit on one line under a positive `compact`.
- Depths beyond 32 bits.
- That an object without enumerable properties has no enumeration (src/property-enumeration.c:336-352) rests on the engine's allocator, which is not part of this model.

List:

- `list_unlink`, `list_splice`, `__list_sort`, `__list_reverse` and the operations that rest on them; concat, slice, fill; iterators after their node was erased; merging a list with itself; reference counts of nodes.
- Predicates are total functions without side effects.

nm-symbols:

- Running nm and objdump, parsing their lines, report texts, `missingFiles` and `mismatchedFiles` of `compareGraphs`, and the coverage percentages. The key `file:symbol` is a pair.

Generators:

- Seeding of the generator; the results hold from every state.
- `Bitfield.FromNumbers`: nothing is said about memory once a write is outside the reserved bytes.
- Offset and length arguments of `toArray` and `bits`.
- The masked buffer search and the wrappers of operating system calls.
