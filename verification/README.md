# apitrace: pickle stream, trace loading, decoders and buffer sizes

A Dafny model of four parts of apitrace that carry its hardest guarantees.

* **The pickle command as a compiler.** `PickleVisitor` walks a recorded call and `PickleWriter` puts
  opcodes of Python's pickle protocol 2 (PEP 307). `PickleOutput` and `PickleStream` are the two
  classes; `PickleMachine` is the virtual machine that reads such opcodes: a byte decoder, a stack,
  marks and a memo. The theorem is that the machine, started in any state on the bytes of a value
  followed by any other bytes, consumes exactly the value's bytes and pushes exactly its object
  (`PickleMeaning`), and that a whole stream unpickles to its calls (`StreamLoads`). The object is the
  recorded value itself if and only if it holds no unsigned number with the top bit set and no wide
  character outside ASCII (`CallExactIffClean`).
* **The trace window and its loader thread.** `TraceScan`, `CallForest`,
  `GroupMarkers`, `FrameLoad` and `FrameFetch` are the loader:
  it cuts the trace into frames, builds the forest of grouped calls and searches the trace. `GuiTrace` is
  `ApiTrace` and its frames. `LoaderProtocol` puts both behind a FIFO of signals in each direction and
  lets them run in any interleaving; `ErrorConfluence`, `CallDelivery`,
  `TraceSearch` and `SearchAnswers` are what every run keeps: error texts depend on the last reports
  only, a frame's calls are set once, what the loader answers arrives after the frame it names, every
  request is answered in turn, and a search agrees with a plain scan of the trace.
* **Decoders and scanners.** `Ubjson`, `UbjsonNoops` and `UbjsonCounts` (recursive reader against the
  encodings of the Universal Binary JSON specification, Draft 12), `Utf` (UTF-8 and UTF-16 text sizes,
  RFC 3629 and RFC 2781), `Highlighter`, `GlslReading`, `Brackets` and `BraceSearch` (braces of the
  shader editor) and `Timespan` (profile search).
* **Buffer sizes.** `ImageSize` (section 3.6.4 of the OpenGL 2.1 specification) and `BlockSize`
  (block formats, locks and mipmaps) prove that the closed formulas are bounds, and when they are
  the least ones.

`Options`, `Bytes`, `Rounding` and `SearchSpec` hold what the parts share.

Where a property that one would expect is not true of the code, the model keeps the code, shows an
input, and states exactly when the property holds:

* An unsigned number with its top bit set unpickles as that number minus its type's range, because
  `writeLong` compares the top bit with itself (cli/pickle.hpp:376), and a wide character outside ASCII
  becomes a question mark (cli/pickle.hpp:225): `Unclean`; `LongPayloadMeaning`, `ExactIffClean`.
* A flag with value zero is named only for the value zero and only if it is first in the table:
  `SecondZeroFlag`; `ZeroFlagOnlyFirst`.
* The GUI's text for a bitmask asserts that no zero flag comes behind a named one while bits are left:
  `AssertionFails`; `AssertsIff`.
* A call that the loader reports while contents of its frame are already on the way is an object that
  its frame will never own. Searching forwards from it starts again at the beginning of the frame,
  searching backwards skips the frame: `ForeignObject`; `ReportedObject`, `SearchAgain`,
  `SearchBackAgain`.
* A no-op in a UBJSON container becomes a value, at whatever depth: `NestedNoop`; `ReadAsMeantIff`.
* A UBJSON object with a count or a type has a further member with an empty name for the reader, which
  takes the mark for the marker of a name's size: `EmptyCountedObject`, `EmptyTypedObject`;
  `CountedObjectIff`, `EmptyNameAppears`, `TypedObjectMisread`.
* The range test for four-octet UTF-8 sequences joins its halves with `&&` and never fails
  (helpers/glsize.hpp:921): `AcceptedOutOfRange`; `Accepted8`. UTF-16 decoding compares with 0xDB00
  where RFC 2781 says 0xD800: `Undecoded16`; `DecodeEncode16`, `SizeOfText16Iff`.
* The size of an image is one byte too large when skipped pixels and row width both end inside a byte
  and their last bits would fit in one: `OneTooLarge`; `SizeIsBound`.
* A line of a shader with more closing than opening braces so far forgets that a comment is open:
  `ForgottenComment`; `PackIff`.
* The packed pitch of a format that is not known divides by zero: the result None of `GetLockSize`.
* A line that loses its last brace keeps its old list: `StaleList`; `HighlightedSoundIff`,
  `UpToDateIff`.
* The highlighter takes a quote or a slash that starts no comment for the start of a quotation, which
  GLSL does not have: `BraceBehindDivision`; `ReadAsGlslIff`.
* From a brace in a comment or a string the editor still finds some match, but never the way back:
  `NoWayBack`; `ThereAndBackIff`, `BackAndThereIff`.

## Model

| member | source | states |
|---|---|---|
| PickleMachine.DecodeAsm | cli/pickle.hpp:51-106 | every opcode with its argument is read back whole, and exactly its bytes are consumed, whatever follows |
| PickleMachine.StepsAsm | cli/pickle.hpp:113-335 | running the bytes of a code, followed by anything, is running its instructions and leaves exactly what follows |
| PickleInteger.LongPayloadMeaning | cli/pickle.hpp:350-385 | the LONG1 payload is at most sizeof T bytes; it decodes in two's complement to l iff l is in the signed range of T, else to l - 256^sizeof T; no shorter payload decodes to l |
| PickleInteger.CountIsLongWidth | cli/pickle.hpp:367-379 | counting bytes until only the sign is left, plus one if the sign bits differ, is the width of that payload |
| PickleInteger.Int32CodeMeaning | cli/pickle.hpp:264-271 | the opcode chosen for a signed 32-bit number pushes that number |
| PickleInteger.Int64CodeMeaning | cli/pickle.hpp:281-287 | the opcode chosen for a signed 64-bit number pushes that number |
| PickleInteger.UInt32CodeMeaning | cli/pickle.hpp:273-279 | an unsigned 32-bit number is pushed as itself below half range, else minus 2^32 |
| PickleInteger.UInt64CodeMeaning | cli/pickle.hpp:289-295 | an unsigned 64-bit number is pushed as itself below half range, else minus 2^64 |
| PickleOutput.PickleWriter.Begin | cli/pickle.hpp:113-116 | appends PROTO 2 |
| PickleOutput.PickleWriter.End | cli/pickle.hpp:118-120 | appends STOP |
| PickleOutput.PickleWriter.BeginDict | cli/pickle.hpp:122-126 | appends an empty dictionary, stored in memo slot 1 |
| PickleOutput.PickleWriter.BeginItem | cli/pickle.hpp:134-136 | appends the code that pushes the key |
| PickleOutput.PickleWriter.EndItem | cli/pickle.hpp:142-144 | appends SETITEM |
| PickleOutput.PickleWriter.BeginList | cli/pickle.hpp:146-151 | appends an empty list, stored in slot 1, and a MARK |
| PickleOutput.PickleWriter.EndList | cli/pickle.hpp:153-155 | appends APPENDS |
| PickleOutput.PickleWriter.BeginTuple | cli/pickle.hpp:157-159 | appends MARK |
| PickleOutput.PickleWriter.EndTuple | cli/pickle.hpp:161-163 | appends TUPLE |
| PickleOutput.PickleWriter.BeginTupleOf | cli/pickle.hpp:165-169 | appends MARK only for four elements or more |
| PickleOutput.PickleWriter.EndTupleOf | cli/pickle.hpp:171-180 | appends the tuple opcode for the length |
| PickleOutput.PickleWriter.WriteString | cli/pickle.hpp:182-199 | appends exactly the assembled code that pushes the byte string |
| PickleOutput.PickleWriter.WriteWString | cli/pickle.hpp:214-231 | appends exactly the code that pushes the narrowed text |
| PickleOutput.PickleWriter.WriteNone | cli/pickle.hpp:242-244 | appends NONE |
| PickleOutput.PickleWriter.WriteBool | cli/pickle.hpp:246-248 | appends NEWTRUE or NEWFALSE |
| PickleOutput.PickleWriter.WriteUInt8 | cli/pickle.hpp:250-253 | appends BININT1 with the byte |
| PickleOutput.PickleWriter.WriteUInt16 | cli/pickle.hpp:255-262 | appends the one- or two-byte instruction for the number |
| PickleOutput.PickleWriter.WriteInt32 | cli/pickle.hpp:264-271 | appends the assembled instruction of Int32CodeMeaning |
| PickleOutput.PickleWriter.WriteUInt32 | cli/pickle.hpp:273-279 | appends the assembled instruction of UInt32CodeMeaning |
| PickleOutput.PickleWriter.WriteInt64 | cli/pickle.hpp:281-287 | appends the assembled instruction of Int64CodeMeaning |
| PickleOutput.PickleWriter.WriteUInt64 | cli/pickle.hpp:289-295 | appends the assembled instruction of UInt64CodeMeaning |
| PickleOutput.PickleWriter.WriteFloat | cli/pickle.hpp:297-315 | appends BINFLOAT with the eight bytes in reverse |
| PickleOutput.PickleWriter.WriteByteArray | cli/pickle.hpp:317-325 | appends the code that applies bytearray to the data |
| PickleOutput.PickleWriter.WritePointer | cli/pickle.hpp:327-335 | appends the code that applies Pointer to the address |
| PickleOutput.PickleWriter.PutInt16 | cli/pickle.hpp:338-341 | appends the two little-endian bytes |
| PickleOutput.PickleWriter.PutInt32 | cli/pickle.hpp:343-348 | appends the four little-endian bytes of the number taken modulo 2^32 |
| PickleOutput.PickleWriter.WriteLong | cli/pickle.hpp:350-385 | appends LONG1 with the payload of LongPayloadMeaning |
| PickleCode.CodeMeaning | cli/cli_pickle.cpp:58-168 | the code of any value, from any machine state, pushes exactly one object, the value's, leaves stack and marks below alone, and no memo slot but slot 1 changes |
| PickleCode.PickleMeaning | cli/cli_pickle.cpp:58-168 | the same for the bytes: followed by any bytes, exactly the value's bytes are consumed |
| PickleCode.LookupIff | lib/trace/trace_model.hpp:269-277 | the name found for an enum value is that of the first entry with the value; none is found iff no entry has it |
| PickleCode.EnumMeaning | cli/cli_pickle.cpp:90-99 | an enum value is pickled by that name if names are wanted and there is one, else by its number |
| PickleCode.PlainMeaning | cli/cli_pickle.cpp:58-84 | null is pickled as zero; truth values, signed numbers, doubles and strings as themselves |
| PickleCode.ReprMeaning | cli/cli_pickle.cpp:162-168 | a value with two representations is pickled as the human one iff names are wanted |
| PickleCode.DenoteAllAt | cli/cli_pickle.cpp:146-152 | the objects of an array are those of its elements, in order |
| PickleCode.DenoteMembersIff | cli/cli_pickle.cpp:125-134 | the dictionary of a structure has exactly the members' names, each with the value of its last member |
| PickleOutput.NamesOfGlobals | cli/pickle.hpp:317-335 | the globals are __builtin__.bytearray and unpickle.Pointer |
| PickleExact.ExactIffClean | cli/cli_pickle.cpp:58-168 | the object is the recorded value iff no unsigned number in it has its top bit set and no wide character is outside ASCII (members replaced by a later one of the same name excepted) |
| PickleExact.Unclean | cli/pickle.hpp:214-231 | 2^63 unpickles as -2^63, and the wide character U+00E9 as a question mark |
| PickleStream.CallMeaning | cli/cli_pickle.cpp:170-203 | the code of a call pushes the 5-tuple of number, name, list of (argument name, value) pairs, result and flags |
| PickleStream.RecordLoads | cli/cli_pickle.cpp:277-285 | a record followed by any bytes unpickles to its call and stops exactly behind it |
| PickleStream.RecordShape | cli/cli_pickle.cpp:170-203 | part by part: number and flags wrapped at half range, name, (argument name or None, value or None) for each argument, result or None |
| PickleStream.StreamLoads | cli/cli_pickle.cpp:270-286 | the records of any list of calls unpickle, one by one, to that list in order |
| PickleStream.CallExactIffClean | cli/cli_pickle.cpp:170-203 | a call unpickles to itself iff number, flags, arguments and result are clean |
| PickleStream.PickleVisitor.Visit | cli/cli_pickle.cpp:58-168 | writes exactly the assembled code of the value |
| PickleStream.PickleVisitor.VisitBitmask | cli/cli_pickle.cpp:101-123 | writes exactly the code of the selected flags and the remainder |
| PickleStream.PickleVisitor.VisitStruct | cli/cli_pickle.cpp:125-144 | writes exactly the code of a dictionary of the members |
| PickleStream.PickleVisitor.VisitArray | cli/cli_pickle.cpp:146-152 | writes exactly the code of a list of the elements |
| PickleStream.PickleVisitor.VisitCall | cli/cli_pickle.cpp:170-203 | writes exactly the code of the call |
| PickleStream.PickleVisitor.VisitArgs | cli/cli_pickle.cpp:177-192 | writes exactly the code of the argument list, None for missing names and values |
| PickleStream.Command | cli/cli_pickle.cpp:277-285 | writes exactly the records of the calls in the call set, in order |
| PickleStream.SelectedIs | cli/cli_pickle.cpp:277-285 | the calls written are those at the positions, in ascending order, of exactly the calls in the call set |
| PickleStream.CommandLoads | cli/cli_pickle.cpp:277-285 | what the command writes unpickles, record by record, to exactly those calls in that order |
| BitmaskFlags.NumberInjective | cli/cli_pickle.cpp:103-111 | a 64-bit word as a set of bits is the same thing as its number |
| BitmaskFlags.BitsOfNumber | cli/cli_pickle.cpp:103-111 | a bit of the number is one iff its position is in the set |
| BitmaskFlags.SelectDecomposes | cli/cli_pickle.cpp:106-118 | the named flags keep the table's order, are pairwise disjoint, make up the value together with the remainder, and no non-zero flag fits in the remainder |
| BitmaskFlags.ZeroFlagOnlyFirst | cli/cli_pickle.cpp:107-114 | a zero flag is named iff the value is zero and the table's first flag is zero |
| BitmaskFlags.SecondZeroFlag | cli/cli_pickle.cpp:106-115 | for the value zero, a zero flag behind another flag is not named, in front of it it is |
| BitmaskFlags.ApiBitmask.ToString | gui/apitracecall.cpp:324-351 | the text joins the names of the same selection, and the remainder in hexadecimal if there is one or no flag was named; and it tells whether every assertion on the way held |
| BitmaskFlags.HexMeaning | gui/apitracecall.cpp:348 | the hexadecimal digits stand for the number and have no zero in front |
| BitmaskFlags.AssertsIff | gui/apitracecall.cpp:329-343 | the assertions hold iff before each zero flag of the table no flag with bits fits the value, or the flags named there leave none of its bits |
| BitmaskFlags.AssertionFails | gui/apitracecall.cpp:330 | a zero flag behind a named one, with bits left, fails the assertion |
| TraceScan.TraceLoader.ScanTrace | gui/traceloader.cpp:114-172 | the bookmarks partition the trace into non-empty frames that each end at their only END_FRAME call, except possibly the last; every created frame has its number, call count and last index |
| TraceScan.PartitionUnique | gui/traceloader.cpp:114-172 | a trace has only one such partition |
| TraceScan.FramesConcat | gui/traceloader.cpp:114-172 | the frames, one after the other, are the trace |
| TraceScan.FrameUnique | gui/traceloader.cpp:285-300 | at most one frame holds a call |
| TraceScan.TraceLoader.CallInFrame | gui/traceloader.cpp:285-300 | adding up the frames' calls finds the frame that holds the call |
| TraceScan.TraceLoader.SearchNext | gui/traceloader.cpp:190-218 | finds the least match from the frame's first call on, or none iff there is none, and the frame it names holds the match |
| TraceScan.TraceLoader.SearchPrev | gui/traceloader.cpp:220-259 | finds the greatest match up to the end of the frame, or none iff there is none |
| TraceScan.TraceLoader.SearchCallsBackwards | gui/traceloader.cpp:261-283 | finds the greatest match among the frame's calls, if any |
| CallForest.GroupsAreRightmost | gui/traceloader.cpp:468-480 | whatever the PUSH and POP markers, the group stack is the upper end of the forest's rightmost path |
| GroupMarkers.ParentIff | gui/traceloader.cpp:458-480 | call i is recorded in group p iff p is a PUSH before it since which never more groups were closed than opened, and every later PUSH before i has been closed; a POP that is no PUSH closes one |
| GroupMarkers.NoParentIff | gui/traceloader.cpp:468-480 | a call is top-level iff the groups of all PUSHes before it have been closed |
| GroupMarkers.GroupsAreOpen | gui/traceloader.cpp:473-480 | the group stack holds exactly the groups that are open by that count |
| GroupMarkers.ChildrenIff | gui/traceloader.cpp:468-472 | the children of a group, and the top-level calls, are exactly the calls with that parent |
| CallForest.ForestIsAllCalls | gui/traceloader.cpp:456-494 | the forest in preorder is the list of all calls |
| CallForest.AllTopLevel | gui/traceloader.cpp:335-345 | if there are as many top-level calls as calls, the two lists are equal |
| FrameLoad.ScannedFrames | gui/traceloader.cpp:328-334 | every scanned frame can be loaded from its bookmark |
| FrameLoad.FrameContents.AddCall | gui/traceloader.cpp:458-480 | each parsed call is put under the innermost open group, and all parents and child lists stay those of the forest |
| FrameLoad.FrameContents.Load | gui/traceloader.cpp:445-507 | parses exactly the counted calls and builds their forest; reports whether END_FRAME was reached |
| FrameLoad.FrameContents.TopLevelToSend | gui/traceloader.cpp:335-345 | the list handed over is the top-level list on both branches |
| FrameFetch.FetchFrameContents | gui/traceloader.cpp:316-349 | a fetch returns the calls of a loaded frame, and else loads the frame from its bookmark, posts the roots of its forest and its calls, and returns them: they are the calls that the protocol posts |
| FrameFetch.FetchIsProtocol | gui/traceloader.cpp:316-349 | in any state of the protocol, these are the calls it fetches and the contents it posts |
| GuiTrace.FrameOfMeaning | gui/apitrace.cpp:444-462 | whichever frames are loaded, a call number is found in frame k iff the scan put it there, and in none iff it is outside the trace |
| GuiTrace.ApiTrace.CallInFrame | gui/apitrace.cpp:444-462 | returns that frame, or -1 |
| GuiTrace.ApiTrace.RequestFrame | gui/apitrace.cpp:236-243 | marks the frame as loading and requests it, once |
| GuiTrace.ApiTrace.AskFrameStart | gui/apitrace.cpp:398-408 | answers at once for a loaded frame, else asks the loader |
| GuiTrace.ApiTrace.AskFrameEnd | gui/apitrace.cpp:410-420 | likewise for the frame's end |
| GuiTrace.ApiTrace.AskCallIndex | gui/apitrace.cpp:422-442 | answers at once with no call for a number outside the trace, and with the call of a loaded frame; else asks the loader |
| GuiTrace.ApiTrace.LoaderFrameLoaded | gui/apitrace.cpp:265-306 | sets the calls of an unloaded frame, then applies and removes exactly its queued errors |
| GuiTrace.ApiTrace.ApplyQueuedErrors | gui/apitrace.cpp:279-305 | the in-place walk erases the errors that found their call and keeps the others in order |
| GuiTrace.ApiTrace.SetCallError | gui/apitrace.cpp:464-489 | sets the error of a loaded call and updates the error set, or requests the frame and queues the error |
| GuiTrace.ApiTrace.CallWithIndex | gui/apitracecall.cpp:1203-1212 | finds the first call with the number |
| GuiTrace.ApiTrace.FindNextCall | gui/apitracecall.cpp:1265-1285 | finds the first match behind the starting call; from the start if that is not the frame's |
| GuiTrace.ApiTrace.FindPrevCall | gui/apitracecall.cpp:1287-1307 | finds the last match before the starting call; none if that is not the frame's |
| GuiTrace.ApiTrace.FindNext | gui/apitrace.cpp:308-347 | answers from loaded frames up to the first unloaded one, which it asks the loader about |
| GuiTrace.ApiTrace.FindPrev | gui/apitrace.cpp:349-387 | the same backwards |
| TraceSearch.FindNextIsScan | gui/apitrace.cpp:308-347 | for every set of loaded frames, the answer of GUI and loader together is the least match of a plain scan behind the start, none iff there is none |
| TraceSearch.FindPrevIsScan | gui/apitrace.cpp:349-387 | likewise the greatest match before the start |
| TraceSearch.GoesOnIffAnchored | gui/apitracecall.cpp:1272-1283 | searching on from a call of a loaded frame goes on behind it, for every text, iff the object is one of the frame's own |
| TraceSearch.GoesBackIffAnchored | gui/apitracecall.cpp:1294-1306 | searching backwards from a call of a loaded frame goes on before it, for every text, iff the object is one of the frame's own or the call is the frame's first |
| SearchAnswers.FindNextAnswered | gui/traceloader.cpp:190-218 | over runs: if a search forwards asks the loader, then the reply posted last when the loader comes to the request, whatever happened meanwhile, is the least matching call behind the start, or that there is none; otherwise the GUI has found that call, or there is none |
| SearchAnswers.FindPrevAnswered | gui/traceloader.cpp:220-259 | likewise backwards: the greatest matching call before the end |
| SearchAnswers.FrameStartAnswered | gui/traceloader.cpp:351-357 | when the loader comes to a request for the start of a frame, it replies last with that frame's start |
| SearchAnswers.FrameEndAnswered | gui/traceloader.cpp:359-365 | likewise for the end |
| SearchAnswers.CallIndexAnswered | gui/traceloader.cpp:367-383 | when it comes to a request for a call, it replies last with a call object of that number |
| SearchAnswers.LoadAnswered | gui/traceloader.cpp:75-78 | when it has come to a request to load a frame, the frame is loaded or its contents are under way |
| SearchAnswers.RequestedOnce | gui/apitrace.cpp:236-243 | over a whole run, a frame is requested to be loaded at most once |
| LoaderProtocol.HolderIsFrameOf | gui/traceloader.cpp:285-300 | the loader's and the GUI's callInFrame agree in every state |
| LoaderProtocol.HandleKeeps | gui/traceloader.cpp:316-391 | whatever request the loader handles, it posts a frame's contents before anything that names the frame |
| LoaderProtocol.GuiTurnKeeps | gui/apitrace.cpp:265-277 | arriving contents load their frame and end its loading |
| LoaderProtocol.ErrorKeeps | gui/apitrace.cpp:464-489 | a queued error always waits for a frame that is loading |
| LoaderProtocol.StepKeeps | gui/apitrace.cpp:236-489 | every event keeps: no loading frame is loaded, each has its request or contents under way, every queued error waits for the loading frame that holds its call, every reply will find its frame loaded |
| LoaderProtocol.RunKeeps | gui/apitrace.cpp:236-489 | this holds after every run |
| ErrorConfluence.ApplyPending | gui/apitrace.cpp:279-305 | walking the queue when a frame arrives gives its calls their last reports and keeps the rest of the queue |
| ErrorConfluence.StepErrors | gui/apitrace.cpp:265-306 | every event keeps: loaded calls show their last report, the error set is those with a text, the queue is the reports for unloaded frames in order |
| ErrorConfluence.ReportedErrors | gui/apitrace.cpp:265-306 | in every run, the queue is empty iff all frames with a reported call are loaded, and then each call shows its last report and the error set is exactly the calls with a text, whatever else is under way |
| ErrorConfluence.QuiescentErrors | gui/apitrace.cpp:265-306 | with nothing under way, no frame is loading and all this holds |
| ErrorConfluence.LastReportIs | gui/apitrace.cpp:464-489 | the last report is the one with the call's number behind which there is no other |
| ErrorConfluence.Confluence | gui/apitrace.cpp:464-489 | two runs with the same last reports, once their reported frames are loaded, show the same errors, in whatever order things arrived |
| ErrorConfluence.Drains | gui/apitrace.cpp:64-66 | from any point of any run, turns of the two threads lead to nothing being under way |
| CallDelivery.DeliveredLoaded | gui/traceloader.cpp:351-383 | when a found frame start or end, a found call or a search result reaches the GUI, the frame it names exists and is loaded |
| CallDelivery.CallsSetOnce | gui/apitrace.cpp:272-277 | a loaded frame keeps its call objects for ever, whatever arrives again |
| CallDelivery.ReportedOwn | gui/traceloader.cpp:367-383 | the object reported for a call will be the frame's own iff the frame was loaded or no contents of it were on the way |
| CallDelivery.ReportedObject | gui/traceloader.cpp:190-218 | the same over the whole rest of every run |
| CallDelivery.SearchAgain | gui/apitrace.cpp:318-328 | searching on from a reported call goes on behind it iff that condition held when it was reported |
| CallDelivery.SearchBackAgain | gui/apitrace.cpp:359-369 | searching backwards from it goes on before it iff that condition held or it is its frame's first call |
| CallDelivery.ForeignObject | gui/traceloader.cpp:316-349 | a run in which a search and a load both fetch a frame and the found call is not an object of the frame |
| Ubjson.RoundTrip | gui/qubjson.cpp:186-288 | for plain and counted arrays, arrays of uint8 and plain objects, nested at will: reading the encoding of a value tree followed by anything returns its value and leaves exactly the rest |
| Ubjson.DecodeRoundTrip | gui/qubjson.cpp:242-288 | the same from the first marker on |
| Ubjson.Unambiguous | gui/qubjson.cpp:186-288 | no encoding is the start of an encoding of another value |
| Ubjson.SizeIff | gui/qubjson.cpp:110-142 | a size is read as its number iff that is not negative and fits an int, whatever its width |
| Ubjson.TruncatedFails | gui/qubjson.cpp:52-107 | a number that the stream does not hold completely is not read |
| Ubjson.CharIff | gui/qubjson.cpp:145-153 | a character is read iff it is ASCII |
| Ubjson.ShortStringFails | gui/qubjson.cpp:163-183 | a string shorter than its size is not read |
| Ubjson.OtherMarkers | gui/qubjson.cpp:242-288 | markers without a value give none, and unknown ones fail |
| Ubjson.UnendedItems | gui/qubjson.cpp:206-221 | an array without its end marker ends with the stream |
| Ubjson.MarkersAre | lib/ubjson/ubjson.hpp:38-60 | the markers are these characters |
| Ubjson.CountedAndTerminatedAgree | gui/qubjson.cpp:186-222 | the counted and the terminated form of an array are read as the same list |
| Ubjson.BytesRoundTrip | gui/qubjson.cpp:191-205 | a typed array of uint8 is read as the same bytes |
| UbjsonNoops.ReadAsMeantIff | gui/qubjson.cpp:186-288 | an encoding of such a tree is read as the specification means it, no-ops being no values at every depth, iff no no-op is in it outside of members that later ones replace |
| UbjsonNoops.NestedNoop | gui/qubjson.cpp:186-222 | an array in an array that holds a no-op is read as not empty |
| UbjsonCounts.CountedObjectRead | gui/qubjson.cpp:224-240 | a counted object is read as one with a further member, whose name is empty and whose value is the count, that goes on behind it to an end marker or the end of the stream |
| UbjsonCounts.CountedObjectIff | gui/qubjson.cpp:224-240 | it is read as the specification means it iff nothing follows it, a member has the empty name, and no no-op is in it |
| UbjsonCounts.EmptyCountedObject | gui/qubjson.cpp:224-240 | the empty object with a count is read as one with a member |
| UbjsonCounts.EmptyNameAppears | gui/qubjson.cpp:110-142 | an object that begins with a mark that is no size and no end, like a count, a type or a no-op, has a member with the empty name when it is read at all |
| UbjsonCounts.TypedObjectMisread | gui/qubjson.cpp:224-240 | a typed object none of whose members has the empty name is never read as meant, whatever its type, its values and what follows |
| UbjsonCounts.EmptyTypedObject | gui/qubjson.cpp:224-240 | the empty typed object is read as one with a member |
| UbjsonCounts.NamelessTypedObject | gui/qubjson.cpp:224-240 | with an empty name, a typed object can be read as meant |
| UbjsonCounts.TypedArrayFails | gui/qubjson.cpp:191-205 | a typed array of any other type than uint8 fails an assertion |
| Ubjson.Stream.NextMarker | gui/qubjson.cpp:39-49 | returns the next byte, or end of file, and advances |
| Ubjson.Stream.NextSize | gui/qubjson.cpp:110-142 | reads a size of each width; fails on a negative one or one above INT_MAX |
| Ubjson.Stream.NextVariant | gui/qubjson.cpp:242-288 | the reader of RoundTrip |
| Ubjson.Stream.NextArray | gui/qubjson.cpp:186-222 | the array reader of RoundTrip, typed, counted or terminated |
| Ubjson.Stream.NextObject | gui/qubjson.cpp:224-240 | the object reader of RoundTrip; a repeated name replaces the value |
| Utf.DecodeEncode8 | helpers/glsize.hpp:857-936 | every Unicode scalar value, encoded per section 3 of RFC 3629, is decoded and its octets are consumed |
| Utf.Accepted8 | helpers/glsize.hpp:857-936 | whatever is accepted is the encoding of a scalar value, iff a four-octet sequence begins with F0 90 to F4 8F |
| Utf.KnownEncodings | helpers/glsize.hpp:857-936 | the encodings of some characters are those of the standards |
| Utf.AcceptedOutOfRange | helpers/glsize.hpp:915-925 | F7 BF BF BF and F0 80 80 80 are accepted |
| Utf.SizeOfText8 | helpers/glsize.hpp:1025-1038 | for well-formed text the octets passed over are the total encoded length |
| Utf.BytesOfSequence8 | helpers/glsize.hpp:1025-1038 | the loop passes over exactly those octets |
| Utf.DecodeEncode16 | helpers/glsize.hpp:941-989 | a scalar value in UTF-16 is decoded iff it is below 0x10000 or from 0xD0000 on |
| Utf.Accepted16 | helpers/glsize.hpp:941-989 | whatever is accepted is one integer below 0xDB00 or above 0xDFFF, or the encoding of a character in two |
| Utf.Undecoded16 | helpers/glsize.hpp:955-967 | U+10000 is read as its first integer alone, and the next step fails |
| Utf.SizeOfText16Iff | helpers/glsize.hpp:1039-1050 | for well-formed text the integers passed over are the total encoded length iff every character is one that is decoded |
| Utf.BytesOfSequence16 | helpers/glsize.hpp:1039-1050 | the loop passes over exactly those integers, two bytes each |
| Highlighter.HighlightBlock | gui/glsledit.cpp:203-371 | the list and nesting collected by the look-ahead lexer are those of reading the line one character at a time, braces in comments and quotes left out; an old list stays if no brace was found |
| Highlighter.CollectedMeaning | gui/glsledit.cpp:257-265 | the list is ascending and holds exactly the places of braces read as code |
| Highlighter.NestingIs | gui/glsledit.cpp:259-264 | the nesting gained is the number of opening less that of closing braces in code |
| Highlighter.QuotationOpens | gui/glsledit.cpp:243-255 | a quotation opens in code at a quote, and at a slash that starts no comment |
| Highlighter.QuotationLasts | gui/glsledit.cpp:288-338 | it lasts until its end character stands without a backslash before it |
| Highlighter.PackIff | gui/glsledit.cpp:217-223 | the state stored for the next line gives nesting and comment back iff the nesting is not negative |
| GlslReading.ReadAsGlslIff | gui/glsledit.cpp:227-342 | a line is read as GLSL reads it, character by character, iff no quote and no slash other than those of comments stands in its code |
| GlslReading.SameBraces | gui/glsledit.cpp:257-265 | then the list is that of the braces of GLSL code |
| GlslReading.BraceBehindDivision | gui/glsledit.cpp:251-254 | in `a/b{` the brace is not listed |
| Highlighter.ForgottenComment | gui/glsledit.cpp:217-223 | behind the line `}/*` the next line is not read as a comment |
| Highlighter.HighlightedSoundIff | gui/glsledit.cpp:360-367 | whatever lists the lines carried before, the highlighted document satisfies what brace matching needs iff every line without braces in code carried none or one that still lists braces of the line in order |
| Highlighter.UpToDateIff | gui/glsledit.cpp:360-367 | the lists are exactly the braces in code iff no line without braces in code carried a brace |
| Highlighter.StaleList | gui/glsledit.cpp:360-367 | a line that lost its only brace keeps a list with a place outside its text |
| BraceSearch.FindClosingMatch | gui/glsledit.cpp:496-521 | on any document, the first place behind the cursor, in the lists from the cursor's line on, at which one more brace is closed than opened, else -1; on a sound document, the same as scanning the text |
| BraceSearch.FindOpeningMatch | gui/glsledit.cpp:523-548 | the same backwards from before the brace left of the cursor |
| BraceSearch.ClosingIsWalk | gui/glsledit.cpp:496-521 | on a sound document, walking the lists forwards is scanning the text for the depth zero |
| BraceSearch.OpeningIsWalk | gui/glsledit.cpp:523-548 | likewise backwards |
| Brackets.ClosingIffMatching | gui/glsledit.cpp:496-521 | from a highlighted opening brace, q is found iff q is its matching closing brace |
| Brackets.OpeningIffMatching | gui/glsledit.cpp:523-548 | from behind a highlighted closing brace, p is found iff p is its matching opening brace |
| Brackets.ThereAndBackIff | gui/glsledit.cpp:496-548 | if an opening brace has a match, the search back from it returns the brace iff the brace was highlighted |
| Brackets.BackAndThereIff | gui/glsledit.cpp:496-548 | if a closing brace has a match, the search forwards from that returns the brace iff the brace was highlighted |
| Brackets.NoWayBack | gui/glsledit.cpp:496-548 | in `/*{*/}` the first brace finds the last, which finds nothing |
| Timespan.BinarySearchTimespanIndexed | gui/profiling.h:90-124 | never reads outside the index list and ends; over disjoint spans returns the span covering the time iff there is one, else the end, or the last span begun when nearest is asked for |
| ImageSize.IsPotIff | helpers/glsize.hpp:550-554 | the bit test holds exactly for zero and the powers of two |
| ImageSize.AlignIsLeastMultiple | helpers/glsize.hpp:556-560 | for a power of two, the bit trick gives the least multiple at or above the argument |
| ImageSize.StrideOfSpecification | helpers/glsize.hpp:642-653 | the row stride is the one of section 3.6.4 of the OpenGL 2.1 specification, for every element size and alignment |
| ImageSize.RowsApart | helpers/glsize.hpp:640-653 | neighbouring rows start the least multiple of the alignment apart that holds the bits of GL_UNPACK_ROW_LENGTH pixels if that is positive, else of the width |
| ImageSize.ImagesApart | helpers/glsize.hpp:655-659 | neighbouring images start GL_UNPACK_IMAGE_HEIGHT rows apart if that is positive, else the height |
| ImageSize.FirstRowOfBox | helpers/glsize.hpp:679-683 | the first row lies behind the skipped images and rows |
| ImageSize.PixelInRow | helpers/glsize.hpp:665-681 | in its row a pixel ends with the first byte that holds the bits of the skipped pixels, those before it, and its own |
| ImageSize.StrideOfBitmap | helpers/glsize.hpp:642-653 | likewise the stride of bitmaps, whose pixels are bits |
| ImageSize.GlImageSize | helpers/glsize.hpp:619-686 | the accumulated size is the end of the last pixel plus at most one byte of rounding; without sub-image unpacking only the alignment counts |
| ImageSize.ContainsIffLast | helpers/glsize.hpp:661-683 | a buffer holds every pixel of the box iff it holds the last one |
| ImageSize.SizeIsBound | helpers/glsize.hpp:619-686 | every byte of every pixel lies below the size; it is the least such size iff nothing is lost to rounding, else one more |
| ImageSize.OneTooLarge | helpers/glsize.hpp:661-683 | for one pixel of at most four bits behind a skipped one the size is two bytes, and the pixel ends with the first |
| ImageSize.WholeBytesAreTight | helpers/glsize.hpp:661-683 | nothing is lost when a pixel is a whole number of bytes |
| BlockSize.CalcSliceSize | helpers/dxgisize.hpp:225-234 | one slice: the closed size of a block format, positive unless a dimension is zero |
| BlockSize.CalcDataSize | helpers/dxgisize.hpp:236-249 | for block formats, the least number of bytes that holds the block of every texel of the box |
| BlockSize.ClosedSizeIsLeast | helpers/dxgisize.hpp:225-249 | the closed formula is that least number for every format, box and pitches, and the last block ends exactly there iff a row of blocks is a whole number of bytes |
| BlockSize.RowBytesIsLeast | helpers/d3dcommonsize.hpp:173-175 | the packed pitch is the least number of bytes that holds the blocks of a row |
| BlockSize.GetLockSize | helpers/d3dcommonsize.hpp:124-200 | it divides by zero iff the pitch is the packed one and the format is not known; error exits give zero; a partial lock, or a single row of blocks, gives the same least size; a full lock gives whole rows |
| BlockSize.FullIsLeastIffPacked | helpers/d3dcommonsize.hpp:173-188 | a full lock has exactly the least size iff its pitch is the packed one, and is sufficient iff its pitch is not smaller |
| BlockSize.GetNumMipLevels | helpers/dxgisize.hpp:267-277 | the last level, and of the levels only the last one, is a single texel |
| BlockSize.ExtentIs | helpers/dxgisize.hpp:258-260 | the extent of a level is that of the texture divided by two to the level, and at least one |
| BlockSize.CalcMipDataSize | helpers/dxgisize.hpp:253-264 | the least number of bytes that holds the texels of the level |

## Left out

- The real trace parser: call k of a trace has number k and a bookmark is a position; traces of several threads, where gui/traceloader.cpp:496-497 says fewer calls may be parsed, deviate from this.
- One trace per session: no `setFileName`, no edited calls or saving, no thumbnails, no percent reports, no help links, no binary data sizes.
- Each handler is one atomic turn, and the loader reads `isLoaded` of the GUI's frames at once; the data race between the threads is not modelled.
- FrameContents.Load: call objects are named by their place in the frame, so parent and child links are places, not references.
- ApiTrace: frames and calls are values; two objects with the same number are told apart by the fetch that made them.
- Search texts and `callContains`: a search is the set of call numbers that match.
- Pickle: the machine has the opcodes that the writer uses, byte strings as dictionary keys, ASCII text, and REDUCE as a symbolic application; a list or dictionary in memo slot 1 is kept by value, since nothing reads the slot.
- Pickle: floating-point numbers are their eight bytes (conversion of float to double is not modelled); null strings and strings of 2^31 bytes or more; the `if (false)` branch for structures as tuples; the call set as such, a predicate here.
- PickleOutput.PickleWriter.WriteLong: the type is a size and a sign; the int-sized shifts of types narrower than int are not modelled.
- Bitmasks: a 64-bit word is the set of its bits.
- UBJSON: short reads of QDataStream fail at once, strings stay bytes, floating-point numbers stay their bytes; the payload of a high-precision number is not consumed, as in the source, and is no part of the encodings.
- UbjsonCounts.TypedObjectMisread: says nothing of typed objects with an empty name, of which some are read as meant (NamelessTypedObject): the reader takes their type, count and values for members in turn, and what comes of that depends on all bytes to the end of the stream.
- UbjsonCounts.CountedObjectIff: speaks of a counted object at the top of a stream; inside another container it takes the bytes behind it for its members likewise.
- UBJSON no-ops before a marker other than that of an element: before a name they are misread as EmptyNameAppears says; before a value in an object they take the place of the value.
- Utf: the decoder reads a sequence with an end; a missing octet is a malformed one. The source's assertions are taken as compiled out; with them, F7 BF BF BF stops the program. The element sizes of the other path types are not modelled.
- The format tables `_gl_format_channels`, `_gl_format_size`, the DXGI and D3DFMT tables: sizes are parameters.
- Machine overflow in the size computations; negative image dimensions, which OpenGL rejects; `_shaderSize` and `_vertexCount`.
- Highlighter: colours, keywords and marks; the classes of characters are parameters that exclude braces, slashes and quotes.
- Timespan.BinarySearchTimespanIndexed: nothing is said about which span is found when spans overlap. `binarySearchTimespan`, whose upper bound starts one too high, is not modelled.
