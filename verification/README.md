# FirePHP4Chrome header decoder, modelled in Dafny

FirePHP4Chrome is a Chrome devtools extension. It reads the Wildfire
"JsonStream 0.2" headers that a server-side FirePHP library attaches to an
HTTP response and turns them into console commands for the inspected page.
This project models the decoder that does that work, as pure functions
from one response's header list to the sequence of command objects it
sends. Proofs state how that sequence follows from the headers.

Two decoders are modelled:

- **The current decoder**, `src/js/devtools.js`. It works in these steps:
  - It extracts the `X-Wf-` headers case-insensitively, keyed by their lower-cased name (`Headers`).
  - It checks the protocol header (`Headers.IsProperProtocol`).
  - It orders the message headers `x-wf-1-1-1-<n>` into a sparse array at slot `n - 1` (`Headers.SortedMessageHeaders`).
  - It reassembles payloads that span several headers. It strips the `<digits>|` counter, splits on every `|` and treats a second piece of `\` as "continued" (`Reassembly`).
  - It parses each payload as either a `[meta, message]` array or a one-key "dump" object (`Payload`).
  - It builds the command for the lower-cased `Type` (`Commands`): levels, groups, tables, traces and exceptions, with stack frames normalised.
  - It appends a truncation notice when the response carries `x-wf-notify-truncated` (`Decoder`).
- **The legacy decoder**, `js/devtools.js`. It matches header names case-sensitively, keeps the names as they were sent and does not sort. It reads each header on its own as the second `|`-field of its value and knows only log, info, warn, error and table (`Legacy`).

## How the model represents the program

- **JavaScript values** are `JsValue.Value`: undefined, null, booleans, numbers, strings, arrays and objects.
  - An object is its member list in creation order.
  - Property reads (`JsValue.Get`) follow the language. A read on `null` or `undefined` is a `TypeError`. An array or string answers `length` and its index keys; a string's length and indices count characters, not UTF-16 code units.
- **Exceptions.** Anything the source would throw is a `Fault` (`TypeError` or `SyntaxError`).
  - A `Runs.Run` pairs the commands already sent with the fault that ended processing, if any.
  - `Runs.Then` sequences two steps. A step after a fault never runs, just as an exception leaves `processHeaders`.
- **`JSON.parse`** is the parameter `parse: string -> Option<Value>`, where `None` is its `SyntaxError`.
- **`console.table`.** Whether it exists is the boolean `hasConsoleTable`.
- **Sending.** Sending a command object is appending it to the output sequence.
- **The message loop.** `Reassembly.MessageLoop` is a method with loop invariants. `Decoder.ProcessHeaders` calls it and is proved equal to the functional reading `Decoder.Decode`.
  - The loop reads each array slot through `Reassembly.ReadSlots`. This is the same per-header `replace`/`split` the source performs inside the loop; reading a header has no side effect, so reading every slot up front changes nothing.
- **The model follows the code where it differs from the protocol's intent.**
  - An exception while a message is decoded ends the whole response. It does not skip to the next message. No truncation notice follows it.
  - A hole in the sorted header array is a `TypeError` (`undefined.replace`), not a skipped index.

## Model

| member | source | states |
|---|---|---|
| Headers.WildfireHeaders | src/js/devtools.js:85-97 | the extracted set has each key once, and every key starts with `x-wf-` |
| Headers.WildfireHeadersLookup | src/js/devtools.js:85-97 | a key reads value v exactly when v is the value of the last header whose lower-cased `X-Wf-` name is that key; a key is absent exactly when no header files under it |
| Headers.LastStoredIsRead | src/js/devtools.js:89-93 | a later duplicate name overwrites an earlier one: the last header filed under a key is the one read |
| Headers.ReadIsLastStored | src/js/devtools.js:89-93 | every value read under a key comes from the last header filed under it |
| Headers.WildfireHeadersAbsent | src/js/devtools.js:91 | a key is missing from the set exactly when no header matches `^X-Wf-` case-insensitively with that lower-cased name |
| Headers.ProtocolGateOnRawHeaders | src/js/devtools.js:125-127 | the protocol check passes exactly when the last `x-wf-protocol-1` header, in any case, carries exactly the JsonStream 0.2 URI |
| Headers.MessageIndexOfMessageKey | src/js/devtools.js:109-112 | the header of message n, for 1 <= n <= 2^32 - 1, is stored at slot n - 1 |
| Headers.SetSlot | src/js/devtools.js:112 | a write to a sparse array fills that slot, grows the array past it when needed, and leaves every other slot (or a new hole) as it was |
| Headers.SortedMessageHeaders | src/js/devtools.js:105-116 | the sparse array of message headers is empty or ends in a filled slot |
| Headers.SortedMessageHeadersSlots | src/js/devtools.js:105-116 | slot i holds v exactly when v belongs to the last message key that writes slot i |
| Headers.SortedMessageHeadersFilled | src/js/devtools.js:108-113 | slot i is filled exactly when some message key writes it |
| Headers.MessageKeysAreWildfire | src/js/devtools.js:91-109 | every name that yields a message slot passes the Wildfire filter too |
| Headers.MessagesInIndexOrder | src/js/devtools.js:105-116 | when the message headers carry values 1..N without a gap, the array is exactly those values in numeric order, whatever order the headers arrived in |
| Reassembly.StripCounterOfCounter | src/js/devtools.js:31 | a value beginning with `<digits>` and a pipe loses exactly that prefix |
| Reassembly.StripCounterWithoutCounter | src/js/devtools.js:31 | a value that does not start with some run of digits followed by a pipe is kept whole |
| Reassembly.ParseFragment | src/js/devtools.js:31-34 | the JSON piece is the stripped value up to its first pipe or its end; the fragment is continued exactly when that pipe is followed by `\` and then another pipe or the end |
| Reassembly.FragmentOfCounted | src/js/devtools.js:31-34 | a header `<digits>`, a pipe and a tail reads as the first pipe-separated piece of tail, continued exactly when the second piece is `\` |
| Reassembly.FragmentRoundTrip | src/js/devtools.js:31-34 | a header the producer encodes from a pipe-free JSON piece and a continuation flag reads back as that piece and that flag |
| Reassembly.PipeInPayloadIsCut | src/js/devtools.js:32-33 | a payload containing a pipe is cut at its first pipe, so the text read differs from the text sent |
| Reassembly.PayloadCount | src/js/devtools.js:34-42 | one payload is completed per fragment without the continuation flag |
| Reassembly.PayloadsKeepAllText | src/js/devtools.js:33-42 | the completed payloads followed by the pending buffer are exactly the buffer and every fragment's JSON, in order |
| Reassembly.ContinuedMakeNoPayload | src/js/devtools.js:34-37 | continued fragments complete no payload and only grow the buffer |
| Reassembly.PayloadsOfAppend | src/js/devtools.js:30-43 | reading two runs of fragments one after the other gives the payloads of the first, then those of the second started from the first's pending buffer |
| Reassembly.ChainMakesOnePayload | src/js/devtools.js:33-42 | a chain of continued fragments closed by a final one completes one payload, the concatenation of all their JSON, and empties the buffer |
| Reassembly.TrailingChainIsDropped | src/js/devtools.js:30-43 | a continued chain at the end of the headers produces no payload |
| Reassembly.SinglesArePayloads | src/js/devtools.js:30-43 | when no fragment is continued, each fragment is its own payload, in order |
| Reassembly.MessageLoop | src/js/devtools.js:29-43 | the loop as written sends what the functional reading `Drain` sends and stops with the same fault |
| Reassembly.DrainBuildsPayloads | src/js/devtools.js:29-43 | without holes, the loop builds exactly the completed payloads, in order |
| Reassembly.DrainStopsAtHole | src/js/devtools.js:30-31 | at the first hole, the loop has built the payloads completed before it and then throws a TypeError |
| Reassembly.BuildAllWithoutFault | src/js/devtools.js:38-41 | when no payload throws, every command built is sent, in payload order |
| Reassembly.BuildAllStopsAtFault | src/js/devtools.js:38-41 | the first payload that throws ends the loop, after the commands of the earlier payloads |
| Payload.ParseHeaderForResponse | src/js/devtools.js:332-355 | invalid JSON throws a SyntaxError and `null` throws a TypeError; when element 0 is defined, meta and message are elements 0 and 1; otherwise meta is a `log` meta labelled with the last own key, and the message is the value under that key |
| Payload.ArrayEncoding | src/js/devtools.js:346-349 | `[meta, message]` decodes to that meta and that message |
| Payload.DumpEncoding | src/js/devtools.js:334-344 | a one-key dump object `{label: message}` decodes to meta `{Type: "log", Label: label}` and that message |
| Payload.DumpOfNamedKeys | src/js/devtools.js:334-344 | a dump with several distinct named keys is labelled with the LAST key, and its message is the value under that key |
| Payload.DumpUnderKeyZero | src/js/devtools.js:334-348 | a dump under key "0" is read as an array: its value becomes the meta and the message is undefined |
| Payload.NothingToLabel | src/js/devtools.js:339-344 | a payload with no own key decodes to an unlabelled `log` meta and an undefined message |
| Commands.ClassifyLevels | src/js/devtools.js:169-175 | a level arm is taken exactly for debug, log, info, warn and error, and the command type is that name |
| Commands.Interleave | src/js/devtools.js:257-260 | the fallback params are "\n", row, "\n", row, ... for every row in order |
| Commands.BuildTraceObject | src/js/devtools.js:368-383 | a frame throws a TypeError exactly when the entry or its args are null or undefined; otherwise the result is an object whose keys are Class, Method, File, Line, followed by Parameters exactly when the args' length is truthy |
| Commands.FrameHoldsPickedFields | src/js/devtools.js:368-383 | in a frame that does not throw, Class, Method, File and Line each hold the capitalised source field when it is truthy and the lower-case one otherwise, and Parameters holds the args exactly when their length is truthy |
| Commands.MixedCasingFrame | src/js/devtools.js:368-383 | a frame spelled with any mix of capitalised and lower-case keys, with truthy values, rebuilds to exactly `{Class, Method, File, Line}` holding those values, plus Parameters when the args have a length |
| Commands.FrameCasingIrrelevant | src/js/devtools.js:369-377 | a frame with capitalised fields and one with lower-case fields normalise to the same object, which holds the given values |
| Commands.SamePicksSameFrame | src/js/devtools.js:369-377 | a frame depends only on the field each `Upper ? Upper : lower` choice picks |
| Commands.FrameWithoutArgsThrows | src/js/devtools.js:377-378 | a frame with neither `Args` nor `args` throws a TypeError |
| Commands.BuildTraceObjects | src/js/devtools.js:280-310 | the trace entries normalise one by one, in order, and any entry that throws makes the whole list throw |
| Commands.TraceFrames | src/js/devtools.js:281-284 | a missing `Trace` throws; it succeeds exactly when `Trace` is readable and every entry builds, and then entry i of `Trace` gives a line break at position 2i and its normalised frame at position 2i + 1 |
| Commands.TraceLead | src/js/devtools.js:272-277 | the trace lead is the label followed by the message when truthy; with neither it is "Stack Trace" |
| Commands.TraceParams | src/js/devtools.js:272-284 | trace params are the lead, "\n", the message's own frame, then exactly the frames of its `Trace` |
| Commands.ExceptionParams | src/js/devtools.js:298-310 | exception params are the label, "Exception:\n", the summary object, "\nStack trace:\n", then exactly the frames of its `Trace` |
| Commands.RowRecord | src/js/devtools.js:241-244 | a row throws exactly when it has a cell and the column row is missing; otherwise it is an object with distinct keys |
| Commands.Records | src/js/devtools.js:240-246 | the data rows build exactly when every row can be read and, when the column row is missing, has no cells; the first row that cannot be read throws a TypeError; otherwise record i is the record of row i |
| Commands.StructuredTable | src/js/devtools.js:238-247 | a non-array message throws, and an empty array gives an empty table; a table that builds has one record per row after the column row |
| Commands.StructuredTableRows | src/js/devtools.js:238-247 | an array table builds exactly when every data row builds, and then record i - 1 is the record of row i under the shifted-off column row |
| Commands.NumberRowGivesEmptyRecord | src/js/devtools.js:241-245 | a number data row has no `length`, so it builds and adds the empty record `{}` |
| Commands.RecordMapsColumns | src/js/devtools.js:242-244 | with distinct column names, a full row maps column name j to cell j |
| Commands.RecordsOfFullRows | src/js/devtools.js:240-246 | with distinct column names and full rows, the records are the rows zipped with the names, in order |
| Commands.StructuredTableOfRows | src/js/devtools.js:238-247 | a table of a header row and full rows becomes the list of those zipped records |
| Commands.FallbackTable | src/js/devtools.js:257-260 | the fallback throws exactly on a null or undefined message, and for an array it interleaves "\n" with the rows |
| Commands.Dispatch | src/js/devtools.js:169-317 | an unknown type sends nothing and a level sends one command of that type |
| Commands.BuildFromParts | src/js/devtools.js:155-319 | a missing meta or a non-string `Type` throws; an unknown lower-cased type yields no command |
| Commands.BuildCommandObject | src/js/devtools.js:150-156 | invalid JSON throws a SyntaxError, any other exception of the payload read (the TypeError of a `null` payload) is thrown on unchanged, and a parsed payload is built from its meta and message |
| Commands.LevelLayout | src/js/devtools.js:160-183 | a level command's params are the truthy label, the message, and `File:Line` exactly when `File` is truthy |
| Commands.GroupOpening | src/js/devtools.js:185-207 | a group opens collapsed exactly when the type is group_collapsed or `Collapsed` is loosely equal to "true", with params label and message |
| Commands.GroupClosing | src/js/devtools.js:209-220 | groupend and group_end send one `groupEnd` command with the label and message |
| Commands.TableLabelSentFirst | src/js/devtools.js:230-232 | a truthy table label is sent as its own `info` command before the table, never inside it |
| Commands.TableIgnoresMeta | src/js/devtools.js:222-266 | without a label, a table's commands depend only on the message |
| Commands.FallbackTableRows | src/js/devtools.js:253-264 | without `console.table`, one `info` command carries "\n" and each row in order, with no "Table" heading |
| Commands.EmitParamsShape | src/js/devtools.js:286-315 | a trace or exception arm sends at most one command, exactly when it does not throw, and of the arm's kind |
| Commands.TracesAreLogged | src/js/devtools.js:268-316 | a trace or exception payload sends one `log` command unless it throws |
| Commands.UncaptionedTrace | src/js/devtools.js:275-277 | a trace with no label and no message starts with "Stack Trace" |
| Commands.MissingTraceThrows | src/js/devtools.js:281-307 | a trace or exception without `Trace` throws a TypeError and sends nothing |
| Commands.TypeCaseInsensitive | src/js/devtools.js:158 | `Type` is compared after lower-casing, so its case does not matter |
| Decoder.ProcessHeaders | src/js/devtools.js:20-56 | the method as written sends exactly what `Decode` says and stops with the same fault |
| Decoder.ProtocolGate | src/js/devtools.js:21-55 | without the protocol header carrying the URI, nothing is sent at all, not even the truncation notice |
| Decoder.TruncationNoticeLast | src/js/devtools.js:45-53 | with the truncation header present, exactly one notice with its value is sent after all message commands |
| Decoder.NoTruncationNoNotice | src/js/devtools.js:46 | without the truncation header, only the message commands are sent |
| Decoder.SlotsOfNumberedMessages | src/js/devtools.js:23-31 | numbered headers without a gap leave no hole, and the loop reads their fragments in number order |
| Decoder.NumberedMessagesDecode | src/js/devtools.js:20-56 | with numbered headers and no gap, the response builds the payloads of the fragments in number order, then the notice |
| Decoder.OneHeaderPerMessage | src/js/devtools.js:20-56 | single-header messages that all build send their commands in message-number order, and nothing else |
| Decoder.FaultEndsTheResponse | src/js/devtools.js:38-53 | the first message that throws ends the response: earlier commands stay sent, and no later command or notice follows |
| Decoder.MalformedPayloadThrows | src/js/devtools.js:332-333 | a payload that is not valid JSON throws a SyntaxError |
| Decoder.UnknownTypeIsSkipped | src/js/devtools.js:39-42 | a payload that builds no command adds nothing, and the loop goes on with the next one |
| Decoder.GapThrows | src/js/devtools.js:30-31 | a gap in the message numbers sends what came before it and then throws |
| Legacy.LegacyHeaders | js/devtools.js:16-28 | the set has each name once, and every name starts with `X-Wf-` as sent |
| Legacy.LegacyHeadersLookup | js/devtools.js:20-25 | a name reads v exactly when the last header sent under that exact name has value v |
| Legacy.LastFiledIsRead | js/devtools.js:20-25 | a later header with the same name overwrites an earlier one |
| Legacy.ReadIsLastFiled | js/devtools.js:20-25 | every value read comes from the last header with that name |
| Legacy.LegacyHeadersAbsent | js/devtools.js:22 | a name is missing exactly when no header of that exact name starts with `X-Wf-` |
| Legacy.CaseSensitiveExtraction | js/devtools.js:22 | headers whose names do not start with `X-Wf-` in exactly that case are all dropped |
| Legacy.DistinctNamesKeepArrivalOrder | js/devtools.js:16-28 | with distinct names, the headers are kept in arrival order under their names as sent |
| Legacy.LegacyProtocolGate | js/devtools.js:33-35 | the check passes exactly when the last `X-Wf-Protocol-1` header, in exactly that case, carries the URI |
| Legacy.LegacyReadsEncodedJson | js/devtools.js:45-46 | the JSON is the second pipe-separated field of the value, so a counter is skipped and a continuation flag is ignored |
| Legacy.NoSeparatorParsesUndefined | js/devtools.js:45-46 | a value without a pipe hands `undefined` to `JSON.parse` |
| Legacy.LegacyKind | js/devtools.js:53-66 | a command kind exists exactly for log, info, warn, error and table, under that name |
| Legacy.EntryOf | js/devtools.js:47-48 | a null payload, a missing meta or a non-string `Type` throws a TypeError |
| Legacy.BuildCommandObject | js/devtools.js:40-48 | a name without the `X-Wf-1-1-1-` prefix yields no command, unparseable JSON throws a SyntaxError, and parsed JSON yields exactly the entry built from it |
| Legacy.LegacyLevel | js/devtools.js:54-66 | a level yields its type, element 1 as message, and `File:Line` always, even when `File` is empty |
| Legacy.LegacyTable | js/devtools.js:67-80 | a table is "Table:" followed by "\n" and each row, in order |
| Legacy.LegacyTableWithoutRows | js/devtools.js:73 | a table without rows throws a TypeError |
| Legacy.LegacyUnknownType | js/devtools.js:50-85 | any other type yields no command |
| Legacy.Announce | js/devtools.js:96-101 | a built command is sent, a null command is not, and an exception stops the listener |
| Legacy.OnRequestFinished | js/devtools.js:91-105 | the listener as written sends what `Listener` says and stops with the same fault |
| Legacy.AnnounceAllInOrder | js/devtools.js:95-102 | when no header throws, the commands are sent in header order |
| Legacy.AnnouncedInArrivalOrder | js/devtools.js:91-105 | with distinct names and no exception, commands follow the arrival order of the headers |
| Legacy.LegacyProtocolRequired | js/devtools.js:94 | without the exact-case protocol header carrying the URI, the listener sends nothing |
| Legacy.AnnounceAllStopsAtFault | js/devtools.js:95-102 | the first header that throws ends the listener, after the commands of the earlier ones |
| Text.Split | src/js/devtools.js:32 | the pieces hold no separator, there is at least one, and joined with the separator they give back the text |
| Text.FirstPieceIs | src/js/devtools.js:32-33 | piece 0 of `split` is w exactly when w has no separator, starts the text, and is followed by a separator or the end |
| Text.NatToString | src/js/devtools.js:111 | the decimal text of n is canonical, with no leading zero, and denotes n |
| Text.ParseIntOfNatToString | src/js/devtools.js:111 | `parseInt` reads the decimal text of n back as n |
| Text.LowerIdempotent | src/js/devtools.js:158 | lower-casing twice is lower-casing once |
| JsValue.Elements | src/js/devtools.js:281 | a loop over `v.length` throws on null or undefined, and otherwise visits `v[0]` up to `v[length - 1]` |
| JsValue.LastOwnKeyOfNamedMembers | src/js/devtools.js:339 | `Object.keys(v).pop()` on an object with distinct named keys gives the key of its last member |
| Runs.ThenAssociative | src/js/devtools.js:30-53 | sending in sequence is associative, so the steps of a response may be grouped either way |

## Left out

- The Chrome plumbing in both files: `_sendCommandObject`, `chrome.extension.sendMessage`, the `escape(JSON.stringify(...))` transport and the `onRequestFinished` registration. Sending is appending to the output sequence.
- `sendFirstLoadMessage` and the load-time message of `js/devtools.js` (lines 107-114). They send a constant when the panel opens and never look at a response.
- `src/js/background.js` and `src/js/options.js`. They are Chrome tab, storage and options-page wiring.
- `JSON.parse`. It is a parameter of the model, so no property depends on how JSON text is parsed.
- `console.table`. Its presence is the boolean `hasConsoleTable`.
- Floating point. Numbers are integers. No property depends on fractional values, and `File` and `Line` values are only turned into text. `JsValue.ToStr` writes every digit of a number, while JavaScript writes a number of magnitude 1e21 or more in exponent form (`1e+21`), so such a `File` or `Line` prints differently in the model.
- JavaScript coercion beyond what the decoder uses:
  - objects with their own `toString`/`valueOf` are not modelled, so every object prints as `[object Object]`;
  - an array prints as its elements joined with commas, which is what `File + ":" + Line` and `Collapsed == 'true'` need.
- `__proto__` as a table column name. `row[columns[j]] = message[i][j]` (src/js/devtools.js:243) with the column `__proto__` gives the row no own member: an object or `null` cell sets the row's prototype, and any other cell is ignored by the prototype setter; `Commands.RecordFields` adds an own member `__proto__` instead. Parsed payloads and header names need no such exception: `JSON.parse` makes `__proto__` an own property, and every kept header name starts with `x-wf-`.
- `parseInt` skipping leading white space. Header names carry none after the prefix.
- Lower-casing beyond ASCII. Header names and the known `Type` values are ASCII.
- JsValue.LoopCount: `i < v.length` is modelled for a number or boolean `length` only. A string, array or fractional `length` (such as `[2]`, which JavaScript compares as 2) is counted as zero, because the payloads the decoder loops over are arrays and strings whose `length` is a whole number.
- UTF-16: JavaScript strings measure and index in UTF-16 code units, while the model's strings are sequences of characters. A `Trace` or table row given as a string holding characters outside the Basic Multilingual Plane has a different `length` and different index reads in the model.
- Exceptions. The code aborts the whole response on an exception, and the model does the same. It does not model skipping a bad message and going on with the next one, which is what the protocol intends.
- Holes. A hole in the sorted message array throws a TypeError in the model, because `undefined.replace` does in the code; it is not skipped.
