# Verified model of the LocalSend core

A Dafny model of the networking and bookkeeping core of a LocalSend client for handheld consoles,
with proofs of what its parts are meant to do and of what they do together. `dafny verify
dfyconfig.toml` checks everything.

The model follows the program part by part. What the program does step by step (buffers with a
cursor, loops over maps, objects with fields) is a method or a class here, proved against a function
of its inputs or of the old state; the theorems are about those functions.

- **Bytes and texts** (`Text.dfy`, `OrderedMap.dfy`). A byte is the `char` with its code; no theorem
  limits the codes unless it says so. `std::map` is the sorted list of its entries, since iteration
  order shows on the wire.
- **HTTP framing** (`HttpStream.dfy`, `Chunked.dfy`, `Query.dfy`, `Http.dfy`, `HttpResponse.dfy`). A
  connection brings its bytes in arbitrary non-empty pieces; a read takes part of one. Each reader is
  proved to depend on the bytes only. The chunked decoder is proved equal to a decoder on the whole
  input, that decoder to accept exactly the bodies of section 7.1 of RFC 9112 (with the leniency of
  `strtoull` in size lines), and both to invert the writer.
- **JSON and messages** (`Json.dfy`, `JsonReader.dfy`, `JsonParser.dfy`, `JsonPrinter.dfy`,
  `Protocol.dfy`). The grammar of RFC 8259 is a type of concrete syntax trees with a text and a value
  each. Reading accepts exactly the texts of valid trees, one tree each; the parser object computes
  that; printing then parsing is the identity, also for the messages of the protocol.
- **Transfer list** (`Transfer.dfy`), **safe names** (`SafePath.dfy`).
- **Upload sessions** (`Sessions.dfy`, `ReceiveServer.dfy`, `Inbox.dfy`). The receiving server is a
  state machine. A step is one mutex-guarded block of the session map, one operation on the inbox
  (a look for a free name, opening, a write, a removal) or one call of the transfer list, so runs
  contain all interleavings of any number of clients; a cancel, which keeps the session mutex while
  it cancels the transfers, may be interleaved more than in the program. A run is any list of steps
  each of which is enabled in its turn, nothing else. The handlers are methods that carry the run
  they are, and are also proved equal to a function from the bytes of a connection to its outcome.
  `Inbox.dfy` says what a successful handler leaves in the inbox.
- **Uploads and cancels** (`Uploads.dfy`). From the bytes of a request: which bodies are stored, which
  are refused and how, and what changes.
- **Sending** (`Sender.dfy`, `SendEndings.dfy`, `SendResults.dfy`, `SendFiles.dfy`, `Delivery.dfy`,
  `Exchanges.dfy`). The sending driver works on the transfer list while other threads use it between
  any two of its steps; they may do anything that leaves its own items alone. What it returns, what it
  writes on each connection and what its items show is a function of what it meets (files,
  connections, looks at the cancel flag). `SendResults.dfy` tells result, transfers and written bytes
  from the connections alone. `Delivery.dfy` composes the function with the one of the server, and
  `Exchanges.dfy` has version 1 and cancelling.
- **Base64** (`Base64.dfy`), **devices** (`Devices.dfy`, `DeviceSelection.dfy`, `AppService.dfy`).

Some natural claims are false of this code. The model keeps the code and says when they hold:

- A cancelled transfer does not stay cancelled: failing it, giving it another status or a late full
  progress report ends that, and nothing else does (`Transfer.StaysCancelled`, over runs
  `Transfer.RunStaysCancelled`). A completed one can show fewer bytes than its size after a shrinking
  report (`Transfer.FullExactlyUnlessShrunk`).
- A file that is marked complete need not be in the inbox: a second upload of it that breaks off
  removes it (`Inbox.CompleteAndGone`). A name stays exactly when no failing upload removes it
  (`Inbox.StaysUnlessRemoved`).
- A file that is complete may be uploaded again (`Sessions.AdmitIgnoresComplete`).
- An empty chunk in the list given to the chunked writer ends the body (`Chunked.DeliveredExactlyUnlessCut`).
- An empty file type does not survive the wire: it is filled in (`Protocol.RequestRoundTrip`).
- Of files sent under one name, the last one stays (`Delivery.Delivered` has the exact condition).
- A finished send does not settle every transfer it listed: a source that cannot be opened any more
  ends it at once and leaves later items in preparation, and so does one that cannot be read at the
  start. `SendEndings.SettledExactly` has the exact condition, `SendEndings.StopsAtTheFirst` a send of
  two files that fails it.
- With fingerprints on some devices only, the configuration and the device store can go out of step
  (`AppService.MixedGoesOutOfStep`); `AppService.RunStaysInStep` says exactly over which runs they do not.

## Model

| member | source | states |
|---|---|---|
| HttpStreams.HttpStream.Read | src/core/http.cpp:31-37 | one read brings at most the buffer size, from the front of what is still to come, and an empty read only at the end |
| Numerals.ReadPrintedSize | src/core/http.cpp:255-262 | a printed size is read back by `stoull` and, in hexadecimal, by `strtoull`, for every 64-bit size |
| Numerals.DigitTable | src/core/http.cpp:387 | the hexadecimal digits of either case have the values of their places in "0123456789abcdef", and sizes are printed in lower case |
| Numerals.SpellsExactly | src/core/http.cpp:387 | a numeral has a value exactly when its digits, by that table, write that number in positional notation |
| Numerals.Strtoull16Is | src/core/http.cpp:387 | what `strtoull` makes of any white space, sign, digits and rest: the number, 2^64 less the number after a minus sign, or the largest value when out of range |
| Numerals.Stoull10Is | src/core/http.cpp:255-262 | what `stoull` makes of the same, with an exception when out of range |
| OrderedMap.EmplaceKeepsSorted | src/core/protocol.cpp:180-196 | `emplace` keeps key order, adds only a missing key, and leaves every other lookup as it was |
| OrderedMap.AssignKeepsSorted | src/core/json.cpp:409-415 | assignment through a key keeps key order and changes that lookup only |
| OrderedMap.LessIsLexicographic | src/core/http.cpp:199-206 | map order is lexicographic by bytes: the first differing character decides, or the shorter key comes first |
| Chunked.FillStreamBuffer | src/core/http.cpp:352-362 | the buffer grows by stream bytes only, and the call fails exactly when the stream ends first |
| Chunked.SkipTrailers | src/core/http.cpp:390-403 | trailers are accepted exactly when an empty line ends them, however the bytes arrive |
| Chunked.ReadChunkedBodyToStream | src/core/http.cpp:364-425 | verdict, output, byte count and progress reports equal those of the whole-input decoder for every split into initial body and reads, across refills and buffer compaction |
| Chunked.BodyIsDecoded | src/core/http.cpp:364-425 | completeness: every body of the chunked grammar is accepted and delivers its data |
| Chunked.BodyOf | src/core/http.cpp:364-425 | soundness: from every accepted input a body of the grammar with that text can be read off |
| Chunked.AcceptedExactlyBodies | src/core/http.cpp:364-425 | the accepted inputs are exactly the bodies of the grammar, and the output is the data of their chunks |
| Chunked.UndefinedExactly | src/core/http.cpp:404-409 | the inputs with no defined meaning are exactly well-formed frames followed by a size line within two of the largest size |
| Chunked.StandardSize | src/core/http.cpp:382-387 | a size line of the standard, hexadecimal digits of either case with leading zeros, blanks and extensions, gives the value of its digits |
| Chunked.StandardBodyIsDecoded | src/core/http.cpp:364-425 | every chunked body of section 7.1 of RFC 9112 is accepted and delivers the data of its chunks |
| Chunked.ReportsAreTotals | src/core/http.cpp:409-413 | for every input the reported totals increase strictly and end at the output size |
| Chunked.WriteChunks | src/core/http.cpp:755-768 | writes the encoding of the chunk list, or stops when a write fails |
| Chunked.EncodeThenDecode | src/core/http.cpp:755-768 | what is written decodes to the chunks before the first empty one, after any output and before any following bytes |
| Chunked.DeliveredExactlyUnlessCut | src/core/http.cpp:755-768 | decoding gives all chunks joined exactly when nothing follows an empty chunk |
| Query.UrlDecodeLoop | src/core/http.cpp:152-169 | the index loop computes the recursive decoding, including what `strtol` accepts after a percent sign |
| Query.HexPairIsStrtol | src/core/http.cpp:156-164 | the two characters after a percent sign are taken as `strtol` takes a C string: also white space, a sign, or the end of the string |
| Query.UrlDecodeUndoesEncoding | src/core/http.cpp:152-169 | decoding undoes every percent-encoding (section 2.1 of RFC 3986) of every byte string |
| Query.EveryByteStringHasAnEncoding | src/core/http.cpp:152-169 | every byte string has such an encoding |
| Query.ParseQuery | src/core/http.cpp:171-191 | the loop over parts computes the query map of a text |
| Query.QueryIsDecoded | src/core/http.cpp:171-191 | a query of any parts, with or without an equals sign or empty, is read as the entries it writes in any percent-encoding, decoded |
| Query.LastDecides | src/core/http.cpp:171-191 | of entries with one key the last decides, and the map is sorted |
| Query.WithQueryLoop | src/core/http.cpp:193-207 | the loop writes path and pairs as the recursive form says |
| Query.PairsAreRead | src/core/http.cpp:171-207 | a query the client writes is read back as the same map, when no key or value needs encoding |
| Http.ParseHeaders | src/core/http.cpp:224-246 | the line loop computes the header map of a head |
| Http.HeadersAreRead | src/core/http.cpp:224-246 | any header block, with either line end, any blanks behind the colon and lines without a colon, gives the map of its lines |
| Http.ChunkedExactly | src/core/http.cpp:264-271 | a message is chunked exactly when a header named transfer-encoding, in any case, has "chunked", in any case, in its value |
| Http.LengthExactly | src/core/http.cpp:255-262 | the body length is that of the first header, in map order, named content-length in any case, or none |
| Http.RecvUntilHeaders | src/core/http.cpp:209-222 | bytes are neither lost nor added, and success means the head has arrived within the limit |
| Http.HeadArrivesUnlessLate | src/core/http.cpp:209-222 | a head ending one read below the limit arrives for every fragmentation, and where there is no head none arrives |
| Http.ParseRequestHeaders | src/core/http.cpp:307-334 | the request is that of the bytes up to the first empty line; the bytes handed over and those unread are the body, cut at the content length unless chunked |
| Http.ParseHead | src/core/http.cpp:312-327 | request line, headers and query are taken apart as the function on the head says, or an exception |
| Http.RequestIsRead | src/core/http.cpp:307-334 | from any request line with an encoded query and any headers the server reads verb, path, the decoded query, the headers, and the length and coding they name |
| Http.ReadRemainingBody | src/core/http.cpp:336-350 | success exactly when enough bytes come, and then the body is exactly the announced number of them |
| Http.EndOfMessage | src/core/http.cpp:656-667 | the end of a written head is found at its end and nowhere before |
| Http.ClientRequestIsRead | src/core/http.cpp:656-667 | from the text the client writes the server reads verb, path, query map, body length and body back |
| HttpResponse.ParseResponse | src/core/http.cpp:539-555 | the client's result depends on the bytes that came back only, if the head arrives |
| HttpResponse.ReadBody | src/core/http.cpp:291-305 | success exactly when enough bytes come; a body that breaks off keeps what came |
| HttpResponse.ServerResponseIsRead | src/core/http.cpp:1023-1034 | the client reads back status and body of what the server wrote |
| HttpResponse.ServerResponseArrives | src/core/http.cpp:1023-1034 | the same for every fragmentation: the head is short enough to arrive always |
| HttpResponse.ResponseIsRead | src/core/http.cpp:539-555 | the client takes any response apart: status, then the data of a chunked body, the announced bytes, or what came and an error |
| HttpResponse.NoHeadNoStatus | src/core/http.cpp:539-543 | without the end of a head there is no status, and an error |
| HttpResponse.NextIntIs | src/core/http.cpp:544-548 | the status is read as C++ reads an `int`, and sticks at the ends of its range |
| Json.FirstOfDuplicatesStays | src/core/json.cpp:58-84 | an object's lookup gives the first member with that key, and the members are sorted |
| Json.CodeBytesAreUtf8 | src/core/json.cpp:204-214 | the bytes for a code unit are exactly those from which section 3 of RFC 3629 reads it back, in the shortest form |
| Json.UnitDenotes | src/core/json.cpp:150-182 | the value of a character, of each two-character escape and of `\uXXXX` is exactly what section 7 of RFC 8259 says |
| Json.UnitsDenote | src/core/json.cpp:136-184 | the contents of a string literal are what its units stand for, one after another |
| Json.NumberExactly | src/core/json.cpp:107-134 | a number is an integer exactly if it has no fraction and no exponent and its digits write at most 2^53 |
| JsonReader.ReadsExactlyTheGrammar | src/core/json.cpp:14-56 | a document is read from a text exactly when it is valid and has that text, so a text has at most one |
| JsonReader.AcceptsExactlyTheGrammar | src/core/json.cpp:14-56 | a text is accepted exactly when the grammar of RFC 8259 has a document for it |
| JsonParser.Parser.Parse | src/core/json.cpp:14-23 | the parser returns the value of the document of the text, or throws when there is none |
| JsonParser.Parser.ParseValue | src/core/json.cpp:25-56 | the value read at the position, and the position behind it |
| JsonParser.Parser.ParseObject | src/core/json.cpp:58-84 | members added in order, the first of duplicate keys kept |
| JsonParser.Parser.ParseArray | src/core/json.cpp:86-105 | elements appended in order |
| JsonParser.Parser.ParseNumber | src/core/json.cpp:107-134 | exactly the number syntax, with its value when it is a small integer |
| JsonParser.Parser.ParseString | src/core/json.cpp:136-184 | exactly the string syntax, with escapes replaced |
| JsonParser.Parser.UnicodeEscape | src/core/json.cpp:186-215 | four hexadecimal digits give the bytes of that code unit |
| JsonParser.Parser.ConsumeDigits | src/core/json.cpp:217-225 | moves behind the digits, and fails where there is none |
| JsonParser.Parser.SkipWs | src/core/json.cpp:227-235 | moves to the end of the white space |
| JsonParser.Parser.Consume | src/core/json.cpp:244-249 | takes the expected character or fails |
| JsonParser.Parser.TryConsume | src/core/json.cpp:251-257 | takes the character exactly when it is next |
| JsonParser.Parser.Expect | src/core/json.cpp:259-265 | takes the literal exactly when it is next |
| JsonPrinter.JsonEscape | src/core/json.cpp:431-466 | the escaping loop writes the units of a string literal whose value is the string |
| JsonPrinter.DumpJson | src/core/json.cpp:269-317 | the recursive printer appends the text of the value's tree |
| JsonPrinter.TreeRoundTrip | src/core/json.cpp:269-317 | the tree a value is printed as is valid and has that value |
| JsonPrinter.ParseDump | src/core/json.cpp:269-317 | parsing what was printed gives the value back and consumes the whole text |
| JsonPrinter.StringIsDecoded | src/core/json.cpp:136-215 | a document that is a string literal is parsed as what its units stand for, as UTF-8 |
| Protocol.FilesToJson | src/core/protocol.cpp:117-121 | the loop over files builds the members of the "files" object |
| Protocol.InfoExactly | src/core/protocol.cpp:140-149 | a JSON value is read as a device exactly if it is an object with that alias, whose other members are missing, null (then the default holds) or of the right type |
| Protocol.DeviceTypeExactly | src/core/protocol.cpp:59-73 | the names of the device types; any other text is a desktop |
| Protocol.RegisterExactly | src/core/protocol.cpp:151-158 | the same with port, cut to 32 bits, and protocol |
| Protocol.MulticastExactly | src/core/protocol.cpp:160-166 | the same with the announce flag, set unless given |
| Protocol.FileExactly | src/core/protocol.cpp:168-177 | a JSON value is read as a file exactly if it has id, name and size and its other members are missing, null or strings |
| Protocol.FilesExactly | src/core/protocol.cpp:182-184 | an object of files is read exactly if each is one, into a map in which the first of equal keys stays |
| Protocol.RequestExactly | src/core/protocol.cpp:179-186 | a request is read exactly from an object with such a device and an object of such files |
| Protocol.TokensExactly | src/core/protocol.cpp:191-193 | an object of tokens is read exactly if all are strings |
| Protocol.ResponseExactly | src/core/protocol.cpp:188-195 | an answer is read exactly from an object with a session id and such tokens |
| Protocol.FirstDecides | src/core/protocol.cpp:182-193 | of entries emplaced under one key the first stays |
| Protocol.FilesFromJson | src/core/protocol.cpp:183-185 | the loop reads the files back, or throws at the first bad one |
| Protocol.TokensToJson | src/core/protocol.cpp:129-134 | the loop over tokens builds the members of the "files" object of an answer |
| Protocol.TokensFromJson | src/core/protocol.cpp:189-196 | the loop reads the tokens back, or throws at the first that is no string |
| Protocol.MulticastRoundTrip | src/core/protocol.cpp:99-104 | a multicast message survives printing, parsing and decoding for every port of the program's `int` |
| Protocol.RequestArrives | src/core/protocol.cpp:106-127 | a prepare-upload request survives the wire up to the file types filled in on the way |
| Protocol.RequestRoundTrip | src/core/protocol.cpp:180-187 | it comes back unchanged exactly when no file type had to be filled in |
| Protocol.ResponseRoundTrip | src/core/protocol.cpp:189-196 | a prepare-upload answer comes back unchanged |
| Transfer.TransferStore.AddItem | src/core/transfer.cpp:8-30 | appends a pending item under the next id |
| Transfer.TransferStore.SetStatus | src/core/transfer.cpp:32-46 | new state of the list; completing fills in the bytes and clears the error |
| Transfer.TransferStore.SetProgress | src/core/transfer.cpp:48-65 | new state of the list; bytes are clamped and a full report completes |
| Transfer.TransferStore.Fail | src/core/transfer.cpp:67-78 | new state of the list |
| Transfer.TransferStore.Cancel | src/core/transfer.cpp:80-90 | new state of the list |
| Transfer.TransferStore.ClearCompleted | src/core/transfer.cpp:106-116 | exactly the unfinished items stay, in order |
| Transfer.ApplyKeepsValid | src/core/transfer.cpp:8-121 | every operation keeps ids strictly increasing in list order, below the next id, and bytes within the size |
| Transfer.RunKeepsValid | src/core/transfer.cpp:8-121 | the same over every run |
| Transfer.IdsAreNeverReused | src/core/transfer.cpp:8-30 | the ids handed out in a run are pairwise different, whatever is cleared in between |
| Transfer.OthersAreUntouched | src/core/transfer.cpp:32-90 | an operation leaves every item it does not name as it is |
| Transfer.NamedIsUpdated | src/core/transfer.cpp:32-90 | the named item becomes what the update makes of it, and stays listed |
| Transfer.HistoryDecides | src/core/transfer.cpp:8-95 | over every run short of clearing, an added item shows what its history says: the bytes of the last report, the status of the last change, the error of the last failure |
| Transfer.ClearedExactly | src/core/transfer.cpp:107-116 | clearing keeps exactly the items pending, in preparation or under way, as they are |
| Transfer.FullExactlyUnlessShrunk | src/core/transfer.cpp:48-65 | an operation breaks "completed means all bytes" exactly when it is a shrinking report |
| Transfer.RunStaysFull | src/core/transfer.cpp:48-65 | over a run it holds throughout exactly when no report shrinks |
| Transfer.StaysCancelled | src/core/transfer.cpp:32-121 | under every operation a cancelled item stays listed as cancelled exactly when the operation does not fail it, give it another status, report all its bytes or clear it |
| Transfer.RunStaysCancelled | src/core/transfer.cpp:32-121 | over a run it stays so throughout exactly when no operation ends it |
| Transfer.ProgressAfterCancel | src/core/transfer.cpp:59-62 | a cancelled item is completed by a report of all its bytes and by no other |
| SafePath.SanitizeFilename | src/core/safe_path.cpp:7-32 | the four loops terminate and compute the sanitized name |
| SafePath.DroppedIsCharwise | src/core/safe_path.cpp:10-15 | exactly control bytes, DEL, slash and backslash are dropped, character by character |
| SafePath.PairsAreOnePass | src/core/safe_path.cpp:17-20 | erasing the first pair of dots until there is none comes to one pass from the left |
| SafePath.SanitizedIsCore | src/core/safe_path.cpp:7-32 | the name is what these leave without the blanks and dots at its edges, or "file" where nothing is left |
| SafePath.SanitizedIsSafe | src/core/safe_path.cpp:7-32 | the name is not empty and has no control byte, separator, ".." or dot or space at an end |
| SafePath.SafeAreFixedPoints | src/core/safe_path.cpp:7-32 | the names with these properties are exactly those left alone, so sanitizing is idempotent |
| SafePath.UniqueDestinationPath | src/core/safe_path.cpp:34-54 | the counting loop returns the first candidate that is free, or the last one |
| SafePath.CandidatesDiffer | src/core/safe_path.cpp:46-51 | different suffixes give different names |
| SafePath.SuffixGoesBeforeExtension | src/core/safe_path.cpp:43-51 | the number goes in parentheses between stem and extension, which starts at the last dot |
| SafePath.Pigeonhole | src/core/safe_path.cpp:34-54 | a directory holding the first n candidates has at least n entries |
| SafePath.DestinationIsFree | src/core/safe_path.cpp:34-54 | the name is a safe single component, is taken exactly when all 10000 candidates are, hence free below 10000 entries, and has the lowest free suffix |
| Sessions.StepKeepsInv | src/core/http.cpp:1105-1276 | every step of every thread keeps the invariant of the sessions |
| Sessions.StepPreserves | src/core/http.cpp:1105-1276 | every step keeps sessions, tokens, sizes and destinations, and never undoes a cancel |
| Sessions.StepShows | src/core/http.cpp:1190-1241 | what the steps show in the transfer list: a report the bytes written so far, an end all bytes, a failure its text, a cancel that |
| Sessions.SpliceExactly | src/core/http.cpp:1183-1227 | a write changes exactly the bytes it covers |
| Sessions.StartIsSafe | src/core/http.cpp:826-846 | the server starts in the invariant, with any inbox and transfer list |
| Sessions.RunIsSafe | src/core/http.cpp:1105-1276 | both over every list of steps enabled in turn, by any number of threads |
| Sessions.ReachableIsSafe | src/core/http.cpp:1105-1276 | every state the server can come to keeps the invariant |
| Sessions.AnswerIsStored | src/core/http.cpp:1105-1130 | in every reachable state the tokens answered to a prepare request are exactly those stored, whatever has happened since and with duplicate file ids |
| Sessions.AdmittedAgrees | src/core/http.cpp:1155-1178 | an admitted upload has the token of a stored file of a session that is not cancelled |
| Sessions.AdmitExactly | src/core/http.cpp:1143-1180 | exactly the uploads are admitted that name an open session (in version 1 the only one), a file of it, the token of that file, and its size if they announce one |
| Sessions.RefusedExactly | src/core/http.cpp:1147-1175 | which answer each other upload gets |
| Sessions.AdmitIgnoresComplete | src/core/http.cpp:1155-1178 | admission decides the same before and after a file became complete, so a complete file may be uploaded again |
| Sessions.CompleteIsEarned | src/core/http.cpp:1240-1251 | in every reachable state a file is complete only after a handler admitted with its token wrote exactly its size |
| Sessions.NoUploadAfterCancel | src/core/http.cpp:1256-1276 | after a cancel no upload to that session is admitted, however the run goes on |
| Inbox.RunKeepsLinks | src/core/http.cpp:1180-1251 | over every run no two names become one file, and an open destination's file has no other name |
| Inbox.SuccessIsShown | src/core/http.cpp:1180-1251 | in every interleaving a handler that succeeds, and whose destination no other handler has open or opens, leaves there exactly what it wrote, as long as announced |
| Inbox.StaysUnlessRemoved | src/core/http.cpp:1188-1196 | over every run a destination stays in the inbox exactly when no failing upload of it removes it |
| Inbox.UploadKeepsName | src/core/http.cpp:1143-1254 | an admitted upload leaves its destination in the inbox exactly when it succeeds, and completeness stays either way |
| Inbox.CompleteAndGone | src/core/http.cpp:1188-1196 | a concrete second upload that breaks off leaves a file complete and gone |
| ReceiveServer.LocalSendServer.HandleClient | src/core/http.cpp:1012-1034 | one connection is a run of the machine, and stores and answers what the function on its bytes says |
| ReceiveServer.LocalSendServer.RouteRequest | src/core/http.cpp:1037-1054 | dispatch to prepare and cancel, with the other routes left to the environment |
| ReceiveServer.LocalSendServer.HandlePrepareUpload | src/core/http.cpp:1091-1141 | the stored session, its destinations and transfer ids, the answer, and the list with every file in preparation |
| ReceiveServer.LocalSendServer.HandleUpload | src/core/http.cpp:1143-1254 | every refusal, and otherwise the file content and session after the body, for every fragmentation; the transfer ends completed with all its bytes or failed with the answered message, and no other transfer changes |
| ReceiveServer.LocalSendServer.StoreUpload | src/core/http.cpp:1180-1254 | the same for the part behind the opening of the destination |
| Uploads.ChunkedUpload | src/core/http.cpp:1204-1254 | an admitted chunked upload with a body of the grammar is kept, marked complete and answered with success exactly when the data of its chunks has the announced size, and otherwise removed and refused |
| Uploads.BrokenUpload | src/core/http.cpp:1204-1207 | it is refused as incomplete exactly when its body is not one of the grammar |
| Uploads.PlainUpload | src/core/http.cpp:1208-1234 | an admitted upload of known length is kept exactly when all its bytes come |
| Uploads.ChunkedUploadIsServed | src/core/http.cpp:988-1035 | the same from the bytes of the request, whatever the encoding of its query and the case of its headers |
| Uploads.RequestIsServed | src/core/http.cpp:988-1035 | a request as any client writes it is dispatched with the path, query, headers and body it writes |
| Uploads.SetCompleteMarks | src/core/http.cpp:1243-1252 | exactly one file of one session is marked complete |
| Uploads.RefusedUpload | src/core/http.cpp:1143-1189 | an upload that is refused or whose destination cannot be opened changes nothing and is answered so |
| Uploads.RefusedRequest | src/core/http.cpp:1020-1103 | a body shorter than announced, or an announcement that is no request, changes nothing and is answered so |
| ReceiveServer.LocalSendServer.ReceiveChunked | src/core/http.cpp:1204-1208 | the chunked branch leaves the decoder's output in the file, through one write per report |
| ReceiveServer.LocalSendServer.ReceivePlain | src/core/http.cpp:1209-1226 | the branch of known length leaves the first bytes of the body in the file |
| ReceiveServer.LocalSendServer.EndUpload | src/core/http.cpp:1228-1251 | success marks the file complete, failure removes it |
| ReceiveServer.LocalSendServer.HandleCancel | src/core/http.cpp:1256-1276 | the session is cancelled and with it exactly its transfers, or the refusal |
| Uploads.CancelIsServed | src/core/http.cpp:1051-1279 | from the bytes of the request: by either path a cancel sets the flag of the session it names and of no other, and is answered so |
| Exchanges.ClientCancelIsServed | src/core/http.cpp:1366-1380 | the request with which a client cancels does that |
| ReceiveServer.LocalSendServer.PrepareFiles | src/core/http.cpp:1110-1125 | the loop over the files computes the session's files and lists each transfer in preparation |
| ReceiveServer.AllAreListed | src/core/http.cpp:1115-1122 | every requested file is listed as a received transfer in preparation, with its name and size, under the id its session stores |
| ReceiveServer.PendingAre | src/core/http.cpp:1107-1131 | each file of a request is stored as asked for, with its own token, the first free name and the id of its transfer |
| ReceiveServer.SearchSteps | src/core/safe_path.cpp:34-54 | undisturbed, the looks for a free name end at the name the search function gives |
| ReceiveServer.AppendStep | src/core/http.cpp:1105-1276 | a run goes on by any enabled step |
| Sender.SendAgrees | src/core/http.cpp:1285-1556 | success means every item is completed with all bytes, cancelled means every item is cancelled, an error is that of the lowest-index failed item or one of the two early returns, which leave items in preparation |
| SendResults.SentExactly | src/core/http.cpp:1392-1555 | a send whose looks at the flag see nothing succeeds exactly when its files can be used, the announcement is answered with 204 or with tokens, and every file with a token could be opened and its own connection took all writes and brought status 200 |
| SendResults.AnnouncementDecides | src/core/http.cpp:1426-1481 | how such a send ends for each reply to its announcement, and what all its transfers then show |
| SendResults.LoopTells | src/core/http.cpp:1483-1555 | a file answered otherwise is failed with its status and body in the message and the bytes that were taken; the result is the error of the first such file, or that of a file that could not be opened |
| SendResults.FileComes | src/core/http.cpp:678-733 | what one upload comes to: the writes it needs, what is read, and the bytes shown |
| SendResults.LoopWrites | src/core/http.cpp:1499-1525 | every wanted file is written, head and bytes, on its own connection |
| SendResults.CancelledExactly | src/core/http.cpp:1415-1530 | with a flag that stays set, a send is cancelled exactly when a look of it sees the flag |
| SendResults.CancelledEarly | src/core/http.cpp:1415-1439 | the flag is looked at before anything is written and again before the reply to the announcement is used |
| SendResults.NoUploadOnceSeen | src/core/http.cpp:1485-1490 | once the flag is seen in front of an upload, no more file is written |
| SendResults.CancelIsTold | src/core/http.cpp:1486-1530 | a send cancelled during the uploads tells a receiver that gave it a session id, last of all |
| SendResults.UnusableEnds | src/core/http.cpp:1384-1413 | a source that cannot be opened or sized ends the send before anything is written |
| SendResults.CompactBodyIs | src/core/http.cpp:1309-1321 | a body in a message: at most 120 characters, line ends and tabs as blanks |
| SendEndings.UploadsEnd | src/core/http.cpp:1480-1555 | an upload loop that is not cancelled stops at the first wanted file that cannot be opened, and at no other place |
| SendEndings.SettledExactly | src/core/http.cpp:1285-1556 | a send that ends without an exception leaves all its transfers settled exactly when it was cancelled, or all sources can be used (or not even the first) and every wanted file but the last can be opened |
| SendEndings.StopsAtTheFirst | src/core/http.cpp:1499-1504 | a concrete send of two files whose second transfer stays in preparation |
| Sender.UploadFromAgrees | src/core/http.cpp:1480-1555 | the upload loop keeps "settled so far, and the first error is that of the lowest-index failed item" |
| Sender.UploadOneAgrees | src/core/http.cpp:1487-1549 | one round settles its item and no other |
| SendFiles.RunIsUndisturbed | src/core/transfer.cpp:8-121 | any operations of other parties that name none of the send's items leave them alone |
| SendFiles.RequestRaw | src/core/http.cpp:638-677 | one request: result and bytes written |
| SendFiles.PostFileRaw | src/core/http.cpp:679-732 | one upload with progress reports and cancelling: result, bytes written and the item, with other users of the list in between |
| SendFiles.CheckSources | src/core/http.cpp:1385-1410 | lists the sources up to the first that cannot be used, each under a new id |
| SendFiles.TellAndCancel | src/core/http.cpp:1366-1380 | tells the receiver, then cancels every item |
| SendFiles.UploadFile | src/core/http.cpp:1487-1549 | one round of the upload loop |
| SendFiles.UploadAll | src/core/http.cpp:1478-1555 | the upload loop with its two variables for errors |
| SendFiles.AnnounceFiles | src/core/http.cpp:1412-1476 | announcing, and each way the answer can end the send |
| SendFiles.SendFilesHttpDetailed | src/core/http.cpp:1285-1556 | result, bytes on each connection and own items are those of the function, and result and items agree, whatever others do to the list |
| Delivery.UploadIsRead | src/core/http.cpp:693-699 | the server reads an upload as the client meant it |
| Delivery.UploadIsStored | src/core/http.cpp:1143-1254 | the server stores exactly the bytes of an upload it expects and answers with success |
| Delivery.AnnouncementIsServed | src/core/http.cpp:1091-1137 | the server opens a session for exactly the announced files |
| Delivery.SessionIsOpened | src/core/http.cpp:1105-1130 | every file is stored with a token the answer carries and the destination searched for it |
| Delivery.UploadsDeliver | src/core/http.cpp:1480-1555 | by induction over the files: each upload succeeds and the inbox shows the last upload to each name |
| Delivery.LastUploadWins | src/core/http.cpp:1114-1114 | every destination shows its source exactly when sources with one destination have the same bytes |
| Delivery.Delivered | src/core/http.cpp:1382-1555 | a send answered by the server returns ok; each destination holds its source's bytes exactly under that condition, so in particular when destinations differ; no other name changes |
| Delivery.ServerCanAnswer | src/core/http.cpp:1091-1254 | for every such send and server there are connections on which all that comes back is the server's answer |
| Exchanges.AnnouncementIsRead | src/core/http.cpp:1420-1434 | in either version the server reads path and request of the announcement back |
| Exchanges.AnnouncementOpensSession | src/core/http.cpp:1091-1141 | the server opens a session for the announced files and answers in the version it is asked in |
| Exchanges.V1AnswerIsRead | src/core/http.cpp:1133-1140 | the answer of version 1 is read as the tokens of the session |
| Exchanges.V1UploadIsKept | src/core/http.cpp:1143-1254 | a server with one open session keeps an upload of version 1 that names a file of it and its token |
| Base64.Base64Decode | src/core/security.cpp:50-98 | with an accumulator that wraps at 32 bits the loop computes the decoding of the standard, and throws exactly on a bad character or anything but padding after padding |
| Base64.PushStep | src/core/security.cpp:90-95 | the pending bits survive the wrapping shift: a completed byte is made of the last two symbols, with bits in -8, -6, -4, -2 between symbols |
| Base64.OneSymbolForAValue | src/core/security.cpp:50-70 | only the symbols of the alphabet have a value, and each its own; `UpperCaseIs`, `LowerCaseIs` and `OthersAre` give the values |
| Base64.DecodeInvertsEncode | src/core/security.cpp:50-98 | decoding inverts the encoding of every byte string, with white space anywhere and any padding |
| Base64.StandardRoundTrip | src/core/security.cpp:50-98 | in particular with the padding of section 4 of RFC 4648 |
| Base64.CertificateIsRead | src/core/security.cpp:100-109 | a certificate in its usual form gives back its bytes |
| Base64.NoCertificate | src/core/security.cpp:100-107 | a text without one of the marks, or with them in the wrong order, is refused |
| Devices.KeysDiffer | src/core/device_store.cpp:130-135 | two devices have one key exactly when they have one fingerprint, or none has and they have one endpoint |
| Devices.DeviceStore.UpsertDevice | src/core/device_store.cpp:89-114 | updates the entry of the key or appends one; manual stays manual |
| Devices.DeviceStore.Remove | src/core/device_store.cpp:24-34 | removes the entry, and tells whether there was one |
| Devices.DeviceStore.MarkOffline | src/core/device_store.cpp:36-44 | puts the entry offline |
| Devices.DeviceStore.MarkStaleOffline | src/core/device_store.cpp:46-58 | puts exactly the old discovered entries offline and counts them |
| Devices.DeviceStore.Snapshot | src/core/device_store.cpp:69-82 | a permutation in the order of the comparison that keeps the order of entries it does not tell apart |
| Devices.RunKeepsKeyed | src/core/device_store.cpp:24-114 | every run keeps keys distinct and equal to those of the stored devices |
| Devices.ApplyAt | src/core/device_store.cpp:24-114 | the list behaves as a map from keys to entries under every operation |
| Devices.ManualStays | src/core/device_store.cpp:89-114 | over every run a manual entry stays manual until removed or cleared, and no age puts it offline |
| Devices.SortedIsTheStableSort | src/core/device_store.cpp:69-82 | the view is the only list with these properties |
| Devices.RanksDecide | src/core/device_store.cpp:72-80 | manual devices come before discovered ones, and among each the ones online first |
| DeviceSelection.FirstOnlineDeviceIndex | src/core/device_selection.cpp:5-12 | the lowest index online, or none |
| DeviceSelection.NextOnlineDeviceIndex | src/core/device_selection.cpp:14-28 | the search going round from the index behind the current one |
| DeviceSelection.NextExactly | src/core/device_selection.cpp:14-28 | the next device is the nearest one online behind the current one, or the first one online if there is no current one |
| DeviceSelection.SelectedOnlineDevice | src/core/device_selection.cpp:30-41 | the current device if online, else the first online, else none |
| DeviceSelection.GoingRound | src/core/device_selection.cpp:14-28 | asking for the next device as often as there are devices online visits each exactly once, in cyclic order, and comes back |
| AppService.AppService.constructor | src/core/app_service.cpp:448-452 | the store after loading; in step exactly when the configured keys are distinct |
| AppService.AppService.AddManualDevice | src/core/app_service.cpp:268-299 | new configuration and store, and exactly when they stay in step |
| AppService.AppService.RemoveManualDevice | src/core/app_service.cpp:301-327 | new configuration and store; in step, it succeeds exactly for manual entries |
| AppService.SameIsSameKey | src/core/app_service.cpp:20-25 | devices that count as the same have one key unless only one has a fingerprint |
| AppService.AddKeepsInStep | src/core/app_service.cpp:268-299 | adding keeps configuration and store in step exactly when no other configured device has the key |
| AppService.AddedIsListed | src/core/app_service.cpp:27-36 | an added device is configured and listed with its own data, online and as manual |
| AppService.ForgetKeepsInStep | src/core/app_service.cpp:301-327 | removing keeps them in step exactly when every device that counts as the same has the key |
| AppService.RunKeepsInStep | src/core/app_service.cpp:268-327 | with fingerprints on all devices or on none, every run of additions, removals, discoveries and ageing keeps them in step |
| AppService.RunStaysInStep | src/core/app_service.cpp:268-327 | over every run they are in step throughout exactly when each addition and removal meets its condition |
| AppService.LoadedIsInStep | src/core/app_service.cpp:448-452 | loading starts in step exactly when the configured keys are distinct |
| AppService.MixedGoesOutOfStep | src/core/app_service.cpp:20-25 | a concrete run with mixed devices ends with one key configured twice |

## Left out

- Chunked.ReadChunkedBodyToStream: chunk sizes 2^64-1 and 2^64-2 end in the verdict `Undefined`, because the program then writes a negative count, which has no defined meaning. Sizes are 64 bits wide; on the 32-bit Vita target `size_t` cuts chunk sizes and content lengths to 32 bits (a chunk of 2^32 bytes reads as the last one), which is not modelled.
- Chunked.AcceptedExactlyBodies: the size lines of its grammar are those the program's `strtoull` reads, which are more than the standard's; that the standard's are among them is `Chunked.StandardSize`.
- Query.UrlDecodeUndoesEncoding: the client writes query texts without encoding them, so request round trips need keys and values free of '%', '+' and '&'.
- JsonParser.Parser.ParseNumber: a number that is no integer up to 2^53 in magnitude stays its text; `strtod`, rounding and the printing of doubles are not modelled, and numbers are taken as in range.
- JsonPrinter.DumpJson: prints the values the program prints exactly, integers up to 2^53 in magnitude among the numbers; other numbers are not printed by the model.
- Protocol.RequestRoundTrip: the table of MIME types is a parameter, and so is the cast of other numbers to an integer.
- Transfer.IdsAreNeverReused: ids are unbounded; the wrap at 2^64 is not modelled. Creation and update times are left out.
- ReceiveServer.LocalSendServer.HandlePrepareUpload: drawn session ids are taken as fresh, drawn tokens are a parameter; the text of a caught exception and the fingerprint of a TLS peer are left out.
- ReceiveServer.LocalSendServer.HandleUpload: writes to an opened file succeed, so the branch for a failed file stream is left out; a server without a transfer list is not modelled.
- ReceiveServer.LocalSendServer.RouteRequest: the info and register handlers and the answer to unknown routes are one parameter.
- ReceiveServer.LocalSendServer.HandleClient: the info and register routes are parameters; the handlers are each proved to be runs of the machine, the threads themselves are not started.
- SendFiles.SendFilesHttpDetailed: the resolved target and its protocol version are inputs, what comes back on a connection is fixed beforehand, a failing write puts nothing on the wire, status messages are left out, and there always is a transfer list.
- Delivery.Delivered: version 2 only (single exchanges of version 1 are in `Exchanges.dfy`), one sender at a time, host name, MIME types, tokens and session id at most 1000 characters, announcement and answer shorter than 2^64, no two names of the inbox linked to one file.
- Uploads.ChunkedUpload: no two names of the inbox linked to one file, one upload at a time.
- Exchanges.V1UploadIsKept: file id and token in hexadecimal digits, as this client and server draw them.
- Devices.DeviceStore.Snapshot: `std::stable_sort` is a function with its properties proved, not an algorithm.
- Sockets, TLS, key generation, SHA-256, UDP discovery and its timing, configuration files, the user interfaces, directory listing and status strings are not part of this model.
- The older console program under platform/switch repeats the chunked decoder and the sanitizer and is not modelled again.
