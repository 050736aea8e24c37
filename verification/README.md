# libfreenect, modelled in Dafny

libfreenect drives the Kinect camera. This project models the parts of it that compute, and proves what
they are there for. Every module models one file, or one piece of a file, of the repository; code that
updates fields or buffers in place is a class or a method over arrays, proved against functions on
values, and the laws are proved about those functions.

| files | what they model |
|---|---|
| `utf8.dfy`, `json_string.dfy`, `json_parse.dfy`, `json_print.dfy`, `json_roundtrip.dfy`, `json_comments.dfy` | the JSON reader and writer of fakenect: UTF-8, escapes, recursive descent, the two-pass serializer, comment removal, and the round trips |
| `json_spelling.dfy`, `json_grammar.dfy`, `json_accepted.dfy`, `json_layout.dfy`, `json_commented.dfy` | what these read and write, said without them: the spellings of a string, the grammar, the layout of the serializer, texts with comments |
| `json_tree.dfy`, `json_paths.dfy`, `json_equality.dfy`, `json_same.dfy`, `json_heap.dfy` | JSON values as trees and as the linked, growable nodes of the library: dotted paths, equality, deep copy |
| `packet_stream.dfy`, `packet_runs.dfy`, `packet_losses.dfy` | the receiver that puts frames together from isochronous packets, its runs, and losses in numbers |
| `words.dfy`, `sequences.dfy`, `bits.dfy`, `unpack.dfy`, `bayer.dfy` | machine words and sequences, the packed-pixel converters and the demosaicer |
| `chunk_view.dfy`, `chunk_runs.dfy` | the chunk callback that decodes rows straight out of packets, alone and behind the receiver |
| `shift_tables.dfy`, `registration.dfy` | forward differencing of the registration tables, the z-buffer of registered depth, and the colour mapper that rebuilds it |
| `modes.dfy`, `buffer_ring.dfy`, `sync_runs.dfy` | the mode tables, the triple buffers of the synchronous wrapper, and all interleavings of the USB side with any number of callers |
| `iso_transfers.dfy` | the life of isochronous transfers |
| `quick_list.dfy`, `audio_out.dfy`, `firmware.dfy`, `capture_ring.dfy`, `frame_times.dfy` | the intrusive list of the Windows emulation, the audio OUT sequencer, the firmware upload, the microphone ring and the timestamp unwrapping |

`dafny verify dfyconfig.toml` checks everything.

## Where the code differs from what one would expect

- The hexadecimal reader of `\u` looks for a NUL in four bytes before it looks at digits, so it reads behind
  the closing quote of a token with fewer than three bytes left, as in `"\u"1`. It never reads behind the NUL,
  what it reads there never matters, and every such token is rejected (`JsonString.ProcessString`,
  `JsonString.HexStopsAtQuote`, `JsonString.PassingIsRejected`).
- A minus without a digit is accepted as the number 0 and is not consumed (`JsonParser.BareMinus`), which only
  the top of a text lets pass (`JsonParser.MinusAlone`, `JsonParser.BareMinusIsNoItem`,
  `JsonParser.BareMinusIsNoMember`).
- A value that has no parent but holds the object it is put into is accepted; exactly then the object hangs
  below itself (`JsonHeap.SetHolder`).
- Only the parser without comments skips a byte order mark (`JsonComments.ByteOrderMarkIsRefused`).
- Comments are removed kind by kind, so a quote in a line comment hides the block comments behind it
  (`JsonCommented.QuoteInALine`); without quotes, backslashes and slashes in line comments every comment is blanked
  (`JsonCommented.CommentsAreBlanks`).
- Equality of JSON values is not symmetric when names repeat (`JsonEquality.DuplicatesBreakSymmetry`);
  the library's own calls never make such objects.
- With one packet a frame, the packet counter of a synced receiver does not stay inside the frame
  (`PacketRuns.OnePacketFramesLeaveStep`); with two or more it does.
- The comment on demosaicing gives averages of four; the code averages two averages, which is one lower
  exactly when both pairs have odd sums that together are a multiple of four (`Bayer.AverageOfAverages`).
- The forward and the inverse mapping subtract the padding lines at different places, one from the index and one
  from the row, so they agree only without padding (`Registration.OffsetsAgree`). With 1 to 13980 padding
  lines, and rows of the image in the table, all targets of the mapper lie behind the image
  (`Registration.PaddedMapper`). Occluded pixels keep what the output buffer held before
  (`Registration.MapRgbToDepth`).
- The millimetre image is clamped to 10000, which is one behind the end of the table that the colour
  mapper looks such a value up in (`Registration.MmImageForTheMapper`).
- The synchronous wrapper ignores that a format was refused and waits for a frame that cannot come
  (`SyncRuns.RefusedFormatBlocks`); the same after a start that failed, where the ring even has the format
  (`SyncRuns.FailedStartBlocks`).
- It looks at the format alone, and ignores that the camera has no mode for a pair of a resolution and a format
  (`Modes.KnownIsNotSupported`). The frames are those of the mode that is kept then, under the label of the pair
  (`SyncRuns.EveryGet`, `SyncRuns.MislabelledFrame`), and the size of the buffers was never set
  (`SyncRuns.TooSmallABuffer`). freenect_find_video_mode and freenect_find_depth_mode tell such a pair beforehand
  (`Modes.FindTells`).
- The wrapper looks at the format without a lock and takes a frame later, so of two callers that want different
  formats one can be handed a frame of the other's (`SyncRuns.CallersCanCross`, `SyncRuns.FormatAgreesWhen`).
- The locking convention says that a thread may hold only one of the run loop's lock and a ring's lock; changing
  a format holds both, and so does the delivery of a frame. That is harmless, since a ring's lock is only ever
  taken inside the other (`SyncRuns.NoDeadlock`).
- Appending a node to a list while another list holds it breaks the other one (`QuickLists.AppendBesides`).
- An image too small for a header makes the firmware upload return -errno, which is the code of success
  when errno is 0 (`Firmware.EmptyImageSucceeds`, `Firmware.SuccessMeansAll`).

## Model

| member | source | states |
|---|---|---|
| `Utf8.IsValidUtf8` | fakenect/parson.c:236-246 | the loop accepts exactly the strings of the sequence-by-sequence specification `IsValid` |
| `Utf8.VerifySound` | fakenect/parson.c:194-234 | an accepted sequence lies inside the text, is the RFC 3629 encoding of its code point, and that is no surrogate and at most 10FFFF |
| `Utf8.VerifyComplete` | fakenect/parson.c:179-234 | the encoding of any code point is accepted, with its whole length, whatever follows |
| `Utf8.ValidIffEncoded` | fakenect/parson.c:194-246 | a string is accepted if and only if it is the concatenated encoding of some code points |
| `Utf8.ValidPrefix` | fakenect/parson.c:236-246 | a valid string stays valid when it is cut off at its first NUL |
| `Utf8.EncodeExamples` | fakenect/parson.c:519-546 | the encoding of the examples of RFC 3629 |
| `JsonString.SkipQuotes` | fakenect/parson.c:491-509 | finds the closing quote of a well-escaped token and fails on anything else |
| `JsonString.BodyLengthOf` | fakenect/parson.c:491-509 | the token found is the one whose body is well escaped, for every such body and everything behind the quote |
| `JsonString.ParseUtf16Hex` | fakenect/parson.c:163-177 | reads four hexadecimal digits or fails, without passing the terminating NUL; the number of bytes it looks at is `HexReads` |
| `JsonString.LookaheadPassesQuote` | fakenect/parson.c:163-167 | these looks go behind the closing quote exactly when fewer than three bytes of the token are left, never behind the NUL |
| `JsonString.ReadHex` | fakenect/parson.c:163-177 | the same for a read inside a token |
| `JsonString.PassingIsRejected` | fakenect/parson.c:511-612 | a token whose decoding looks behind its quote is rejected |
| `JsonString.LookaheadExample` | fakenect/parson.c:491-509 | such a text: `"\u"1` is a token for skip_quotes, and decoding it looks at the byte behind its quote |
| `JsonString.HexStopsAtQuote` | fakenect/parson.c:163-177 | what is behind the closing quote never changes the value |
| `JsonString.ParseUtf16` | fakenect/parson.c:511-554 | consumes an escape, or a surrogate pair, of the token and appends the UTF-8 encoding of its code point; what is consumed ends in front of the quote, the write index stays behind the read index, and when exactly bytes behind the quote are looked at |
| `JsonString.ProcessUnit` | fakenect/parson.c:570-597 | one turn of the loop: never writes more bytes than it has read; when exactly it looks behind the quote |
| `JsonString.ProcessString` | fakenect/parson.c:560-612 | computes `Unescape` of the token body, every access in range of the text and of a buffer of len + 1 bytes; it looks behind the closing quote if and only if the body decodes up to a `\u` that has, or whose partner has, fewer than three bytes left |
| `JsonString.UnescapeShrinks` | fakenect/parson.c:560-612 | the decoded string is never longer than its token |
| `JsonString.UnescapeKeepsUtf8` | fakenect/parson.c:511-612 | a valid UTF-8 token body is decoded to valid UTF-8 |
| `JsonString.DecodedStringIsUtf8` | fakenect/parson.c:511-612 | so is the C string that the caller sees, cut off at a decoded NUL |
| `JsonString.UnescapeEscape` | fakenect/parson.c:943-1002 | decoding undoes escaping, for every NUL-free byte string |
| `JsonString.QuotedStringOfPrint` | fakenect/parson.c:616-625 | reading a printed string gives the string back and stops right behind it |
| `JsonSpelling.DecodedIffSpelled` | fakenect/parson.c:511-612 | a token is decoded to a string if and only if it is one of its spellings: plain bytes, the eight one-letter escapes, code points in hexadecimal of either case, in surrogate pairs beyond FFFF |
| `JsonSpelling.ScalarIsDecoded` | fakenect/parson.c:511-554 | every scalar value, spelled in hexadecimal of either case, is decoded to its UTF-8 encoding |
| `JsonSpelling.EscapedIsWritten` | fakenect/parson.c:943-1002 | which spelling the serializer writes |
| `JsonTree.LookupUnique` | fakenect/parson.c:400-412 | with unique names the search by name finds the member itself, at its own place |
| `JsonPrinter.SerializeString` | fakenect/parson.c:943-1002 | writes, or measures, exactly the quoted and escaped string |
| `JsonPrinter.Serialize` | fakenect/parson.c:807-941 | the measuring pass and the writing pass return the same count, the length of the text, and the writing pass leaves that text and a NUL |
| `JsonPrinter.SerializeArray` | fakenect/parson.c:818-849 | the array case of the same |
| `JsonPrinter.SerializeObject` | fakenect/parson.c:850-897 | the object case of the same |
| `JsonPrinter.SerializeToString` | fakenect/parson.c:1459-1536 | the allocated buffer is filled exactly, its last byte the final NUL, compact or pretty |
| `JsonLayout.LayoutIs` | fakenect/parson.c:807-1002 | where the serializer puts white space: a line and four spaces a level for every item, member and closing bracket, and a space behind a colon, or none at all |
| `JsonLayout.PrintIsLayout` | fakenect/parson.c:1459-1536 | so every serialization is a text of the grammar with the value as its meaning |
| `JsonParser.GetQuotedString` | fakenect/parson.c:616-625 | refines `QuotedString` |
| `JsonParser.ParseAny` | fakenect/parson.c:627-650 | the recursive-descent parser refines `ParseValue`, rejection included |
| `JsonParser.ParseArray` | fakenect/parson.c:708-746 | its array case |
| `JsonParser.ParseObject` | fakenect/parson.c:652-706 | its object case, duplicate names rejected |
| `JsonParser.ParsedIsGood` | fakenect/parson.c:627-746 | whatever text is accepted: unique names, NUL-free strings, no node below the nesting limit |
| `JsonParser.NumberIsExact` | fakenect/parson.c:775-785 | an accepted number is one the model represents exactly |
| `JsonParser.BareMinus` | fakenect/parson.c:775-785 | an accepted number consumes nothing if and only if it is a minus without a digit, and then it is 0 |
| `JsonParser.MinusAlone` | fakenect/parson.c:1046-1054 | the text of a minus alone parses to the number 0 |
| `JsonParser.BareMinusIsNoItem` | fakenect/parson.c:708-746 | as an item of an array such a number is rejected |
| `JsonParser.BareMinusIsNoMember` | fakenect/parson.c:652-706 | and as the value of a member |
| `JsonGrammar.BlankIsSkipped` | fakenect/parson.c:48 | any of the six bytes of isspace in front of a value make no difference |
| `JsonGrammar.NumberIsRead` | fakenect/parson.c:775-785 | an integer without a leading zero is read as its decimal value, in front of anything that does not go on with it |
| `JsonGrammar.DocIsRead` | fakenect/parson.c:627-785 | every text of the grammar is read as what it means |
| `JsonAccepted.ReadDoc` | fakenect/parson.c:627-785 | whatever is accepted is a text of the grammar with that meaning |
| `JsonAccepted.AcceptedIffDerived` | fakenect/parson.c:627-785 | a value is accepted, and a rest left, if and only if the text is one of section 2 of RFC 4627 with the white space of isspace, unique names and exact numbers, or a bare minus, and no node lies deeper than 2048 |
| `JsonAccepted.StringAcceptedIffDerived` | fakenect/parson.c:1046-1054 | the same for a whole text, with or without a byte order mark |
| `JsonRoundTrip.NumberRoundTrip` | fakenect/parson.c:775-785 | a printed integer of magnitude at most 2^53 is read back, in front of any delimiter |
| `JsonRoundTrip.RoundTrip` | fakenect/parson.c:627-941 | at any nesting and level, in front of any delimiter: the printed value is read back, or rejected exactly when it reaches below the nesting limit |
| `JsonRoundTrip.ItemsRoundTrip` | fakenect/parson.c:708-746 | the same for the items of an array from any index on |
| `JsonRoundTrip.MembersRoundTrip` | fakenect/parson.c:652-706 | the same for the members of an object from any index on, in their order |
| `JsonRoundTrip.ParsePrint` | fakenect/parson.c:1046-1054 | parsing a compact or pretty serialization gives back the same tree if and only if no node lies deeper than 2048 |
| `JsonRoundTrip.PrintParsed` | fakenect/parson.c:1046-1054 | printing what was parsed and parsing it again loses nothing, for every accepted text |
| `JsonComments.RemoveComments` | fakenect/parson.c:296-329 | the in-place scan refines `Strip` |
| `JsonComments.ScanStep` | fakenect/parson.c:305-328 | one turn of its loop |
| `JsonComments.BlankComment` | fakenect/parson.c:312-324 | one comment is overwritten with blanks; an unclosed one loses its opening token and ends the scan |
| `JsonComments.StripBlanks` | fakenect/parson.c:296-329 | the length is kept and bytes change into blanks only |
| `JsonComments.StripOneComment` | fakenect/parson.c:296-329 | a block comment between texts outside strings becomes blanks of the same length and nothing else changes |
| `JsonComments.PrintIsNeutral` | fakenect/parson.c:943-1002 | a serialization holds a slash only inside a string and escaped |
| `JsonComments.PrintedHasNoComments` | fakenect/parson.c:296-329 | removing either kind of comment is the identity on every serialization |
| `JsonComments.ParsersAgreeOnPrinted` | fakenect/parson.c:1046-1069 | the parsers with and without comments agree on all serializer output |
| `JsonComments.ByteOrderMarkIsRefused` | fakenect/parson.c:1046-1069 | not on a text with a byte order mark: the one with comments rejects it, the plain one parses what is behind the mark |
| `JsonCommented.FoundIsFirst` | fakenect/parson.c:316 | the closing token that ends a comment is the first one behind its start |
| `JsonCommented.CommentsAreBlanks` | fakenect/parson.c:1056-1069 | a text with block and line comments is parsed as the text with blanks in their place |
| `JsonCommented.UnclosedBlock` | fakenect/parson.c:312-319 | a block comment that is not closed loses its opening token only |
| `JsonCommented.QuoteInALine` | fakenect/parson.c:305-312 | a quote in a line comment hides the comments behind it: a concrete text |
| `JsonEquality.ValuesEqual` | fakenect/parson.c:1907-1969 | the recursive comparison refines `Equals` |
| `JsonEquality.Reflexive` | fakenect/parson.c:1907-1969 | reflexive on trees with unique names |
| `JsonEquality.SameNames` | fakenect/parson.c:1935-1950 | as many members and every name of one in the other: then also the converse |
| `JsonEquality.Symmetric` | fakenect/parson.c:1907-1969 | symmetric on trees with unique names |
| `JsonEquality.Transitive` | fakenect/parson.c:1907-1969 | transitive on trees with unique names |
| `JsonEquality.DuplicatesBreakSymmetry` | fakenect/parson.c:1907-1969 | with a repeated name it is not even symmetric: a concrete pair |
| `JsonEquality.EqualObjects` | fakenect/parson.c:1935-1950 | objects are equal if and only if they have the same names with equal values, in any order |
| `JsonSame.EqualIffSame` | fakenect/parson.c:1907-1969 | two values are equal if and only if along every path of names and indices they lead to the same leaf or to containers of the same kind and size |
| `JsonSame.EqualIsSameValue` | fakenect/parson.c:1907-1969 | values without objects are equal only to themselves |
| `JsonPaths.GetAfterSet` | fakenect/parson.c:1716-1746 | after a successful dotset, dotget of the path gives the value |
| `JsonPaths.SetElsewhere` | fakenect/parson.c:1716-1746 | every path that is neither a prefix nor an extension keeps its value, whether or not the call succeeded |
| `JsonPaths.SetSucceeds` | fakenect/parson.c:1716-1746 | dotset succeeds if and only if the value has no parent and no step of the path holds something other than an object |
| `JsonPaths.DotSetKeepsWellFormed` | fakenect/parson.c:1716-1746 | unique names and C strings survive |
| `JsonPaths.RemoveSucceeds` | fakenect/parson.c:1817-1832 | dotremove succeeds if and only if dotget finds something |
| `JsonPaths.GetAfterRemove` | fakenect/parson.c:1817-1832 | afterwards the path is gone |
| `JsonPaths.RemoveElsewhere` | fakenect/parson.c:1817-1832 | and every path apart from it keeps its value |
| `JsonPaths.LookupRemove` | fakenect/parson.c:1796-1815 | moving the last member into the free place changes no other name |
| `JsonPaths.DotGetWalks` | fakenect/parson.c:1100-1107 | dotget follows the names between the dots |
| `JsonPaths.DotSetNests` | fakenect/parson.c:1716-1746 | dotset makes an object for every name on the way |
| `JsonPaths.SetKeepsOrder` | fakenect/parson.c:1679-1698 | a new value takes the place of the old one, or comes last |
| `JsonPaths.RemoveKeepsOrder` | fakenect/parson.c:1796-1815 | the last member takes the place of the removed one, the others stay |
| `JsonHeap.Node.constructor` | fakenect/parson.c:1251-1337 | a new value is a valid structure of its own, without a parent |
| `JsonHeap.Node.Build` | fakenect/parson.c:1251-1337 | every well-formed tree is stood for by a valid structure, built with the library's own calls |
| `JsonHeap.Node.ParseText` | fakenect/parson.c:1046-1054 | so is every tree that the parser returns |
| `JsonHeap.Node.IndexOf` | fakenect/parson.c:400-412 | the place of the first member of a name |
| `JsonHeap.Node.AppendItem` | fakenect/parson.c:438-467 | the item is last, linked to its new parent; the capacity is kept while it suffices and else doubles, from 16 |
| `JsonHeap.CapacitySuffices` | fakenect/parson.c:438-467 | the capacity is the first of 16, 32, 64 and so on that suffices |
| `JsonHeap.Node.AppendValue` | fakenect/parson.c:1624-1629 | appends an item; refuses exactly a value that has a parent, and then nothing changes; the structure stays valid when the value is one of its own |
| `JsonHeap.Node.Add` | fakenect/parson.c:345-398 | appends the member unless the name is taken; then nothing changes |
| `JsonHeap.Node.ReplaceItem` | fakenect/parson.c:1554-1562 | replaces an item unless the value has a parent or the index is out of range; then nothing changes |
| `JsonHeap.Node.SetValue` | fakenect/parson.c:1679-1698 | sets a member; refuses exactly a value that has a parent, and then nothing changes; the structure stays valid when the value is one of its own |
| `JsonHeap.SetHolder` | fakenect/parson.c:1679-1698 | the object hangs below itself afterwards if and only if it did hang below the value before; then it is no valid structure |
| `JsonHeap.SetItself` | fakenect/parson.c:1679-1698 | the smallest such value is the object itself |
| `JsonHeap.NoCycle` | fakenect/parson.c:1679-1698 | a node that hangs below itself is no valid structure |
| `JsonHeap.Node.Remove` | fakenect/parson.c:1796-1815 | removes a member, the last one taking its place, and keeps the structure valid |
| `JsonHeap.Node.Clear` | fakenect/parson.c:1612-1622 | an empty array or object afterwards |
| `JsonHeap.Node.RemoveItem` | fakenect/parson.c:1542-1552 | the item is gone and the later ones move up; out of range nothing changes |
| `JsonHeap.Node.DotSet` | fakenect/parson.c:1716-1746 | the linked structure after the call stands for `JsonPaths.DotSet` of the tree before; parent links, unique names and capacities hold, new nodes are fresh |
| `JsonHeap.Node.DotSetBelow` | fakenect/parson.c:1728-1744 | the recursive call on a member keeps everything beside it |
| `JsonHeap.Node.DotGet` | fakenect/parson.c:1100-1107 | finds the node that stands for `JsonPaths.DotGet` |
| `JsonHeap.Node.DotRemove` | fakenect/parson.c:1817-1832 | the linked structure stands for `JsonPaths.DotRemove` of the tree before |
| `JsonHeap.Node.PerformAll` | fakenect/parson.c:1679-1845 | any sequence of add, set, dotset, remove, dotremove and clear, with any values, leaves a valid structure, parent links, unique names and capacities included, that stands for the members after these calls |
| `JsonHeap.Node.DeepCopy` | fakenect/parson.c:1339-1416 | the copy is valid, shares no node with the original, stands for the same tree and equals it by json_value_equals |
| `PacketStreams.FrameIsItsPackets` | src/cameras.c:254-257 | all packets but the last are full and together they make the frame |
| `PacketStreams.PayloadInFrame` | src/cameras.c:202-208 | every packet of a frame has its place inside the buffer |
| `PacketStreams.PacketStream.constructor` | src/cameras.c:231-258 | out of sync, with a buffer for one frame |
| `PacketStreams.PacketStream.HandleLost` | src/cameras.c:129-155 | loss accounting in 8-bit sequence arithmetic, frame recovery or loss of sync |
| `PacketStreams.PacketStream.TakePacket` | src/cameras.c:202-228 | the payload goes to its place; the last packet delivers the frame |
| `PacketStreams.PacketStream.StreamProcess` | src/cameras.c:87-229 | one packet moves the receiver from its state to `StepBytes` of it, with the same return value; with a chunk callback the packet is passed on and the buffer is left alone |
| `PacketStreams.ChunkIsTheCopy` | src/cameras.c:202-208 | the callback gets exactly the packets that are copied without one, each with its place inside the frame |
| `PacketStreams.HeaderIsRead` | src/cameras.c:75-108 | which bytes of a packet are its flag, its number, its time and its payload |
| `PacketStreams.NoHeader` | src/cameras.c:87-108 | exactly the packets that are too short or without the magic bytes are ignored at once |
| `PacketRuns.ReturnsNothingOrAFrame` | src/cameras.c:87-229 | in fixed-length mode every call returns 0 or frame_size |
| `PacketRuns.WritesInsideTheFrame` | src/cameras.c:202-208 | no byte behind the frame is ever written |
| `PacketRuns.StepKeepsInStep` | src/cameras.c:130-228 | with at least two packets a frame: 0 <= got_pkts <= pkt_num < pkts_per_frame while synced |
| `PacketRuns.SafeRuns` | src/cameras.c:130-228 | all of that after any sequence of packets |
| `PacketRuns.OnePacketFramesLeaveStep` | src/cameras.c:130-228 | with one packet a frame the counter bound fails |
| `PacketRuns.OneFrameMakesReady` | src/cameras.c:110-228 | after one intact frame the receiver is ready for the next, from any state whatever |
| `PacketRuns.ReadyDelivers` | src/cameras.c:110-228 | a ready receiver delivers an intact frame with its last packet and is ready again |
| `PacketRuns.SelfStabilising` | src/cameras.c:110-228 | from any state, the second of two intact frames is returned by its last packet with exactly its payloads, its time and its packet count |
| `PacketRuns.AllButTheFirst` | src/cameras.c:110-228 | from any state, all but the first frame of an uninterrupted sequence are delivered |
| `PacketRuns.OneFrameIsNotEnough` | src/cameras.c:110-228 | one frame does not suffice: a concrete state in step that loses it |
| `PacketLosses.FlagsInNumbers` | src/cameras.c:114-116 | the flags of the first, the last and the other packets of a frame |
| `PacketLosses.InTurn` | src/cameras.c:157-228 | the packet that is next in number: stored at its place, dropped if too long, out of sync for a flag of another place |
| `PacketLosses.InTurnVariable` | src/cameras.c:157-228 | the same in the variable-length mode, where a short packet may end the frame anywhere |
| `PacketLosses.FrameWithGaps` | src/cameras.c:129-228 | from a ready receiver, a frame with gaps of at most five packets that spare its first and last is returned by its last packet: what arrived is at its place, the missing places keep what they held, and the counters say how many arrived and how many are missing |
| `PacketLosses.GapLosesSync` | src/cameras.c:138-145 | more than five packets missing lose the synchronisation |
| `PacketLosses.AnyGapLosesSync` | src/cameras.c:138-145 | in the variable-length mode any packet missing does |
| `PacketLosses.GapPastTheEnd` | src/cameras.c:146-155 | at most five missing, the end of the frame among them: the frame is returned at once, with the time of its last packet |
| `PacketLosses.GapIntoTheNext` | src/cameras.c:146-228 | and the packet is stored at its place in the next frame |
| `Bits.FieldSplit` | src/cameras.c:304-317 | a field of the big-endian bit stream is its high part shifted, plus its low part |
| `Bits.ByteField` | src/cameras.c:304-317 | eight bits at a byte boundary are the byte |
| `Unpack.TakeElement` | src/cameras.c:309-316 | one turn of the outer loop: the next field, although the 32-bit window has lost its high bits |
| `Unpack.ConvertPackedTo16` | src/cameras.c:304-317 | element k is bits [k vw, (k+1) vw) for every n and every vw from 1 to 16, and exactly ceil(n vw / 8) bytes are read |
| `Unpack.ConvertPackedTo8` | src/cameras.c:330-342 | the same elements shifted right by vw - 8 |
| `Unpack.PixelIsField` | src/cameras.c:350-369 | the eight unrolled formulas are the eight 11-bit fields of the eleven bytes |
| `Unpack.BlockPixel` | src/registration.c:77-101 | a block of the registration unpacker holds the pixels of the stream |
| `Unpack.ConvertPacked11` | src/cameras.c:345-375 | whole blocks of eight agree with the general converter at 11 bits; a rest below eight is not touched |
| `ChunkView.PlacesTile` | examples/chunkview.c:82-98 | every output row is filled by exactly one packet, which holds the whole of its source row |
| `ChunkView.ChunkCallback` | examples/chunkview.c:80-114 | what one packet writes, and that nothing else changes; every read inside the packet |
| `ChunkView.EvenPixelOfFrame` | examples/chunkview.c:100-112 | an output pixel is every other 11-bit pixel of the frame |
| `ChunkView.DecodeFrame` | examples/chunkview.c:80-114 | after one full run of 242 packets row r holds the even pixels of source row 2r, 2r + 1 or 2r + 2, by range of r |
| `ChunkRuns.PacketsOfTheWire` | src/cameras.c:254-257 | the 242 packets and their lengths that the callback counts on are those of the receiver |
| `ChunkRuns.ChunkFits` | examples/chunkview.c:80-114 | in any state, an intact packet that is passed on has the length of its number, so the callback reads inside it |
| `ChunkRuns.ReceiveFrame` | examples/chunkview.c:80-114 | the receiver and the callback together: ready again after one intact frame in any state, and from a ready state every row is decoded out of it |
| `ChunkRuns.ReceiveTwo` | examples/chunkview.c:80-114 | from any state whatever, behind two intact frames in a row the output is the second one, decoded |
| `Bayer.ConvertLine` | src/cameras.c:524-614 | one line of the shift-buffer loop writes the naive line |
| `Bayer.ConvertBayerToRgb` | src/cameras.c:453-615 | the whole loop writes the naive image, for every width of at least 2 and height of at least 3 |
| `Bayer.ImageAt` | src/cameras.c:453-506 | the bytes at every pixel are the mirrored-neighbour value of its Bayer configuration |
| `Bayer.AverageOfAverages` | src/cameras.c:553-601 | when exactly an average of two averages is one below the average of four |
| `Bayer.AgainstTheComment` | src/cameras.c:453-506 | the formulas of the comment hold exactly for two neighbours and are met or missed by one for four |
| `Bayer.DemosaicedAt` | src/cameras.c:453-615 | the three bytes of every pixel, out of the raw values around it and the mirrored borders, in numbers |
| `ShiftTables.RowCubic` | src/registration.c:248-266 | the row accumulator stays behind the exact cubic by a bounded amount, never above it |
| `ShiftTables.ColCubic` | src/registration.c:268-283 | the same along a row |
| `ShiftTables.CubicIsPolynomial` | src/registration.c:217-285 | the exact cubic, written out as a polynomial in row and column |
| `ShiftTables.BehindByLess` | src/registration.c:217-285 | behind by less than R + R(R-1)/128 + c + cR/64 + c(c-1)/128 units |
| `ShiftTables.UnderNineHundredths` | src/registration.c:217-285 | under 0.09 pixel at 640 by 480 |
| `ShiftTables.NoOverflow` | src/registration.c:217-285 | no 64-bit overflow for any 32-bit registration info: every accumulator below 2^48 |
| `ShiftTables.TableAt` | src/registration.c:248-284 | the table entry of a pixel is the accumulator of its row and column |
| `ShiftTables.CreateTables` | src/registration.c:217-285 | the two tables are filled with exactly these values |
| `ShiftTables.ExtractedIs` | src/registration.c:231-246 | the starting values are 512 and 256 times the fields exactly when these have at most 19, 21 and 24 bits |
| `ShiftTables.InfoCubic` | src/registration.c:217-285 | the exact cubic in terms of the fields of the registration info |
| `Registration.OffsetsAgree` | src/registration.c:144-151 | the two functions subtract the padding at different places: their targets agree if and only if no padding line is configured |
| `Registration.TargetExists` | src/registration.c:137-148 | a pixel has a target if and only if its depth is from 1 to 9999 and its sum of table entry and shift lies in one of the 640 columns |
| `Registration.DeepHasNoTarget` | src/registration.c:137-139 | a depth of 10000 or more has none |
| `Registration.TargetPlace` | src/registration.c:141-151 | the target is the row of the table and the column of the sum, and with padding 480 pixels or 480 rows a line in front of it |
| `Registration.ForwardInside` | src/registration.c:144-151 | for a row of the image, the forward target stays in the image if and only if the padding is at most the place it is taken from |
| `Registration.PaddedTargetIsOutside` | src/registration.c:377-382 | for a row of the image, 1 to 13980 padding lines take every target of the mapper out of the image |
| `Registration.PaddedMapper` | src/registration.c:358-388 | so with such padding the mapper stays inside its buffer if and only if it maps no pixel |
| `Registration.ScatterIsNearest` | src/registration.c:104-176 | each output pixel is the least depth of the pixels mapped to it, 0 if there is none |
| `Registration.NearestIsUnique` | src/registration.c:153-158 | that determines the image |
| `Registration.OrderDoesNotMatter` | src/registration.c:115-174 | the image does not depend on the order of the pixels |
| `Registration.NextPacked` | src/registration.c:124-134 | the eight-pixel unpacking buffer hands out the pixels of the stream one by one |
| `Registration.PutPixel` | src/registration.c:137-158 | one pixel: the depth kept at its target when that is free or farther; whether the target is in the image |
| `Registration.ApplyRegistration` | src/registration.c:104-176 | every access is inside the image if and only if every target is, and then the loop computes the z-buffer of all pixels, in place |
| `Registration.RegisteredPixel` | src/registration.c:104-176 | every pixel of the image in terms of the raw input: the least depth of the pixels with that target |
| `Registration.RawIsPacked` | src/registration.c:119-135 | the raw value of a packed pixel is its eleven bits of the stream |
| `Registration.PackedOrNot` | src/registration.c:119-135 | packed and unpacked input of the same raw values give the same image |
| `Registration.ApplyDepthToMm` | src/registration.c:179-214 | every pixel in millimetres, clamped, packed or not |
| `Registration.MmImageForTheMapper` | src/registration.c:356-384 | a millimetre image stays inside the mapper's table if and only if no pixel of it was clamped |
| `Registration.BuildMap` | src/registration.c:364-388 | every access is inside the table and the buffer if and only if every depth is below 10000 and every target in the image; then the map holds every pixel's target, and the buffer is the z-buffer of all of them |
| `Registration.NeverBelow` | src/registration.c:404-408 | a pixel is never nearer than what the buffer holds at its target |
| `Registration.ColourPixel` | src/registration.c:390-416 | the body of the second pass |
| `Registration.MapRgbToDepth` | src/registration.c:356-420 | under exactly that condition, every pixel: black without a target, the target's colour when its depth is the one held there, and untouched when it is occluded |
| `Registration.ColourOf` | src/registration.c:390-416 | every pixel in numbers: black without a depth or a column, else the colour at its place, or what it was if a nearer pixel has that place |
| `Registration.MapperRebuildsTheImage` | src/registration.c:104-176 | without padding the mapper's buffer is the registered image of the same depths |
| `Registration.ColouredWhenRegistered` | src/registration.c:356-420 | a mapped pixel has its target's colour if and only if its depth is the registered depth there, or it had that colour before |
| `Modes.SupportedPairs` | src/cameras.c:41-73 | which pairs of a resolution and a format the two mode tables hold |
| `Modes.RowsAreSound` | src/cameras.c:37-73 | every row is filed under its own pair, and its frames have exactly the bytes of their pixels |
| `Modes.FindMode` | src/cameras.c:1139-1150 | the loop finds the first row with the key of a pair |
| `Modes.FindTells` | src/cameras.c:1202-1213 | so for a resolution and a format below 256 the search succeeds if and only if the table has the pair |
| `Modes.Camera.SetMode` | src/cameras.c:1152-1181 | refused for a running stream and for a key that is in no row; the mode is kept then |
| `Modes.ModeIsTaken` | src/cameras.c:1215-1240 | setting the mode found for a pair sets that pair if and only if the table has it; otherwise the mode is another one of the table, whatever the fields of the mode that was not found hold |
| `Modes.LastModeIsTaken` | src/cameras.c:1215-1240 | the same for any number of settings: the last one counts if and only if the table has it |
| `Modes.SizeOfSupported` | wrappers/c_sync/libfreenect_sync.c:75-122 | the buffers of a pair of the table have the size of its frames |
| `Modes.KnownIsNotSupported` | wrappers/c_sync/libfreenect_sync.c:75-122 | the wrapper looks at the format alone: which pairs it takes that no mode has, and the two modes that it does not know |
| `BufferRings.PacketStreamBuffers.SetBuffer` | src/cameras.c:272-293 | the new buffer pointers of a running or a stopped stream; refused, and nothing changed, exactly for NULL without an internal buffer |
| `BufferRings.PacketStreamBuffers.Start` | src/cameras.c:231-252 | the buffer pointers of a started stream |
| `BufferRings.PacketStreamBuffers.Stop` | src/cameras.c:260-270 | and of a stopped one |
| `BufferRings.StartPoints` | src/cameras.c:231-252 | a started stream writes into the caller's buffer, or into its own if there is none |
| `BufferRings.StopPoints` | src/cameras.c:260-270 | a stopped one keeps the caller's only |
| `BufferRings.SetPoints` | src/cameras.c:272-293 | a change is refused exactly when a running stream would have none, and leads to the new buffer, or to its own for NULL |
| `BufferRings.BufferRing.ProducerCbInner` | wrappers/c_sync/libfreenect_sync.c:137-149 | the completed buffer moves to the middle, its time is kept, and the library gets the one that was there |
| `BufferRings.BufferRing.SyncGet` | wrappers/c_sync/libfreenect_sync.c:330-343 | the middle buffer is handed out with its time and the one handed out before goes back |
| `BufferRings.BufferRing.Free` | wrappers/c_sync/libfreenect_sync.c:124-135 | no buffers, no frame, no format |
| `BufferRings.BufferRing.Alloc` | wrappers/c_sync/libfreenect_sync.c:75-122 | three blocks, of the size of the mode if there is one, and the ring labelled with the pair, exactly for a known format |
| `BufferRings.BufferRing.ChangeFormat` | wrappers/c_sync/libfreenect_sync.c:231-253 | stopped and freed in any case; new buffers and their size, the mode that the camera makes of it, and the stream pointed at the third buffer, running unless its start fails, exactly for a known format |
| `BufferRings.PendingTasks.Inc` | wrappers/c_sync/libfreenect_sync.c:162-168 | the counter is the number of callers inside, so the assertion in front of the increment holds |
| `BufferRings.PendingTasks.Dec` | wrappers/c_sync/libfreenect_sync.c:170-178 | the same for the decrement; the signal is given exactly when nobody is inside any more |
| `BufferRings.PendingTasks.NobodyInside` | wrappers/c_sync/libfreenect_sync.c:180-186 | what the run loop waits for is that nobody is inside |
| `SyncRuns.StepIsSafe` | wrappers/c_sync/libfreenect_sync.c:137-343 | every step of every thread keeps the invariant `Safe` |
| `SyncRuns.EveryInterleaving` | wrappers/c_sync/libfreenect_sync.c:137-149 | in every interleaving no assertion fails, the three buffers are different, the library writes into the third, where a frame fits if the ring's pair is in the mode table, and the counter counts the callers inside |
| `SyncRuns.EveryGet` | wrappers/c_sync/libfreenect_sync.c:330-343 | in every interleaving each frame handed out is whole, the newest delivered one, with its own time, and never handed out twice; it is in the format of the ring if and only if that pair is in the mode table |
| `SyncRuns.GetHandsOutTheNewest` | wrappers/c_sync/libfreenect_sync.c:330-343 | what a single get returns and leaves, for whom, and in which mode |
| `SyncRuns.CallbackStep` | wrappers/c_sync/libfreenect_sync.c:137-149 | the callback's assertion holds in every safe state |
| `SyncRuns.LastHandedIsLeftAlone` | wrappers/c_sync/libfreenect_sync.c:330-343 | the buffer handed out last is not written, and the three stay the same three, until the next get or format change |
| `SyncRuns.SetupGivesTheFormat` | wrappers/c_sync/libfreenect_sync.c:316-327 | a caller leaves with its format set, or it was refused and there are no buffers |
| `SyncRuns.RefusedFormatBlocks` | wrappers/c_sync/libfreenect_sync.c:231-241 | behind a refused format no get returns until another format change: the wrapper ignores the refusal |
| `SyncRuns.FailedStartBlocks` | wrappers/c_sync/libfreenect_sync.c:243-253 | without a running stream, a frame or a delivery, no get returns until another start |
| `SyncRuns.FailedStartIsDry` | wrappers/c_sync/libfreenect_sync.c:243-253 | a start that fails leads there, with the ring labelled as if it ran |
| `SyncRuns.NoDeadlock` | wrappers/c_sync/libfreenect_sync.c:65-73 | whoever holds the run loop's lock can always go on; the ring's lock is held only together with it |
| `SyncRuns.FrameCanBeHandedOut` | wrappers/c_sync/libfreenect_sync.c:280-343 | for every pair that the wrapper takes, a run that sets it, delivers a frame and hands it out in the mode the camera is in, unless the buffers are too small; that is the pair if and only if the table has it |
| `SyncRuns.SupportedFits` | wrappers/c_sync/libfreenect_sync.c:75-122 | for a pair of the table they are never too small |
| `SyncRuns.TooSmallABuffer` | wrappers/c_sync/libfreenect_sync.c:75-122 | for any other that the wrapper takes there is a run in which the stream runs into buffers too small for its frames |
| `SyncRuns.MislabelledFrame` | wrappers/c_sync/libfreenect_sync.c:243-253 | a caller that asks for 11 bits in high resolution is handed a registered frame, labelled as what it asked for |
| `SyncRuns.CallersCanCross` | wrappers/c_sync/libfreenect_sync.c:376-407 | for any two pairs that the wrapper takes and the table has, a run in which a caller that set the one is handed a frame of the other |
| `SyncRuns.FormatAgreesWhen` | wrappers/c_sync/libfreenect_sync.c:376-407 | from a caller's look at the format, or the end of its setup, to its get: the ring has its format if and only if the last format set in between, or the ring's if none was, is that one; the frame has it if and only if the mode that these settings leave is that one |
| `IsoTransfers.IsoStream.constructor` | src/usb_libusb10.c:821-865 | transfers in flight and dead ones add up to all, whatever allocations and submissions fail |
| `IsoTransfers.IsoStream.Packets` | src/usb_libusb10.c:741-745 | the packets of a transfer are passed on one after the other, each at its place |
| `IsoTransfers.IsoStream.IsoCallback` | src/usb_libusb10.c:726-806 | the new counters for every status and every answer to the resubmission; packets are passed on exactly for a completed transfer of a live stream |
| `IsoTransfers.LiveCallback` | src/usb_libusb10.c:739-806 | on a live stream a transfer stays in flight exactly when it completes, or fails with the device there, and libusb takes it back |
| `IsoTransfers.DeadCallback` | src/usb_libusb10.c:732-736 | a dead stream takes every transfer out |
| `IsoTransfers.Conservation` | src/usb_libusb10.c:726-806 | after any callbacks, in flight + dead_xfers = num_xfers |
| `IsoTransfers.EachCallbackRetiresOne` | src/usb_libusb10.c:732-736 | on a dead stream every callback retires one transfer and none goes back |
| `IsoTransfers.FreesOnlyWhenIdle` | src/usb_libusb10.c:867-895 | when the wait of the stop is over nothing is in flight |
| `IsoTransfers.IsoStream.StopIso` | src/usb_libusb10.c:867-895 | the cancellation is sound exactly when every transfer was allocated; then the stop ends, with nothing in flight, when libusb reports every transfer sooner or later |
| `QuickLists.QuickList.Append` | platform/windows/libusb10emu/libusb-1.0/libusbemu_internal.h:85-97 | the node is last afterwards, wherever in the list it was; the links are sound in both directions |
| `QuickLists.QuickList.Remove` | platform/windows/libusb10emu/libusb-1.0/libusbemu_internal.h:130-140 | exactly a member leaves, the others keep their order |
| `QuickLists.QuickList.Head` | platform/windows/libusb10emu/libusb-1.0/libusbemu_internal.h:98-104 | the first node, or NULL |
| `QuickLists.QuickList.Last` | platform/windows/libusb10emu/libusb-1.0/libusbemu_internal.h:105-111 | the last node, or NULL |
| `QuickLists.QuickList.Prev` | platform/windows/libusb10emu/libusb-1.0/libusbemu_internal.h:116-122 | the neighbour in front, NULL at the first |
| `QuickLists.QuickList.Next` | platform/windows/libusb10emu/libusb-1.0/libusbemu_internal.h:123-129 | the neighbour behind, NULL at the last |
| `QuickLists.AppendBesides` | platform/windows/libusb10emu/libusb-1.0/libusbemu_internal.h:85-97 | another list stays sound if and only if it does not hold the node that is appended here |
| `QuickLists.QuickList.Drain` | platform/windows/libusb10emu/libusb-1.0/libusbemu_internal.h:341-349 | the drain loop empties the list and leaves every node an orphan |
| `AudioOut.ClosedForm` | src/audio.c:62-77 | the state in front of packet n, for every n: sequence n mod 128, three windows a round, counter, parity and timestamp |
| `AudioOut.HeaderOf` | src/audio.c:41-60 | the four header bytes of packet n in numbers |
| `AudioOut.AudioStream.PrepareIsoOutData` | src/audio.c:34-79 | the 76 bytes of a packet and the next state; with a callback set the samples stay as they were |
| `Firmware.Bus.SendPieces` | src/loader.c:304-314 | the pieces of a page in order, up to the first that fails |
| `Firmware.Bus.SendBody` | src/loader.c:272-318 | the pages of the image in order, up to the first transfer that fails |
| `Firmware.Bus.Upload` | src/loader.c:234-339 | the transfers tried are a prefix of the plan for the image, up to the first that fails, and the return code in every case; 0 means that the whole declared size was sent, unless the image has no header and errno is 0 |
| `Firmware.ScriptCarries` | src/loader.c:272-318 | the pieces put together are the bytes to send |
| `Firmware.CommandsFollow` | src/loader.c:292-318 | every command announces exactly the bytes carried before the next command, at most a page, addressed at the base plus the bytes sent before it |
| `Firmware.TagsFollow` | src/loader.c:286-311 | the commands are numbered one after the other |
| `Firmware.HeaderIsRead` | src/loader.c:256-264 | where the base address, the size and the entry address are in an image |
| `Firmware.LaunchIsLast` | src/loader.c:325-332 | success means that the last transfer was the launch at the entry address |
| `Firmware.SuccessMeansAll` | src/loader.c:320-339 | success means that the device was sent exactly the declared number of bytes of the image, if and only if not both the image is shorter than a header and errno is 0 |
| `Firmware.SuccessWhen` | src/loader.c:234-339 | 0 is returned exactly for an image that holds what it declares and of which every transfer works, and for one without a header when errno is 0 |
| `Firmware.EmptyImageSucceeds` | src/loader.c:234-252 | the empty image is reported as sent, and nothing was |
| `CaptureRing.WrittenWindow` | examples/micview.c:74-91 | one write moves the reader's window on by the new samples |
| `CaptureRing.ReaderSeesTheLast` | examples/micview.c:68-95 | after any calls that stay inside the buffers the reader sees exactly the last max_samples samples, oldest first |
| `CaptureRing.Capture.InCallback` | examples/micview.c:68-95 | the same write in all four buffers; it stays inside them if and only if the samples go at most once round behind the end |
| `CaptureRing.Capture.Read` | examples/micview.c:131-138 | the samples drawn for a microphone are its window |
| `FrameTimes.UnwrapExact` | OpenNI2-FreenectDriver/src/VideoStream.hpp:51-60 | from an exact value the next is exact if and only if fewer than 2^32 ticks have passed |
| `FrameTimes.TimesAreTrue` | OpenNI2-FreenectDriver/src/VideoStream.hpp:51-60 | over a run every frame gets its true time if and only if no gap reaches 2^32 ticks |
| `FrameTimes.VideoStream.BuildFrame` | OpenNI2-FreenectDriver/src/VideoStream.hpp:40-68 | the frame's number and time, and the fields afterwards; nothing happens to a stream that is not running |

## Left out

- Numbers of JSON that are not integers of magnitude at most 2^53, and negative zero: a text with such a number has the outcome `Unmodelled`. In the modelled range the format `%1.17g` writes plain decimal digits.
- The white space of the parser is that of isspace in the C locale.
- Failing memory allocation, and what it leaks. Sizes are unbounded; the source holds them in `int` and `size_t`.
- JsonParser.ParseAny: returns trees; the nodes that stand for them are built behind the parse in `JsonHeap.Node.ParseText`, not during it.
- json_validate, the file readers and writers of the JSON library, its typed getters, and the capacity trim behind a parsed array or object.
- The content of a frame whose end was noticed only through lost packets: the next frame's packet is copied before that frame is converted.
- convert_uyvy_to_rgb, the registers and commands of the camera. A start may fail at any time, whatever the mode.
- Bayer.ConvertBayerToRgb: pictures narrower than 2 or lower than 3 are not modelled; the loop is not meant for them.
- The scaling of the registration tables by 2^-17, the tables from raw values to millimetres and from millimetres to shifts: they are arbitrary inputs here, the arithmetic in front of them is exact.
- Behind an access outside a table or a buffer, or a cancellation of nothing, C promises nothing: the methods that can reach one return that they did, and the model ends there. So do the runs of `SyncRuns`, in front of a frame that does not fit.
- Registration.ApplyRegistration: the sum of a table entry and a shift is taken not to overflow 32 bits.
- Dense registration and the mirrored variants, which the source switches off.
- SyncRuns.EveryGet: newest is the frame delivered last; one that is complete but still waits for the lock counts from its delivery on.
- The shutdown of the wrapper's thread, which frees the buffers without their lock, failing starts of the thread or of a device, and the choice of the device by index.
- The reuse of a freed block's address by a later allocation: blocks of the model are never the same.
- The audio IN packets, the JPEG and network server, the OpenNI plumbing, the viewers' drawing, tilt and accelerometer.
- Firmware.Bus.Upload: the device's replies are read and ignored, and are not modelled; the image is taken to be shorter than 2^31 bytes.
