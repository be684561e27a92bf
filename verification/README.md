# MiniWebSrv: a verified model of its byte machines

MiniWebSrv is a small HTTP and WebSocket server. Its hard parts are hand-written
machines between the sockets and the handlers, and these are what the project
models and proves things about.

- `WriteBuffQueue.dfy`: the write queue, a ring with a guard byte and a heap
  fallback that merges, shrinks, wraps and reuses blocks. It is shown to be a plain
  queue of byte blocks over every legal run.
- `HeaderFields.dfy`, `PrintedHeaders.dfy`: header lines and their key=value parameters,
  and what is read back from lines as a sender writes them.
- `BoundaryMatcher.dfy`, `PartMachine.dfy`, `QueryParams.dfy`, `MultipartForm.dfy`,
  `CutsMatter.dfy`: the streaming multipart/form-data parser
  (section 5.1.1 of RFC 2046, section 4 of RFC 7578). Its matcher is shown to split
  the body at the delimiters, a printed form is shown to come back under every cutting,
  and so is which bytes make the result depend on the cuts.
- `StreamReadBuff.dfy`, `Connection.dfy`: the sliding read buffer and its users, the
  header block reader and the multipart POST loop, for every segmentation of the
  incoming stream.
- `Unmasking.dfy`, `WebSocketFrames.dfy`, `WebSocketConnection.dfy`, `PrintedFrames.dfy`:
  receiving WebSocket frames (sections 5.2 to 5.4 of RFC 6455), down to the messages that
  were sent.
- `ResponseBody.dfy`: chunked and fixed-length bodies through the write queue
  (section 7.1 of RFC 9112).
- `GzipEnvelope.dfy`, `EntryDownload.dfy`: the gzip envelope of a zip entry (section
  2.3 of RFC 1952), and such an entry as the body of a response.
- `UrlEncoding.dfy`, `Base64.dfy`: URL-encoded parameters and Base64 (section 4 of RFC
  4648).
- `UploadLimits.dfy`, `FormUpload.dfy`: the default upload helper with its limits, and
  what a posted form leaves on disk through it.
- `Common.dfy`: what these share.

Objects whose methods change fields are classes; loops are methods with invariants,
each proved against a function or a property stated without the code. Sockets are a
stream of bytes and a list of cuts: a read yields an arbitrary nonempty piece. What
the program asks of its surroundings (the upload helper, a response's `Read`, memory
behind an array, an unset counter) is a parameter over which the results quantify.

Where the code and its documentation disagree the model follows the code, and the
exact condition under which they agree is proved:

- `Pop` promises never to return a block before its `Commit`. It returns the bytes of
  an open block exactly when nothing else is pending
  (`WriteBuffQueues.WriteBuffQueue.Pop`, `WriteBuffQueues.PopUncommitted`).
- The ring takes a block whenever there is room for it and its guard byte anywhere,
  except that a ring without live bytes is still split where its positions stand
  (`WriteBuffQueues.SpotIsComplete`, `WriteBuffQueues.EmptyRingIsSplit`).
- The part machine loses the last header when a block holds exactly the blank line
  (`MultipartForm.PartAloneDependsOnCuts`). The parser as a whole is not affected,
  because the matcher always ends a block at the second CR of the blank line. Its
  result is the same under every cutting unless a block is given up
  (`MultipartForm.CutsDoNotMatter`), which happens at two places only: at a byte that is
  refused behind a delimiter, and at a hyphen directly behind the blank line of a part
  without a name. At each, the parameters found do depend on the cuts
  (`CutsMatter.ParamsBehindGarbage`, `CutsMatter.ParamsBehindHyphen`).
- `OnNewData` promises to report a satisfied request. The report is right for every
  read exactly when nothing was missing before the request
  (`StreamReadBuffs.ReportIsRight`). What was once missed is asked for again, so the
  buffer keeps its static size exactly when no run of rounds asks for more than fits
  beyond what its reads bring (`StreamReadBuffs.KeepsSizeIff`).
- The frame length is right exactly when it is not a 64-bit one
  (`WebSocketFrames.LengthIsRight`). One read handles at most one frame, so all frames
  that have arrived are handled exactly when no run of reads up to the last one brought
  more frames than it has reads (`WebSocketConnection.CaughtUp`).
- The gzip output is right exactly when the first read that asks for anything asks for
  at least the ten bytes of the header (`GzipEnvelope.Download`).
- Base64 is right exactly for texts that are not empty (`Base64.Base64Encode`).
- Reading parameters in one pass is splitting at raw delimiters exactly when no escape
  takes the delimiter that ends its piece (`UrlEncoding.PlainSplitIff`). The pass leaves
  its text exactly when an escape is cut off by the end (`UrlEncoding.DecodeURLEncoded`).
- The limit for a single uploaded file is in fact a limit for all files together; the
  helper does what is documented on every run exactly when the total limit is not above
  the file limit, or no file is taken (`UploadLimits.DocumentedIffTotalFirst`).

## Model

| member | source | states |
|---|---|---|
| `WriteBuffQueues.Run` | MiniWebSrv/HTTP/Common/WriteBuffQueue.h:96-297 | FIFO refinement for every sequence of calls: the popped buffers are consecutive groups of whole committed blocks in commit order, their concatenation is that of the committed bytes by the caller's own account, and each buffer's bytes are the same at its release as at its pop |
| `WriteBuffQueues.LaidApart` | MiniWebSrv/HTTP/Common/WriteBuffQueue.h:105-145 | live ring regions that lie in queue order, as one run or as a tail run and a head run (part of every valid state), do not overlap, and the two ring positions coincide only when no ring byte is live |
| `WriteBuffQueues.SpotKeepsLaid` | MiniWebSrv/HTTP/Common/WriteBuffQueue.h:105-145 | the place chosen for a new region, including after wasting the tail, is apart from all live regions and keeps the guard byte |
| `WriteBuffQueues.SpotIsComplete` | MiniWebSrv/HTTP/Common/WriteBuffQueue.h:105-126 | in terms of positions only: the place is behind the last live byte if n bytes and a guard byte fit there, else at the start of the ring if they fit there, and none if and only if they fit nowhere in the ring |
| `WriteBuffQueues.RoomIsGuarded` | MiniWebSrv/HTTP/Common/WriteBuffQueue.h:347-370 | with live bytes, there is room at a place exactly if the n bytes there are in the ring and not live, and the byte behind them is not the first used one |
| `WriteBuffQueues.EmptyRingIsSplit` | MiniWebSrv/HTTP/Common/WriteBuffQueue.h:349-360 | without live bytes, n bytes fit exactly if they fit behind the position or in front of it |
| `WriteBuffQueues.FreeLengths` | MiniWebSrv/HTTP/Common/WriteBuffQueue.h:347-370 | the two continuous free lengths leave at least one byte between the last and the first live byte; that they are no shorter than they can be is SpotIsComplete |
| `WriteBuffQueues.GrowKeepsLaid` | MiniWebSrv/HTTP/Common/WriteBuffQueue.h:127-144 | appending to the last pending region keeps all regions apart and in order |
| `WriteBuffQueues.ShrinkKeepsLaid` | MiniWebSrv/HTTP/Common/WriteBuffQueue.h:200-217 | giving bytes back on commit, down to the whole region and across the wrap point, sets the free position to the region's new end and keeps the layout |
| `WriteBuffQueues.ReleaseKeepsLaid` | MiniWebSrv/HTTP/Common/WriteBuffQueue.h:278-293 | releasing the front region, with the reset to zero when the ring is empty, keeps the layout of the rest |
| `WriteBuffQueues.BestFit` | MiniWebSrv/HTTP/Common/WriteBuffQueue.h:153-172 | the reuse loop returns a smallest free block that fits, and none only if none fits |
| `WriteBuffQueues.OwnedPushReused` | MiniWebSrv/HTTP/Common/WriteBuffQueue.h:153-172 | a reused block moves from the free list to the queue: every heap block stays in exactly one of the two |
| `WriteBuffQueues.OwnedDropFront` | MiniWebSrv/HTTP/Common/WriteBuffQueue.h:294-296 | a released heap block moves from the queue to the free list, and no block is lost or doubled |
| `WriteBuffQueues.WriteBuffQueue.constructor` | MiniWebSrv/HTTP/Common/WriteBuffQueue.h:34-37 | a new queue is valid and empty |
| `WriteBuffQueues.WriteBuffQueue.Allocate` | MiniWebSrv/HTTP/Common/WriteBuffQueue.h:96-189 | opens a block of exactly n bytes and changes no committed block; gives the whole new state: in the ring at the place of SpotIsComplete, in the last buffer if that is pending and ends there; only without room in the ring, in the first of the smallest free blocks that are large enough; only without such a block, in a new one of n rounded up to 256 |
| `WriteBuffQueues.WriteBuffQueue.Commit` | MiniWebSrv/HTTP/Common/WriteBuffQueue.h:194-233 | exactly the first n bytes of the open block join the queue, in the last buffer if merged; the ring is free again from right behind them on, a buffer of which nothing stays leaves the queue, and nothing else changes |
| `WriteBuffQueues.WriteBuffQueue.Push` | MiniWebSrv/HTTP/Common/WriteBuffQueue.h:236-241 | the queue of blocks grows by exactly the given bytes |
| `WriteBuffQueues.WriteBuffQueue.Pop` | MiniWebSrv/HTTP/Common/WriteBuffQueue.h:245-262 | hands out the bytes of the oldest pending group, which are all committed; if the buffer is still open, the last bytes handed out are those of the open block, and only then the invariant is lost |
| `WriteBuffQueues.PopUncommitted` | MiniWebSrv/HTTP/Common/WriteBuffQueue.h:243-262 | on a new queue, any block is handed out between its Allocate and its Commit, with nothing committed |
| `WriteBuffQueues.WriteBuffQueue.Release` | MiniWebSrv/HTTP/Common/WriteBuffQueue.h:265-297 | removes the oldest popped group, leaves an open block and its bytes alone; exactly the ring bytes up to the end of its region become free, a heap block is kept for reuse, and a ring without live bytes starts over |
| `WriteBuffQueues.WriteBuffQueue.Reset` | MiniWebSrv/HTTP/Common/WriteBuffQueue.h:55-89 | deletes every heap block once, or moves every one to the free list |
| `WriteBuffQueues.InFlight` | MiniWebSrv/HTTP/Common/WriteBuffQueue.h:245-262 | in every valid state a popped buffer that is not yet released still holds the bytes of its group |
| `HeaderFields.ExtractHeader` | MiniWebSrv/HTTP/Header.cpp:374-416 | extracts a line where it lies in a buffer: the lower-cased name before the colon and the value behind the spaces up to CR, or nothing without a colon or a CR; the line's bytes become the lower-cased name with NULs for colon and CR, and no other byte changes |
| `HeaderFields.ParseDelimitedKeyValue` | MiniWebSrv/HTTP/Header.cpp:15-132 | the loop over positions makes exactly the calls of a scanner that carries the texts themselves |
| `HeaderFields.ParsePartHeaders` | MiniWebSrv/HTTP/QueryParams.cpp:445-466 | name, file name and type are those of the lines that end with LF, in order |
| `HeaderFields.GetContentType` | MiniWebSrv/HTTP/Header.cpp:201-224 | the type and the boundary that the tests and the extractor find are those of a function on the value |
| `PrintedHeaders.Lowered` | MiniWebSrv/HTTP/Header.cpp:381-383 | 'A' to 'Z' become the letters 32 codes above, every other character stays, and no such letter is left |
| `PrintedHeaders.ExtractParts` | MiniWebSrv/HTTP/Header.cpp:374-416 | a name, a colon, any number of spaces and a value up to the first CR are read as that name in lower case and that value |
| `PrintedHeaders.ExtractsIff` | MiniWebSrv/HTTP/Header.cpp:374-416 | a line is read if and only if there is a CR behind its first colon |
| `PrintedHeaders.PlainPair` | MiniWebSrv/HTTP/Header.cpp:48-124 | key=value, with white space around the '=', is reported as that pair, at the end of the text or in front of white space or ';', behind which the rest is read on its own |
| `PrintedHeaders.QuotedPair` | MiniWebSrv/HTTP/Header.cpp:82-128 | the same for a quoted value with its closing quote, or without it at the end |
| `PrintedHeaders.BareKey` | MiniWebSrv/HTTP/Header.cpp:57-81 | a key without '=' is reported without a value in front of ';', not at all at the end, and is skipped in front of another key |
| `PrintedHeaders.EmptyPair` | MiniWebSrv/HTTP/Header.cpp:82-98 | key= at the end of a line is reported with an empty value, and not at all at the end of the text |
| `PrintedHeaders.ParamsFound` | MiniWebSrv/HTTP/Header.cpp:15-132 | every list of parameters, each behind "; ", bare, plain or quoted, is reported as that list, but for a bare key at the very end |
| `PrintedHeaders.BoundaryFound` | MiniWebSrv/HTTP/Header.cpp:201-224 | a printed Content-Type is a form with a boundary if and only if its first word says so, in any case, and a boundary that is not empty is given among its parameters; the last one given counts |
| `PrintedHeaders.LineTells` | MiniWebSrv/HTTP/Header.cpp:155-181 | a disposition line, its title in any case, gives the last name and file name among any parameters, a type line its type, and a line with any other name nothing |
| `PrintedHeaders.LinesParse` | MiniWebSrv/HTTP/QueryParams.cpp:449-466 | the lines of a header block are read one by one, in any order and number |
| `PrintedHeaders.OtherIsIgnored` | MiniWebSrv/HTTP/QueryParams.cpp:457-460 | a line with another name changes nothing, wherever it stands |
| `PrintedHeaders.DispositionParses` | MiniWebSrv/HTTP/Header.cpp:155-181 | the plain Content-Disposition line of a form field parses back to exactly its name, and no file |
| `HeaderFields.TrailingIgnored` | MiniWebSrv/HTTP/QueryParams.cpp:449-466 | text behind the last LF of a header block has no effect |
| `BoundaryMatcher.ScanIsSplit` | MiniWebSrv/HTTP/QueryParams.cpp:192-262 | for every body, the content and part starts passed on, followed by the held bytes, are the split of CR LF + body at its successive delimiter occurrences; the held bytes are the pending match less the virtual CR LF, and no longer match is pending |
| `BoundaryMatcher.IdleScan` | MiniWebSrv/HTTP/QueryParams.cpp:195-211 | with no match pending, the content so far does not end with a line break, which is why blank lines are always cut |
| `PartMachine.TraceAgrees` | MiniWebSrv/HTTP/QueryParams.cpp:348-441 | on every sequence of blocks that the matcher can produce behind some tokens, parts without a name included, the part machine goes on as a machine fed byte by byte that sees whole headers, unless a byte is refused behind a delimiter or a hyphen follows the blank line of a part without a name |
| `PartMachine.WholeTraceAgrees` | MiniWebSrv/HTTP/QueryParams.cpp:348-441 | so for every whole body the two machines end in the same state |
| `PartMachine.BlankLineIsCut` | MiniWebSrv/HTTP/QueryParams.cpp:384-396 | the end of a header block is found within the first two bytes of a block |
| `PartMachine.ShortTailIsEnough` | MiniWebSrv/HTTP/QueryParams.cpp:389-393 | the header bytes that are not appended do not change what is parsed |
| `PartMachine.UploadProtocol` | MiniWebSrv/HTTP/QueryParams.cpp:348-510 | for every trace and every answer of the helper, the calls of the helper keep to the protocol (a file is announced only while none is open, data goes only to the open accepted file), and replaying them gives exactly the uploads of the state |
| `PartMachine.ProtocolGrows` | MiniWebSrv/HTTP/QueryParams.cpp:375-378 | along every run within the protocol a file that was ended never changes, an open one only grows at its end, and new ones come behind |
| `PartMachine.UploadsGrow` | MiniWebSrv/HTTP/QueryParams.cpp:348-510 | so for every trace and every continuation of it, the files ended after the trace are unchanged after the continuation |
| `QueryParams.QueryParams.AppendFormMultipart` | MiniWebSrv/HTTP/QueryParams.cpp:171-263 | after every piece the position, the held bytes and the calls made are those of the scan of all bytes fed so far; the blocks passed on are exactly those of a run over the piece as a function; files that were ended before are unchanged |
| `QueryParams.HelperCallsInProtocol` | MiniWebSrv/HTTP/QueryParams.cpp:375-510 | in every state of the parser the calls of the helper are within the protocol and yield its uploads |
| `QueryParams.QueryParams.FullMatch` | MiniWebSrv/HTTP/QueryParams.cpp:218-234 | a complete delimiter ends the part: what lay before it in this piece is content, nothing held back is |
| `QueryParams.QueryParams.BreakMatch` | MiniWebSrv/HTTP/QueryParams.cpp:236-249 | a broken match is content, the held bytes first |
| `QueryParams.QueryParams.FinishPiece` | MiniWebSrv/HTTP/QueryParams.cpp:254-262 | at the end of a piece exactly the pending match is held back |
| `QueryParams.QueryParams.AppendBlock` | MiniWebSrv/HTTP/QueryParams.cpp:353-440 | the loop over a block computes the part machine's step |
| `QueryParams.QueryParams.ParseFMHeaders` | MiniWebSrv/HTTP/QueryParams.cpp:443-510 | chooses the parameter or file that gets the part's data and calls the helper accordingly |
| `MultipartForm.CutsDoNotMatter` | MiniWebSrv/HTTP/QueryParams.cpp:171-263 | two parsers that get the same body in different pieces end with the same parameters, files and uploads, unless a byte is refused behind a delimiter or a hyphen directly follows the blank line of a part without a name |
| `CutsMatter.CutsMatterBehindGarbage` | MiniWebSrv/HTTP/QueryParams.cpp:359-383 | for every byte refused behind a delimiter, with or without a CR or hyphen before it, a body that a new parser takes differently when it comes whole and when it is cut behind that byte |
| `CutsMatter.ParamsBehindGarbage` | MiniWebSrv/HTTP/QueryParams.cpp:359-383 | for every byte refused directly behind a delimiter and every parameter whose value has no CR, a body that yields no parameters when it comes whole, and that parameter when it is cut behind the byte |
| `CutsMatter.ParamsBehindHyphen` | MiniWebSrv/HTTP/QueryParams.cpp:397-407 | for every header line that gives no name, with a hyphen behind its blank line, and every parameter: a body that yields the parameter when it comes whole, and none when it is cut in front of the hyphen |
| `MultipartForm.PartAloneDependsOnCuts` | MiniWebSrv/HTTP/QueryParams.cpp:389-407 | without the matcher, a block that is exactly the blank line loses the last header |
| `MultipartForm.FeedAll` | MiniWebSrv/HTTP/QueryParams.cpp:171-263 | a new parser fed any pieces ends exactly in the state of the calls that a run over the pieces gives, with helper calls within the protocol; on bodies on which the part machine does not give up, that is the byte machine's state on the tokens of the whole body |
| `MultipartForm.FormTokens` | MiniWebSrv/HTTP/QueryParams.cpp:192-262 | the scan of a printed form is its parts, header lines and data, one by one, for data in which the delimiter does not occur |
| `MultipartForm.BrowserFields` | MiniWebSrv/HTTP/QueryParams.cpp:443-466 | the parts as a browser prints them are among these |
| `MultipartForm.SectionAbsent` | MiniWebSrv/HTTP/QueryParams.cpp:192-262 | a part is free of the delimiter if its data is and no header line starts with two hyphens |
| `MultipartForm.ParseForm` | MiniWebSrv/HTTP/QueryParams.cpp:171-510 | round trip: every list of named values and files, with any header lines in any order that give their names and types, printed as a form and fed in any pieces, comes back as the last-wins map of its values, and as the files the helper takes, in order, each with its name, type and whole contents, and ended |
| `StreamReadBuffs.StreamReadBuff.Consume` | MiniWebSrv/HTTP/Common/StreamReadBuff.h:68-86 | exactly the consumed bytes leave the front of the available ones, and join the kept ones if relevant; true only if some byte is left |
| `StreamReadBuffs.StreamReadBuff.ResetRelevant` | MiniWebSrv/HTTP/Common/StreamReadBuff.h:89-106 | forgets the kept bytes, keeps the available ones; what is missing grows by what the positions were rewound |
| `StreamReadBuffs.StreamReadBuff.RequestData` | MiniWebSrv/HTTP/Common/StreamReadBuff.h:115-163 | true exactly when n bytes are available; otherwise the missing bytes add up and there is room for all of them; kept and available bytes survive; the buffer grows only if kept, available and missing bytes do not fit, to their rounded sum |
| `StreamReadBuffs.StreamReadBuff.MakeRoom` | MiniWebSrv/HTTP/Common/StreamReadBuff.h:124-160 | moving or reallocating leaves the content and the missing count unchanged and makes the requested end fit, in a buffer of exactly the size this needs |
| `StreamReadBuffs.ReadRounds` | MiniWebSrv/HTTP/Common/StreamReadBuff.h:115-213 | for any rounds of consuming all, requesting and reading: what is missing at the end, and the exact size of the buffer, the largest sum of what was missing and asked for, rounded up if it does not fit |
| `StreamReadBuffs.KeepsSizeIff` | MiniWebSrv/HTTP/Common/StreamReadBuff.h:115-163 | the buffer keeps its size if and only if no run of rounds asks for more than fits beyond what its reads before the last request bring |
| `StreamReadBuffs.OneByteRounds` | MiniWebSrv/HTTP/Common/StreamReadBuff.h:115-163 | k reads of one byte, each after a request for n bytes, need room for k(n - 1) + 1 bytes |
| `StreamReadBuffs.StreamReadBuff.OnNewData` | MiniWebSrv/HTTP/Common/StreamReadBuff.h:199-213 | the new bytes follow the available ones; the result says whether nothing is missing; the invariant is kept exactly when the length fits or the buffer was empty |
| `StreamReadBuffs.RequestAndRead` | MiniWebSrv/HTTP/Common/StreamReadBuff.h:115-213 | after a request for more than there is, a read of k bytes is reported as enough exactly if it covers this and all earlier missing bytes, and is enough exactly if it covers this request |
| `StreamReadBuffs.ReportIsRight` | MiniWebSrv/HTTP/Common/StreamReadBuff.h:193-213 | the report is right for every size of read if and only if nothing was missing before the request |
| `StreamReadBuffs.RequestTwice` | MiniWebSrv/HTTP/Common/StreamReadBuff.h:115-163 | a run in which a satisfied request is not reported |
| `StreamReadBuffs.ContinueRead` | MiniWebSrv/HTTP/Connection.cpp:74-85 | the stream of available and incoming bytes is conserved, and a read with room makes progress |
| `Connection.ReceiveMultipart` | MiniWebSrv/HTTP/Connection.cpp:331-353 | for every segmentation the parser gets exactly the next Content-Length bytes in order, later bytes stay, and it fails only if the peer closes too early; the buffer has exactly the size that the loop's requests, each for all that is still to come up to a limit, and its reads give |
| `Connection.RequestMore` | MiniWebSrv/HTTP/Connection.cpp:344-345 | every read of the loop has room, so it yields a byte or finds the connection closed |
| `Connection.PostForm` | MiniWebSrv/HTTP/Connection.cpp:331-353 | a form posted over a socket in any pieces yields its last-wins map and its files, and leaves the bytes behind it |
| `Connection.HeaderHandler` | MiniWebSrv/HTTP/Connection.cpp:179-245 | for every segmentation the lines, the refusal of the first line and the failure to fit are those of one pass over the bytes that fit; the kept bytes are the block with every header line rewritten in place by its extraction, and the bytes behind it are left |
| `Connection.ScanLines` | MiniWebSrv/HTTP/Connection.cpp:207-237 | the scan of the bytes in the buffer, from any position, finds the lines of one pass and leaves all bytes but those of complete header lines as they were |
| `Connection.BlockParses` | MiniWebSrv/HTTP/Connection.cpp:207-237 | printed lines of at least two bytes, ended by a line of at most one, are the lines of the block, anywhere in a stream |
| `Connection.OutcomeOfBlock` | MiniWebSrv/HTTP/Connection.cpp:179-245 | a printed block that fits is read as its lines, unless its first line is refused |
| `Connection.BlockPrefix` | MiniWebSrv/HTTP/Connection.cpp:207-237 | a header block found in a prefix of the stream is the block of the stream |
| `Unmasking.Unmask` | MiniWebSrv/HTTP/WebSocket/WSConnection.cpp:267-292 | the word loop and the shifted tail XOR payload[i] with key byte i mod 4 for every length, and touch nothing else |
| `Unmasking.MaskedTwice` | MiniWebSrv/HTTP/WebSocket/WSConnection.cpp:267-292 | masking is its own inverse |
| `WebSocketFrames.LengthIsRight` | MiniWebSrv/HTTP/WebSocket/WSConnection.cpp:186-221 | the computed frame length is that of section 5.2 if and only if the length field is not a complete 64-bit one |
| `WebSocketFrames.FramesOf` | MiniWebSrv/HTTP/WebSocket/WSConnection.cpp:178-239 | whole frames in front of a stream are its first frames |
| `WebSocketFrames.ControlIsTransparent` | MiniWebSrv/HTTP/WebSocket/WSConnection.cpp:320-322 | pings and pongs between the parts of a message leave the reassembly untouched |
| `WebSocketFrames.PongsAnswerPings` | MiniWebSrv/HTTP/WebSocket/WSConnection.cpp:351-362 | as many pongs are sent as pings are handled |
| `WebSocketFrames.StopEnds` | MiniWebSrv/HTTP/WebSocket/WSConnection.cpp:351-388 | a close calls the handler exactly once, with the first two bytes of its body as code, and takes the handler away; a fragmented or unknown control frame is a protocol error; neither adds a message |
| `WebSocketFrames.Reassembles` | MiniWebSrv/HTTP/WebSocket/WSConnection.cpp:296-348 | for every frame sequence with nothing behind a close: the handler's messages are those of section 5.4, stated without a state, on the data frames up to the first control frame that is neither ping nor pong; the first frame that breaks its rules gives the reason; otherwise that control frame closes the connection once, with its code, or is a protocol error |
| `WebSocketFrames.FragmentBound` | MiniWebSrv/HTTP/WebSocket/WSConnection.cpp:300-339 | the fragment buffer never exceeds its limit |
| `WebSocketConnection.TakePayload` | MiniWebSrv/HTTP/WebSocket/WSConnection.cpp:246-292 | the payload is found behind the header and unmasked where it lies |
| `WebSocketConnection.WsConnection.Dispatch` | MiniWebSrv/HTTP/WebSocket/WSConnection.cpp:296-348 | the nested tests on fin, opcode and fragment state decide as the flat session function that reassembly is proved about |
| `WebSocketConnection.WsConnection.ProcessFrame` | MiniWebSrv/HTTP/WebSocket/WSConnection.cpp:241-349 | handles the parsed frame and leaves the bytes behind it unchanged |
| `WebSocketConnection.WsConnection.ProcessIncoming` | MiniWebSrv/HTTP/WebSocket/WSConnection.cpp:178-239 | for every data whose computed length covers the header: handles the first frame by that length if it is there, asks for room for it otherwise, or refuses its size |
| `WebSocketConnection.WsConnection.OnRead` | MiniWebSrv/HTTP/WebSocket/WSConnection.cpp:132-146 | as ProcessIncoming, on the bytes left over and the bytes just read |
| `WebSocketConnection.ReadLeaves` | MiniWebSrv/HTTP/WebSocket/WSConnection.cpp:178-239 | after a read with no oversized frame in front, the whole frames left are those behind the first one, so one is left if and only if at least two were there |
| `WebSocketConnection.Serve` | MiniWebSrv/HTTP/WebSocket/WSConnection.cpp:132-239 | for every segmentation the frames handled are a prefix, in order, of the stream's frames; after each read their number is the smaller of one more than before and of the frames that have arrived; the unhandled bytes are exactly the rest, with the unread ones at its end; the session is the one these frames lead to |
| `WebSocketConnection.CaughtUp` | MiniWebSrv/HTTP/WebSocket/WSConnection.cpp:223-237 | all frames that have arrived are handled if and only if no run of reads up to the last one brought more frames than it has reads |
| `WebSocketConnection.NeverBehind` | MiniWebSrv/HTTP/WebSocket/WSConnection.cpp:223-237 | no whole frame ever waits for another read if and only if no read completes two |
| `WebSocketConnection.ServedMessages` | MiniWebSrv/HTTP/WebSocket/WSConnection.cpp:296-348 | for every such connection, closed or not, the messages, the close and the reason are those that Reassembles reads from the frames handled |
| `PrintedFrames.PrintedLength` | MiniWebSrv/HTTP/WebSocket/WSConnection.cpp:186-221 | for every frame printed with header bytes as numbers, masked or not, the length of section 5.2 is that of the print; the code's is the same for payloads up to 65535 bytes, and six short for longer ones |
| `PrintedFrames.PrintedParses` | MiniWebSrv/HTTP/WebSocket/WSConnection.cpp:241-292 | every printed frame is read as that frame: flag, opcode and payload |
| `PrintedFrames.PrintedFramesFound` | MiniWebSrv/HTTP/WebSocket/WSConnection.cpp:178-239 | the frames of a stream of printed frames are these, with nothing left |
| `PrintedFrames.ServedAreSent` | MiniWebSrv/HTTP/WebSocket/WSConnection.cpp:132-239 | the frames a connection has handled from such a stream are the first ones that were sent |
| `PrintedFrames.SentMessages` | MiniWebSrv/HTTP/WebSocket/WSConnection.cpp:296-348 | messages sent in any fragments: the first k of their frames come to the messages whose last frame is among them |
| `PrintedFrames.ServeSent` | MiniWebSrv/HTTP/WebSocket/WSConnection.cpp:132-348 | end to end: messages sent in any fragments, masked or not, with pings and pongs anywhere, over a stream in any pieces, reach the handler in order as far as their last frame was handled, all of them once all frames are; every ping handled is answered |
| `WebSocketConnection.SecondFrameWaits` | MiniWebSrv/HTTP/WebSocket/WSConnection.cpp:233-237 | a read with two whole frames leaves the second one unhandled |
| `ResponseBody.ChunkedRoundTrip` | MiniWebSrv/HTTP/Connection.cpp:610-620 | a receiver reads any written chunks as those chunks |
| `ResponseBody.WriteNext` | MiniWebSrv/HTTP/Connection.cpp:87-96 | sent and queued bytes are conserved, one buffer leaves |
| `ResponseBody.WriteAll` | MiniWebSrv/HTTP/Connection.cpp:98-107 | everything queued is sent, in order |
| `ResponseBody.WriteChunk` | MiniWebSrv/HTTP/Connection.cpp:604-625 | one round queues exactly the chunk of the data read, and nothing for an empty read |
| `ResponseBody.SendChunked` | MiniWebSrv/HTTP/Connection.cpp:597-636 | what is sent behind the earlier bytes are the chunks of the reads up to the last one and the final chunk |
| `ResponseBody.ChunksAre` | MiniWebSrv/HTTP/Connection.cpp:597-636 | the chunks are the data of the reads in front of the first empty one, up to the first that is the last |
| `ResponseBody.RespondChunked` | MiniWebSrv/HTTP/Connection.cpp:541-636 | the bytes behind the headers decode under section 7.1 of RFC 9112 to exactly the data read, with no empty chunk and nothing left over |
| `ResponseBody.SendFixed` | MiniWebSrv/HTTP/Connection.cpp:544-579 | exactly the data up to the first read that is the last or completes the length is sent; the connection is kept exactly when both happen in the same read |
| `GzipEnvelope.ZipResponse.constructor` | MiniWebSrv/HTTP/RespSources/ZipRespSource.cpp:22-52 | the envelope of a modified entry is its gzip file |
| `GzipEnvelope.ZipResponse.GetLength` | MiniWebSrv/HTTP/RespSources/ZipRespSource.h:35-35 | the announced length is that of the envelope |
| `GzipEnvelope.ZipResponse.ReadStream` | MiniWebSrv/HTTP/RespSources/detail/ZipArchive.cpp:25-40 | yields the next compressed bytes and falls short only at the end |
| `GzipEnvelope.ZipResponse.HeaderStep` | MiniWebSrv/HTTP/RespSources/ZipRespSource.cpp:124-142 | the header comes out whole if it fits; otherwise the first byte is wrong |
| `GzipEnvelope.ZipResponse.Read` | MiniWebSrv/HTTP/RespSources/ZipRespSource.cpp:92-175 | a read that does not cut the header yields the next bytes of the envelope, as many as fit, and is finished exactly with the last footer byte; it ends, and writes only where it may |
| `GzipEnvelope.FileIsMember` | MiniWebSrv/HTTP/RespSources/ZipRespSource.cpp:13-37 | a gzip reader finds the compressed data, checksum and size in the envelope; the rest of its header is spelled out |
| `GzipEnvelope.Download` | MiniWebSrv/HTTP/RespSources/ZipRespSource.cpp:92-175 | for every sequence of read sizes the output is a prefix of the file if and only if the first nonzero size is at least ten; then it is as long as asked for and finished exactly when complete |
| `EntryDownload.ServeEntry` | MiniWebSrv/HTTP/Connection.cpp:544-579 | a deflated entry whose length is announced by the response itself arrives whole as a gzip member, and the connection is kept |
| `UrlEncoding.DecodeURLEncoded` | MiniWebSrv/HTTP/QueryParams.cpp:306-324 | for every text: leaves the text if and only if an escape is cut off by its end, and has then appended the decoding of what lies before that escape, otherwise that of the whole text |
| `UrlEncoding.UrlParams.AddURLEncoded` | MiniWebSrv/HTTP/QueryParams.cpp:103-169 | for every text, the one pass that decodes straight into the map assigns exactly the parameters found by splitting at the delimiters that are not part of an escape and then decoding, up to an escape that is cut off by the end, where it leaves the text |
| `UrlEncoding.PlainSplitIff` | MiniWebSrv/HTTP/QueryParams.cpp:103-169 | a plain split at raw delimiters finds the same parameters if and only if no escape of a name takes a '=' and none of a value a '&' |
| `UrlEncoding.TripletsEscaped` | MiniWebSrv/HTTP/QueryParams.cpp:124-130 | that is so for every text whose percent signs start valid triplets |
| `UrlEncoding.AnySpelling` | MiniWebSrv/HTTP/QueryParams.cpp:103-169 | every spelling of a list of parameters, each character as itself, as an escape in any case, or a space as '+', is read as that list; text behind it without a '=' is dropped |
| `UrlEncoding.CutEscapes` | MiniWebSrv/HTTP/QueryParams.cpp:306-324 | any spelling decodes to its characters; a lone percent sign behind it stands for itself, and an escape cut off by the end makes the text incomplete |
| `UrlEncoding.FormRoundTrip` | MiniWebSrv/HTTP/QueryParams.cpp:103-169 | every list of byte-string pairs, percent-encoded, splits and decodes back to itself |
| `UrlEncoding.ParseQuery` | MiniWebSrv/HTTP/QueryParams.cpp:103-169 | so parsing any spelling of a list yields its last-wins map |
| `Common.HexValIs` | MiniWebSrv/HTTP/QueryParams.h:151-161 | the value of each hex digit, in both cases |
| `Common.NoHexVal` | MiniWebSrv/HTTP/QueryParams.h:151-161 | every other character counts as zero |
| `UrlEncoding.LastWins` | MiniWebSrv/HTTP/QueryParams.cpp:138-141 | a name has the last of its values |
| `Base64.Base64Encode` | MiniWebSrv/HTTP/WebSocket/WSRespSource.cpp:56-103 | the accumulator loop writes the encoding of section 4 of RFC 4648 if and only if the text is not empty, and writes nothing behind it |
| `Base64.Alphabet` | MiniWebSrv/HTTP/WebSocket/WSRespSource.cpp:40-54 | the digits are those of table 1 of RFC 4648 |
| `Base64.Next` | MiniWebSrv/HTTP/WebSocket/WSRespSource.cpp:63-89 | one byte completes one or two digits and leaves the right bits |
| `Base64.EncodedLength` | MiniWebSrv/HTTP/WebSocket/WSRespSource.cpp:56-103 | the encoding has four characters for every three bytes begun |
| `Base64.RoundTrip` | MiniWebSrv/HTTP/WebSocket/WSRespSource.cpp:40-103 | decoding recovers the text |
| `UploadLimits.TempFileUploadHelper.OnNewFile` | MiniWebSrv/HTTP/QueryParams.cpp:8-32 | ends the current file and opens a new one unless a limit is zero |
| `UploadLimits.TempFileUploadHelper.OnFileData` | MiniWebSrv/HTTP/QueryParams.cpp:34-48 | data is written exactly while all data offered so far to any file is within both limits |
| `UploadLimits.Run` | MiniWebSrv/HTTP/QueryParams.cpp:8-58 | for every sequence of calls, the answers and the contents of the files, which together stay within both limits |
| `UploadLimits.FailedFileCounts` | MiniWebSrv/HTTP/QueryParams.cpp:17-48 | data offered to a file that could not be opened counts against the limits of later ones, data offered after the attempt has thrown does not |
| `FormUpload.OnDisk` | MiniWebSrv/HTTP/QueryParams.cpp:8-58 | behind every log of parser calls within the protocol, the files on disk are the accepted ones and hold the first bytes of the uploads, as many as the longest row of first pieces that is within both limits |
| `FormUpload.WholeIff` | MiniWebSrv/HTTP/QueryParams.cpp:34-48 | they are whole if and only if all uploads together are within both limits |
| `FormUpload.UploadForm` | MiniWebSrv/HTTP/QueryParams.cpp:8-58 | a printed form, fed in any pieces, with the helper behind the parser: the helper's answers are those the parser got, and its files are the accepted files of the form, whole if and only if together they are within both limits, otherwise cut off behind the last piece that fits |
| `UploadLimits.DocumentedIffTotalFirst` | MiniWebSrv/HTTP/FileUploadConfig.h:23-27 | the limits work as documented on every run if and only if the total limit is not above the file limit, or the file limit is zero |

## Left out

- Sockets, coroutines, threads, mutexes, timers and logging: reads are pieces of a stream, callers are legal sequences of calls.
- WriteBuffQueues.WriteBuffQueue.Allocate: lengths above 0xFFFFFF00, for which the rounded-up size of a heap block wraps around to zero in 32 bits and the block is not there to be described.
- WriteBuffQueues.WriteBuffQueue.Push: the same lengths.
- The destructor of the write queue, which deletes what Reset deletes.
- Read buffer: positions and sizes are natural numbers and do not wrap; an allocation never fails.
- QueryParams.QueryParams.constructor: the counter that is unset before the first part is an arbitrary argument; a boundary with a CR is excluded.
- MultipartForm.CutsDoNotMatter: one way only, since a body with a refused byte or such a hyphen may still hold nothing that the cuts could reveal; for each of the two, bodies are given on which the cuts do matter.
- CutsMatter.ParamsBehindHyphen: values without CR that start with neither a hyphen nor NUL, and header lines without CR that do not start with a hyphen.
- CutsMatter.ParamsBehindGarbage: values without CR, and the one header line of a browser.
- MultipartForm.FeedAll: the byte machine says nothing about bodies on which the part machine gives up; for these the exact calls are given instead.
- PartMachine.UploadProtocol: the helper's answers depend on how many files were announced, not on its other state; the removal of a replaced file is not modelled.
- QueryParams.QueryParams.AppendBlock: has no result, since all callers ignore it.
- Connection.HeaderHandler: the pointers into the kept bytes and their lifetime; the request line is accepted by an arbitrary predicate.
- Connection.ReceiveMultipart: a peer that closes ends the loop with a failure, where the source throws.
- WebSocketConnection.WsConnection.ProcessIncoming: 64-bit length fields so small, or so near to their maximum, that the computed length is shorter than the header; the source then reads outside the frame.
- WebSocketConnection.WsConnection.OnRead: the same length fields.
- WebSocketConnection.Serve: streams without 64-bit lengths, since the code departs from the standard there, and reading stops after a close frame, behind which the source would call a handler that is gone.
- PrintedFrames.ServeSent: frames of more than 65535 bytes, for the same reason, and closes, which StopEnds and Reassembles cover.
- WebSocketFrames.Reassembles: frames behind a close, for the same reason.
- Answers to control frames are events; the bytes of the close frame that is sent are not modelled.
- Unmasked frames are accepted, as in the source, where the flag that would refuse them is a constant.
- The sending side of WebSocket connections, whose length forms depart from the standard, and the upgrade handshake apart from Base64; SHA-1 is not part of this model.
- ResponseBody.RespondChunked: the header text is an argument; its formatting by snprintf is not modelled.
- GzipEnvelope.ZipResponse.Read: stored zip entries, whose length is reported before the last bytes are counted, and the loading of zip files.
- UrlEncoding.UrlParams.AddURLEncoded: what happens after the text was left.
- UrlEncoding.DecodeURLEncoded: the same.
- UploadLimits.TempFileUploadHelper.OnFileData: write errors of an open file, and counters that wrap around.
- HTTP dates, request lines, prefix routing, file serving, MIME types, CORS, error pages and the non-multipart POST branch: easy, thin, or not promised by the code.
