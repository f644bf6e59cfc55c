# FetchOverWebSockets, modelled in Dafny

FetchOverWebSockets performs an HTTPS `fetch` from a browser through a plain
WebSocket relay. The TLS session runs in the page, and the relay only carries
ciphertext. The model covers four pieces of that system:

- **The WebSocket byte queues** (`WebSocket`, `web_sock.dfy`).
  - The receive queue is an array read through a cursor. It has big-endian
    16- and 32-bit readers and an append path that grows or compacts the
    buffer up to a 40 MiB cap.
  - The send queue is a 10 KiB array that is flushed to the socket.
  - Both are a `class` over `array<Byte>`. Every method is proved against the
    unread bytes (`Unread()`) and the bytes still to send (`Pending()`).
- **The response decoder** (`HttpResponse`, `http_response.dfy`).
  - `handleResponse` reads the status line, then the header lines up to the
    first empty line, then a chunked body.
  - It is a method with a loop, proved equal to a recursive reference
    decoder (`DecodeResponse`). Chunked round trips, error cases and worked
    examples are proved about that reference.
- **The line reassembler** (`LineStream`, `line_stream.dfy`). It splits every
  text chunk on CRLF and emits the pieces in order.
- **The TLS bridge** (`TlsBridge`, `tls_stream.dfy`). This covers:
  - the request text written once the connection is up;
  - the conversion of ciphertext to bytes for the send queue;
  - the hand-off of decrypted chunks to the pull loop.

  The hand-off runs through `onData`, the single `watch` slot, `closed`,
  `error` and the generator. It is a class whose methods are proved equal to
  step functions on a `PullState` value. Lemmas about those steps capture:
  - the stack (last-in, first-out) order of delivery;
  - a pull loop that hangs when the session closes while the loop waits.

`Common` (`common.dfy`) holds bytes and the char/byte conversions. `Text`
(`text.dfy`) holds the JavaScript string operations the code relies on:
`split`, `join`, `trim`, `parseInt` and `Number.toString`.

The model follows the code, including where it behaves unexpectedly. The one
exception is the cap test of the receive queue described under "## Findings",
which the queue methods use in corrected form. Behaviour that may surprise a
reader of the code:

- Only an absent first line counts as no response. An empty first line is a
  status line whose status code is missing. `statusCode.trim()` then throws,
  which the model represents as `Err(StatusCodeMissing(closes))`.
- Chunk sizes are never compared with the payloads. Each size line is
  followed by exactly one payload line, whatever its length.
- A zero-size line asks the client to close (the model counts these calls)
  but does not end decoding. A zero-size line is one that `parseInt(line, 16)`
  reads as 0, so `"0x0"` and `" 00;ext"` count too. Later lines are still
  decoded.
- The status text is the third space-separated token only: `404 Not Found`
  gives `"Not"`.
- Header names are case-sensitive. When a name repeats, the last value wins.
- The pull loop pops the most recent chunk first. It stops as soon as the
  client is gone, even with chunks still buffered. It waits forever if the
  session closes or fails while the loop is waiting for data.

## Model

| member | source | states |
|---|---|---|
| Common.CharsOfBytes | src/WebSock.ts:5-18 | one character per byte, whose code is that byte |
| Common.BytesOfChars | src/TlsStream.ts:57-61 | one byte per character: the character code truncated to 8 bits as a `Uint8Array` store does, and the code itself when it is below 256 |
| Common.BytesCharsRoundTrip | src/TlsStream.ts:57-61 | converting bytes to characters and back gives the same bytes |
| Text.IndexOf | src/FetchOverWebSocket.ts:88 | `indexOf`: a position found is one where the separator occurs |
| Text.Split | src/StringStreamToLineStream.ts:5 | `split` on a non-empty separator gives at least one piece; `JoinSplit`, `SplitPartsFree` and `SplitJoinCrlf` state what the pieces are |
| Text.Join | src/TlsStream.ts:46 | `join`: the pieces with the separator between each two; `JoinSplit` and `JoinAppend` state its properties |
| Text.IndexOfIsFirst | src/FetchOverWebSocket.ts:88 | the separator position found is the first occurrence, and when none is found the separator does not occur |
| Text.FirstOccurrence | src/FetchOverWebSocket.ts:88 | the first occurrence of the separator is the position found |
| Text.JoinSplit | src/StringStreamToLineStream.ts:5 | joining the pieces of a split with the separator gives back the string |
| Text.SplitPartsFree | src/StringStreamToLineStream.ts:5 | no piece of a split contains the separator |
| Text.SplitCrlfCount | src/StringStreamToLineStream.ts:5 | splitting on CRLF gives one piece more than there are CRLF pairs |
| Text.SplitJoinCrlf | src/StringStreamToLineStream.ts:5 | splitting a CRLF join of CRLF-free pieces gives back exactly those pieces |
| Text.SplitAtCrlf | src/StringStreamToLineStream.ts:5 | a CRLF-free prefix followed by CRLF is the first piece of the split |
| Text.JoinAppend | src/TlsStream.ts:46 | joining two runs of pieces is joining each and putting the separator between |
| Text.SplitJoinChar | src/FetchOverWebSocket.ts:71 | splitting on one character undoes a join of pieces that do not contain it |
| Text.FreeOfCr | src/TlsStream.ts:46 | a string without a carriage return holds no CRLF pair |
| Text.Trim | src/FetchOverWebSocket.ts:89 | the trimmed string is no longer than the original and neither starts nor ends with white space |
| Text.TrimStart | src/FetchOverWebSocket.ts:89 | `trimStart`: a suffix of the string that does not start with white space, and everything removed is white space (`TrimStartDropsWhite`) |
| Text.TrimEnd | src/FetchOverWebSocket.ts:89 | `trimEnd`: a prefix of the string that does not end with white space, and everything removed is white space (`TrimEndDropsWhite`) |
| Text.TrimUnchanged | src/FetchOverWebSocket.ts:89 | trimming leaves a string without white space at either end unchanged |
| Text.TrimLeadingWhite | src/FetchOverWebSocket.ts:89 | a leading white-space character does not change the trimmed string |
| Text.TrimStartDropsWhite | src/FetchOverWebSocket.ts:89 | everything removed from the front is white space |
| Text.TrimEndDropsWhite | src/FetchOverWebSocket.ts:89 | everything removed from the back is white space |
| Text.DigitRun | src/FetchOverWebSocket.ts:100 | the run of digits that `parseInt` reads stops at the first non-digit |
| Text.DigitRunDigits | src/FetchOverWebSocket.ts:100 | every character inside the run is a digit of the radix |
| Text.DigitRunAll | src/FetchOverWebSocket.ts:100 | a string made only of digits is read to its end |
| Text.LeadingDigitsAll | src/FetchOverWebSocket.ts:100 | a string of digits parses to the value of those digits |
| Text.ParseIntSkipsWhite | src/FetchOverWebSocket.ts:100 | `parseInt` ignores leading white space |
| Text.ParseInt | src/FetchOverWebSocket.ts:100 | `Number.parseInt` with an optional radix, `None` standing for `NaN`; `ParseIntSkipsWhite`, `ParseIntOfDigits` and `ZeroSizeLineParses` state its behaviour |
| Text.DigitsValueZero | src/FetchOverWebSocket.ts:100 | a run of digits is worth zero exactly when every digit is `0` |
| Text.NatToDigits | src/TlsStream.ts:38 | `Number.toString(radix)` gives at least one digit, all of them in the radix, with no leading zero |
| Text.DigitsValueOfNat | src/TlsStream.ts:38 | the digits written for a number are worth that number |
| Text.ParseIntOfDigits | src/FetchOverWebSocket.ts:100 | `parseInt` reads back a number written in the same radix |
| Text.ParseIntOfDecimal | src/FetchOverWebSocket.ts:124 | `parseInt` with no radix reads back a number written in decimal |
| Text.ParseDigitsWith | src/FetchOverWebSocket.ts:124 | `parseInt` reads back a written number with the explicit radix, or with none for decimal |
| Text.ParseDigitString | src/FetchOverWebSocket.ts:124 | any digit string without a leading zero parses to its value |
| LineStream.LinesAppend | src/StringStreamToLineStream.ts:3-8 | the lines of two runs of chunks are those of the first followed by those of the second: no line is carried across a chunk |
| LineStream.ChunkLines | src/StringStreamToLineStream.ts:5 | the lines of one chunk are its pieces split on CRLF; `ChunkRoundTrip` states that they join back to the chunk |
| LineStream.Lines | src/StringStreamToLineStream.ts:3-7 | every chunk's lines, chunk after chunk; `LinesAppend`, `LinesHaveNoCrlf` and `LinesLength` state its properties |
| LineStream.LinesHaveNoCrlf | src/StringStreamToLineStream.ts:5-6 | no emitted line contains CRLF |
| LineStream.LinesLength | src/StringStreamToLineStream.ts:5-6 | each chunk gives one line more than its CRLF pairs, and an empty chunk gives one empty line |
| LineStream.ChunkRoundTrip | src/StringStreamToLineStream.ts:5 | joining a chunk's lines with CRLF gives back the chunk |
| LineStream.LinesOfJoined | src/StringStreamToLineStream.ts:3-7 | a chunk made by joining CRLF-free lines yields exactly those lines |
| HttpResponse.HeaderEnd | src/FetchOverWebSocket.ts:78-82 | the header section ends at an empty line, or at the end of the lines |
| HttpResponse.HeaderEndIsFirst | src/FetchOverWebSocket.ts:79-82 | no line before the end of the header section is empty: the first empty line ends it |
| HttpResponse.IsVoid | src/FetchOverWebSocket.ts:8-10 | a value pulled from the line stream is void exactly when the stream gave none |
| HttpResponse.HeaderField | src/FetchOverWebSocket.ts:88-89 | the name and trimmed value of a header line, none without a colon; `HeaderFieldOf` states which text each is |
| HttpResponse.ParseHeaders | src/FetchOverWebSocket.ts:88-89 | the header lines stored in order, or the first one without a value; `ParseHeadersSnoc` and `LastHeaderWins` state its properties |
| HttpResponse.IsLastChunk | src/FetchOverWebSocket.ts:100 | a size line ends the body when `parseInt(line, 16)` is 0 |
| HttpResponse.ZeroSizeLine | src/FetchOverWebSocket.ts:100 | the same test read character by character; `ZeroSizeLineParses` states that the two agree |
| HttpResponse.ChunkedBody | src/FetchOverWebSocket.ts:93-119 | the reference decoding of the body lines, with the close count carried into every error; `ChunkedStep`, `ChunkedRoundTrip`, `MissingPayload` and `UnchunkedBody` state its behaviour |
| HttpResponse.BodyAfter | src/FetchOverWebSocket.ts:78-119 | the body is decoded from the lines after the first empty line, and is empty when no empty line ends the headers |
| HttpResponse.Assemble | src/FetchOverWebSocket.ts:71-127 | the response from the status line's second and third tokens, or a missing status code with the closes made; `StatusOk` and `StatusLineWithoutSpace` state it on examples |
| HttpResponse.SectionsOf | src/FetchOverWebSocket.ts:73-121 | the headers before the first empty line and the body after it; `SectionsComplete`, `SectionsHeaderError` and `SectionsBodyError` state its cases |
| HttpResponse.ZeroRunAll | src/FetchOverWebSocket.ts:100 | the zero-run test accepts exactly the lines whose digit run is all zeros |
| HttpResponse.ZeroRunParses | src/FetchOverWebSocket.ts:100 | a run of hex digits parses to 0 exactly when it starts with `0` and is all zeros |
| HttpResponse.ZeroDigitsParse | src/FetchOverWebSocket.ts:100 | the structural zero test agrees with unsigned hex parsing to 0 |
| HttpResponse.ZeroSizeLineParses | src/FetchOverWebSocket.ts:100 | the structural last-chunk test agrees with `parseInt(line, 16) == 0` on every line |
| HttpResponse.ZeroSizeLineAfterWhite | src/FetchOverWebSocket.ts:100 | the same agreement for a line that does not start with white space |
| HttpResponse.DecodeResponse | src/FetchOverWebSocket.ts:64-69 | no response, and no error, exactly when the line stream is empty |
| HttpResponse.SectionsHeaderError | src/FetchOverWebSocket.ts:88-89 | a header line without a colon makes decoding fail with that line |
| HttpResponse.SectionsBodyError | src/FetchOverWebSocket.ts:96-117 | an error in the body makes decoding fail with that error |
| HttpResponse.SectionsComplete | src/FetchOverWebSocket.ts:73-121 | a well-formed header section followed by a well-formed body is decoded into both |
| HttpResponse.DecodeSections | src/FetchOverWebSocket.ts:123-129 | the response is built from the status line and the decoded sections |
| HttpResponse.HeaderStep | src/FetchOverWebSocket.ts:88-89 | a header line without a value fails, and one with a value is stored and reading goes on |
| HttpResponse.EmptyLineStep | src/FetchOverWebSocket.ts:79-82 | an empty line in the body is skipped |
| HttpResponse.ChunkedStep | src/FetchOverWebSocket.ts:96-117 | one body line: without chunked encoding it fails; a zero size line counts a close and goes on; a size line at the end fails; otherwise the next line is appended to the body; every error keeps the closes counted so far |
| HttpResponse.HeadersEnd | src/FetchOverWebSocket.ts:79-82 | the first empty line switches to the body with the headers read so far |
| HttpResponse.HeadersExhausted | src/FetchOverWebSocket.ts:78-121 | when the lines end inside the headers, the headers read so far are kept and the body is empty |
| HttpResponse.ReadHeaderLine | src/FetchOverWebSocket.ts:85-91 | one header line read by the loop takes the same step as the reference decoder |
| HttpResponse.ReadBodyLine | src/FetchOverWebSocket.ts:93-119 | one body line (and its payload) read by the loop takes the same step as the reference decoder |
| HttpResponse.EmptyLineKeeps | src/FetchOverWebSocket.ts:79-82 | an empty line keeps the loop in step with the reference decoder and moves it to the body |
| HttpResponse.InsideHeaders | src/FetchOverWebSocket.ts:84-89 | a non-empty line before the end of the header section is a header line |
| HttpResponse.HeaderLineKeeps | src/FetchOverWebSocket.ts:85-91 | after a header line the loop is still in step with the reference decoder, or both have failed alike |
| HttpResponse.BodyLineKeeps | src/FetchOverWebSocket.ts:93-119 | after a body line the loop is still in step with the reference decoder, or both have failed alike |
| HttpResponse.ReadingDone | src/FetchOverWebSocket.ts:121 | at the end of the lines, the loop's headers, body and close count are the reference decoder's |
| HttpResponse.ReadSections | src/FetchOverWebSocket.ts:73-121 | the line loop computes exactly the reference decoding of the headers and the body, errors included |
| HttpResponse.HandleResponse | src/FetchOverWebSocket.ts:59-130 | `handleResponse` returns exactly the reference decoding |
| HttpResponse.EncodeChunked | src/FetchOverWebSocket.ts:96-113 | a chunked body takes two lines per chunk and two for the final zero-size chunk |
| HttpResponse.HexSizes | src/FetchOverWebSocket.ts:100 | there is one hex size line per payload |
| HttpResponse.SizeLineOf | src/FetchOverWebSocket.ts:100 | the hex length of a non-empty payload is a size line that does not parse to 0 |
| HttpResponse.HexSizeLines | src/FetchOverWebSocket.ts:100 | the hex lengths of non-empty payloads are valid size lines for them |
| HttpResponse.SizeLineStep | src/FetchOverWebSocket.ts:98-113 | a size line and its payload add the payload to the body |
| HttpResponse.SizeLineAlone | src/FetchOverWebSocket.ts:108-111 | a size line with nothing after it fails with a missing payload |
| HttpResponse.LastChunkStep | src/FetchOverWebSocket.ts:100-106 | a zero-size line and the empty line after it count one close and nothing more |
| HttpResponse.RoundTripStep | src/FetchOverWebSocket.ts:96-113 | decoding one encoded chunk appends its payload |
| HttpResponse.RoundTripLast | src/FetchOverWebSocket.ts:100-106 | decoding the final chunk counts one close |
| HttpResponse.ChunkedPrefix | src/FetchOverWebSocket.ts:96-113 | a chunked body followed by more lines decodes its payloads, counts one close and goes on with the rest |
| HttpResponse.ChunkedRoundTrip | src/FetchOverWebSocket.ts:96-113 | decoding a chunked encoding gives the payloads' concatenation and one close |
| HttpResponse.HexChunkedRoundTrip | src/FetchOverWebSocket.ts:96-113 | with hex lengths as sizes, non-empty payloads decode to their concatenation |
| HttpResponse.ChunkedContinuesAfterLastChunk | src/FetchOverWebSocket.ts:100-106 | lines after a zero-size chunk are still decoded: two chunked bodies in a row give both payloads and two closes |
| HttpResponse.MissingFirstPayload | src/FetchOverWebSocket.ts:108-111 | an encoding cut right after its first size line fails with a missing payload |
| HttpResponse.MissingPayloadStep | src/FetchOverWebSocket.ts:108-113 | an encoding cut after a later size line decodes like the shorter encoding after the first payload |
| HttpResponse.MissingPayload | src/FetchOverWebSocket.ts:108-111 | an encoding cut right after any size line fails with a missing payload, keeping the closes counted so far |
| HttpResponse.CloseBeforeMissingPayload | src/FetchOverWebSocket.ts:100-111 | a zero-size line then a size line with nothing after it: the close already requested is kept in the missing-payload error |
| HttpResponse.ZeroThenFive | src/FetchOverWebSocket.ts:100-111 | the body lines `0` and `5` fail with a missing payload after one close |
| HttpResponse.UnchunkedBody | src/FetchOverWebSocket.ts:96-117 | without chunked encoding the body decodes only when every body line is empty, and otherwise fails as unsupported, keeping the closes counted so far |
| HttpResponse.NonChunkedResponseHasNoBody | src/FetchOverWebSocket.ts:96-117 | a decoded response without chunked encoding has an empty body and never asks for a close |
| HttpResponse.ParseHeadersSnoc | src/FetchOverWebSocket.ts:88-89 | one more header line either fails or stores one more name and value |
| HttpResponse.HeaderFieldOf | src/FetchOverWebSocket.ts:88-89 | the name is the text before the first colon and the value the trimmed text before the second |
| HttpResponse.LastHeaderWins | src/FetchOverWebSocket.ts:88-89 | a later header with the same name overwrites the earlier value |
| HttpResponse.StatusLineWithoutSpace | src/FetchOverWebSocket.ts:124 | a status line without a space has no status code, so decoding fails |
| HttpResponse.ChunkedHeader | src/FetchOverWebSocket.ts:88-96 | the line `Transfer-Encoding: chunked` sets the encoding the body test looks for |
| HttpResponse.ChunkedResponse | src/FetchOverWebSocket.ts:59-130 | a status line, a chunked-encoding header, an empty line and a chunked body decode to the payloads' concatenation with one close |
| HttpResponse.ChunkedLines | src/FetchOverWebSocket.ts:59-130 | the same for any line sequence of that shape |
| HttpResponse.ChunkedSections | src/FetchOverWebSocket.ts:73-121 | the sections of such a line sequence are the single header and the concatenated payloads |
| HttpResponse.HeaderSectionOfOne | src/FetchOverWebSocket.ts:79-82 | one header line followed by an empty line ends the header section there |
| HttpResponse.OneHeader | src/FetchOverWebSocket.ts:88-89 | one header line gives a one-entry header map |
| HttpResponse.ChunkedBodyAfter | src/FetchOverWebSocket.ts:96-113 | under chunked encoding the body after the header section is the concatenated payloads |
| HttpResponse.StatusTokens | src/FetchOverWebSocket.ts:71 | splitting a status line on spaces gives back its tokens |
| HttpResponse.DecimalToken | src/FetchOverWebSocket.ts:124 | a decimal status code parses to its number |
| HttpResponse.StatusOk | src/FetchOverWebSocket.ts:71-127 | `HTTP/1.1 200 OK` gives status 200 and status text `OK` |
| HttpResponse.WikipediaExample | src/FetchOverWebSocket.ts:59-130 | the chunked response `4 Wiki 5 pedia 0` decodes to `Wikipedia`, status 200 and one close |
| HttpResponse.Status404 | src/FetchOverWebSocket.ts:71-127 | `HTTP/1.1 404 Not Found` gives status 404 and status text `Not` |
| HttpResponse.StatusTextIsThirdToken | src/FetchOverWebSocket.ts:71 | a whole 404 response keeps only the third token as its status text |
| WebSocket.BigEndian | src/WebSock.ts:90-100 | the big-endian value of n bytes is below 256 to the power n |
| WebSocket.EncodeBigEndian | src/WebSock.ts:90-100 | a value is written as exactly n bytes |
| WebSocket.BigEndianOfEncode | src/WebSock.ts:90-100 | reading back the big-endian bytes of a value gives the value |
| WebSocket.EncodeOfBigEndian | src/WebSock.ts:90-100 | writing back the value of some bytes gives the same bytes |
| WebSocket.ToInt32 | src/WebSock.ts:95-100 | the 32-bit signed wrap-around of a value: in range, congruent modulo 2^32, and unchanged when already in range |
| WebSocket.Shift16Value | src/WebSock.ts:90-93 | the shift-and-add of `rQshift16`; `Shift16IsBigEndian` states its value |
| WebSocket.Shift32Value | src/WebSock.ts:95-100 | the shift-and-add of `rQshift32`; `Shift32IsBigEndian` states its value |
| WebSocket.Shift16IsBigEndian | src/WebSock.ts:90-93 | the shift-and-add of two bytes is their unsigned big-endian value |
| WebSocket.BigEndian4 | src/WebSock.ts:95-100 | the big-endian value of four bytes, digit by digit |
| WebSocket.Shift32IsBigEndian | src/WebSock.ts:95-100 | the shift-and-add of four bytes is their big-endian value wrapped to a signed 32-bit integer, negative exactly when the top bit is set |
| WebSocket.ResizeNeeded | src/WebSock.ts:240 | the buffer is reallocated when a message must fit or more than half of it is unread |
| WebSocket.RequestedSize | src/WebSock.ts:240-249 | the size before the cap: unchanged, doubled, or eight times the unread bytes plus the message; `GrownSizeBounds` and `GrownSizeFits` state its bounds |
| WebSocket.Exceeds | src/WebSock.ts:252-256 | the corrected throw test; `ExceedsIff` states that it refuses exactly the messages that cannot fit |
| WebSocket.ExceedsAsWritten | src/WebSock.ts:254 | the throw test as written; `ExceedsAsWrittenIsStricter` and `ExceedsAsWrittenRejectsFittingMessage` compare it with the corrected one |
| WebSocket.GrownSize | src/WebSock.ts:240-253 | the new size never passes the 40 MiB cap unless it is the unchanged size |
| WebSocket.ExceedsIff | src/WebSock.ts:252-256 | the queue refuses a message exactly when the message and the unread bytes together pass the cap |
| WebSocket.GrownSizeBounds | src/WebSock.ts:240-253 | the new size is within the cap; it is unchanged when no resize is needed; a plain compaction never shrinks |
| WebSocket.GrownSizeFits | src/WebSock.ts:244-253 | a message that is not refused fits beside the unread bytes, and below the cap the new size is eight times both |
| WebSocket.ExceedsAsWrittenIsStricter | src/WebSock.ts:254 | the throw test as written refuses every message the intended test refuses, and agrees with it when the read cursor is at 0 |
| WebSocket.ExceedsAsWrittenRejectsFittingMessage | src/WebSock.ts:254 | with the read cursor at 100 and the write cursor at 200, the test as written refuses a message that would fit |
| WebSocket.GrownSizeCovers | src/WebSock.ts:238-263 | the new size is a multiple of 8, within the cap, and holds the bytes kept from the read cursor on |
| WebSocket.Zeros | src/WebSock.ts:167-168 | a new typed array of size n holds n zero bytes |
| WebSocket.CopyToNewBuffer | src/WebSock.ts:260-263 | a fresh buffer of the new size holds the bytes from the read cursor on, then zeros |
| WebSocket.CopyDown | src/WebSock.ts:264-269 | `copyWithin(0, rQi)` moves the bytes from the read cursor to the front and leaves the tail |
| WebSocket.SetAt | src/WebSock.ts:282 | `set(data, offset)` overwrites exactly the bytes at the offset |
| WebSocket.WebSock.constructor | src/WebSock.ts:33-50 | a new socket: cursors at 0, 4 MiB receive size and threshold of an eighth, 10 KiB send size, no buffers, closed |
| WebSocket.WebSock.Init | src/WebSock.ts:166-175 | fresh zeroed receive and send buffers of the configured sizes, read cursor at 0 |
| WebSocket.WebSock.RQLen | src/WebSock.ts:69-71 | the number of unread bytes |
| WebSocket.WebSock.RQPeek8 | src/WebSock.ts:73-75 | the first unread byte, leaving it unread |
| WebSocket.WebSock.RQShift8 | src/WebSock.ts:77-79 | the first unread byte, which is then consumed |
| WebSocket.WebSock.RQSkip8 | src/WebSock.ts:81-83 | one unread byte is consumed |
| WebSocket.WebSock.RQSkipBytes | src/WebSock.ts:85-87 | `num` unread bytes are consumed |
| WebSocket.WebSock.RQShift16 | src/WebSock.ts:90-93 | the next two bytes as an unsigned big-endian number, consumed |
| WebSocket.WebSock.RQShift32 | src/WebSock.ts:95-100 | the next four bytes as a big-endian number wrapped to a signed 32-bit integer, consumed |
| WebSocket.WebSock.LengthOrRest | src/WebSock.ts:102-120 | an absent length stands for all the unread bytes |
| WebSocket.WebSock.ReceiveQueueShift | src/WebSock.ts:102-107 | the next `len` unread bytes (all by default) as characters, consumed |
| WebSocket.WebSock.RQShiftBytes | src/WebSock.ts:109-113 | the next `len` unread bytes (all by default), consumed: they and the rest make up the old unread bytes |
| WebSocket.WebSock.RQShiftTo | src/WebSock.ts:115-120 | copies the next `len` unread bytes to the front of the target and consumes them, or throws a range error when the target is too short |
| WebSocket.WebSock.RQWhole | src/WebSock.ts:122-124 | the buffer up to the write cursor, whose tail from the read cursor is the unread bytes |
| WebSocket.WebSock.RQSlice | src/WebSock.ts:126-132 | unread bytes from `start` to `end`, or to the end of the unread bytes when `end` is 0; a range error exactly when the view would have a negative length or pass the buffer |
| WebSocket.WebSock.Flush | src/WebSock.ts:135-142 | when open with bytes queued, the queued bytes are transmitted as one message and the queue is emptied; the bytes transmitted followed by the bytes queued never change |
| WebSocket.WebSock.Send | src/WebSock.ts:144-149 | the bytes are queued and flushed, or a range error leaves everything unchanged when they do not fit; transmitted then queued bytes grow by exactly the bytes sent; the unread bytes of the receive queue never change |
| WebSocket.WebSock.MoveUnreadToFront | src/WebSock.ts:259-273 | the unread bytes move to the front of a fresh buffer or of the same one, and the cursors become 0 and the unread count |
| WebSocket.WebSock.GrowInto | src/WebSock.ts:259-263 | a fresh buffer of the receive size holds the bytes from the read cursor on, and the threshold is an eighth of the new size |
| WebSocket.WebSock.ExpandCompact | src/WebSock.ts:238-274 | throws exactly when the message cannot fit beside the unread bytes under the cap; otherwise the unread bytes are kept at the front of a buffer of the grown size |
| WebSocket.WebSock.Regrow | src/WebSock.ts:253-273 | the unread bytes are kept at the front of a buffer of the new size, reallocated or compacted in place |
| WebSocket.WebSock.DecodeMessage | src/WebSock.ts:276-284 | the message is appended after the unread bytes, growing the buffer when it does not fit; otherwise it throws that the buffer is exceeded, or a range error when a failed grow left the buffer too short; the bytes queued for sending never change |
| WebSocket.WebSock.Append | src/WebSock.ts:282-283 | the message is written at the write cursor and becomes the tail of the unread bytes |
| WebSocket.WebSock.CompactAfterHandler | src/WebSock.ts:293-299 | the unread bytes never change; the cursors reset when nothing is left, and the buffer is compacted when the write cursor passes the threshold |
| WebSocket.WebSock.RecvMessage | src/WebSock.ts:286-328 | a failed append leaves the unread bytes unchanged; otherwise the unread bytes are the old ones and the message minus what the handler consumed; a handler that throws fails with `HandlerError` and, when the message fitted without a grow, leaves the cursors where it left them, while one that returns after consuming everything resets both cursors; the bytes queued for sending never change |
| WebSocket.WebSock.HandleReceived | src/WebSock.ts:289-303 | after the handler consumes some bytes, the rest stay unread; when it throws, the compaction is skipped and the cursors and buffer stay as it left them; when it returns, both cursors reset if all were consumed |
| TlsBridge.HeaderLines | src/TlsStream.ts:35 | one `name: value` line per request header, in order |
| TlsBridge.RequestLine | src/TlsStream.ts:33 | the method, the URL and `HTTP/1.1` separated by spaces; `PayloadStart` states that the request text starts with it |
| TlsBridge.ContentLengthLine | src/TlsStream.ts:38 | the body's length in decimal after `Content-Length: `; `ContentLengthParses` states that it reads back |
| TlsBridge.RequestLines | src/TlsStream.ts:32-44 | the header section, an empty line, the body and two empty lines; `PayloadLines` states that the line reassembler recovers them |
| TlsBridge.RequestPayload | src/TlsStream.ts:32-46 | the request lines joined with CRLF; `PayloadStart` and `PayloadEnd` state its shape |
| TlsBridge.HeaderSection | src/TlsStream.ts:32-38 | the request line, the header lines and the three fixed header lines |
| TlsBridge.PayloadStart | src/TlsStream.ts:32-46 | the request text starts with the request line and CRLF |
| TlsBridge.PayloadEnd | src/TlsStream.ts:32-46 | the request text is the header section, an empty line, the body and two more CRLF pairs |
| TlsBridge.JoinEnding | src/TlsStream.ts:40-46 | the last four lines join to CRLF, the body, CRLF, CRLF |
| TlsBridge.ContentLengthParses | src/TlsStream.ts:38 | the `Content-Length` line is a header whose value parses to the body's length |
| TlsBridge.PayloadLines | src/TlsStream.ts:32-46 | when no part contains a carriage return, the line reassembler gives back exactly the request lines |
| TlsBridge.RequestLinesFreeOfCr | src/TlsStream.ts:32-44 | no request line contains a carriage return when no part does |
| TlsBridge.HeaderLinesFreeOfCr | src/TlsStream.ts:35 | header lines built from carriage-return-free names and values hold none |
| TlsBridge.FixedLinesFreeOfCr | src/TlsStream.ts:36-38 | the host, content type and content length lines hold no carriage return |
| TlsBridge.ByteBuffer | src/TlsStream.ts:57-61 | the byte buffer holds each character code truncated to a byte |
| TlsBridge.WatchStep | src/TlsStream.ts:124-131 | the watch slot is emptied and the pending pull gets the top chunk, if any; `WatchResolves` and `HungStaysHung` state its effect |
| TlsBridge.OnDataStep | src/TlsStream.ts:99-107 | a chunk is pushed, then the watcher runs if set; `OnDataWithoutWatch` and `StepsKeepInv` state its effect |
| TlsBridge.ClosedStep | src/TlsStream.ts:72-76 | the client is dropped and `onData` runs with nothing; `CloseWhileWaiting` and `CloseEndsLoop` state its effect |
| TlsBridge.ErrorStep | src/TlsStream.ts:77-81 | `onData` runs with nothing and the client stays set; `StepsKeepInv` states its effect |
| TlsBridge.PullStep | src/TlsStream.ts:115-139 | one turn of the pull loop; `LifoDrain`, `CloseEndsLoop` and `StepsKeepInv` state its effect |
| TlsBridge.StepsKeepInv | src/TlsStream.ts:99-139 | every event keeps the hand-off invariant and clears the watch slot; only `closed` ends the session |
| TlsBridge.OnDataWithoutWatch | src/TlsStream.ts:99-107 | with no one waiting, a chunk is pushed on the buffer and a null chunk changes nothing |
| TlsBridge.WatchResolves | src/TlsStream.ts:124-131 | a waiting loop receives the arriving chunk at once; a null chunk leaves it waiting forever |
| TlsBridge.HungStaysHung | src/TlsStream.ts:124-131 | once the loop waits with its watch cleared, no further event resumes it |
| TlsBridge.CloseWhileWaiting | src/TlsStream.ts:72-76 | closing while the loop waits leaves it waiting forever |
| TlsBridge.CloseEndsLoop | src/TlsStream.ts:72-115 | after a close the next pull ends the stream, even with chunks still buffered |
| TlsBridge.LifoDrain | src/TlsStream.ts:134-137 | pulling until the buffer is empty yields its chunks in reverse order of arrival |
| TlsBridge.ArrivalOrderReversed | src/TlsStream.ts:99-137 | two chunks arriving before a pull come out in the opposite order |
| TlsBridge.TlsStream.constructor | src/TlsStream.ts:20-108 | a new bridge as `setupTlsStream` leaves it: an active session, an empty buffer, no watch, and a fresh socket whose buffers are allocated as `WebSock.init` does (src/WebSock.ts lines 166-175), with empty queues |
| TlsBridge.TlsStream.Watch | src/TlsStream.ts:124-131 | the watch callback performs the watch step |
| TlsBridge.TlsStream.OnData | src/TlsStream.ts:99-107 | `onData` performs the data step |
| TlsBridge.TlsStream.Closed | src/TlsStream.ts:72-76 | the `closed` callback performs the close step |
| TlsBridge.TlsStream.Errored | src/TlsStream.ts:77-81 | the `error` callback performs the error step |
| TlsBridge.TlsStream.Pull | src/TlsStream.ts:115-139 | one turn of the pull loop: it ends when the session is gone, suspends on an empty buffer, and otherwise yields the most recent chunk |
| TlsBridge.TlsStream.TlsDataReady | src/TlsStream.ts:50-64 | empty ciphertext is ignored; other ciphertext is queued to the socket as bytes, or a range error is raised when it does not fit; the socket's unread bytes never change |
| TlsBridge.TlsStream.OnSocketMessage | src/TlsStream.ts:89-94 | all unread bytes are taken off the receive queue as characters; handing them to the TLS client succeeds exactly while the client is set, and throws once `closed` has dropped it |
| TlsBridge.TlsStream.SocketMessage | src/TlsStream.ts:89-94 | a socket message is appended and all unread bytes are taken; with the client set the queue ends empty, with both cursors reset when anything was received; with the client gone the handler fails, and when the message fitted without a grow the cursors are left equal but not reset; the send queue never changes |

## Left out

- Socket I/O is not modelled: opening, closing and the event wiring of
  `WebSock.ts`. Transmission is recorded as the `transmitted` list of
  messages. The error logging in `_recv_message` is also left out: an
  exception is returned as `Failed`.
- `typedArrayToString` is modelled by its result, one character per byte. Both
  of its branches pass every byte as an argument to `String.fromCharCode`,
  which throws a `RangeError` once the bytes exceed the engine's limit on
  argument count. That limit is engine-specific and is not modelled.
- Common.CharsOfBytes: always succeeds. For a long enough byte sequence the
  source throws the engine's `RangeError` instead.
- WebSocket.WebSock.ReceiveQueueShift: always succeeds. With many unread
  bytes (the queue holds up to 40 MiB) the source's `typedArrayToString` can
  throw the engine's `RangeError`.
- TlsBridge.TlsStream.OnSocketMessage: the `receiveQueueShift()` call always
  succeeds here. In the source it can throw the engine's `RangeError` for a
  large receive queue. The throw of the engine call once the client is gone
  is modelled.
- The `ENABLE_COPYWITHIN` switch is left out. Both of its branches move the
  same bytes to the front.
- The TLS engine (`node-forge`) is not modelled: handshake, encryption and
  certificate checks. Its callbacks become method calls with the values the
  engine would pass. `URI.parse(input).host` becomes a `host` parameter.
- Asynchronous scheduling is modelled as explicit steps: a pending `yield` is
  the `Waiting` consumer state. Interleavings inside one callback are not
  modelled.
- The certificate store and `fetch` are left out: `buildCertificateAuthorityStore`
  and the `fetch` entry point only fetch resources and wire the pieces
  together. `ICloseable.ts` is left out as well; a call to `client.close()` is
  counted in `closeCalls`.
- The DOM `Response` is a record. Its own validation of the status code (for
  example a `RangeError` for a status outside 200-599) is not modelled.
- Headers are a map from name to value. The insertion order of the header
  object is not kept.
- HttpResponse.ParseHeaders: the source stores headers as named properties of
  an `Array`, which the map does not reproduce. A header named `length`
  whose value is not a valid array length throws a `RangeError`. A header
  named `__proto__` is not stored. A numeric name such as `0` becomes an
  array element.
- HttpResponse.Assemble: the decoded header map is handed to the `Response`.
  The source hands it the `Array`, whose named properties are not read as
  headers, so the source's `Response` carries none of the parsed headers.
- The message handler inside `_recv_message` is abstracted as the number of
  bytes it consumes from the front of the receive queue and whether it then
  throws. The bridge's handler throws exactly when the client is gone
  (`SocketMessage`).
- `Number.parseInt` is exact here. JavaScript loses precision above 2^53,
  which changes no comparison with 0.
- Strings are sequences of Dafny characters, which are Unicode scalar values.
  JavaScript strings are sequences of UTF-16 code units. A character outside
  the Basic Multilingual Plane is one character here and two code units in
  the source, and a lone surrogate cannot be represented. No encoding is
  modelled.
- TlsBridge.ContentLengthLine: counts characters. For a body with characters
  outside the Basic Multilingual Plane the source counts UTF-16 code units,
  so it gives a larger length (an emoji counts 2 there, 1 here).
- Common.BytesOfChars: gives one byte per character. The source gives one
  byte per UTF-16 code unit, so a character outside the Basic Multilingual
  Plane gives two bytes there and one here.
- TlsBridge.ByteBuffer: inherits the difference of `Common.BytesOfChars`.
- WebSocket.WebSock.RQShift8: like `RQPeek8`, `RQShift16` and `RQShift32`, it
  requires the bytes it reads to be unread. In the source, reading past the
  write cursor yields stale bytes, and reading past the buffer yields
  `undefined`. The model represents neither.
- WebSocket.WebSock.ReceiveQueueShift: requires the bytes it reads to be
  unread. In the source, a length that passes the write cursor reads stale
  bytes. A length that passes the end of the buffer throws a `RangeError`
  from the view constructor. Neither case is represented.
- WebSocket.WebSock.RQShiftBytes: requires the bytes it reads to be unread,
  as `ReceiveQueueShift` does. In the source, a range past the end of the
  buffer throws a `RangeError` after the read cursor has already advanced.
  That case is not represented.
- WebSocket.WebSock.RQShiftTo: requires the bytes it reads to be unread. In
  the source, a range past the end of the buffer throws a `RangeError` and
  moves nothing. That case is not represented. The range error for a target
  that is too short is modelled.
- WebSocket.WebSock.RQSlice: when `end` lies past the unread bytes but within
  the buffer, only the length of the slice is stated. Those bytes are stale
  buffer contents. The
  slice is returned as a copy. In the source it is a view of the receive
  buffer, so a later append or compaction changes what it shows.
- WebSocket.WebSock.RQShiftBytes: returns a copy of the bytes. In the source
  it returns a view of the receive buffer, whose contents change when a later
  append or compaction overwrites that part of the buffer.
- WebSocket.WebSock.RQWhole: returns a copy of the buffer up to the write
  cursor. In the source it is a view that aliases the receive buffer in the
  same way.
- WebSocket.WebSock.ExpandCompact: requires that `minFit` is absent or larger
  than the free space after the write cursor. That is the only way
  `_decode_message` calls it. After a successful grow, only the unread bytes
  at the front are stated. The bytes past the write cursor are stated by
  `MoveUnreadToFront`.
- WebSocket.WebSock.DecodeMessage: after a grow, the bytes past the new write
  cursor are not stated. It uses the corrected cap test (see "## Findings").
  When the read cursor is above 0, it therefore appends some messages that
  the source refuses with its "buffer exceeded" exception.
- WebSocket.WebSock.RecvMessage: inherits the corrected cap test from
  `DecodeMessage`. When the read cursor is above 0, it accepts some messages
  the source drops with an error. A throwing handler is modelled: the
  compaction is skipped and the result is `Failed(HandlerError)`. What the
  error handler then does (logging and the `error` event) is not modelled.
- TlsBridge.TlsStream.Watch: the watch callback is modelled as a method that
  may run only while a watch is set. The closure object itself is not
  modelled.

## Findings

| source | as written | input that shows it | evidently intended | confidence | as-written member | corrected member |
|---|---|---|---|---|---|---|
| src/WebSock.ts:254 | the cap test subtracts both cursors from the capped size: `size - rQlen - rQi < min_fit` | read cursor 100, write cursor 200, a 4 MiB buffer and a message of 40 MiB minus 200 bytes: the message plus the 100 unread bytes fit under the 40 MiB cap, yet the queue throws | subtract only the unread bytes: `size - (rQlen - rQi) < min_fit` | not executed | WebSocket.ExceedsAsWrittenRejectsFittingMessage | WebSocket.WebSock.ExpandCompact |
