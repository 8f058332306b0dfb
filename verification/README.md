# A verified model of the proxy's message layer

This project models the parts of the proxy that handle messages byte by byte or step by
step, in Dafny 4.11, and proves what they keep. `dafny verify dfyconfig.toml` checks it.

* **Reading a response** (`Transport`, `Framing`, `Reader`, `Fragmentation`, `Chunked`,
  `Consumption`, `HeadFacts`, `RequestFacts`). The peer's bytes arrive in fragments; a read takes the first fragment, cut
  to the buffer. The reader's loops are methods over that stream, each proved to return a
  function of the bytes alone, and to stop with the first read after which the bytes seen
  settle its answer. On this rest the results about fragmentation, about the chunked coding
  (section 7.1 of RFC 9112), about reading an answer a second time, and about what is left
  in the stream; and `HeadFacts` and `RequestFacts` say, for each way in which a message can announce its
  body, what is read of it. Read errors, early ends of stream, sizes that overflow `usize` and a buffer
  of size 0 are in the model.
* **Parsing and serialising** (`Utf8`, `Characters`, `Headers`, `Http`, `Messages`,
  `ParseFacts`, `RoundTrip`, `Forwarding`, `LooseHeads`, `Examples`). The header multimap, both parsers and all three
  serialisers, with the failures of the builder that the source turns into panics, and with
  the lossy decoding of UTF-8 that comes before every look at a text. A response that is
  written, cut up, read and parsed comes back exactly when its values are valid UTF-8 without
  white space at their ends and its headers delimit its body. A response parsed from any
  bytes and printed again reaches the client's reader as the same response exactly when its
  headers delimit its body. When the upstream's head has nothing but names in front of its
  colons and no empty line but the last, that is exactly when no non-empty body was
  de-chunked on the way; two families of other heads show that without this neither
  direction holds. `Examples` has a concrete message for each promise that fails.
* **An exchange with the client** (`Exchange`, `FirstRead`): the upgrade branch, which
  accounts for every upstream byte, the streaming branch, and the single read that precedes
  both.
* **The WebSocket relays** (`Relay`): runs driven by a schedule of `select!` outcomes.
* **Content codings** (`Decoder`, `OptionalSpace`), **the certificate cache** (`CertCache`)
  as interleaved steps of many callers, and **the handler pipeline** (`HandlerChain`).

How things are represented:

* Text is a sequence of Unicode scalar values, as Rust's `str` is; a byte is such a value
  below 256. Decoding is that of `from_utf8_lossy`, with U+FFFD for each maximal part that
  starts no well-formed character. White space is Unicode's; lower case matters only as far
  as it makes words of ASCII, which of all other characters the Kelvin sign alone does.
* `usize` has 64 bits, and its arithmetic is checked, as it is without optimisation: adding 2
  to the largest chunk sizes panics.
* The `http` crate decides which request targets are valid, how they print, and which
  reason phrase goes with a status. These are a parameter (`Http.HttpRules`) with the laws
  it is assumed to meet (`Lawful`); `Http.LawfulRulesExist` shows that they can be met. Its
  name and value syntax follows sections 5.5, 5.6.2 and 9.1 of RFC 9110. Its `HeaderMap` is
  a sequence of names, each with its values, in order of first appearance; removal moves the
  last entry into the gap.
* Compression is a parameter (`Decoder.Codecs`) with one law: each decoder undoes its
  encoder; `Decoder.LawfulCodecsExist` gives an instance. Decoders read sources that may
  fail, so a broken inner stream reaches the outer.
* A handler is a value with its operations as functions over a world, which stands for the
  context that the source threads through together with any state that handlers share.
* Where a promise is false of the code, the lemma says exactly when it holds: blanks before a
  chunk extension, a de-chunked head that still announces chunks, headers that only the reader
  or only the parser sees, request heads without framing, a first read that brings less than
  the request, request targets that read as a status, values that are not UTF-8, streamed
  bodies behind a chunked header, capitals, tabs and empty elements in a list of codings,
  response order (`docs/usage.md:105` says reverse; the code runs handlers in insertion order,
  and `src/builder.rs:284` says so), and overlapping calls for one host.

## Model

| member | source | states |
|---|---|---|
| Transport.StopsAtBoundaryIff | src/proxy.rs:279-289 | Any loop that reads until what it has seen is enough stops with the first read that makes it so, and takes nothing behind the shortest part that is enough if and only if some read ends there. |
| Reader.ReadExact | src/proxy.rs:412-434 | For any fragmentation: the first `length` bytes of what is held and what arrives, or all of them if the peer closes early, or the read error; no read is made once enough is held. |
| Reader.ReadUntilClose | src/proxy.rs:436-453 | Everything held and everything that arrives, to the end of the stream. |
| Reader.FillToLineEnd | src/proxy.rs:375-381 | The wait for a size line loses and reorders nothing, and ends without an LF only at the end of the stream. |
| Reader.FillTo | src/proxy.rs:397-403 | The wait for a whole chunk loses and reorders nothing, and falls short only at the end of the stream. |
| Reader.ReadChunkedBody | src/proxy.rs:364-410 | For any split between what is held and the stream, and any fragmentation: the payload of the chunks of the whole byte sequence, or its error; all slices are in range; the two inner waits together make exactly the reads up to the one that settles the chunks. |
| Reader.ReadHead | src/proxy.rs:279-289 | The head loop stops after the read that completes the first CRLFCRLF, with every byte it took. |
| Reader.ReadHttpBody | src/proxy.rs:322-344 | Picks the framing in the source's order, and stops reading with the first read after which the bytes behind the head decide the body; for a status without body and for a bare request that is at once. |
| Reader.ReadFullResponse | src/proxy.rs:272-305 | The answer is the one function of bytes, read-ahead and ending on which all results about reading rest, `HeadFacts` among them; for every head, reading stops with the first read after which the bytes seen decide the message. |
| Fragmentation.ReadAheadIsPrefix | src/proxy.rs:279-298 | Whatever the fragmentation, the head ends at the same byte, and the bytes are head, read-ahead and what is left, with nothing lost. |
| Fragmentation.NoReadAheadIff | src/proxy.rs:279-298 | Nothing behind the head is swallowed if and only if some read ends on the blank line. |
| Fragmentation.FragmentationIndependence | src/proxy.rs:272-344 | All fragmentations and all positive buffer sizes give the same bytes or the same error, if and only if the head is not a request without framing that has bytes behind it. |
| Fragmentation.BareRequestDepends | src/proxy.rs:332-336 | For every such head, two fragmentations whose answers differ. |
| Examples.GetDepends | src/proxy.rs:332-336 | `GET / HTTP/1.1` with one byte behind its blank line is such a head. |
| Fragmentation.NoRoomReadsNothing | src/proxy.rs:277-284 | With a buffer of size 0 every read returns 0 and the answer is empty, whatever the peer sends. |
| Fragmentation.MessageIsPrefix | src/proxy.rs:328-343 | Without de-chunking the answer is a prefix of the stream: the head alone, the announced length or what there is of it, or everything. |
| Fragmentation.ReadingAgain | src/proxy.rs:302-304 | Reading the answer again gives it unchanged if and only if no non-empty body was de-chunked, because a de-chunked head still announces chunks. |
| Chunked.ScanIff | src/proxy.rs:373-409 | The chunks found are the only way to cut the bytes into size lines that match their data, and a tail without a whole chunk; so an early end never yields part of a chunk. |
| Framing.ScanFrames | src/proxy.rs:373-407 | Whole chunks in front of any tail are all found, one after the other. |
| Chunked.ScanIsMonotone | src/proxy.rs:373-409 | More bytes only add chunks behind those found; after a last chunk or an error nothing behind it matters. |
| Chunked.TruncationKeepsAPrefix | src/proxy.rs:373-409 | A reader that the peer cuts off returns a prefix of what it would have returned. |
| Chunked.SizeLineCases | src/proxy.rs:383-407 | The five ends of a size line: last chunk, no `usize`, `chunk_size + 2` overflows, cut off, or a whole chunk within the buffer. |
| Chunked.SizeLineRead | src/proxy.rs:384-387 | A size with extensions is read as its value if and only if no blank precedes the semicolon; otherwise it is an error that names digits and blanks. |
| Chunked.DechunkInvertsChunking | src/proxy.rs:364-410 | For all chunks of section 7.1 of RFC 9112, any digit case, leading zeros, extensions and trailer, de-chunking returns the concatenated data if and only if no size line has a blank before its semicolon; otherwise an invalid-size error. |
| Chunked.ChunkedMessageRead | src/proxy.rs:272-305 | A whole chunked response in any fragmentation is read as its unchanged head and the decoded data. |
| Chunked.HexadecimalValue | src/proxy.rs:386-387 | Every length has a size text that reads as that length. |
| Chunked.WrittenSizeIsRead | src/proxy.rs:386-387 | A size that a sender writes, in capitals or not, with extensions right behind it, is read as its value, for every `usize`. |
| Chunked.CaseIsIgnored | src/proxy.rs:386-387 | Changing the case of any digits of a size changes nothing. |
| Chunked.WrittenBodyIsRead | src/proxy.rs:364-410 | Parts that are sent with the length of their data as size, in capitals or not, come out as their data, whatever follows the last chunk. |
| Chunked.CutBodyIsRead | src/proxy.rs:376-401 | Such a body, cut off within a part, comes out as the whole parts before it; if the stream breaks there it is an error, however much was read. |
| Chunked.LargestSizesOverflow | src/proxy.rs:395 | The two largest sizes overflow. |
| Chunked.CapitalTen | src/proxy.rs:386 | Size `A` takes ten bytes. |
| Chunked.BlankBeforeSemicolon | src/proxy.rs:384-391 | The size line `5 ;x` is refused, with the blank as part of the size. |
| Consumption.DecidedIff | src/proxy.rs:322-453 | A part of the bytes decides the message if and only if it reaches its end: the head, the announced length, or the size line that ends the chunks, without trailer and last line end. |
| Consumption.ReadingLeaves | src/proxy.rs:272-453 | The reader takes whole reads, up to the first after which the message is decided, or everything; all that is behind the message is left if and only if some read ends with it. |
| Consumption.HandshakeLeaves | src/proxy.rs:328-331 | Behind a head without a body, all that follows is left if and only if some read ends with the head. |
| HeadFacts.NoBodyIsRead | src/proxy.rs:346-354 | With status 101, 204 or 304, for every fragmentation, tail and ending and whatever the headers say, the head is all that is read; the tail is left if and only if some read ended with the head. |
| HeadFacts.UnframedIsRead | src/proxy.rs:337-343 | With any other status and neither framing header, everything up to the close is read, and nothing is left. |
| HeadFacts.LengthIsRead | src/proxy.rs:314-320 | With a Content-Length that is a `usize` and no Transfer-Encoding, that many bytes are read, or what there is of them at the close, or it is the read error; what follows is left if and only if some read ended with them. |
| HeadFacts.HugeLengthIsRead | src/proxy.rs:314-320 | With a first Content-Length beyond `usize`, whatever others follow, everything up to the close is read. |
| HeadFacts.ChunksAreRead | src/proxy.rs:337-338 | With `chunked`, whatever the Content-Length, the data of the parts is read. |
| HeadFacts.CutChunksAreRead | src/proxy.rs:375-401 | When the peer closes within a part, the parts before it are; when the stream breaks there, it is the read error. |
| HeadFacts.NoBlankIsRead | src/proxy.rs:279-298 | Without CR, LF, CR, LF anywhere the whole stream is returned, or the read error. |
| HeadFacts.SwitchingHead | src/proxy.rs:346-354 | A head that starts with `HTTP/1.1 101 ` has no body. |
| RequestFacts.BareRequestIsRead | src/proxy.rs:332-336 | A request with neither framing header is returned as all the bytes of the reads up to the first that reached the end of its head. |
| RequestFacts.RequestLengthIsRead | src/proxy.rs:314-320 | A Content-Length that is a `usize` counts in a request as in a response. |
| RequestFacts.RequestChunksAreRead | src/proxy.rs:337-338 | And so do chunks. |
| RequestFacts.StatusTargetIsRead | src/proxy.rs:346-354 | A request whose target reads as 101, 204 or 304 is taken for a response without body, whatever it announces. |
| Utf8.DecodeEncoded | src/proxy.rs:92 | Text that is written as UTF-8 is read back by the lossy decoder. |
| Utf8.DecodeSplits | src/proxy.rs:92 | Decoding can be cut wherever no character goes across, so at every line end, colon and space, whatever stands on either side. |
| Characters.TokenIff | src/proxy.rs:107 | The characters of section 5.6.2 of RFC 9110 are those of a name. |
| Characters.TokenParts | src/proxy.rs:107 | Two texts that are not empty make a name if and only if each is one; the empty text is none. |
| Characters.ValueIff | src/proxy.rs:165 | A header value holds any bytes but controls other than tab, and no DEL. |
| Characters.DigitIff | src/proxy.rs:386 | Which single characters are numbers, in decimals and in hexadecimal, and which. |
| Characters.DigitsAdd | src/proxy.rs:386 | One digit more multiplies by the base and adds, unless the result is too large. |
| Characters.NoOtherCharacter | src/proxy.rs:386 | A text with any other character in it is no number. |
| Characters.WholeIff | src/proxy.rs:92 | Bytes start with a whole character if and only if they start with the UTF-8 of one. |
| Characters.PartIsStart | src/proxy.rs:92 | What is replaced by one U+FFFD starts a character, unless its first byte starts none. |
| Messages.SerializeResponse | src/proxy.rs:180-201 | Writes exactly the printed response that the round trips are about. |
| Messages.SerializeResponseHead | src/proxy.rs:205-222 | Writes the same head, and no body. |
| Messages.SerializeRequest | src/proxy.rs:127-144 | Writes exactly the printed request. |
| Messages.ParseRawResponse | src/proxy.rs:147-177 | Parses any bytes: defaults for missing parts, an error for an unreadable status, a panic of the builder for a refused part. |
| Messages.ParseRawRequest | src/proxy.rs:91-122 | Parses any bytes: defaults for missing parts, a panic of the builder for a refused part. |
| ParseFacts.StatusCases | src/proxy.rs:149-175 | A status from 100 to 999 is taken, 101 included; another `u16` makes the builder panic, and a larger number is an error. |
| ParseFacts.StatusWord | src/proxy.rs:151-156 | A word that is no number is an error that names it. |
| ParseFacts.StatusDefaults | src/proxy.rs:149-156 | Without a status, or without anything, it is 200. |
| ParseFacts.RequestCases | src/proxy.rs:94-121 | A method that is no token or a target that is refused makes the builder panic; all others are taken as they are, and the version is not looked at. |
| ParseFacts.RequestDefaults | src/proxy.rs:94-100 | Without a target it is `/`, and without anything the method is `GET`. |
| ParseFacts.HeaderCases | src/proxy.rs:160-167 | A name is stored trimmed and in lower case, its value trimmed, further colons included; a name or value that is not allowed makes the builder panic. |
| ParseFacts.NoColonIsSkipped | src/proxy.rs:160-167 | A line without a colon is passed over. |
| ParseFacts.PrintedResponse | src/proxy.rs:180-201 | A response with one header and a body, printed letter by letter; without a reason phrase it says `OK`. |
| ParseFacts.PrintedReason | src/proxy.rs:205-222 | With a reason phrase it is that phrase as UTF-8; a streamed body is not printed. |
| ParseFacts.PrintedRequest | src/proxy.rs:127-144 | A request, printed letter by letter. |
| Messages.PrintedHeadEnds | src/proxy.rs:114-119 | The byte search for CRLFCRLF splits any printed message where its head ends, whatever the body holds. |
| Messages.PrintedHeadLines | src/proxy.rs:105-112 | The walk over `lines()` meets the same head, line by line, and then the empty line. |
| Messages.ParsePrintedResponse | src/proxy.rs:147-201 | Parsing a printed response gives it back with its values decoded, trimmed and encoded again, for any body bytes. |
| Messages.ResponseRoundTrip | src/proxy.rs:147-201 | Parse undoes print on a response if and only if its header values are valid UTF-8 without white space at their ends. |
| Messages.RequestRoundTrip | src/proxy.rs:91-144 | Parse undoes print on a request if and only if its header values are such, and its target up to the first white space stands for the same target. |
| Examples.InvalidByteIsReplaced | src/proxy.rs:148 | The value of one byte FF comes back as EF BF BD. |
| Examples.NoBreakSpaceGoes | src/proxy.rs:165 | A no-break space at the end of a value does not come back. |
| Messages.ResponsePrintIsCanonical | src/proxy.rs:147-201 | For any bytes the parser accepts, the print of the result parses to the same response, so printing is idempotent. |
| Messages.RequestPrintIsCanonical | src/proxy.rs:91-144 | The same for requests, with the target in the form the crate prints. |
| Headers.AppendingFieldsRebuilds | src/proxy.rs:105-112 | Appending the lines of a header map in iteration order rebuilds the map. |
| Headers.AppendAdds | src/proxy.rs:105-112 | A value is added once, behind those that its name has, and no other name changes. |
| Headers.RemoveMovesLast | src/decoder.rs:127-130 | Removing a name puts the last entry in its place and leaves the others where they are. |
| RoundTrip.PrintedHeadTests | src/proxy.rs:307-362 | On a printed head, the four text tests say exactly what status and headers say: bodiless, never a request, chunked, and the first Content-Length. |
| Examples.KelvinIsChunked | src/proxy.rs:307-312 | `chunked` with the Kelvin sign for its `k` counts as chunked. |
| RoundTrip.WriteReadParse | src/proxy.rs:147-201 | Write, cut up, read, parse: the response comes back, for every fragmentation, buffer and ending, if and only if its values are valid UTF-8 without white space at their ends and its headers delimit its body. |
| Forwarding.HeadersAreFields | src/proxy.rs:160-167 | The header walk collects, in order, the fields of the lines with a colon up to the first empty line, and fails if and only if one of them is not valid. |
| Forwarding.StrictHeadTests | src/proxy.rs:307-362 | On any head whose header lines have only their name before the colon, the reader's text tests say what the parsed status and headers say: body or none, chunked, and which length. |
| Forwarding.PrintedHeadIsStrict | src/proxy.rs:180-201 | Every head that the serialiser prints is of that kind. |
| Forwarding.ForwardedResponseIsReadBack | src/http_proxy.rs:76-81 | From any bytes that the parser accepts, printed for the client and cut up in any way: the client's reader and parser get the very response the proxy had, if and only if its headers delimit its body. |
| Forwarding.StrictResponseIsReadBack | src/http_proxy.rs:67-81 | From any upstream bytes with a strict head, through reader, parser and printer, for all fragmentations on both sides: the client gets the response the proxy had if and only if no non-empty body was de-chunked. |
| Examples.ChunkedExample | src/proxy.rs:302-304 | `transfer-encoding: chunked` and one chunk `abc`: a second reading loses the body, and so does the client of the forwarded response. |
| LooseHeads.UnseenLengthCutsBody | src/proxy.rs:314-320 | For every header line that the parser takes for a length and the text test does not see: the proxy reads to the close and de-chunks nothing, and the client is cut off at that length. |
| Examples.BlankBeforeColon | src/proxy.rs:314-320 | `Content-Length : 3` is such a line: of the body `hello` the client gets `hel`. |
| LooseHeads.EarlyBlankIsReadBack | src/proxy.rs:307-312 | With an empty line in front of a Transfer-Encoding line, the reader de-chunks, the parser sees no header, and the client gets the response the proxy had all the same. |
| Examples.EarlyBlankExample | src/proxy.rs:307-312 | The same for `transfer-encoding: chunked` behind an empty line and one chunk `abc`. |
| Exchange.WriteBodyToStream | src/proxy.rs:226-259 | Writes the data frames in order, skips trailers, and on an error has written exactly what came before it. |
| Http.CollectedIff | src/handler.rs:40-51 | A body that fails is not collected; any other is all of its data, without trailers. |
| Exchange.SendResponse | src/http_proxy.rs:108-113 | Streaming sends the bytes that the buffered response would have been; on an error, head and earlier data only, and no shutdown. |
| Exchange.StreamedResponseIsReadBack | src/http_proxy.rs:108-113 | For every fragmentation the client gets a streamed response, with its body collected, if and only if its values are valid UTF-8 without white space at their ends and its headers delimit what the body yielded. |
| Exchange.ShortCircuitIsReadBack | src/http_proxy.rs:57-63 | The same for a response that a request handler answers with, which must moreover be in memory or yield nothing, as a streamed body is not written. |
| Exchange.UpgradeExchange | src/http_proxy.rs:67-92 | The upgrade branch end to end: a failed read, parse or handler writes nothing; otherwise the client is sent what the handler made of the parsed response, and the relay starts if and only if that has status 101. And, for every head, which of upstream's bytes are taken and which the relay still finds: everything behind the message if and only if a read ended with the message, and behind a handshake if and only if the reads brought just its head. |
| Exchange.HandshakeIsRead | src/proxy.rs:328-331 | A printed response with status 101, 204 or 304, with anything behind it and in any fragmentation, is read as its head and parsed as itself. |
| FirstRead.CutValueIff | src/proxy.rs:92 | A valid value that is cut off is taken for itself if and only if all that is missing is the end of a last U+FFFD. |
| FirstRead.MapIsReadIff | src/proxy.rs:105-112 | The header walk over a part of printed lines gives the whole map if and only if the part reaches the end of the last value, where the end of a last U+FFFD may be missing. |
| FirstRead.TargetArrives | src/proxy.rs:96-100 | Until a target without white space has come the parser sees `/`, then what has come of it, with U+FFFD for a character that is cut. |
| FirstRead.FirstReadSuffices | src/proxy.rs:33-82 | Of a request that is parsed as sent when all of it is there: the first read gets it to the parser if and only if it asks for no tunnel and the read brings all of it if it has a body, all up to the last value if it has headers only, or enough of the first line for the method and a target that stands for the same. |
| FirstRead.OneReadSuffices | src/proxy.rs:33-36 | So such a request with a body is parsed as sent if and only if it asks for no tunnel and arrived in one fragment of at most 4096 bytes. |
| Relay.Session.TakeFrom | src/ws_proxy.rs:276-299 | One branch of `select!` does one step of the run. |
| Relay.Session.RelayUpgraded | src/ws_proxy.rs:257-305 | Performs the run of its schedule; returns if and only if the loop ended, and then has called `on_close` once, after every `on_frame`. |
| Relay.Session.RelayFramed | src/ws_proxy.rs:69-118 | The same, and closes the client's side at the end, and only then. |
| Relay.RelayRawUpgraded | src/ws_proxy.rs:308-346 | Performs the raw run of its schedule. |
| Relay.RelayConserves | src/ws_proxy.rs:274-301 | In every reachable state under every schedule: each taken frame went through the handler once, in order, with its direction, in the world its predecessor left; what was sent is the values of the calls with a result, in order and as many; the run stops with the first Close, failure or end on either side. |
| Relay.PassedCount | src/ws_proxy.rs:280-295 | What the calls of a direction let through is as much as there are calls with a result. |
| Relay.RelayTerminates | src/ws_proxy.rs:274-301 | A run ends after at most one round more than there are events. |
| Relay.ScheduleIndependence | src/ws_proxy.rs:274-301 | For a stateless handler, what each side receives is the image of what was taken from the other, and any two schedules deliver prefix-comparable sequences. |
| Relay.NoopRelayIsRaw | src/ws_proxy.rs:257-346 | With the no-op handler the relay delivers exactly what the raw relay does on the same schedule. |
| Decoder.TrimSpacesIs | src/decoder.rs:61-69 | The trim takes exactly the spaces around a text, and nothing from a text of spaces alone. |
| Decoder.EncodingsAreReversed | src/decoder.rs:54-59 | The peeling order is the reverse of the elements in listing order, over any number of lines. |
| Decoder.LinesJoinByComma | src/decoder.rs:54-59 | Joining the lines with commas never changes the list. |
| Decoder.LinesJoinByCommaSpace | src/decoder.rs:54-69 | Joining them with comma and space keeps the list if and only if no later line starts with a blank element. |
| Decoder.WrittenLinesAreRead | src/decoder.rs:54-69 | Names written on any number of lines are read back in order. |
| Decoder.DecodeBody | src/decoder.rs:102-125 | Wraps one decoder per name around the body, skips `identity`, and reports an unknown name, a failed body or a failed decoder. |
| Decoder.DecodeRequest | src/decoder.rs:148-159 | Decodes a request as the stack result below describes, and touches nothing else. |
| Decoder.DecodeResponse | src/decoder.rs:164-175 | The same for a response. |
| Decoder.CodingStackUndone | src/decoder.rs:148-175 | Codings applied in order by `encode_body` and listed in that order over any lines are undone and both headers go, unless Content-Length is `0`; then nothing is touched. |
| Decoder.NamedCodingUndone | src/decoder.rs:81-98 | For each of the five names: a message that lists it, with a body of that very coding, is decoded to the plain body, and `encode_body` uses that coding; a body that the decoder cannot read, or that fails, is an error. |
| Decoder.LastCodingGoesFirst | src/decoder.rs:54-98 | Of two names on one line the coding of the last is taken off first, then that of the other. |
| Decoder.IdentityIsNoCoding | src/decoder.rs:110-112 | Under `identity` the body stays and the headers go. |
| Decoder.StreamIsCollected | src/decoder.rs:102-103 | A streamed body that does not fail is decoded as the data that it yields. |
| Decoder.UncodedIsKept | src/decoder.rs:71-77 | A message without Content-Encoding is left alone. |
| Decoder.UnsupportedFails | src/decoder.rs:93-98 | A list with any other name fails, and the error names the one that stands last. |
| Decoder.NothingElseEncodes | src/decoder.rs:236-240 | Under any other name, `identity` included, nothing is encoded. |
| Decoder.StrippedHeaders | src/decoder.rs:127-135 | Both headers are gone and every other header keeps all its values. |
| Decoder.StrippedOrder | src/decoder.rs:127-135 | They go in the source's order, which the order of the rest shows. |
| Decoder.ChainFailsIff | src/decoder.rs:81-114 | Setting up the decoders succeeds if and only if every name is supported or `identity`, whatever the body; otherwise the error names the first that is not, in peeling order. |
| Decoder.CaseMatters | src/decoder.rs:85-98 | Of names that are supported up to case, only lower case is accepted, although section 8.4.1 of RFC 9110 ignores case. |
| Decoder.UpperCaseRefused | src/decoder.rs:85-98 | `GZIP` is refused by name. |
| OptionalSpace.ReadingsAgreeIff | src/decoder.rs:54-69 | The list is read as section 5.6.3 of RFC 9110 has it if and only if only spaces surround its elements and none is blank. |
| OptionalSpace.TabsMatter | src/decoder.rs:54-98 | Of lists that hold supported names only, as that section reads them, exactly those without a tab around a name are accepted. |
| OptionalSpace.EmptyElementsMatter | src/decoder.rs:54-98 | With empty elements ignored, as section 5.6.1.2 of RFC 9110 has it: of lists that then hold supported names only, exactly those without a tab around a name and without an empty element are accepted. |
| OptionalSpace.TabbedListRefused | src/decoder.rs:61-69 | `gzip`, a comma, a tab and `br` are refused. |
| OptionalSpace.EmptyElementRefused | src/decoder.rs:54-98 | `gzip,,br` is refused with an empty name. |
| CertCache.CertificationAuthority.ForgeCertificate | src/ca.rs:132-170 | An uninterrupted call: the cached pair, or the new one, which is then cached, or the panic for a host that is no DNS name, which changes nothing. |
| CertCache.DnsNameIff | src/ca.rs:155 | The hosts that do not panic are those whose UTF-8 has one byte for each character. |
| CertCache.SequentialCallsMemoise | src/ca.rs:132-170 | Calls one after another are answered by what was cached at the start, or by what the first call for that host generated, or panic if the host is no DNS name. |
| CertCache.SequentialRunsMemoise | src/ca.rs:132-170 | The interleaving model agrees with that table on calls that do not overlap. |
| CertCache.UninterruptedCall | src/ca.rs:132-170 | The three steps in a row are the sequential call. |
| CertCache.EveryPairIsGenuine | src/ca.rs:158-169 | In every interleaving, every cached and every returned pair was generated together for that very host. |
| CertCache.RunsAreGenuine | src/ca.rs:132-170 | In every run from the empty cache, each answer and each entry was generated during the run, by a caller that had asked for that host and missed. |
| CertCache.CallIsItsOwn | src/ca.rs:132-170 | Nothing that other callers do changes the host or the pair of a call in progress. |
| CertCache.FinalIffSettled | src/ca.rs:132-170 | An entry never changes again, and every later call returns it, if and only if no call for its host sits between miss and insert with another pair to come. |
| CertCache.OverlappingCallsDisagree | src/ca.rs:133-169 | Two callers that miss together get different pairs, and the second replaces the first in the cache. |
| HandlerChain.HandleRequest | src/builder.rs:297-309 | The loop is the stack function that the composition results are about. |
| HandlerChain.HandleResponse | src/builder.rs:311-320 | The same for responses, in insertion order. |
| HandlerChain.ShouldIntercept | src/builder.rs:322-329 | The same for interception, up to the first refusal. |
| HandlerChain.StacksCompose | src/builder.rs:295-330 | A stack behind a stack runs in the world and on the message that the first leaves, unless that has answered, failed or refused. |
| HandlerChain.NestedStackFlattens | src/builder.rs:295-330 | A stack inside a stack is its handlers in its place. |
| HandlerChain.NothingBehindTheStop | src/builder.rs:302-308 | No handler behind the one that answers or fails is called; a forwarded request is seen by all. |
| HandlerChain.ResponsesAreNotReversed | src/builder.rs:316-319 | Insertion order is the reverse order that the documentation promises if and only if there is at most one handler. |
| HandlerChain.ProxyBuilder.WithHttpHandler | src/builder.rs:71-74 | Replaces all handlers. |
| HandlerChain.ProxyBuilder.AddHttpHandler | src/builder.rs:79-82 | Appends a handler. |
| HandlerChain.ProxyBuilder.Build | src/builder.rs:122-153 | The proxy runs the builder's handlers and shares its flag. |
| HandlerChain.Proxy.OnRequest | src/builder.rs:255-261 | The wrapped handler is the stack, whatever the flag says. |
| HandlerChain.Proxy.OnResponse | src/builder.rs:263-269 | The same for responses. |
| HandlerChain.Proxy.ShouldInterceptTls | src/builder.rs:271-276 | A disabled proxy intercepts nothing and asks no handler; an enabled one asks the stack. |
| HandlerChain.Toggle | src/builder.rs:92-202 | Builder, proxy and holder of the flag switch the same proxy; the buffer size reaches the proxy. |

## Left out

- Sockets, TLS, Tokio's scheduler and the Hyper client and server: I/O and library code.
- Write errors, and connecting to the upstream: a write takes all its bytes.
- Chunked.SizeLineCases: in a build without overflow checks the sum wraps; then a size line of `usize::MAX` with nothing behind it but the end of the stream returns the body so far, where the model panics; all else that overflows panics there too, at the slice.
- Forwarding.StrictHeadTests: says nothing of heads with white space in front of a colon or an empty line before the last; `LooseHeads` shows that there the tests and the parser disagree both ways.
- Limits of the `http` crate on the number and length of headers, and memory limits.
- Compression algorithms, certificate contents, signing, clocks, randomness and persistence: parameters.
- WebSocket frame encoding, automatic pongs and close replies: frames are opaque, with a test for Close. Sinks accept what they are given; the source ignores their errors.
- `relay_websocket`: a library call that copies bytes both ways.
- `handle_https_websocket`, `upstream.rs` and most of `https_proxy.rs`: calls into libraries.
- `extract_host`, CONNECT targets, `is_websocket_*` and `force_connection_close_bytes`: string tests that would only add easy members.
- Lock poisoning in `forge_certificate`.
- Builder settings that only store a value: address, CA, certificate directory, WebSocket handler.
