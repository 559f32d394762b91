# Verified model of the SDP client

The client asks a Bluetooth SDP server which RFCOMM channel a service uses. It sends
ServiceSearchAttribute requests over a byte stream, follows continuation tokens page by page,
reassembles the attribute bytes, decodes them as nested data elements and searches the decoded
service records. This project models that whole path in Dafny and proves what it computes.

- `Bytes`, `Descriptor`, `Element`: machine integers, big-endian fields, the descriptor byte and
  the recursive decoder. `DecodeElement` and `SequenceContents` decode step by step, with the
  loop of the source; they are proved against `ParseElement` and `ParseContents`.
- `WireFormat`, `ElementRoundTrip`: syntax trees of the wire format, their printer and their
  meaning. The decoder accepts exactly the printed well-formed trees.
- `PduHeader`, `Response`, `Extract`, `Encode`: header, page framing, attribute pairing, channel
  search, and the request encoder.
- `Socket`: `Net` is the stream as a value (bytes to come, log of writes, and how each coming
  operation fares: it works, or breaks with an error after moving some bytes). `Stream` is the
  mutable stream, where bytes arrive in chunks of any sizes; its contracts mention only the
  concatenated bytes, so no result depends on the chunks.
- `Session`, `SessionRuns`: the paging loop and what holds of every run of it.
- `Answers`: what reassembled bytes answer, said through the encoding they start with.
- `SessionOutcomes`: which streams lead to which outcome. Success, decode errors and transport errors
  are each characterised by an if-and-only-if, result and stream left together, for every stream,
  including one whose operations break.
- `EndToEnd`, `PagingServer`, `Provenance`: the composition, from bytes on the stream to the answer
  about service records; a server in closed loop; and where in the received bytes an answer lies.

Specification functions on values (`RunSession`, `Exchange`, `ParseElement`, `EncodeRequest`) say
what a method computes; the properties are lemmas about those functions, and every method's
`ensures` ties its result and its new state to them.

## Where the code and its documentation differ

The model follows the code.

- The session is documented to return the channel of the first matching record
  (src/transport/session.rs:61-64); it returns the channel of the first record that has one.
  `EndToEnd.ReturnsFirstRecordExactly` says exactly when the two agree and
  `EndToEnd.ReturnsLaterRecord` gives an answer on which they do not.
- Types the client does not interpret are documented to be walked past
  (src/codec/element.rs:17-21). Integers are the exception, as the same file says further down
  (src/codec/element.rs:52-53): a width other than 1, 2 and 4 bytes is rejected, and with it every
  sequence that holds one. `ElementRoundTrip.WideIntegerRejected` is the exact condition, for
  whole trees, and `ElementRoundTrip.SixtyFourBitOneRejected` an instance.
- Continuation state is documented as at most 16 bytes (src/codec/encode.rs:33-37); the code checks
  255. `Encode.TokenLimitExactly` says where the two part, `Encode.SeventeenByteTokenSent` is an instance.
- Interpreting a single page's bytes is documented to be expected to fail
  (src/codec/response.rs:10-11). `EndToEnd.FirstFragmentDecodesExactly` says exactly when the first
  page fails; `EndToEnd.LaterFragmentDecodes` is an answer whose second page decodes on its own.
- Response PDU ids, response transaction ids, agreement of the parameter length with the parsed
  fields, and bytes after the token or after the outer element are not checked by the code. The
  results on the session hold for any PDUs the client accepts (`EndToEnd.SurplusIsAccepted` is one
  with a byte to spare). Only `EndToEnd.PrintedSession` and what follows from it, the closed loop and
  the concrete answers, are about pages printed with nothing to spare.

## Model

| member | source | states |
|---|---|---|
| EndToEnd.FindsFirstChannel | src/transport/session.rs:70-97 | For all records, any encoding of them (a record that is no sequence has no channel and hides none; an outer element that is no sequence has no records), any bytes after it, any cut of those bytes over PDUs the client accepts (whatever their ids, and whatever they carry after the token) and anything after them: if the three stream operations of each page work, whatever later ones would do, the session answers with the channel of the first record that has one, or with none where no record has, sends exactly one request per page, and leaves the stream at the trailing bytes |
| EndToEnd.ServedSession | src/transport/session.rs:77-96 | A full answer, on any PDUs the client accepts, is read whole and no further, by three operations a page; the result depends on the pages only through the reassembled bytes |
| EndToEnd.PrintedSession | src/transport/session.rs:77-96 | The same for pages printed with nothing to spare: such pages are a full answer |
| EndToEnd.SurplusIsAccepted | src/codec/response.rs:45-61 | A page with a byte after its token, counted in its parameter length, is a full answer to the client |
| EndToEnd.ReturnsFirstRecordExactly | src/transport/session.rs:61-64 | The session returns the first record's channel if and only if that record has one or no other record has one |
| EndToEnd.ReturnsLaterRecord | src/transport/session.rs:61-64 | A served answer whose first record has no channel, on which the session returns the second record's |
| EndToEnd.PagingDoesNotMatter | src/transport/session.rs:82-91 | Two servers that page the same bytes differently get the same answer, wherever they cut |
| EndToEnd.MissingBytesFailDecode | src/transport/session.rs:93-94 | A session that reassembles a proper prefix of an encoding ends in a decode error, never in a channel or in the absence of one |
| EndToEnd.FirstFragmentDecodesExactly | src/codec/response.rs:10-11 | The first part of an answer, taken alone, is interpreted if and only if it holds all of the answer's element and that can be interpreted |
| EndToEnd.LaterFragmentDecodes | src/codec/response.rs:10-11 | An answer on two pages whose second page, `08 0d`, is interpreted on its own, as no lists |
| EndToEnd.SizeFormsDoNotMatter | src/codec/element.rs:34-50 | Respelling any headers with other size forms that fit, save that the two-byte fixed form of a UUID is kept and not taken up, changes neither the decoded lists nor the answer |
| EndToEnd.EncodedRecordsAreSearched | src/codec/response.rs:89-103 | Any encoding of a list of records, some of which may be no sequences, is interpreted as the search over those records |
| Provenance.AnswerWasReceived | src/transport/session.rs:93-96 | On any stream, a returned channel lies in the received bytes: in some record, as the value of an attribute with id 4, contiguously `19 00 03` and an accepted integer that denotes it |
| Provenance.AnswerIsHeld | src/codec/extract.rs:18-39 | The position a search finds in the decoded records is a position in the encoded bytes, through every nesting level |
| Provenance.RfcommEntryBytes | src/codec/extract.rs:32-36 | An element the search takes for an RFCOMM entry is encoded as exactly the 16-bit UUID 3 and an integer |
| Answers.TreeIsInterpreted | src/transport/session.rs:93-96 | For every encoding, whatever follows it: the result is a channel if and only if the first of its lists that gives any gives this one, and none if and only if no list gives any; a record that is no sequence is an empty list |
| Answers.NoSequenceNoChannel | src/codec/response.rs:101-102 | An encoding of anything but a sequence has no channel, and is no error |
| Answers.InterpretsExactly | src/transport/session.rs:93-96 | Reassembled bytes are interpreted as an answer if and only if they start with an encoding whose lists give it |
| Answers.InterpretFailsExactly | src/codec/response.rs:89-103 | They are a decode error if and only if they start with no encoding, or with one that holds a badly paired record |
| PagingServer.Server.ClosedLoop | src/transport/session.rs:77-96 | With a server of up to 2^32 - 1 bytes that pages by offset at any page size, so that transaction ids may wrap, every PDU read is the server's reply to the request just sent, and the answer is the interpretation of exactly the server's bytes |
| PagingServer.Server.PagesReassemble | src/transport/session.rs:82-91 | The fragments of an offset server's pages reassemble to its bytes |
| PagingServer.Server.PagesAreReplies | src/transport/session.rs:85-91 | Page i of such a server is its reply to the client's i-th request, which echoes the token of page i - 1 |
| Session.FindRfcommChannel | src/transport/session.rs:70-97 | The loop returns the result and leaves the stream that the specification of a session gives, and never fails with an encode error |
| Session.QueryOnce | src/transport/session.rs:39-59 | One query: encode, then exchange, with the error of whichever failed; a token over 255 bytes is an encode error that leaves the stream untouched |
| Session.FragmentsAccumulate | src/transport/session.rs:82-90 | Reassembly appends each page's fragment at the end, and nothing else |
| Response.ReadAttributeLists | src/codec/response.rs:89-103 | Interpretation on top of the step-by-step decoder returns what its specification gives |
| Session.EncodingNeverFails | src/transport/session.rs:55-87 | No run, on any stream, ends in an encode error: every token came from an 8-bit length |
| Session.PageConsumes | src/codec/response.rs:45-61 | An accepted page uses up at least eight stream bytes, its fragment and its token, so the loop terminates |
| SessionRuns.EveryRun | src/transport/session.rs:77-91 | For every run on every stream: each accepted page but a successful run's last carries a token; the log is one whole request per accepted page in order, plus, on failure, one more, which is whole if its write worked, and so always after a decode error, and otherwise as long as what that write moved |
| SessionRuns.RequestSays | src/transport/session.rs:48-54 | Request i reads back as this service, 65535 bytes, all attributes, transaction id i wrapped at 65536, and exactly the token of page i - 1 |
| SessionRuns.RunIsBounded | src/transport/session.rs:85-91 | For n incoming bytes at most n/9 pages continue, whatever the server does; the reassembled bytes are at most 65532 per page |
| SessionOutcomes.CompleteAnswerIsRead | src/transport/session.rs:77-91 | A full answer, of any PDUs the framing accepts, is read to its last byte and no further, one request and three operations per page, whatever later operations would do |
| SessionOutcomes.ContinuingPagesAreRead | src/transport/session.rs:85-91 | After any number of continuing pages the session goes on with the next transaction id and the last token, having logged the requests so far |
| SessionOutcomes.SessionSucceedsExactly | src/transport/session.rs:70-97 | On any stream, the session succeeds with an answer and leaves a stream if and only if the stream starts with a full answer whose reassembled bytes start with an encoding that gives it, the three operations of each of its pages work, and what is left is what follows |
| SessionOutcomes.DecodeFailsSessionExactly | src/transport/session.rs:80-94 | On any stream, the session ends in a decode error if and only if the stream starts with a full answer that starts with no encoding or holds a badly paired record, or with continuing pages and then a whole PDU whose framing is rejected; it leaves what follows that answer or that PDU |
| SessionOutcomes.SocketFailsSessionExactly | src/transport/session.rs:56-58 | On any stream, the session ends in a transport error if and only if it starts with continuing pages after which the first operation of the next query with a break in store has that error, or none has one and the stream ends inside the PDU that is due and the error is `Io`; it leaves exactly what that operation left: unread bytes, the part of the request sent, and later outcomes |
| SessionOutcomes.RunReadsPdus | src/transport/session.rs:77-91 | On any stream, the pages a run accepted are PDUs at the front of the stream, whole and in order; a successful run consumes exactly them and three operations for each; a failed one met a page it could not accept and stopped right after it, or a query that could not be completed; each time the whole stream left is stated |
| SessionOutcomes.BadPageFailsDecode | src/transport/session.rs:80-88 | A whole PDU whose framing is rejected ends the session in a decode error after any number of pages, its request sent whole and the stream left right after it |
| SessionOutcomes.ShortPduIsBad | src/codec/response.rs:45-51 | The framing of a PDU with a parameter length below 3, such as an error response, is rejected |
| SessionOutcomes.QueryFailsExactly | src/transport/session.rs:55-88 | When one query fails, with which error and leaving what, as if-and-only-ifs on the bytes and operations to come |
| SessionOutcomes.StoppedStreamFails | src/transport/socket.rs:44-62 | A query that cannot be completed, after any number of pages, ends the session in its transport error and leaves what the query left |
| SessionOutcomes.StoredBreakFailsSession | src/transport/socket.rs:44-62 | After any number of continuing pages, a break in store for the write, the header read or the body read of the next query ends the session with that error, and leaves what that operation left |
| SessionOutcomes.EndedStreamFails | src/transport/socket.rs:49-62 | A stream that ends inside a PDU, or before the next one, ends the session in an input/output error, with its request sent and nothing left to read |
| SessionOutcomes.CutAnswerFails | src/transport/socket.rs:49-62 | A full answer cut short at any byte is an input/output error |
| SessionOutcomes.SoundStreamSplits | src/transport/session.rs:77-91 | Every byte string starts with a full answer, or with continuing pages and then a bad page or its end |
| SessionOutcomes.SocketFailureHasCause | src/transport/session.rs:56-58 | A transport error of a run is that of an operation in store that breaks, or it is `Io` and after the accepted pages the stream ends inside the PDU that was due; a timeout is never made up |
| ElementRoundTrip.AcceptsExactlyEncodings | src/codec/element.rs:92-114 | The decoder returns (rest, e) if and only if the input is some well-formed tree printed, followed by rest, and e is that tree's meaning |
| ElementRoundTrip.ElementOfPrint | src/codec/element.rs:92-114 | Decoding a printed tree returns its meaning and exactly the bytes after it |
| ElementRoundTrip.ContentsOfPrint | src/codec/element.rs:80-89 | Walking printed trees returns their meanings in order |
| ElementRoundTrip.TreeOfElement | src/codec/element.rs:92-114 | Whatever the decoder accepts is a printed tree with the returned meaning |
| ElementRoundTrip.TreesOfContents | src/codec/element.rs:80-89 | Whatever body the walk accepts is a list of printed trees |
| ElementRoundTrip.UniqueTree | src/codec/element.rs:92-95 | No input starts with two different encodings |
| ElementRoundTrip.PrefixFree | src/codec/element.rs:92-95 | No encoding is a proper prefix of another |
| ElementRoundTrip.Locality | src/codec/element.rs:92-95 | Bytes after an element change nothing but the rest |
| ElementRoundTrip.TruncatedElementRejected | src/codec/element.rs:92-95 | An element cut short anywhere is rejected |
| ElementRoundTrip.ContentsHomomorphism | src/codec/element.rs:80-89 | If a is accepted, a + b is accepted exactly when b is, and decodes to the concatenation |
| ElementRoundTrip.UnknownIsSkipped | src/codec/element.rs:110-110 | An uninterpreted element, whatever its payload, is stepped over without changing how its siblings decode |
| ElementRoundTrip.BadElementRejectsBody | src/codec/element.rs:83-84 | A body is rejected as soon as one element is |
| ElementRoundTrip.LeafAcceptedExactly | src/codec/element.rs:97-110 | A non-sequence element whose size fits is accepted if and only if it is no integer or an integer of 1, 2 or 4 bytes |
| ElementRoundTrip.WideIntegerRejected | src/codec/element.rs:54-114 | A printed tree whose sizes fit is accepted if and only if it holds, at no depth, an integer of a width other than 1, 2 and 4 bytes |
| ElementRoundTrip.SixtyFourBitOneRejected | src/codec/element.rs:68-68 | The 64-bit integer 1 is rejected |
| ElementRoundTrip.RespellingKeepsMeaning | src/codec/element.rs:102-109 | Trees that differ only in size forms, and not in whether a UUID has the two-byte fixed form, mean the same |
| ElementRoundTrip.RespellingMeansExactly | src/codec/element.rs:102-109 | Trees of the same shape, types and payloads mean the same if and only if they agree on which UUIDs have the two-byte fixed form |
| ElementRoundTrip.ElementBounds | src/codec/element.rs:54-114 | The rest is a proper suffix; tree depth and node count are at most the bytes consumed; every integer is below 2^32 |
| ElementRoundTrip.SpellingMeans | src/codec/element.rs:22-28 | Every writable element is the meaning of a well-formed tree |
| ElementRoundTrip.SpellingIsShortest | src/codec/element.rs:34-50 | No encoding of an element is shorter than its shortest spelling |
| ElementRoundTrip.EncodableExactly | src/codec/element.rs:22-28 | An element has an encoding if and only if its integers are below 2^32 and its body, written as shortly as can be, is under 2^32 bytes |
| ElementRoundTrip.DescriptorOfPrint | src/codec/descriptor.rs:49-57 | The descriptor byte splits into the 5-bit type and 3-bit size index it was made of |
| ElementRoundTrip.LengthOfPrint | src/codec/element.rs:34-50 | The length field of every size form reads back as the payload length |
| ElementRoundTrip.PrintOfLength | src/codec/descriptor.rs:35-46 | A length the decoder resolves fits its size form and prints back to the bytes read |
| ElementRoundTrip.EnvelopeOfPrint | src/codec/element.rs:92-95 | Descriptor, length and payload of any element read back, whatever follows |
| ElementRoundTrip.PrintOfEnvelope | src/codec/element.rs:92-95 | Descriptor, length and payload that were read print back to the input |
| Element.DecodeElement | src/codec/element.rs:92-114 | The recursive method returns what the specification of the decoder gives |
| Element.SequenceContents | src/codec/element.rs:80-89 | The loop returns what the specification of the walk gives |
| PduHeader.HeaderOfPrint | src/codec/pdu_header.rs:16-28 | Any header printed reads back, with the bytes after it |
| PduHeader.PrintOfHeader | src/codec/pdu_header.rs:16-28 | A header that was read prints back to the input |
| Response.RawResponseOfPrint | src/codec/response.rs:45-61 | Framing recovers any header, any fragment and any token, and exactly the remainder |
| Response.PrintOfRawResponse | src/codec/response.rs:45-61 | What framing accepts is the print of what it returns |
| Response.PairingInvertsFlattening | src/codec/response.rs:69-84 | Pairing returns a list if and only if the elements are that list flattened |
| Response.PairingFailsExactly | src/codec/response.rs:72-82 | Pairing succeeds if and only if the count is even and every even position is an integer at most 65535 |
| Response.RecordsDecodeInOrder | src/codec/response.rs:92-98 | The records decode to lists if and only if there is one per record, in order, empty for a record that is no sequence |
| Response.RecordsFailExactly | src/codec/response.rs:92-99 | They fail if and only if some sequence record is badly paired |
| Response.DecodeMeans | src/codec/response.rs:89-103 | What interpretation returns, as an if and only if; no list when the outer element is no sequence |
| Response.DecodeFailsExactly | src/codec/response.rs:89-103 | Interpretation fails if and only if the bytes do not decode or a sequence record is badly paired |
| Response.DecodesRecords | src/codec/response.rs:89-103 | Records written as a sequence of flattened sequences come back unchanged |
| Extract.RecordChannelMeans | src/codec/extract.rs:18-39 | A record gives a channel if and only if it is that of the first entry of shape [UUID 3, integer at most 255] in its first attribute with id 4 |
| Extract.StackChannelMeans | src/codec/extract.rs:28-38 | The entry search returns the first matching entry, and none if and only if there is none |
| Extract.FindAttributeMeans | src/codec/extract.rs:19-22 | The attribute search returns the first attribute with the id, and none if and only if there is none |
| Extract.FirstChannelMeans | src/transport/session.rs:96-96 | The answer comes from the lowest-indexed record that has one; there is none if and only if no record has one |
| Extract.FirstRecordAnswersExactly | src/transport/session.rs:61-64 | The answer is the first record's if and only if that record has a channel or no other record has one |
| Extract.LaterRecordAnswers | src/transport/session.rs:61-64 | Records whose first has no channel and whose second answers |
| Encode.Encode | src/codec/encode.rs:60-99 | The buffers end up holding the request as data elements and fields; it fails if and only if the token is over 255 bytes, and never for the body length |
| Encode.RequestLayout | src/codec/encode.rs:60-99 | Every byte of every encoded request: `06`, transaction id, length, `35 03 19` and the UUID, the byte count, `35 05 0a` and the 32-bit range, the token length and the token |
| Encode.FirstBrowseRequest | src/codec/encode.rs:146-158 | The first browse request is the captured one |
| Encode.SecondBrowseRequest | src/codec/encode.rs:161-175 | The follow-up request that echoes the token `00 f3` is the captured one |
| Encode.RequestRoundTrip | src/codec/encode.rs:60-99 | Every field of an encoded request reads back through the client's own decoders, with a parameter length equal to the rest and nothing left over |
| Encode.RequestBytes | src/codec/encode.rs:60-99 | A request is 20 bytes and its token |
| Encode.TokenLimitExactly | src/codec/encode.rs:81-85 | A request is encoded if and only if its token is at most 255 bytes; that differs from the documented 16 exactly from 17 to 255 |
| Encode.SeventeenByteTokenSent | src/codec/encode.rs:33-37 | A request with a token of 17 bytes is encoded and reads back |
| Encode.EncodeInjective | src/codec/encode.rs:60-99 | Different requests have different encodings |
| Encode.PatternDecodes | src/codec/encode.rs:63-68 | The search pattern decodes to a sequence of the one UUID |
| Encode.AttributeIdsDecode | src/codec/encode.rs:73-78 | The attribute id list decodes to a sequence of the one 32-bit range |
| Encode.PatternBytes | src/codec/encode.rs:65-68 | The hand-written pattern bytes are that well-formed element |
| Encode.AttributeIdBytes | src/codec/encode.rs:75-78 | The hand-written id list bytes are that well-formed element |
| Socket.SendAndReceivePdu | src/transport/socket.rs:40-68 | However the bytes arrive in chunks, the result and the stream left are those of the exchange on the concatenated bytes |
| Socket.Stream.ReadExact | src/transport/socket.rs:50-53 | The buffer is filled exactly, or the error is the end of the stream or the break |
| Socket.ReadTakes | src/transport/socket.rs:50-53 | A read that works takes exactly its bytes, or all there are and fails; one that breaks has taken what it moved, fewer than it was to take, and loses no others |
| Socket.ExchangeTakesOnePdu | src/transport/socket.rs:44-67 | A successful exchange sends the request whole, returns one whole PDU, consumes exactly it, and every operation it took worked |
| Socket.ExchangeReadsPdu | src/transport/socket.rs:49-67 | Where the operations it takes work, an exchange reads a PDU whole, whatever follows |
| Socket.ExchangeFailsExactly | src/transport/socket.rs:44-62 | An exchange fails with an error and leaves a stream if and only if the first of its operations with a break in store has that error, or none has one, the stream ends inside the PDU and the error is `Io`. A broken write leaves the bytes to read untouched and has sent what it moved, never all; a broken header read has taken what it moved of at most four bytes; a broken body read the header and what it moved of all but the last body byte; an ended stream has nothing left |
| Socket.StoredBreakFails | src/transport/socket.rs:44-62 | Where outcome k of the list is a break, those before it work, and the exchange takes more than k operations, it fails with that error and leaves what operation k left |
| Socket.EndFails | src/transport/socket.rs:49-62 | Where the operations it takes work and the stream ends inside the PDU, an exchange fails with `Io`, its request sent and nothing left to read |
| Socket.ExchangeHitsEnd | src/transport/socket.rs:49-62 | A stream that ends inside a PDU gives an input/output error and leaves nothing to read |
| Socket.ExchangeFails | src/transport/socket.rs:44-62 | A failed exchange has sent one part of the request and nothing else: all of it if the write worked, else as many bytes as the write moved, never all |
| Socket.ExchangeFailureHasCause | src/transport/socket.rs:44-62 | The error of a failed exchange is that of an operation in store that breaks, or it is `Io` and the stream ends inside the PDU that was due |
| Socket.PdusAreFramed | src/transport/socket.rs:40-68 | m exchanges on concatenated PDUs, with any requests, empty ones among them, return exactly the first m and consume nothing of the next |

## Left out

- Connection set-up, address parsing, the retry loop and the runtime (src/transport/live.rs, src/transport/connect.rs, src/public.rs): foreign calls, or properties that are shallow beside these.
- Element.DecodeElement: does not model the native stack. Nesting depth is bounded only by the bytes consumed, so input nested deeply enough can abort the real decoder where the model returns a value.
- Wall-clock time: an operation works or breaks; when it breaks with a timeout is an input of the model.
- Parser error kinds and error texts: every rejection is one value.
- The buffers of the encoder and of the reassembled bytes are local sequences that the methods extend, so buffer capacity and reallocation are not captured.
- Socket.Stream.ReadExact: on failure the contents of the buffer are not stated, because the caller drops it.
- Session.FindRfcommChannel: a `usize` of at least 32 bits is taken for granted, because lengths are unbounded naturals here.
