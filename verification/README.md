# A Dafny model of uvio

uvio is a C++20 coroutine library over libuv. This project models the parts of it that compute something:
buffered byte streams, the framing codecs on top of them, the latch, base64, the HTTP text parsers, the
ownership of coroutine frames by `Task`, and the timestamp cache of the logger. Nothing was executed.
To verify: `dafny verify dfyconfig.toml`.

## How the pieces fit

* **Streams.** `Tcp.Source` and `Tcp.Sink` stand for libuv, the socket and the peer. They are adversaries: how
  a stream is cut into reads, which reads come back empty (finitely many, `idle`), and when a connection
  fails (`faulty`) are free choices. A failed write may have sent any prefix. `Buffer.StreamBuffer`,
  `BufReader.BufReader` and `BufWriter.BufWriter` are the C++ classes. A reader is understood through
  `Pending`, all it will ever yield; a writer through `Written`, all it has accepted.
  `ReaderRuns` has theorems about whole runs of a reader: conservation for any calls with any outcome,
  independence of the chunking, and the sections that `read_until` cuts a text into. `WriterRuns` has the
  counterpart for any writes and flushes.
* **Codecs.** `Framing`, `Varint` and `WsFormat` define the wire formats and their parsers as functions on
  byte sequences and prove them inverse to each other; `Codecs` and `WebSocket` are the methods that write and
  read them, each proved to do to a stream what the functions say. `Channel.Exchange` is the end-to-end theorem
  for both length-prefixed codecs, `WebSocket.Talk` the one for WebSocket frames.
* **Latch.** `LatchSteps` interleaves the atomic steps of any number of waiters and `count_down` calls;
  `LatchLoop` is the class on one event loop, where a wait or a notification runs without interruption.
* **Text.** `Base64` and `Http`: the loops of the source, proved equal to functions, and round trips.
* **Task and log.** `TaskFrames` is a machine of coroutine frames, Task objects and a stack of resumes. A step is
  `Enabled` when scopes, compiler and asserts let a program take it, and `Defined` when C++ gives it a meaning;
  `Timestamp` is the cached buffer.
* **Examples.** Known values of the formats, from the RFCs and the code.

A byte is a `bv8`; words are bit-vectors where the source shifts and masks them. Numbers become words and
back by their bytes (`Endian.BytesOf`, `Endian.NatOf`). `Varint.Up(x, i)` is `x << (i * 7)`, seven bits at a
time. The host is little-endian, `char` is signed, `int` has 32 bits and `size_t` 64.

A read is modelled as handing over the bytes that libuv would have put at the front of the span; the
destination spans of the callers are arrays and `Common.Splice` says which part of one was overwritten.

## Where the code does not do what one might expect

The members named state each of these for all inputs, with the exact condition.

* `BufWriter::write` compares lengths as `int`. A successful write keeps all its bytes exactly when the length is at
  most 2147483647 (`BufWriter.KeptAllIff`, `Codecs.Encode`; `BufWriter.FirstLostWrite` for the first one that is not
  kept). Its returned count includes earlier buffered bytes when these had to be sent first
  (`BufWriter.BufWriter.Write`).
* `BufReader::read` with a request larger than the buffer hands out the buffered bytes even when it then reports
  an error (`BufReader.BufReader.Read`); `read_exact` of at most the capacity consumes nothing when it fails.
* The flag search of `read_until` is a C-string scan past the write position. One look takes a flag exactly when the
  scan ends within the vector and the flag is held in front of the first NUL, stale bytes behind the held ones or
  not (`Search.FlagSliceIff`). On a buffer that nothing was written behind, if what comes before the stream's first
  NUL fits with a byte to spare, `read_until` succeeds only when the flag is there and, if the source does not fail,
  whenever it is, for every chunking (`BufReader.BufReader.ReadUntil`). Otherwise it depends on the chunking: either
  the flag is found in time or the buffer fills up without a NUL and the scan leaves the vector (`Overrun`). A flag
  that is there and is missed: `Search.BehindNul`, `Search.FullBuffer`; a slice longer than what is held:
  `Search.StaleFlag`.
* A WebSocket payload of n bytes decodes to itself exactly when n < 32768, n >= 65536 or n mod 256 = 255
  (`WsFormat.WsRoundTrip`); section 5.2 of RFC 6455 means every n. The shortest payload that does not is one of 32768
  bytes, which is taken for one of 33023 (`WsFormat.FirstLostLength`). The encoder is right for every n. A client
  masks the caller's own bytes (`WebSocket.WebsocketCodec.Encode`).
* The WebSocket decoder never notices the end of its stream behind the first two bytes
  (`WsFormat.TruncationUnnoticed`): the missing bytes of a frame cut within its body decode to the masking key over
  and over, or to zeros (`WsFormat.CutBody`).
* A printed header block parses to what was printed exactly when no key has a colon, CR or LF, no value has a CR or
  LF, and all of them are trimmed (`Http.HeadersRoundTripIff`; `Http.ColonInKey` for one that does not). The same
  condition is exact when order does not count (`Http.HeadersMultisetIff`).
* Base64 encodes everything; the decoder gets it back exactly when the text has at most 2147483647 characters
  (`Base64.RoundTripIff`).
* A latch awaiter that is pushed before the notifier loads the list, but sees zero when it looks again, goes on
  twice: by itself and by being resumed (`LatchSteps.WentOnOnceIff`, `LatchSteps.TwiceIsPossible`).
* Move-assigning onto another `Task` that still holds a frame leaks exactly that frame: a complete run destroys
  every frame once if and only if it has no such assignment (`TaskFrames.DestroyedOnceIff`, `TaskFrames.NoLeakIff`,
  and `TaskFrames.LeakIsPossible` for a run that leaks).
* A Task that was awaited to its end still holds its frame, and `take()` hands it out for a second resume. This is
  the only undefined step (`TaskFrames.SafeIff`, `TaskFrames.FinishedCanBeTaken`).
* Until the logger has been called outside the first second of the epoch its stamps have no date
  (`Timestamp.Clock.GetTimestamp`, `Timestamp.Run`). Years are cut to four digits: what is printed is the year
  exactly up to 9999 (`Timestamp.ReadBackIff`).

## Model

| member | source | states |
|---|---|---|
| Buffer.StreamBuffer.WriteTo | uvio/io/buffer.hpp:66-75 | hands out the first min(held, asked) bytes into the span, touches nothing else of it, keeps the rest, and rewinds both positions when nothing is left |
| Buffer.StreamBuffer.ReadFrom | uvio/io/buffer.hpp:77-83 | appends as much of the input as fits behind the write position |
| Buffer.StreamBuffer.ResetData | uvio/io/buffer.hpp:123-128 | compaction keeps the held bytes and their order and moves them to the front |
| Search.FlagSliceSound | uvio/io/buffer.hpp:85-100 | whatever stale bytes lie behind the held ones, a slice within the held bytes is the shortest prefix of the stream ending in the flag |
| Search.FlagSliceIff | uvio/io/buffer.hpp:85-100 | on any buffer one look yields a slice of held bytes exactly when the scan ends and the flag is held before the first NUL, a slice beyond them exactly when only stale bytes complete the flag, and leaves the vector exactly when no NUL follows |
| Search.BehindNul | uvio/io/buffer.hpp:91 | a flag behind a NUL is held and not seen |
| Search.FullBuffer | uvio/io/buffer.hpp:91 | on a full buffer without NUL the scan leaves the vector although the flag is there |
| Search.StaleFlag | uvio/io/buffer.hpp:91-97 | stale bytes can complete a flag that is not held |
| Tcp.Source.Read | uvio/net/tcp_stream.hpp:71-144 | the next bytes of the peer's stream, any number up to the room offered, or none, or an error that consumes nothing |
| Tcp.Source.ReadExact | uvio/net/tcp_stream.hpp:147-161 | fills the span with the next bytes of the stream in order; on an error a prefix of it; reliable sources succeed exactly when enough is left |
| Tcp.Sink.Write | uvio/net/tcp_stream.hpp:164-222 | all of the message and its length, or an error after some prefix; an empty message is an error |
| BufReader.BufReader.Receive | uvio/io/impl/buf_reader.hpp:41-45 | a read into the free part of the buffer, all of which is offered, keeps what is pending, byte for byte |
| BufReader.BufReader.AwaitExact | uvio/io/impl/buf_reader.hpp:77-95 | the refill loop ends for every source with finitely many empty reads, never offers an empty slice, reads only while too little is held, and keeps everything pending on success and failure |
| BufReader.BufReader.Read | uvio/io/impl/buf_reader.hpp:13-53 | what is handed out and what stays pending are together what was pending; at most the request, and less of a request that fits only when the buffer has been drained; served from the buffer without a read when it holds anything and the request fits, else with one read; zero only after an empty read |
| BufReader.BufReader.ReadExact | uvio/io/impl/buf_reader.hpp:56-96 | hands out exactly the next bytes or fails; a failing request that fits the buffer consumes nothing; succeeds exactly when enough is pending if the source serves such requests, and without a read when enough is held; what is held afterwards came with the last read |
| BufReader.BufReader.TakeFlagged | uvio/io/impl/buf_reader.hpp:103-111 | one look at any buffer, stale bytes included, takes the shortest prefix ending in the flag, nothing, or ends in one of two undefined ways, each exactly under its own condition |
| BufReader.BufReader.ReadUntil | uvio/io/impl/buf_reader.hpp:99-130 | a success appends exactly the shortest prefix of the pending stream ending in the flag; a failure consumes nothing; with zeros behind the write position and room for what precedes the first NUL, it succeeds only when the flag occurs there and, from a source that does not fail, exactly then, for every chunking, and else reports the end of the stream or the full buffer |
| ReaderRuns.Run | uvio/io/impl/buf_reader.hpp:13-130 | over any sequence of read, read_exact and read_until with any outcomes the pieces handed out followed by the rest are the stream, and each call does what its kind demands of what the buffer holds |
| ReaderRuns.TraceConserves | uvio/io/impl/buf_reader.hpp:13-130 | a run in which each call takes a first part of what is left loses, repeats and reorders nothing |
| ReaderRuns.RunExact | uvio/io/impl/buf_reader.hpp:56-96 | the results of successful exact reads are the consecutive cuts of the stream, whatever the chunking and the buffer size |
| ReaderRuns.ReadSections | uvio/io/impl/buf_reader.hpp:99-130 | a fresh reader used only through read_until cuts what precedes the first NUL of any text that fits it into its sections, then reports the end, with the rest not consumed |
| ReaderRuns.SectionsUnique | uvio/io/impl/buf_reader.hpp:99-130 | there is only one way to cut a text into sections |
| BufWriter.KeptAllIff | uvio/io/impl/buf_writer.hpp:15-18 | a successful write keeps every byte exactly when its length survives the cast to int |
| BufWriter.BuffersIff | uvio/io/impl/buf_writer.hpp:15-18 | a write is buffered exactly when it fits or its length becomes negative in the cast |
| BufWriter.FirstLostWrite | uvio/io/impl/buf_writer.hpp:15-18 | of one byte more than an int counts, only what fits the buffer is kept |
| BufWriter.BufWriter.Write | uvio/io/impl/buf_writer.hpp:13-48 | sent and buffered bytes grow by exactly the kept part of the input; the branch taken and the messages the sink gets; the returned count; on errors what was sent is a prefix of what was written, and the buffer is as it was or sent and empty |
| BufWriter.BufWriter.Flush | uvio/io/impl/buf_writer.hpp:51-64 | everything written has been sent, in one message, the buffer is empty and rewound; on an error the buffer is as it was |
| BufWriter.BufWriter.WriteAll | uvio/io/impl/buf_writer.hpp:67-75 | write then flush |
| WriterRuns.Run | uvio/io/impl/buf_writer.hpp:13-64 | over any writes and flushes up to the first error, sent and buffered bytes are everything written, in order; no write is split between the two; a flush leaves nothing buffered; no empty write reaches the sink; on an error the peer has a prefix |
| Endian.SwapsCancel | uvio/net/endian.hpp:45-62 | ntoh undoes hton for 16, 32 and 64 bits |
| Endian.SwapReverses | uvio/net/endian.hpp:22-38 | a swap reverses the bytes of a word, so that hton puts the most significant byte first in memory |
| Endian.WordValue64 | uvio/codec/length_delimited.hpp:53 | a size fits a 64-bit word and comes back from it |
| Endian.BigEndian32 | uvio/codec/fixed_length.hpp:55-62 | hton32 followed by low-byte-first writing is network byte order, and reading undoes it |
| Varint.AtMostTen | uvio/codec/length_delimited.hpp:69-70 | a varint has one to ten bytes |
| Varint.DecodeEncode | uvio/codec/length_delimited.hpp:67-105 | decode_length after encode_length returns every 64-bit value and stops at its last byte, the tenth byte included |
| Varint.PrefixFree | uvio/codec/length_delimited.hpp:88-105 | no varint is a prefix of another one |
| Varint.DecodeExtends | uvio/codec/length_delimited.hpp:67-86 | what was decoded, or found malformed, does not change when more bytes follow |
| Varint.HighBits | uvio/codec/length_delimited.hpp:88-105 | the high bit is set on every byte of a varint but the last |
| Varint.DecodeMeaning | uvio/codec/length_delimited.hpp:67-86 | on any bytes: the low seven bits of each up to the first with a clear high bit, if that is among the first ten; else too short or too long |
| Varint.UpIsShift | uvio/codec/length_delimited.hpp:79-80 | the shift of round i is by i * 7 bits, for all ten rounds |
| Framing.ParseOfFrame | uvio/codec/length_delimited.hpp:10-64 | decoding a frame gives its message and leaves exactly what follows, for both length formats |
| Framing.ParseExtends | uvio/codec/length_delimited.hpp:10-34 | a decoded frame does not depend on what follows it |
| Framing.FirstMessage | uvio/codec/length_delimited.hpp:10-64 | what is decoded from a possibly cut wire of frames is the first of its messages |
| Framing.FramesInjective | uvio/codec/length_delimited.hpp:36-64 | two lists of messages with the same bytes on the wire are equal |
| Codecs.EncodeVarint | uvio/codec/length_delimited.hpp:88-105 | writes the varint of the swapped length, byte by byte, behind everything written before |
| Codecs.DecodeVarint | uvio/codec/length_delimited.hpp:67-86 | returns what the varint format says about the pending stream, consumes no byte more; from a source that serves single bytes it succeeds exactly when a varint is there, and tells the end of the stream, with nothing left, from an overlong varint, ten bytes of which are consumed |
| Codecs.EncodeFixed32 | uvio/codec/fixed_length.hpp:59-71 | writes the four bytes of the swapped length, lowest first |
| Codecs.DecodeFixed32 | uvio/codec/fixed_length.hpp:44-57 | gathers the next four bytes into the word they are and swaps it; from a source that serves single bytes it fails exactly when there are fewer, and then consumes them |
| Codecs.DecodeLength | uvio/codec/fixed_length.hpp:44-57 | either decoder returns the length that the wire format gives; what is pending after an error |
| Codecs.Encode | uvio/codec/length_delimited.hpp:36-64 | after a success the whole frame has been sent, behind everything written before and with nothing buffered, exactly when the message is no longer than an int counts; on errors only a prefix of the frame has left |
| Codecs.Decode | uvio/codec/length_delimited.hpp:10-34 | a success is what the wire format says about the pending stream and consumes exactly the frame; a complete frame is decoded when the source serves it; an error leaves an end of the stream, the one behind the header if the message could have been buffered |
| Channel.Channel.Send | examples/tcp_channel.hpp:27-29 | the frame of the message is sent behind what was written before |
| Channel.Channel.Recv | examples/tcp_channel.hpp:32-44 | the next frame's message, for any chunking; a failure has consumed a first part of the stream |
| Channel.Exchange | examples/tcp_channel.hpp:17-59 | for any messages up to INT_MAX bytes, both codecs, any buffer sizes, chunking, empty reads and failures: what arrives is a prefix of what was sent; all of it and nothing left over if nothing fails; in any case the received frames come first on the wire and what is left over is an end of what followed |
| Masking.ApplyMask | uvio/codec/websocket.hpp:110-130 | byte i becomes byte i XOR key[i mod 4], in place, for every payload below 2^32 bytes |
| Masking.MaskedTwice | uvio/codec/websocket.hpp:110-130 | masking twice with the same key restores the payload |
| WsFormat.LengthBits | uvio/codec/websocket.hpp:32-33 | with a signed char the low byte of a 16-bit length survives exactly when the high byte is below 128, and is 255 otherwise |
| WsFormat.HeaderBits | uvio/codec/websocket.hpp:64-91 | the first byte carries FIN and the opcode, the second the mask bit exactly for a client, and the length, 126 or 127 |
| WsFormat.HeaderLengthField | uvio/codec/websocket.hpp:72-91 | a longer length stands behind them in network byte order |
| WsFormat.DecoderBits | uvio/codec/websocket.hpp:19-30 | which bits of the first two bytes the decoder looks at |
| WsFormat.AcceptedIff | uvio/codec/websocket.hpp:20-25 | exactly FIN with TEXT is accepted, whatever the reserved bits |
| WsFormat.ParseLengthOfHeader | uvio/codec/websocket.hpp:19-46 | what the decoder takes the length of a frame of n bytes to be, for every n |
| WsFormat.WsRoundTrip | uvio/codec/websocket.hpp:12-104 | a frame of RFC 6455, masked with any key or not, decodes to its payload and leaves what follows exactly when n < 32768, n >= 65536 or n mod 256 = 255 |
| WsFormat.FirstLostLength | uvio/codec/websocket.hpp:32-33 | 32768 is the least length that is decoded as another one |
| WsFormat.LooseIsStrict | uvio/codec/websocket.hpp:12-59 | on complete frames the decoder that drops the results of its reads does what the format says |
| WsFormat.TruncationUnnoticed | uvio/codec/websocket.hpp:19-46 | a stream that ends too early is never an error for the decoder once the first two bytes have come |
| WsFormat.CutLength | uvio/codec/websocket.hpp:31-46 | a frame cut within its length field is taken to be as long as its own first two bytes say, or empty |
| WsFormat.CutKey | uvio/codec/websocket.hpp:49-57 | a frame cut within its key is decoded as if it had no mask |
| WsFormat.CutBody | uvio/codec/websocket.hpp:49-57 | a frame cut within its body decodes without an error: a body that fits the buffer stays in the stream, a larger one begins the payload, and the rest of the payload is the masking key over and over, or zeros |
| WebSocket.WebsocketCodec.BuildHeader | uvio/codec/websocket.hpp:64-91 | the header array holds what section 5.2 of RFC 6455 prescribes |
| WebSocket.WebsocketCodec.Encode | uvio/codec/websocket.hpp:61-104 | to a sink that does not fail one RFC 6455 frame is sent, whole exactly when the message is no longer than an int counts, and a prefix of it otherwise; a client's message is masked in the caller's memory |
| WebSocket.WebsocketCodec.ReadLength | uvio/codec/websocket.hpp:16-46 | without a failed read the length is the one the format gives, and FIN and TEXT have been asserted; from a source that does not fail, reads at the end of the stream included, it is what the stale bytes give |
| WebSocket.WebsocketCodec.Decode | uvio/codec/websocket.hpp:12-59 | without a failed read the payload is the one the format gives and nothing more is consumed; on any stream of a source that does not fail, wherever it ends, the exact result; a failed read is never reported |
| WebSocket.Talk | uvio/codec/websocket.hpp:12-104 | any text messages of surviving lengths, in either direction, any buffer sizes and chunking, and empty reads if the messages fit the read buffer, arrive as they were with nothing left over |
| LatchSteps.InvStep | uvio/sync/latch.hpp:20-80 | every atomic step of every thread keeps the invariant, among it that the next_ chain is the push history backwards |
| LatchSteps.InvReachable | uvio/sync/latch.hpp:20-80 | the invariant holds in every reachable state of any run |
| LatchSteps.NoEarlyPass | uvio/sync/latch.hpp:20-34 | nobody goes on, resumed or not, before the count is zero |
| LatchSteps.OneNotifier | uvio/sync/latch.hpp:50-55 | at most one count_down ever notifies |
| LatchSteps.CountLaw | uvio/sync/latch.hpp:50-55 | no step but a subtraction changes the count, and that one by its update |
| LatchSteps.CountIs | uvio/sync/latch.hpp:50-55 | in every reachable state the count is what was expected less the updates of the calls that have run |
| LatchSteps.EveryoneWakes | uvio/sync/latch.hpp:24-80 | when all calls have returned, every suspended awaiter has been resumed once if the updates sum to what was expected, and never if to less |
| LatchSteps.LooksDecide | uvio/sync/latch.hpp:20-55 | the ready check, the second look and the subtraction decide by the count being zero, both ways |
| LatchSteps.NoLostWakeup | uvio/sync/latch.hpp:24-80 | once the count is zero and notifying has ended, every awaiter that suspended has been resumed exactly once |
| LatchSteps.AtMostOneResume | uvio/sync/latch.hpp:74-80 | nobody is ever resumed twice |
| LatchSteps.WentOnOnceIff | uvio/sync/latch.hpp:24-34 | in the end every awaiter has gone on once, except exactly those pushed before the list was loaded that saw zero in their second look, which go on twice |
| LatchSteps.TwiceIsPossible | uvio/sync/latch.hpp:24-34 | a run in which an awaiter goes on twice |
| LatchSteps.ListBound | uvio/sync/latch.hpp:27-32 | the list repeats nobody, hence is no longer than there are awaiters |
| LatchSteps.RankDrops | uvio/sync/latch.hpp:50-80 | every step of a count_down call brings it nearer to its end and no other step takes it farther away |
| LatchSteps.NotifyingEnds | uvio/sync/latch.hpp:74-80 | a count_down call takes at most two steps per awaiter and three more in any run |
| LatchSteps.NeverStuck | uvio/sync/latch.hpp:50-80 | until it has returned, a count_down call can always take its next step |
| LatchSteps.WaitRankDrops | uvio/sync/latch.hpp:20-34 | every step of a wait brings it nearer to its end, unless the exchange fails spuriously; a failed exchange has reloaded the head |
| LatchSteps.WaitNeverStuck | uvio/sync/latch.hpp:20-34 | until it has suspended or gone on, a wait can always take its next step |
| LatchLoop.Latch.Wait | uvio/sync/latch.hpp:20-34 | on one loop a wait suspends exactly when the count is not zero, and then it is the new head of the chain |
| LatchLoop.Latch.CountDown | uvio/sync/latch.hpp:50-55 | exactly the call that brings the count to zero notifies |
| LatchLoop.Latch.NotifyAll | uvio/sync/latch.hpp:74-80 | every pushed awaiter is resumed exactly once, newest first, even when resumed code waits again |
| LatchLoop.Run | uvio/sync/latch.hpp:50-80 | over any waits and count_downs: who suspends, who is woken and in which order, and that one call notifies |
| Base64.PackIsGroup | uvio/common/base64.hpp:91-94 | the masks and shifts give the 24 bits of three octets as four groups of six |
| Base64.CharIsTable | uvio/common/base64.hpp:183-184 | the alphabet is Table 1 of RFC 4648, character by character |
| Base64.AlphabetIff | uvio/common/base64.hpp:178-180 | the decoder accepts exactly the characters of the table |
| Base64.PackBits | uvio/common/base64.hpp:145-147 | the decoder's shifts undo the encoder's |
| Base64.FindChar | uvio/common/base64.hpp:141-143 | looking up an alphabet character gives its index back |
| Base64.RoundTrip | uvio/common/base64.hpp:80-175 | decode undoes encode on every byte string; length and padding are those of section 4 of RFC 4648 |
| Base64.RoundTripIff | uvio/common/base64.hpp:125-135 | with the int counter of the decoder the round trip holds exactly when the text has at most INT_MAX characters |
| Common.ToIntIs | uvio/common/base64.hpp:126 | the cast to int is the one congruent number in its range |
| Base64.DecodedCount | uvio/common/base64.hpp:131-172 | four characters give three octets; of n left-over ones come n - 1 |
| Base64.Encode | uvio/common/base64.hpp:80-123 | the loop computes the encoding of section 4 of RFC 4648 |
| Base64.Decode | uvio/common/base64.hpp:125-175 | the loop decodes the longest run of alphabet characters of any text, as far as its int counter lets it, and overflows exactly when the counter starts negative and the run is too long; of n left-over characters come n - 1 octets |
| Base64.DecodeTail | uvio/common/base64.hpp:156-172 | the slots filled with NUL become -1 and never reach the output |
| Http.ParseLine | uvio/codec/http.hpp:183-259 | succeeds with (a, b, c) exactly when the line is a, space, b, space, c, then CR or LF and anything, with a and b free of spaces and c free of CR and LF |
| Http.LineUnique | uvio/codec/http.hpp:183-259 | a line has at most one such reading |
| Http.ReadBack | uvio/codec/http.hpp:131-133 | the printed request line parses to method, uri and HTTP/1.1 exactly when neither field has a space |
| Http.Trim | uvio/codec/http.hpp:261-273 | the white space is removed from both ends |
| Http.TrimmedIsTrimmed | uvio/codec/http.hpp:261-273 | a trimmed string neither begins nor ends with white space, and trimming changes nothing that does not |
| Http.TrimmedSpan | uvio/codec/http.hpp:261-273 | what is left is one piece of the string, and only white space is removed around it |
| Http.SpacesAre | uvio/codec/http.hpp:265-270 | white space is what isspace takes for it in the C locale |
| Http.ParsePair | uvio/codec/http.hpp:285-293 | the pair of a line, the colon search running on past its end included |
| Http.FirstHeaderIs | uvio/codec/http.hpp:285-293 | for any text: the trimmed part before the first colon, and the trimmed part behind it up to the end of the line, or of the text if the line has no colon |
| Http.LineMeaning | uvio/codec/http.hpp:285-293 | a line with a colon gives its trimmed key and value, with or without spaces around them |
| Http.BlockMeaning | uvio/codec/http.hpp:275-310 | a block of such lines, with any line ends between them, gives their pairs in order |
| Http.ParseHeaders | uvio/codec/http.hpp:275-310 | for any text the loops end and add, in order, the pairs that the line-by-line function gives |
| Http.HeadersRoundTrip | uvio/codec/http.hpp:134-137 | parsing a printed header block gives the headers back in the order of printing |
| Http.HeadersRoundTripIff | uvio/codec/http.hpp:134-137 | a printed block parses to what was printed if and only if keys have no colon, CR or LF, values no CR or LF, and both are trimmed |
| Http.AllParsable | uvio/codec/http.hpp:275-310 | whatever the text, the parsed keys have no colon, and keys and values are trimmed |
| Http.HeadersMultiset | uvio/codec/http.hpp:134-137 | in whatever order the container is printed, the same multiset of headers comes back |
| Http.HeadersMultisetIff | uvio/codec/http.hpp:134-137 | the multiset of parsed headers is the one that was printed if and only if every header is printable |
| Http.Counted | uvio/codec/http.hpp:275-310 | of headers with trimmed colon-free keys and trimmed values at least as many come back as were printed, and if no more, all but the last unchanged |
| Http.ColonInKey | uvio/codec/http.hpp:286-289 | a header with a colon in its key does not come back |
| TaskFrames.InvStep | uvio/coroutine/task.hpp:14-150 | every step keeps the ownership invariant: a frame that is not executing is held, dropped or destroyed, exactly one of these |
| TaskFrames.HeldIsIdle | uvio/coroutine/task.hpp:91-95 | what a context's own Tasks hold is suspended at its start or its end |
| TaskFrames.FrameLaw | uvio/coroutine/task.hpp:16-146 | what becomes of each frame in a step: who runs, who waits for what, who is destroyed, who learns its caller |
| TaskFrames.ControlLaw | uvio/coroutine/task.hpp:16-31 | co_await and completion hand control over, take() and foreign awaiters get it back |
| TaskFrames.HandleLaw | uvio/coroutine/task.hpp:87-146 | what each Task holds after a step; a new one lives in the running context |
| TaskFrames.CreateLaw | uvio/coroutine/task.hpp:37-39 | a coroutine that is called waits at its start, with no caller |
| TaskFrames.SafeIff | uvio/coroutine/task.hpp:16-146 | every step of a program whose contexts use the Tasks of their own scopes resumes only suspended, unfinished, living frames and destroys only suspended, living ones, except exactly take() and resume of a Task that was awaited to its end |
| TaskFrames.FinishedCanBeTaken | uvio/coroutine/task.hpp:139-146 | a run that gets there |
| TaskFrames.DestroyedAtMostOnce | uvio/coroutine/task.hpp:91-95 | no frame is destroyed twice |
| TaskFrames.ReturnsToCaller | uvio/coroutine/task.hpp:16-31 | completion resumes the recorded caller, which awaits this frame; a detached frame is destroyed and control goes back to its resumer |
| TaskFrames.DestroyedOnceIff | uvio/coroutine/task.hpp:91-146 | at the end of a complete run every frame has been destroyed once, except exactly those that a move assignment of the run found in its target |
| TaskFrames.NoLeakIff | uvio/coroutine/task.hpp:101-107 | a complete run destroys every frame exactly once if and only if each of its move assignments was onto an empty Task or itself |
| TaskFrames.LeakIsPossible | uvio/coroutine/task.hpp:101-107 | a complete run that never destroys one of its two frames |
| Timestamp.ToInt | uvio/log.hpp:109-122 | the digits and the separator are written in front of the given position and nothing else changes |
| Timestamp.Clock.GetTimestamp | uvio/log.hpp:124-155 | the buffer is the full rendering of the time exactly when the date has been written before or this second is not the first of the epoch |
| Timestamp.Run | uvio/log.hpp:124-155 | for any sequence of times a stamp is the full rendering of its own time exactly when the clock has by then been asked outside the first second of the epoch |
| Timestamp.ReadBackIff | uvio/log.hpp:109-117 | n digits say the number exactly when it has no more than n digits, the year up to 9999 |
| Timestamp.StampLayout | uvio/log.hpp:143-153 | each field of the date and the time stands in its place, separated as shown |
| Timestamp.RenderIs | uvio/log.hpp:128-135 | a time is rendered as its second in local time and its milliseconds |
| Examples.StampVector | uvio/log.hpp:143-153 | one stamp in full |
| Examples.Base64Vectors | uvio/common/base64.hpp:80-123 | the first three test vectors of section 10 of RFC 4648 that are not empty |
| Examples.WebSocketVectors | uvio/codec/websocket.hpp:61-104 | the unmasked and the masked "Hello" of section 5.7 of RFC 6455 |
| Examples.LongHeaders | uvio/codec/websocket.hpp:72-91 | the headers for 256 and for 65536 bytes |
| Examples.LengthFields | uvio/codec/length_delimited.hpp:88-105 | both length fields for five bytes |
| Examples.VarintVector | uvio/codec/length_delimited.hpp:88-105 | the varint of 300 |
| Examples.HostOrder | uvio/net/endian.hpp:22-38 | a word on a little-endian host, and swapped |
| Examples.HeaderVector | uvio/codec/http.hpp:285-293 | a header without a space behind its colon |

## Left out

- libuv, sockets, timers, DNS, the work queue, the runtime loop and curl: replaced by the abstract source and sink.
- Allocation: `resize` to a decoded length always succeeds in the model.
- The span libuv fills: a read returns the bytes it would have put there, and `StreamBuffer` keeps its vector in a
  sequence field, so that aliasing between a caller's span and the buffer is not expressed.
- BufReader.BufReader.ReadUntil: with stale bytes behind the write position, as after `read_exact` on the same
  reader, what the whole call promises is its soundness; what each look does is exact
  (`BufReader.BufReader.TakeFlagged`), but how often there is a look depends on the chunking.
- HTTP decoding over a stream, which mixes `read_until` and `read_exact`, and HTTP bodies: the HTTP properties are
  about strings; `Content-Length` is looked up in a header object that has been moved from.
- WebSocket.WebsocketCodec.Encode: about the wire of a failing sink it states only that what was sent before stays,
  because the results of the writes are dropped and later writes go on behind a gap; a client's message of 2^32
  bytes or more, which `apply_mask` never finishes, is not modelled.
- WebSocket.WebsocketCodec.ReadLength: from a source that fails, or comes back empty, in the middle of a stream it
  states nothing about the length after a failed read.
- WebSocket.WebsocketCodec.Decode: from a source that fails, or comes back empty, in the middle of a stream it
  states nothing about the payload after a failed read, whose result the code drops; nor about lengths from 2^32 on
  from a truncated stream.
- WebSocket control frames and fragmentation: the decoder asserts FIN and TEXT; failed assertions end the model's
  run as `Aborted`, as in a build with assertions.
- Latch: weak memory orderings, and the lifetime of an awaiter whose `next_` is read after its resume; nodes outlive
  the walk. `LatchSteps` and `TaskFrames` are machines over values, one step per atomic operation or statement,
  instead of classes.
- TaskFrames: a context uses only Tasks of its own scope; Tasks passed by reference, moved into a coroutine's
  parameters or stored in longer-lived objects are not expressed, nor are values returned by coroutines.
- Base64: the OpenSSL variant and hashes.
- Http.ParseHeaders: a `size_t` counts the text, so it is shorter than 2^64. Case-insensitive lookup, regex routing
  and the SOCKS5 example.
- Log levels and colours, error messages, `reunite`, the vendored `backward.hpp` and `expected.hpp`: easy members or
  foreign code.
