# uproxy, modelled and proved in Dafny

`uproxy` is a reverse proxy written in C++20. This project models the cores that sit below its sockets and proves what they
promise:

- the **ring buffer** every component reads from and writes to (`Buffer`),
- the **HPACK codec** of RFC 7541: prefix integers, Huffman and raw strings, the decoding trie, the evicting dynamic table and
  the encoder and decoder around them (`HuffmanTable`, `HuffmanCode`, `HuffmanTrie`, `Huffman`, `HpackInt`, `HpackString`,
  `HpackStatic`, `HpackTable`, `Hpack`, `HpackPeer`, `HpackStandard`, `HpackCodec`),
- the **HTTP/2 connection** of RFC 7540: frames, the stream state machine, control replies and response framing (`H2Frame`,
  `H2Writer`, `H2Machine`, `H2Fragmentation`, `H2Safety`, `H2Streams`, `H2Runs`, `H2Headers`, `H2Refusals`, `H2Response`,
  `H2Wire`, `H2Conn`),
- the **weighted round robin** balancer (`LoadBalancer`, `LoadBalancerBounds`),
- the **upstream connection pool** as interleaved lock sections (`UpstreamPool`, `UpstreamRuns`),
- the **HTTP/1.1 parser and serializer** of RFC 9112 and the way requests are taken off one connection, or made from an HTTP/2
  stream, and sent on (`Http1Text`, `Http1`, `Http1Framing`, `Http1Forwarding`, `Http1Grammar`, `Http1Codec`, `Http1Messages`,
  `H2Requests`).

`Bytes` and `Bits` hold what they share. Each component has three layers: functions that say what an operation computes, classes
and methods with the loops and in-place updates of the source, each proved against those functions, and theorems about the
functions. `dafny verify dfyconfig.toml` checks everything.

The main results:

- For every sequence of header lists in the decoder's domain an encoder and a decoder that start alike stay alike, block after
  block, and the decoder returns what was sent (`Hpack.BlocksRoundTrip`). A single list is read back, by a decoder with any table,
  if and only if it is in that domain, and up to its first unreadable header otherwise (`Hpack.BlockRoundTrip`).
- A header block of any peer, mixing indexed fields, literals with a name index and spelled literals in all modes and both string
  forms with changes of the limit, is decoded to exactly the headers the peer means, given everything it inserted before
  (`HpackPeer.PeerBlockDecoded`), and so are the headers of every stream over any run (`H2Headers.PeerUnderstood`).
- The Huffman table is a complete prefix code, proved from its 257 left-aligned code intervals in order. The trie built from it
  decodes by prefix matching, the shift-register encoder concatenates codes, and decoding undoes encoding on every byte string.
- An HTTP/2 connection ends in the same state however its input is cut into pieces (`H2Fragmentation.FragmentationIndependence`).
- Over any run of calls, whatever a peer sends: streams only move forward, each is reported ready at most once, and exactly if it
  finished in a call that did not fail (`H2Safety.RunAccounts`). What was consumed and what is left of a body is the concatenation of
  the stream's own payloads (`H2Runs.ReadyBody`), its headers are what its own blocks decode to, each with the table all earlier
  blocks of the connection left (`H2Headers.StreamHeaders`), and everything put out is whole frames whose control frames mirror the
  input (`H2Runs.OutputIsFrames`).
- Whether, how and where a connection fails over any run of calls is decided by the bytes received alone: a wrong preface, the first
  frame refused given the frames before it, or a frame that is too long (`H2Refusals.RunFails`); otherwise every complete frame sent
  is accepted (`H2Refusals.RunAccepts`).
- Over any list of calls of `send_response`, refused ones included, on any streams, a peer connection in any state and with any
  header table takes in exactly the accepted responses, or stops at headers no decoder reads (`H2Response.ResponsesDelivered`).
- Smooth weighted round robin is exactly fair over every window as long as the total weight, and periodic. When health changes at
  will, no current weight exceeds half the total weight times the number of endpoints less one
  (`LoadBalancerBounds.MixedWeightBounds`).
- The pool accounts for every slot over every interleaving of requests, and no request moves more than seven times
  (`UpstreamPool.SevenMoves`). What a tick closes, what becomes of a returned connection, what a request is given and how it ends are
  told from the steps of the run alone (`UpstreamRuns.TickCloses`, `UpstreamRuns.FinishReturns`, `UpstreamRuns.AcquireGives`,
  `UpstreamRuns.Outcome`).
- The HTTP/1.1 parser accepts exactly the heads the grammar of RFC 9112 gives, within its limits (`Http1Grammar.ParsedIff`). A
  forwarded request is read back with its request line and, in order and as often as they came, all headers but those of the nine
  names that concern one hop (`Http1Grammar.HeadersPassOn`), and the next hop takes the same body off
  the connection (`Http1Messages.FramingSurvives`). A request made from any HTTP/2 stream arrives whole if and only if it is fit to
  be read back and every Content-Length the peer sent is the body's length (`H2Requests.StreamArrivesIff`).

Where the code departs from an obvious statement, the model follows the code and the exact condition is proved:

- `decode_int` refuses 0 at a 7-bit prefix, and strings use that prefix, so empty names and values do not read back
  (`HpackInt.IntRoundTrip`, `HpackString.StringRoundTrip`).
- First bytes `0101xxxx` and `011xxxxx` are not read as section 6 of RFC 7541 says, and no others: the former mark the header as
  never indexed, the latter change the table's limit (`HpackStandard.KindIsRfcKind`). Dynamic entries are one index further up than
  in section 2.3.3 (`HpackStandard.LookupIsRfcLookup`). The encoder only spells names out, so its round trip is not affected.
- The Huffman decoder accepts any unfinished code as padding. What it accepts is a string of section 5.2 of RFC 7541 if and only if
  fewer than eight one-bits are left over (`HpackStandard.RfcStringIff`); three bytes of ones are not
  (`HpackStandard.LongPaddingAccepted`).
- `send_response` lets the encoder remember headers that no peer reads: those of a response it then refuses, those no decoder reads,
  which it sends, and those on a stream the peer has finished. The peer's table equals the encoder's after every call if and only if
  no call does so with effect (`H2Response.AgreeThroughoutIff`). On streams new to the peer that is: refused calls go unnoticed by
  the table and accepted ones are readable (`H2Response.AgreeOnNewStreamsIff`). Calls that fail this are
  `H2Response.RefusalLeavesTrace` and `H2Response.EmptyValueDivides`.
- `release(nullptr)` returns no slot. With nothing in flight a request is admitted at once if and only if fewer requests than the
  limit have failed on a connection (`UpstreamPool.AdmitsIffFewBroken`); with a limit of one, one is enough
  (`UpstreamPool.OneBrokenIsEnough`).
- A waiting request takes an idle connection only, never a freed slot (`UpstreamPool.WaiterNeedsIdle`,
  `UpstreamPool.FreedSlotMissed`).
- An incomplete HTTP/1.1 head is refused if and only if it contains a line feed (`Http1Framing.PartOfComplete`). So a message that
  arrives in pieces is taken if and only if no piece ends inside its head behind a line feed (`Http1Messages.ArrivesInPiecesIff`).
- `write_request` keeps a Content-Length it is given, also one that came over HTTP/2 with a body of another length, and then adds none.
  The next hop takes the body it was sent if and only if that is as long as the length it reads (`Http1Messages.BoundaryKeptIff`),
  which is the request's own if and only if no Content-Length that goes out says otherwise (`Http1Messages.OwnLengthKeptIff`). For a
  message taken off an HTTP/1.1 connection it always is; for one from HTTP/2 it need not be (`H2Requests.LengthBelieved`,
  `H2Requests.BodyLeftBehind`).
- `write_request` drops `Transfer-Encoding`, so of a chunked request the next hop takes no body (`Http1Messages.ChunkedBodyLeft`,
  `Http1Messages.ChunkedFramingLost`). The proxy answers chunked HTTP/1.1 requests itself and does not forward them.
- `write_request` checks values only. What it writes is read back as meant if and only if the request line, the other parts of the
  headers, the lengths and the limits are right (`Http1Forwarding.ReadBackIff`).

Integers are mathematical. Widths are written out where they matter: the 64-bit shift register and accumulators of HPACK, the
field widths of frames, the 32-bit pool counter, 64-bit lengths. Bit operations are arithmetic on numbers whose bits are disjoint.
Time stamps, the outcome of a connect, whether a file descriptor is valid and the order of steps are parameters or
nondeterministic choices. The pool, the balancer and the ring buffer take their preconditions from what the code demands of its
callers: a connection is released to the pool it came from.

## Model

| member | source | states |
|---|---|---|
| `Buffer.NewCapacityFits` | src/buffer.cpp:86-89 | the growth computation cannot wrap for sizes a C++ vector can have |
| `Buffer.AroundIsMod` | src/buffer.cpp:49-62 | the remainder the code takes is one wrap around the end |
| `Buffer.RingBuffer.constructor` | src/buffer.cpp:8-8 | a new buffer has the asked capacity and is empty |
| `Buffer.RingBuffer.WritePosIsModulo` | src/buffer.cpp:58-62 | in every valid state of non-zero capacity `write_pos` is (`read_pos` + `size`) mod capacity |
| `Buffer.RingBuffer.ReadIovecs` | src/buffer.cpp:22-33 | at most two stretches in bounds, which concatenate to the contents |
| `Buffer.RingBuffer.WriteIovecs` | src/buffer.cpp:35-47 | at most two non-empty stretches of free storage in write order, none exactly if the buffer is full |
| `Buffer.RingBuffer.CommitRead` | src/buffer.cpp:49-56 | drops exactly the first n bytes of the sequence, or all |
| `Buffer.RingBuffer.CommitWrite` | src/buffer.cpp:58-62 | the bytes already placed behind the readable ones become readable |
| `Buffer.RingBuffer.Peek` | src/buffer.cpp:64-76 | returns the first n bytes of the sequence, across the wrap |
| `Buffer.RingBuffer.EnsureWritable` | src/buffer.cpp:82-101 | makes room without changing the contents, and grows only if there is too little |
| `Buffer.RingBuffer.Append` | src/buffer.cpp:103-123 | concatenates; through wrap-around and growth the "ring buffer full" branch is never reached |
| `Buffer.RingBuffer.AppendRound` | src/buffer.cpp:109-121 | one turn of the loop makes progress and appends the next stretch of the input |
| `HuffmanTable.AllFollow` | include/uproxy/hpack_huffman_table.h:12-64 | every code but the first starts where its predecessor's interval ends |
| `HuffmanTable.CodeLengths` | include/uproxy/hpack_huffman_table.h:12-64 | every code has 5 to 30 bits |
| `HuffmanCode.Aligned` | include/uproxy/hpack_huffman_table.h:12-64 | every code is left-aligned with zeros below it |
| `HuffmanCode.PrefixIffInterval` | include/uproxy/hpack_huffman_table.h:12-64 | 32 bits start with a code exactly if their value lies in the code's interval |
| `HuffmanCode.Disjoint` | include/uproxy/hpack_huffman_table.h:12-64 | the intervals of two symbols do not overlap |
| `HuffmanCode.CodesPrefixFree` | include/uproxy/hpack_huffman_table.h:12-64 | no code of the table is a prefix of another |
| `HuffmanCode.CodesComplete` | include/uproxy/hpack_huffman_table.h:12-64 | every bit string starts with a code or starts one |
| `HuffmanCode.EosIsOnes` | include/uproxy/hpack_huffman_table.h:64-64 | the end-of-string code is thirty one-bits |
| `HuffmanTrie.Descend` | src/hpack.cpp:330-344 | one step of an insertion keeps every path spelled, creating a child only where it is missing |
| `HuffmanTrie.Reach` | src/hpack.cpp:327-345 | following a code from the root ends at the node its bits spell |
| `HuffmanTrie.BuildTree` | src/hpack.cpp:317-348 | the finished trie holds symbol i at exactly the path of its code; symbol nodes are leaves and all others have both children |
| `HuffmanTrie.TrieIsFull` | src/hpack.cpp:317-348 | for any prefix-free complete code, symbol nodes are leaves and inner nodes have two children |
| `HuffmanTrie.InnerUnled` | src/hpack.cpp:350-361 | at an inner node no code is a prefix of the path, so no symbol was passed |
| `Huffman.ParseEncoded` | src/hpack.cpp:350-372 | prefix matching returns the symbols of any encoding followed by the start of a code |
| `Huffman.ParseMeaning` | src/hpack.cpp:350-372 | conversely accepted bits are such an encoding and rejected ones contain the end-of-string code |
| `Huffman.WalkBit` | src/hpack.cpp:355-370 | one bit of the walk; the "invalid Huffman code" branch is unreachable |
| `Huffman.WalkTree` | src/hpack.cpp:350-375 | the walk over whole bytes returns what prefix matching returns |
| `Huffman.Flush` | src/hpack.cpp:134-137 | whole bytes leave the register without changing the bits spelled |
| `Huffman.ShiftedBits` | src/hpack.cpp:131-133 | shifting a code into the 64-bit register appends its bits to the pending ones |
| `Huffman.Push` | src/hpack.cpp:128-138 | one symbol appends its code to output and register together |
| `Huffman.EncodeHuffman` | src/hpack.cpp:123-143 | the shift register emits the concatenated codes completed with one-bits |
| `Huffman.HuffmanBytes` | src/hpack.cpp:110-143 | the form has exactly `huffman_bytes` bytes and its padding is 0 to 7 one-bits |
| `Huffman.OnesUnled` | src/hpack.cpp:139-143 | one-bits of padding complete no symbol |
| `Huffman.HuffmanRoundTrip` | src/hpack.cpp:110-375 | decoding undoes encoding on every byte string |
| `HpackInt.EncodeInt` | src/hpack.cpp:84-108 | appends the prefix integer |
| `HpackInt.DecodeContinuation` | src/hpack.cpp:285-299 | on every input the accumulator stays below 2^64 and every success consumes bytes |
| `HpackInt.DecodeInt` | src/hpack.cpp:271-300 | computes the decoded integer or the error for any input and any width |
| `HpackInt.TailRoundTrip` | src/hpack.cpp:285-299 | continuation bytes decode to their number exactly if it fits the bits that are left |
| `HpackInt.IntRoundTrip` | src/hpack.cpp:84-300 | for every width and value: the same value and exactly its bytes consumed, except 0 at width 7 and values of 2^63 or more beyond the prefix, which are errors |
| `HpackInt.AnyTail` | src/hpack.cpp:285-299 | on any continuation bytes, minimal or not: nine in a row with the top bit set overflow, fewer without an end are truncated, and anything else is the number its groups spell |
| `HpackInt.PaddedGroups` | src/hpack.cpp:285-299 | groups of zeros at the end do not change the number |
| `HpackString.EncodeString` | src/hpack.cpp:110-152 | appends the Huffman form if strictly shorter, else the raw form |
| `HpackString.CountBits` | src/hpack.cpp:111-115 | the loop computes the number of bits of all codes |
| `HpackString.DecodeString` | src/hpack.cpp:302-379 | computes the decoded string or the error, building the trie on first use only |
| `HpackString.StringRoundTrip` | src/hpack.cpp:110-379 | a string reads back if and only if it is not empty and its coded form has at most 65535 bytes |
| `HpackTable.FitIsLongest` | src/hpack.cpp:395-402 | the reference is the longest prefix of the newest-first history within the limit |
| `HpackTable.FitIs` | src/hpack.cpp:395-402 | it is the only prefix that fits and cannot be extended |
| `HpackTable.EvictIsFit` | src/hpack.cpp:398-401 | evicting from the back leaves exactly that prefix and the right size |
| `HpackTable.AddKeepsFit` | src/hpack.cpp:395-402 | pushing and evicting keeps the table equal to the fitting part of the whole history |
| `HpackTable.SetLimitKeepsFit` | src/hpack.cpp:263-269 | so does lowering the limit |
| `HpackTable.PushThenEvictIsEvictThenInsert` | src/hpack.cpp:395-402 | push-then-evict equals evict-then-insert of section 4.4 of RFC 7541, for entries of any size |
| `Hpack.ReadField` | src/hpack.cpp:200-258 | every representation read consumes at least a byte, so decode ends |
| `Hpack.HeaderRoundTrip` | src/hpack.cpp:156-258 | an encoded header reads back, with the encoder's decision on sensitivity, exactly if it is readable |
| `Hpack.BlockRoundTrip` | src/hpack.cpp:156-261 | whatever the two tables hold, a header list reads back if and only if all its headers are readable; up to the first that is not, the decoder outputs the headers and remembers what the encoder remembered |
| `Hpack.EncodeRemembers` | src/hpack.cpp:156-187 | encode remembers every header before the first name with a capital letter and fails exactly if there is one |
| `Hpack.RememberAllFits` | src/hpack.cpp:177-184 | the table after a list is the longest fitting part of what was stored on top of the history |
| `Hpack.UnnoticedIff` | src/hpack.cpp:177-184 | a list leaves a table as it was if and only if it stores nothing or repeats the table with no room for more |
| `Hpack.BlocksRoundTrip` | src/hpack.cpp:156-261 | over any sequence of blocks each is read back and after each the two tables agree |
| `Hpack.DecodeKeepsFit` | src/hpack.cpp:197-261 | any input, valid or not: size is the sum of entries, the limit does not grow, the table is the longest fitting part of the insertions |
| `Hpack.RunKeepsFit` | src/hpack.cpp:197-269 | the same over any sequence of decode calls |
| `Hpack.IndexIsHistory` | src/hpack.cpp:381-393 | index 63+k names the k-th newest insertion as long as it fits; 0 and 62 name nothing |
| `HpackPeer.TextRead` | src/hpack.cpp:302-377 | a string in either form is read exactly if it takes 1 to 65535 bytes |
| `HpackPeer.LookupIsEntry` | src/hpack.cpp:381-393 | an index names a static entry or the insertion that still fits, with all newer ones and 32 octets each, in the limit |
| `HpackPeer.ItemDecoded` | src/hpack.cpp:197-261 | one representation of any kind puts out the header it means and changes the table as its mode says; one that means nothing is an error that leaves output and table alone |
| `HpackPeer.PeerBlockDecoded` | src/hpack.cpp:197-261 | a block in any mix of representations decodes to the headers the peer means, in order, up to the first that means nothing, and fails exactly if there is one |
| `HpackPeer.IndexedDecoded` | src/hpack.cpp:202-211 | an indexed field puts out the static entry or the inserted header of that index, name as name and value as value, or fails and changes nothing |
| `HpackPeer.MethodGet` | src/hpack.cpp:202-211 | the byte 0x82 is :method GET |
| `HpackPeer.TakenForLimit` | src/hpack.cpp:212-221 | the one representation left out: a literal to be indexed under name index 32 or more is taken for a limit 32 below it |
| `HpackPeer.EncoderSpells` | src/hpack.cpp:156-194 | the encoder spells every header out; those marked or named authorization, cookie or proxy-authorization are sent as never indexed and not remembered, all others are |
| `HpackStandard.KindIsRfcKind` | src/hpack.cpp:200-224 | the first byte is read as in section 6 of RFC 7541 if and only if it is not in 0x50 to 0x7f, and how it is misread there |
| `HpackStandard.LookupIsRfcLookup` | src/hpack.cpp:381-393 | the exact indices where lookup agrees with section 2.3.3 of RFC 7541, and the shift by one |
| `HpackStandard.MarkedSensitive` | src/hpack.cpp:223-257 | a literal to be indexed under name index 16 to 31 is stored and comes out marked as never indexed |
| `HpackStandard.AcceptEncodingMarked` | src/hpack.cpp:223-257 | for instance accept-encoding after first byte 0x50 |
| `HpackStandard.TakenForResize` | src/hpack.cpp:212-221 | a literal to be indexed under name index 32 to 62 is taken for a table size |
| `HpackStandard.TableEmptied` | src/hpack.cpp:212-221 | the single byte 0x60 empties the dynamic table for good |
| `HpackStandard.RfcStringDecoded` | src/hpack.cpp:350-372 | a Huffman string of section 5.2 of RFC 7541 is decoded as the standard says |
| `HpackStandard.RfcStringIff` | src/hpack.cpp:350-372 | an accepted Huffman string is one of the standard's if and only if what is left behind its last code is fewer than eight one-bits |
| `HpackStandard.LeftOverExists` | src/hpack.cpp:350-372 | every accepted string is codes followed by an unfinished code |
| `HpackStandard.LongPaddingAccepted` | src/hpack.cpp:350-372 | three bytes of one-bits are accepted as the empty string and are not one of the standard's |
| `HpackCodec.DynamicTable.EvictExcess` | src/hpack.cpp:398-401 | the eviction loop never underflows the size and computes the evicted table |
| `HpackCodec.DynamicTable.Insert` | src/hpack.cpp:395-402 | inserts and restores consistency |
| `HpackCodec.DynamicTable.SetMaxTableSize` | src/hpack.cpp:263-269 | sets the limit and evicts |
| `HpackCodec.HpackEncoder.EncodeHeader` | src/hpack.cpp:162-184 | appends one header's bytes and remembers it unless it is sensitive |
| `HpackCodec.HpackEncoder.Encode` | src/hpack.cpp:156-187 | the loop is the encoder function, stopping at an upper-case name with what was written before it |
| `HpackCodec.HpackDecoder.ReadNext` | src/hpack.cpp:200-258 | reads one representation by its first byte |
| `HpackCodec.HpackDecoder.Decode` | src/hpack.cpp:197-261 | the loop is the decoder function, keeping the headers read before an error |
| `H2Frame.FrameRoundTrip` | src/http2.cpp:16-63 | every frame the writer can send reads back with all its fields, or is refused exactly if too large |
| `H2Frame.ReadExtended` | src/http2.cpp:40-63 | a complete frame, or an error, is not changed by bytes that arrive later |
| `H2Frame.ReadSerialized` | src/http2.cpp:16-63 | a sequence of frames reads back as that sequence with nothing left |
| `H2Writer.WriteFrameHeader` | src/http2.cpp:16-31 | writes nine bytes, or nothing when a field does not fit |
| `H2Writer.WritePing` | src/http2.cpp:92-102 | the eight bytes of the number, most significant first |
| `H2Writer.WriteRstStream` | src/http2.cpp:135-145 | one frame, or nothing on stream 0 |
| `H2Writer.WriteWindowUpdate` | src/http2.cpp:104-115 | one frame exactly for increments of 1 to 2^31-1 on a valid stream id |
| `H2Writer.WriteHeaders` | src/http2.cpp:147-160 | one HEADERS frame, or nothing exactly when the block or id is refused |
| `H2Writer.WriteData` | src/http2.cpp:162-184 | the loop writes all of the body's DATA frames or nothing, and which is decided by the stream id and the first frame |
| `H2Writer.DataFramesCarry` | src/http2.cpp:162-184 | payloads of at most the frame size concatenate to the body; END_STREAM on the last only, and only if asked for |
| `H2Writer.WriteResponse` | src/http2.cpp:248-265 | all frames of a response or none |
| `H2Writer.ResponseFramesCarry` | src/http2.cpp:248-265 | one HEADERS frame then DATA frames carrying the body, END_STREAM on exactly the last frame if and only if asked for, all of which read back |
| `H2Writer.ReadFrameFrom` | src/http2.cpp:40-63 | takes exactly one frame off the buffer, or leaves it untouched |
| `H2Fragmentation.FramesExtended` | src/http2.cpp:215-231 | more input only adds to what the frame loop did |
| `H2Fragmentation.ProcessExtended` | src/http2.cpp:196-233 | processing early and then late equals processing once, preface included |
| `H2Fragmentation.RunIsOneProcess` | src/http2.cpp:192-233 | feeding chunk by chunk ends as one call on all bytes would, failure included |
| `H2Fragmentation.FragmentationIndependence` | src/http2.cpp:192-233 | two ways of cutting the same bytes give the same error or the same connection and ready list; on failure they stop at the same frame with the same bytes unconsumed |
| `H2Fragmentation.NewConnQuiet` | src/http2.cpp:186-190 | a new connection has nothing left to process, so the above holds from construction |
| `H2Safety.NewConnSound` | src/http2.cpp:186-190 | the invariant of the following results holds from construction |
| `H2Safety.HandleSafe` | src/http2.cpp:288-398 | one frame, accepted or refused, moves states forward only, leaves finished streams alone and reports exactly the stream that finished; `last_peer_stream_` stays the largest stream id |
| `H2Safety.FramesSafe` | src/http2.cpp:215-231 | the same for any input to the loop, however it ends |
| `H2Safety.ReadyAtMostOnce` | src/http2.cpp:196-233 | over any run of calls each stream id is reported ready at most once, HalfClosedLocal and Closed are never reached |
| `H2Safety.RunAccounts` | src/http2.cpp:196-233 | over any run of calls a stream finishes if and only if it is reported ready or finishes in a call that then fails, and never both |
| `H2Safety.ReadyIff` | src/http2.cpp:196-233 | over a run in which no call fails the streams reported ready are exactly those that finished |
| `H2Safety.RunOnward` | src/http2.cpp:196-398 | over any run of calls no stream goes back and a finished one keeps its headers and loses at most a consumed front of its body |
| `H2Streams.StreamsAreIndependent` | src/http2.cpp:319-376 | under any interleaving a stream's state and body depend on its own accepted frames alone |
| `H2Streams.OwnRunClosedForm` | src/http2.cpp:350-375 | those frames give the concatenated DATA payloads up to the one that ends the stream |
| `H2Streams.WindowsAddUp` | src/http2.cpp:377-390 | in the frame loop a stream's send window grows by exactly the increments of its own accepted WINDOW_UPDATE frames |
| `H2Streams.RepliesMirrorInput` | src/http2.cpp:288-310 | everything sent while reading is whole frames; one acknowledgement per SETTINGS and PING in order, a PING's with its own bytes |
| `H2Runs.ReadyBody` | src/http2.cpp:196-398 | from construction, over any run of calls: what was consumed of a body followed by what is left is the in-order concatenation of the stream's own accepted payloads, and it is finished exactly if one of them ended it |
| `H2Runs.RunGrows` | src/http2.cpp:196-398 | the same from any sound state |
| `H2Runs.RunWindow` | src/http2.cpp:377-390 | over any run of calls a stream's send window is what it was plus the increments of its own accepted frames |
| `H2Runs.WindowFitsIff` | src/http2.cpp:377-390 | 32 signed bits suffice at every moment of a run if and only if all increments granted fit on top of 65535 |
| `H2Runs.RunControls` | src/http2.cpp:196-310 | over any run the control frames put out are the answer to the preface and the acknowledgements, in order |
| `H2Runs.OutputIsFrames` | src/http2.cpp:186-282 | from construction, over any run of calls with responses and GOAWAY: all output, consumed or not, is the preface or nothing and then whole frames that read back, with those control frames |
| `H2Headers.DecodeAppends` | src/hpack.cpp:197-261 | the decoder only adds to the headers it is given, and its table and error do not depend on them |
| `H2Headers.HandleReads` | src/http2.cpp:319-349 | one frame, accepted or refused, changes the table and a stream's headers by its own block and nothing else, and a block that fails leaves its first part |
| `H2Headers.StreamHeaders` | src/http2.cpp:196-349 | from construction, over any run of calls: the table is what all blocks made it in order, and a stream's headers are what its own blocks decode to, each with the table every earlier block of the connection left |
| `H2Headers.StreamBlocks` | src/http2.cpp:196-349 | over a run in which no call fails, those blocks are the payloads of the stream's accepted HEADERS frames up to its end |
| `H2Headers.PeerUnderstood` | src/http2.cpp:196-349 | over any run with a peer that writes its blocks in any representations, a stream's headers are what the peer means by the stream's own blocks |
| `H2Refusals.HandleRefuses` | src/http2.cpp:288-398 | a frame is refused, and with which error, exactly as its kind, stream id, payload, flags, the state of its stream and the header table say |
| `H2Refusals.RefusedIff` | src/http2.cpp:288-398 | the same, one if-and-only-if for each error |
| `H2Refusals.FirstRefusalIff` | src/http2.cpp:215-231 | the first refusal of a list of frames is at the frame that is refused given those before it, none of which is |
| `H2Refusals.LoopRefuses` | src/http2.cpp:215-231 | the loop fails with the first refusal among the frames of its input, or on a frame that is too long |
| `H2Refusals.RunIsOneCall` | src/http2.cpp:192-233 | a run fails as one call on all its input would, whatever its owner does meanwhile |
| `H2Refusals.RunFails` | src/http2.cpp:192-398 | from construction, over any run: the first failure is what the bytes received say |
| `H2Refusals.RunAccepts` | src/http2.cpp:192-398 | a run that does not fail has accepted every complete frame it was sent |
| `H2Refusals.SettingsAccepted` | src/http2.cpp:289-299 | SETTINGS with any number of six-byte entries is accepted and acknowledged |
| `H2Refusals.RunDone` | src/http2.cpp:196-286 | over any run a connection is done exactly by an accepted GOAWAY, a frame that is too long, a wrong preface or its owner's goaway |
| `H2Response.ResponseOnTheWire` | src/http2.cpp:248-265 | what send_response adds to the output carries the response, and its block decodes to the headers sent from any table |
| `H2Response.DataDelivered` | src/http2.cpp:350-375 | a receiver of a body's DATA frames holds the body |
| `H2Response.FramesReset` | src/http2.cpp:323-375 | frames on a finished stream are answered with one reset each and change nothing else, the header table included |
| `H2Response.ResponseDelivered` | src/http2.cpp:196-265 | a peer in any sound state and with any header table that reads a response adds its headers and body to the stream and nothing else, fails exactly if it cannot read the headers, and only answers resets on a stream it has finished |
| `H2Response.ResponsesDelivered` | src/http2.cpp:196-265 | over any list of calls, refused ones included, on any streams: such a peer takes in exactly the accepted responses in order, and fails exactly if it comes to one it cannot read |
| `H2Response.NewStreamsDelivered` | src/http2.cpp:196-265 | on distinct new streams the peer then holds exactly what was sent, reports the ended streams in order, sends nothing and leaves other streams alone |
| `H2Response.OthersStay` | src/http2.cpp:196-265 | streams that no response names stay as they are |
| `H2Response.OutputOfAll` | src/http2.cpp:248-265 | a list of calls adds exactly the bytes of the accepted ones to the output and changes nothing else of the core |
| `H2Response.EncoderAfter` | src/http2.cpp:248-265 | the encoder has also taken in what refused calls offered |
| `H2Response.DecoderAfter` | src/http2.cpp:196-265 | the peer's decoder has taken in the headers of accepted responses on streams it had not finished |
| `H2Response.AgreeIff` | src/http2.cpp:196-265 | a peer that started with the encoder's table reads all output without error and ends with the encoder's table if and only if it can read every accepted response and what all calls stored and what it heard leave the same newest entries |
| `H2Response.AgreeThroughoutIff` | src/http2.cpp:196-265 | it reads the output after every call without error and then has the encoder's table if and only if, call by call, headers meant for it are readable and headers only the encoder sees go unnoticed by the table |
| `H2Response.AgreeOnNewStreamsIff` | src/http2.cpp:196-265 | on distinct new streams: if and only if the refused calls go unnoticed and the accepted responses are readable |
| `H2Response.RefusalLeavesTrace` | src/http2.cpp:248-265 | a refused response after which they do not |
| `H2Response.EmptyValueDivides` | src/http2.cpp:248-265 | an accepted response with an empty header value, at which the peer stops and after which the tables differ |
| `H2Wire.FrameLayout` | src/http2.cpp:36-63 | a frame is read from its bytes: three of length, type, flags, four of stream id without the top bit, payload |
| `H2Wire.ResponseAcceptedIff` | src/http2.cpp:248-265 | send_response accepts exactly if no name has a capital letter, the block fits a frame and the stream id is valid |
| `H2Wire.PrefaceAnswered` | src/http2.cpp:196-214 | a server answers the preface with an empty SETTINGS frame |
| `H2Wire.WindowUpdateDelivered` | src/http2.cpp:377-390 | a peer that reads a window update grows that stream's window by the increment and no other; on stream 0 it fails |
| `H2Wire.GrantSent` | src/http2.cpp:104-115 | send_window_update writes its frame exactly for a non-zero increment and a stream id of 31 bits |
| `H2Wire.ResetReads` | src/http2.cpp:135-145 | a reset holds its error code |
| `H2Wire.ResetAnswered` | src/http2.cpp:322-358 | HEADERS and DATA on a stream that has ended change nothing and are answered with a reset of code 5 |
| `H2Wire.GoawayReads` | src/http2.cpp:117-133 | a GOAWAY holds the last stream id, the error code and the debug data |
| `H2Wire.GoawaySent` | src/http2.cpp:279-282 | goaway marks the connection done and names the largest stream id of the peer |
| `H2Conn.H2Conn.constructor` | src/http2.cpp:186-190 | a client starts by sending the preface |
| `H2Conn.H2Conn.Feed` | src/http2.cpp:192-194 | appends to the input only |
| `H2Conn.H2Conn.HandleFrame` | src/http2.cpp:288-398 | the object's frame handler is the machine's step, on its real buffers and decoder |
| `H2Conn.H2Conn.TakePreface` | src/http2.cpp:198-214 | waits for, checks and consumes the preface and answers it |
| `H2Conn.H2Conn.Process` | src/http2.cpp:196-233 | process is the machine's process; the ready list is lost on failure |
| `H2Conn.H2Conn.SendResponse` | src/http2.cpp:248-265 | send_response is the machine's, with the encoder advanced even when the headers are refused |
| `H2Conn.H2Conn.ConsumeBody` | src/http2.cpp:244-246 | drops a prefix of one stream's body; for an unknown stream it throws and changes nothing |
| `H2Conn.H2Conn.ConsumeOutput` | src/http2.cpp:275-277 | drops a prefix of the output |
| `H2Conn.H2Conn.SendWindowUpdate` | src/http2.cpp:267-269 | sends one frame exactly for valid arguments |
| `H2Conn.H2Conn.Goaway` | src/http2.cpp:279-282 | marks the connection done and sends the last peer stream if the frame fits |
| `H2Conn.ReadNumber` | src/http2.cpp:302-305 | the loop over a PING's bytes computes their big-endian number |
| `LoadBalancer.BestIsFirstLargest` | src/load_balancer.cpp:27-36 | the scan picks the first of the largest current weights among the healthy, and none exactly if none is healthy |
| `LoadBalancer.AdvanceKeepsSum` | src/load_balancer.cpp:23-43 | whatever is healthy, a call leaves the sum of current weights alone and picks a healthy endpoint if there is one |
| `LoadBalancer.ClosedForm` | src/load_balancer.cpp:23-43 | after k calls each current weight is k times its weight less the total per pick, above minus the total, and the picks number k |
| `LoadBalancer.CurrentIsProducts` | src/load_balancer.cpp:23-43 | the closed form k*w_i - W*count_i, above -W, as products |
| `LoadBalancer.ExactFairness` | src/load_balancer.cpp:23-43 | after W calls endpoint i was picked exactly w_i times and all current weights are 0 |
| `LoadBalancer.Periodic` | src/load_balancer.cpp:23-43 | weights and choices repeat with period W |
| `LoadBalancer.EveryWindowIsFair` | src/load_balancer.cpp:23-43 | any W calls in a row pick endpoint i exactly w_i times |
| `LoadBalancer.WeightBounds` | src/load_balancer.cpp:23-43 | with n healthy endpoints every current weight stays within 1-W and (n-1)(W-1) |
| `LoadBalancer.New` | src/load_balancer.cpp:7-21 | construction gives each endpoint the name, health and weight of its configuration, one for a weight of zero, and current weights that sum to zero |
| `LoadBalancer.NameOf` | src/load_balancer.cpp:15-16 | a configured name is kept, a missing one is address, colon and the port in decimal |
| `LoadBalancer.DecimalIsValue` | src/load_balancer.cpp:15-16 | that text spells the port, so no two ports share one |
| `LoadBalancer.MixedRun` | src/load_balancer.cpp:7-61 | under any mix of calls and health changes the weights sum to 0, names and weights stay, and each request count grows by the number of times next returned that endpoint |
| `LoadBalancer.ChoicesAreHealthy` | src/load_balancer.cpp:23-61 | every next of a mixed run returns an endpoint healthy at that moment and fails exactly if none is |
| `LoadBalancerBounds.PickedBound` | src/load_balancer.cpp:23-43 | after a call, twice the sum of the current weights of any k of n endpoints with the picked one among them is at least minus the total weight times k(n-k) |
| `LoadBalancerBounds.CallBounded` | src/load_balancer.cpp:23-43 | a call keeps that bound for every set of endpoints, whatever is healthy |
| `LoadBalancerBounds.RunBounded` | src/load_balancer.cpp:23-61 | so does any mix of calls and health changes |
| `LoadBalancerBounds.MixedWeightBounds` | src/load_balancer.cpp:7-61 | under any mix since construction every current weight stays within half the total weight of all endpoints times n-1, either way |
| `LoadBalancerBounds.MixedFitsInt64` | src/load_balancer.cpp:7-61 | so with 32-bit weights and up to 2^15 endpoints no 64-bit integer overflows in any run |
| `LoadBalancer.OnlyNext` | src/load_balancer.cpp:7-43 | calls of next since construction put the balancer where the closed form says, with the picks as its counters |
| `LoadBalancer.NoPick` | src/load_balancer.cpp:37-39 | the two conditions for returning nothing are one |
| `LoadBalancer.HealthIsLastMark` | src/load_balancer.cpp:45-61 | over any run an endpoint is as healthy as the last mark of its name says, or as it was configured |
| `LoadBalancer.WeightedRoundRobin.constructor` | src/load_balancer.cpp:7-21 | builds the initial state |
| `LoadBalancer.WeightedRoundRobin.Bump` | src/load_balancer.cpp:25-36 | the loop adds healthy weights in place and finds total and best |
| `LoadBalancer.WeightedRoundRobin.Next` | src/load_balancer.cpp:23-43 | next is the machine's step and returns its choice |
| `LoadBalancer.WeightedRoundRobin.MarkUnhealthy` | src/load_balancer.cpp:45-52 | every endpoint of the name and no other becomes unhealthy |
| `LoadBalancer.WeightedRoundRobin.MarkHealthy` | src/load_balancer.cpp:54-61 | every endpoint of the name and no other becomes healthy |
| `UpstreamPool.KeptMembers` | src/upstream_pool.cpp:75-87 | of the idle connections exactly those that have not expired stay |
| `UpstreamPool.StepConserves` | src/upstream_pool.cpp:26-87 | each step keeps total = idle + held + connecting + discarded, within the limit and without 32-bit wrap |
| `UpstreamPool.StepExclusive` | src/upstream_pool.cpp:26-87 | each step keeps every connection in one place only |
| `UpstreamPool.StepFresh` | src/upstream_pool.cpp:59-73 | each step keeps every idle connection below the keep-alive limit |
| `UpstreamPool.PoolIsSound` | src/upstream_pool.cpp:26-87 | all of this after any interleaving of any number of requests, timeouts, failures and evictions |
| `UpstreamPool.StepsRunOut` | src/proxy.cpp:325-350 | a step brings the request it belongs to closer to its end, and no step moves another |
| `UpstreamPool.SevenMoves` | src/proxy.cpp:325-350 | over any allowed run from the start a request moves at most seven times, and is done if it did |
| `UpstreamPool.NeverStuck` | src/upstream_pool.cpp:26-57 | a request that is not done always has a step, the timeout or a failure if nothing else |
| `UpstreamPool.WaiterNeedsIdle` | src/upstream_pool.cpp:35-46 | a waiting request takes an idle connection or times out, and no step of another ends its wait |
| `UpstreamPool.FreedSlotMissed` | src/upstream_pool.cpp:35-46 | a run in which a slot is free for a newcomer while a waiting request can only time out |
| `UpstreamPool.UseIsBounded` | src/proxy.cpp:325-350 | no connection carries more requests than the keep-alive limit, or one where that is zero |
| `UpstreamPool.AdmitsIffSlotsLeft` | src/upstream_pool.cpp:27-48 | with nothing in flight a request is admitted at once if and only if fewer connections than the limit were discarded |
| `UpstreamPool.SlotsLostForGood` | src/upstream_pool.cpp:59-62 | once all slots are lost to discarded connections no request is served in any run |
| `UpstreamPool.DiscardedIsBroken` | src/proxy.cpp:331-347 | the slots lost are the requests that failed on a connection |
| `UpstreamPool.AdmitsIffFewBroken` | src/upstream_pool.cpp:27-62 | from the start, at most as many requests as the limit fail on a connection, and with nothing in flight a new one is admitted at once if and only if fewer did |
| `UpstreamPool.NotServedAfterLimit` | src/upstream_pool.cpp:26-62 | in no run is a request served after as many as the limit have failed on a connection |
| `UpstreamPool.OneBrokenIsEnough` | src/upstream_pool.cpp:59-62 | a run of four steps that closes a pool of one for good |
| `UpstreamRuns.RecordsAreTrue` | src/upstream_pool.cpp:59-73 | in any run last-used time and request count of every connection are what the steps say, and idle connections are in the order of their return |
| `UpstreamRuns.TickCloses` | src/upstream_pool.cpp:75-87 | right after a tick an idle connection is still idle, in its place, if and only if the request that returned it finished after the tick or no longer before it than the timeout; the others give their slots back and nothing else changes |
| `UpstreamRuns.FinishReturns` | src/upstream_pool.cpp:59-73 | a finished request's connection goes to the back of the idle ones exactly if it is valid and has carried fewer requests than the limit, otherwise its slot is given back |
| `UpstreamRuns.AcquireGives` | src/upstream_pool.cpp:26-49 | a request is given the idle connection returned first, else a slot if fewer than the limit are held, connecting or lost, else it waits |
| `UpstreamRuns.Outcome` | src/proxy.cpp:325-352 | a request is served exactly if it finishes on a connection, and fails exactly if it cannot connect, waits in vain or fails on a connection twice |
| `UpstreamPool.Pool.BeginAcquire` | src/upstream_pool.cpp:27-48 | the first lock section of acquire |
| `UpstreamPool.Pool.EndWait` | src/upstream_pool.cpp:35-46 | the end of the wait: the oldest idle connection or the timeout |
| `UpstreamPool.Pool.EndConnect` | src/upstream_pool.cpp:49-56 | a failed connect gives its slot back and is counted |
| `UpstreamPool.Pool.Release` | src/upstream_pool.cpp:59-73 | a usable connection goes to the back of the idle list, another gives its slot back, nullptr changes nothing |
| `UpstreamPool.Pool.EvictIdle` | src/upstream_pool.cpp:75-87 | erasing in place leaves the connections that have not expired, in order, and takes the others off the total |
| `Http1Text.LinesOfUnlines` | src/http1.cpp:73-136 | splitting at CRLF undoes joining |
| `Http1Text.UnlinesOfLines` | src/http1.cpp:63-136 | joining undoes splitting for a block whose line feeds all follow carriage returns |
| `Http1Text.BlankAfterLines` | src/http1.cpp:53-53 | the first blank line of joined lines is at their end |
| `Http1Text.TrimCuts` | src/http1.cpp:29-37 | trimming cuts white space, and nothing else, off both ends |
| `Http1Text.NumberOfPrinted` | src/http1.cpp:219-297 | reading a number undoes printing it, in both bases, up to 64 bits |
| `Http1Framing.HeaderLineMeans` | src/http1.cpp:137-156 | a line is a header if and only if it is name, colon, white space, value, white space, within the limits |
| `Http1Framing.StartLineMeans` | src/http1.cpp:81-99 | a line is a start line if and only if it is method, space, target, space, version, within the limits |
| `Http1Framing.CompleteIsStable` | src/http1.cpp:52-210 | a complete parse is not changed by any bytes that follow |
| `Http1Framing.CompleteMeans` | src/http1.cpp:52-202 | the head ends at the first blank line, its lines are a start line and one header each in order in the grammar of RFC 9112, all Content-Length values agree with the length, and none coexists with chunked |
| `Http1Framing.CompleteIff` | src/http1.cpp:52-202 | the parser returns a request if and only if the input starts with lines of the grammar of RFC 9112 that spell it, within the limits, with agreeing lengths |
| `Http1Grammar.ParsedIff` | src/http1.cpp:52-202 | the parser returns a request if and only if the input starts with its lines by the grammar of RFC 9112, with characters, limits and the names content-length, transfer-encoding and connection written out: length, chunked and keep-alive are what the headers say |
| `Http1Grammar.WaitsIff` | src/http1.cpp:53-59 | it waits for more if and only if there are at most 65536 bytes and no line feed |
| `Http1Grammar.CloseIs` | src/http1.cpp:181-186 | a header ends keep-alive exactly if its name is connection and its value mentions close, in any letter case |
| `Http1Grammar.ChunkedIs` | src/http1.cpp:174-180 | a header announces chunks exactly if its name is transfer-encoding and its value mentions chunked, in any letter case |
| `Http1Grammar.OneHopIs` | src/http1.cpp:246-252 | a header is not forwarded exactly if its name is one of nine, in any letter case |
| `Http1Grammar.ForwardedIsPassed` | src/http1.cpp:241-268 | for any request what goes out is Host, the other headers in order, a length if there is a body and none yet, and Via |
| `Http1Grammar.HeadersPassOn` | src/http1.cpp:241-268 | over the written bytes of every parsed request the next hop reads the request line, the Host given, all headers not of those nine names in order and as often as sent, and Via; or refuses exactly beyond the limits |
| `Http1Grammar.WrittenIff` | src/http1.cpp:256-259 | write_request fails exactly if a header that passes holds a control character other than a tab |
| `Http1Framing.PartOfComplete` | src/http1.cpp:53-59 | a proper part of a complete head is refused if it holds a line feed and otherwise incomplete |
| `Http1Framing.CutRequestRefused` | src/http1.cpp:53-59 | a request for which cutting makes the difference |
| `Http1Framing.ParseOfLines` | src/http1.cpp:52-202 | a head written as plain, non-empty lines parses as those lines |
| `Http1Forwarding.SurvivorsTake` | src/http1.cpp:241-262 | the headers that go on give the same length and are neither chunked nor closing |
| `Http1Forwarding.ForwardingRoundTrip` | src/http1.cpp:52-268 | for every parsed request and valid host write_request succeeds, and its output parses as the same request line and length with Host, the surviving headers and Via, within the size and count limits and only there |
| `Http1Forwarding.ReadBackIff` | src/http1.cpp:241-268 | for any request, parsed or not: its request line and exactly the headers meant for it are read back if and only if request line, headers, lengths and limits are right |
| `Http1Forwarding.LengthReadBackIff` | src/http1.cpp:245-265 | the length read back is the request's if and only if no surviving Content-Length says otherwise; without one it is added |
| `Http1Forwarding.ReadBackWhole` | src/http1.cpp:241-268 | a request that is read back was written, takes up the whole output and is not chunked |
| `Http1Messages.TakeRequest` | src/proxy.cpp:577-601 | takes a request with its body off the buffer, or the head of a chunked one, or nothing |
| `Http1Messages.PartTaken` | src/proxy.cpp:574-601 | what is taken of every front part of a message |
| `Http1Messages.ArrivesInPiecesIff` | src/proxy.cpp:574-601 | a message arriving in any pieces is taken with the same body if and only if no piece ends inside its head behind a line feed, and is refused otherwise |
| `Http1Messages.NextHopTakes` | src/proxy.cpp:577-601 | behind a head it has parsed a hop takes as many bytes as the length it read and leaves the rest |
| `Http1Messages.BoundaryKeptIff` | src/proxy.cpp:304-350 | for any request that is read back, wherever it came from: the next hop takes exactly the body it was sent if and only if that has the length it reads |
| `Http1Messages.OwnLengthKeptIff` | src/proxy.cpp:304-350 | with the request's own length for the body: if and only if every Content-Length that goes out is that length |
| `Http1Messages.FramingSurvives` | src/proxy.cpp:304-350 | a message taken off one connection and forwarded is taken off the next with the same body, whatever follows |
| `Http1Messages.ChunkedBodyLeft` | src/http1.cpp:241-268 | of a chunked request the next hop takes no body: all of it becomes the start of the next message |
| `Http1Messages.ChunkedFramingLost` | src/http1.cpp:241-268 | a chunked request whose first chunk the next hop takes for a malformed request |
| `H2Requests.Convert` | src/proxy.cpp:677-698 | the loop over a stream's headers makes the request of the specification |
| `H2Requests.LastValueIs` | src/proxy.cpp:679-692 | a repeated pseudo-header counts with its last value |
| `H2Requests.MissingValue` | src/proxy.cpp:679-692 | a missing pseudo-header counts as empty |
| `H2Requests.FieldsAre` | src/proxy.cpp:687-689 | the header fields are all kept and nothing else is |
| `H2Requests.FieldsInOrder` | src/proxy.cpp:687-689 | the k-th header field becomes the k-th header, and there are no more |
| `H2Requests.StreamArrivesIff` | src/proxy.cpp:677-709 | for any stream's headers and body: the next hop takes the request line, the headers meant for it and exactly the body if and only if the request is fit to be read back and every Content-Length the peer sent is the body's length |
| `H2Requests.LengthBelieved` | src/http1.cpp:245-265 | otherwise the next hop cuts the bytes behind the head at the length the peer stated |
| `H2Requests.BodyLeftBehind` | src/http1.cpp:245-265 | a request with content-length 0 whose whole body is left in front of the next message |
| `Http1Forwarding.ChunkRoundTrip` | src/http1.cpp:219-297 | a chunk header reads back, consuming exactly its bytes, if and only if the size fits int64 |
| `Http1Grammar.ChunkWithExtension` | src/http1.cpp:219-239 | a chunk header with or without extension gives its size in hexadecimal, exactly if it ends within 128 bytes and fits int64 |
| `Http1Grammar.DigitsAre` | src/http1.cpp:230-236 | which characters are decimal and hexadecimal digits |
| `Http1Grammar.DigitValues` | src/http1.cpp:230-236 | the value of each digit, in either letter case |
| `Http1Codec.TrimOws` | src/http1.cpp:29-37 | the two loops trim |
| `Http1Codec.ValidHeaderValue` | src/http1.cpp:39-50 | true exactly if no byte is a control character other than a tab |
| `Http1Codec.CheckLineFeeds` | src/http1.cpp:64-70 | true exactly if every line feed follows a carriage return |
| `Http1Codec.ParseStartLine` | src/http1.cpp:81-99 | the checks in code order accept exactly the start lines |
| `Http1Codec.ParseHeaderLine` | src/http1.cpp:137-156 | the checks in code order accept exactly the headers |
| `Http1Codec.Absorb` | src/http1.cpp:157-187 | what one header adds, or the error it causes |
| `Http1Codec.ParseHeaderBlock` | src/http1.cpp:128-188 | the loop takes every line of the block; its early exits are unreachable |
| `Http1Codec.ParseHeaders` | src/http1.cpp:52-202 | parse_headers for a request is the parser function on any bytes |
| `Http1Codec.ReadRequest` | src/http1.cpp:206-210 | parse_request looks at no more than the limit and one byte, and consumes nothing |
| `Http1Codec.WriteRequest` | src/http1.cpp:241-268 | writes the whole head, or nothing exactly if a surviving value is not valid |
| `Http1Codec.ParseChunkHeader` | src/http1.cpp:219-239 | consumes the header and returns its size, or returns -1 and consumes nothing |
| `Http1Codec.WriteChunkHeader` | src/http1.cpp:290-297 | always succeeds for a 64-bit size |

## Left out

- Event loops, file descriptors, TLS, sockets and listeners, configuration, logging and the command line.
- `response_complete` in src/proxy.cpp, which looks for substrings rather than decoding.
- `UpstreamPool::drain`, which zeroes the total whatever is in use and has no caller.
- Real time and the fairness of locks and condition variables: steps are nondeterministic, and time stamps are arguments.
- The HTTP/1 response parser and serializer, which repeat the request's line handling with a status line in place of the request line.
- The values of a request's fields after an error or an incomplete parse; the model's parser returns none.
- HTTP/2 padding, CONTINUATION, incoming RST_STREAM, SETTINGS values and connection-level windows, on which the code does not act.
- `write_settings` with entries: the connection only sends an empty one.
- HpackInt.EncodeInt: prefixes with bits set below the prefix width, which the code would or in; every caller passes a constant without.
- H2Conn.H2Conn.HandleFrame: a stream's send window is a mathematical integer, so what signed 32-bit overflow does is not modelled (`H2Runs.WindowFitsIff` says when it happens); receive buffers of streams are held by their contents.
- H2Conn.H2Conn.Goaway: the truncation of the debug data's length to 32 bits is not modelled; longer data is refused by the length check instead.
- The static header table is transcribed from the source as data; no theorem compares its 61 entries with Appendix A of RFC 7541.
- Http1Codec.ParseHeaders: the response half, and the fields of the request left behind after an error.
- LoadBalancer.New: the counters of active and failed requests are not modelled.
- LoadBalancer.WeightedRoundRobin.Next: endpoints are values in an array rather than shared objects.
- Allocation failure and `size_t` overflow, beyond the capacity computation of the ring buffer.
- The dynamic table's three fields and their eviction loop appear once, in a class the encoder and the decoder each own an instance of, and the decoding trie belongs to a decoder instead of being static.
