# Tailgate protocol components, verified

Tailgate is a portable Tailscale client. This project models its stateful protocol components in Dafny and proves
what they promise. `dafny verify dfyconfig.toml` checks all of it.

| files | component |
|---|---|
| Bytes, Bits, Frames | octets, bits and the relay frame format |
| PacketFraming, Decoder, FeedLimit, RelaySystem, RelayEndToEnd, RelayProgress, RelayLongStreams | the relay: fragments cut, reassembled and decoded, the limit on feeding, and the end-to-end theorems |
| HpackInteger, HpackHuffmanTable, HpackHuffman, HpackTable, HpackDecoder, HpackForms, HpackBuilder, HpackLimit | header compression, RFC 7541 |
| Recovery, RecoveryDelivery | the owner, the bootstrap thread and the completion slot of relay recovery |
| SessionReplacement, SessionExclusion | the registry of hosted sessions, the replacement barrier, and how many sessions pass it |
| NoiseTransport, NoiseEndToEnd | the Noise record layer and a pair of peers |
| StreamTransport | the ordered relay stream over a socket |
| HandshakeLimiter, SendQueue, IpRange, Delegation | the token bucket, the two-class queue, address ranges, the delegation messages |

Objects that the program updates in place are classes whose methods are proved against functions on values; the
theorems are about those functions. The concurrent and distributed parts are state machines whose steps are what one
thread or peer does between two points where another can interfere; a run is any sequence of enabled steps, and the
theorems hold for every run. Exceptions are results or end a run.

Sockets, clocks, thread scheduling and packet delivery are inputs: scripts of answers held by the socket classes,
times passed as arguments, and the choice of the next step. The cipher is any pair of functions of which decryption
inverts encryption and a ciphertext is 16 octets longer than its plaintext.

Five things the program does not do in general are stated with the exact condition or with a witness:

- `Decoder::Feed` refuses a legal stream when a chunk runs past a nearly complete frame of maximum size
  (`FeedLimit.LegalStreamRefused`, for every chunk size from two octets up): exactly when the chunk and the octets
  behind the last whole frame exceed the size of one (`FeedLimit.FeedRefusesExactly`).
- The header builder accepts strings of 127 octets and the indices 127 and 63, which are continuation prefixes, and
  the name index 0. A block is read back exactly when no literal is 127 octets long, unless the first that is consists
  of zeros right before a further extra header (`HpackLimit.BlockRoundTrip`); a single field exactly within the limits
  of `HpackBuilder.IndexedReadsBack`, `HpackBuilder.LiteralIndexedReadsBack` and `HpackBuilder.LiteralNewReadsBack`.
- A send refused by the Noise transport has used a nonce; the next record is received exactly when the number of
  refused sends before it is a multiple of 2^64 (`NoiseEndToEnd.RefusedSendDesynchronises`,
  `NoiseEndToEnd.OneRefusalStopsReceiver`).
- A timed-out replacement wait can let two sessions serve one key (`SessionExclusion.OneTimeoutBreaksIt`). It does
  exactly when the session that gave up unregisters ahead of a live one while it is the newest of its key or a live
  session waits for it (`SessionExclusion.AtMostOneActive`, `SessionExclusion.HarmIsReal`).

- The token sum of the handshake limiter wraps at 2^64: a call that is due and has a free slot is admitted exactly when
  the sum does not wrap to zero (`HandshakeLimiter.DueCallAdmittedExactly`, `HandshakeLimiter.WrappedSumRefuses`),
  which a burst of at most 2^63 and a clock of 63 bits rule out (`HandshakeLimiter.UsualSumsFit`).

## Model

| member | source | states |
|---|---|---|
| `RelayEndToEnd.OutputIsPrefix` | src/core/hosted/PacketFraming.cpp:35-161 | on every run of queueing, cutting, delivery in any order, reading in any chunks and decoding, the frames returned so far are a prefix of the frames sent, and nothing but a full reassembly window can fail the connection |
| `RelayEndToEnd.FinishedIsComplete` | src/core/hosted/Protocol.cpp:838-875 | once everything is queued, cut, delivered and read and the decoder is idle, the frames returned are exactly the frames sent |
| `RelayEndToEnd.RunKeeps` | src/core/hosted/Protocol.cpp:838-875 | the invariant over all runs: what was cut tiles the stream, every piece is in exactly one place, and buffered plus missing octets are the encoding of the frames not yet returned |
| `RelayProgress.FinishIsReachable` | src/core/hosted/Protocol.cpp:838-875 | from every unfailed state of every run the run can be completed, when the stream fits the window and at most 4091 pieces were cut, and has then returned exactly the frames sent |
| `RelayEndToEnd.SmallStreamNeverFails` | src/core/hosted/PacketFraming.cpp:107-147 | no run of a stream that fits the window, cut into at most 4096 pieces, fails |
| `RelayLongStreams.CaughtUpCanFinish` | src/core/hosted/Protocol.cpp:838-875 | whatever the length of the stream, a run that has read and decoded all that was delivered can be completed, with exactly the frames sent, when fewer than 4096 fragments are stored |
| `RelayLongStreams.FullStoreNeverFinishes` | src/core/hosted/PacketFraming.cpp:124-129 | and only then: before a full store even the piece that is waited for is rejected, so no continuation finishes |
| `RelayEndToEnd.PieceIsAccepted` | src/core/hosted/PacketFraming.cpp:107-147 | a piece delivered once is rejected exactly when it ends beyond the window or the store is full; it never overlaps and is never invalid |
| `RelayEndToEnd.InnerYieldsNext` | src/core/hosted/Protocol.cpp:842-849 | the inner stream of a receiver yields the next frame sent, or too little of it, and never an error |
| `RelayEndToEnd.OuterYieldsHead` | src/core/hosted/Protocol.cpp:859-873 | the outer stream of a receiver yields the fragment at its head, or too little of it, and never an error |
| `Frames.ParseReadsEncodings` | src/core/hosted/Protocol.cpp:798-834 | a frame is read exactly when the input starts with the encoding of a well-formed frame |
| `Frames.ParseInvertsEncode` | src/core/hosted/Protocol.cpp:186-201 | parsing an input that starts with an encoding returns that frame and its size |
| `Frames.ParseIsCanonical` | src/core/hosted/Protocol.cpp:798-834 | a frame that was read re-encodes to the octets it was read from |
| `Frames.ParseIsStable` | src/core/hosted/Protocol.cpp:798-834 | octets that arrive later change neither a frame nor an error |
| `Frames.RefusedExactly` | src/core/hosted/Protocol.cpp:798-834 | an input is incomplete exactly when it is shorter than a header or a proper start of a frame, and refused exactly when it has a header and is neither that nor starts with a frame |
| `Frames.EncodeBatch` | src/core/hosted/Protocol.cpp:203-224 | a batch is the concatenation of its encodings, refused exactly when a frame is not encodable or the total does not fit |
| `Frames.AppendTo` | src/core/hosted/Protocol.cpp:186-193 | encoding appends magic, type, flags, size and payload after what is there |
| `Bytes.AppendBigEndian` | src/core/hosted/Protocol.cpp:28-48 | the shifts append the low-order octets of the value, most significant first |
| `Bytes.BigEndianOctet` | src/core/hosted/Protocol.cpp:28-48 | octet i of n is the value shifted right by the octets behind it |
| `Bytes.ReadBigEndian` | src/core/hosted/Protocol.cpp:50-60 | the accumulated value is the number the octets spell, and fits the width |
| `Bytes.ReadAppended` | src/core/hosted/Protocol.cpp:28-60 | reading inverts appending for every value of the width |
| `Bytes.AppendRead` | src/core/hosted/Protocol.cpp:28-60 | every string of octets is the encoding of the value read from it |
| `PacketFraming.PacketEncoder.Queue` | src/core/hosted/PacketFraming.cpp:35-47 | the pending octets grow by the octets queued, or nothing changes and the limit is reported |
| `PacketFraming.PacketEncoder.Next` | src/core/hosted/PacketFraming.cpp:54-105 | the packet and the new state are those of the cut on values: the next octets of the pending stream under their offset |
| `PacketFraming.Collect` | src/core/hosted/PacketFraming.cpp:79-88 | the loop over parts gathers exactly the first octets of the pending stream |
| `PacketFraming.PacketEncoder.Consume` | src/core/hosted/PacketFraming.cpp:90-103 | the loop over parts leaves exactly the rest of the pending stream |
| `PacketFraming.PacketFits` | src/core/hosted/PacketFraming.cpp:54-66 | a packet never exceeds the capacity asked for |
| `PacketFraming.PacketCarriesNext` | src/core/hosted/PacketFraming.cpp:54-105 | a packet is a fragment frame of the next octets of the stream and their offset, and is full unless nothing is left to send |
| `PacketFraming.PacketReassembler.Store` | src/core/hosted/PacketFraming.cpp:107-147 | the neighbour checks decide acceptance exactly as an overlap test against every stored fragment; a rejected fragment leaves the object unchanged |
| `PacketFraming.PacketReassembler.TakeNext` | src/core/hosted/PacketFraming.cpp:149-161 | the fragment at the read offset is taken when there is one, and nothing otherwise |
| `PacketFraming.PacketReassembler.BufferedBytes` | src/core/hosted/PacketFraming.cpp:163-166 | the count is the sum of the stored sizes and at most the window |
| `PacketFraming.NeighboursDecideOverlap` | src/core/hosted/PacketFraming.cpp:130-136 | among disjoint fragments, looking at the two neighbours finds an overlap exactly when there is one |
| `PacketFraming.StoreKeepsConsistent` | src/core/hosted/PacketFraming.cpp:107-147 | storing keeps fragments non-empty, disjoint, inside the window, counted exactly and at most 4096 |
| `PacketFraming.TakeKeepsConsistent` | src/core/hosted/PacketFraming.cpp:149-161 | taking keeps them so |
| `PacketFraming.TotalWithin` | src/core/hosted/PacketFraming.cpp:124-129 | disjoint fragments inside an interval hold at most its length |
| `Decoder.ChunkingIndependence` | src/core/hosted/Protocol.cpp:767-875 | however the same octets are split into chunks, a decoder drained between them returns the same frames and the same error |
| `Decoder.DrainExtends` | src/core/hosted/Protocol.cpp:767-875 | feeding late is feeding early: more input only continues a finished run |
| `Decoder.NextIsFaithful` | src/core/hosted/Protocol.cpp:838-875 | frames returned so far followed by what the decoder still yields are always what the whole input yields |
| `Decoder.FeedIsFaithful` | src/core/hosted/Protocol.cpp:767-788 | the same for a feed at any time |
| `Decoder.AdvanceShrinks` | src/core/hosted/Protocol.cpp:840-874 | every silent turn of the loop decreases unread outer octets, or keeps them and decreases stored fragments |
| `Decoder.FragmentedFramesAreInner` | src/core/hosted/Protocol.cpp:859-873 | once a fragment was seen, every frame returned is paid for by inner octets: no plain outer frame is returned again |
| `Decoder.StartIsFaithful` | src/core/hosted/Protocol.cpp:767-875 | a new decoder has read nothing, returned nothing and yields what an empty input yields; every history starts here |
| `Decoder.IdleStays` | src/core/hosted/Protocol.cpp:859-863 | a decoder that found nothing finds nothing again |
| `FeedLimit.FeedRefusesExactly` | src/core/hosted/Protocol.cpp:782-786 | on any stream of frames decoded so far without an error, a chunk is refused exactly when it and the octets behind the last whole frame exceed one frame of maximum size |
| `FeedLimit.PlainFeedRefusesExactly` | src/core/hosted/Protocol.cpp:782-786 | the same for plain frames, where no error can occur, from the stream and the chunk alone |
| `FeedLimit.ResidueIsPartial` | src/core/hosted/Protocol.cpp:838-875 | a drained decoder holds exactly the octets behind the last whole frame of the stream |
| `FeedLimit.LegalStreamRefused` | src/core/hosted/Protocol.cpp:782-786 | reading chunks of any one size from two octets up, some legal stream is refused in the chunk where a largest frame ends and in none before |
| `FeedLimit.RelayReadsRefused` | src/core/hosted/Protocol.cpp:888-903 | this happens with the chunk sizes the callers use, 64 KiB and 16 KiB |
| `FeedLimit.OctetsAreNeverRefused` | src/core/hosted/Protocol.cpp:782-786 | read octet by octet, no legal stream is refused |
| `FeedLimit.DrainedHasRoom` | src/core/hosted/Protocol.cpp:782-786 | a drained decoder has room for at least one octet |
| `Decoder.FrameDecoder.Feed` | src/core/hosted/Protocol.cpp:767-788 | compaction never shows: the unread octets grow by the input, or nothing changes and the limit is reported |
| `Decoder.FrameDecoder.TakeFrame` | src/core/hosted/Protocol.cpp:838-875 | the loop terminates and returns what the specification of a whole call returns, which `FeedLimit.PlainStreamYields` and the relay theorems tie to the frames sent; every buffer stays under its fixed bound |
| `FeedLimit.PlainStreamYields` | src/core/hosted/Protocol.cpp:859-871 | handed any part of a stream of plain frames from its start, the decoder yields exactly the frames that lie whole within it, without an error, and holds the octets behind them |
| `FeedLimit.PlainStreamRoundTrip` | src/core/hosted/Protocol.cpp:838-875 | handed a whole stream of plain frames, it yields those frames and holds nothing |
| `FeedLimit.WholeAndPartial` | src/core/hosted/Protocol.cpp:815-833 | the whole frames and the octets behind them are the input, and the next frame is not whole |
| `Decoder.MixedStreamsFail` | src/core/hosted/Protocol.cpp:842-871 | a fragment inside the reassembled stream, or a plain frame among fragments, is an error and no frame is returned for it |
| `Decoder.BadHeaderFails` | src/core/hosted/Protocol.cpp:798-834 | so are twelve octets that no frame starts with |
| `Decoder.FrameDecoder.BufferedBytes` | src/core/hosted/Protocol.cpp:877-881 | the count of all buffered octets, under a fixed bound in every reachable state |
| `HpackInteger.IntegerRoundTrip` | src/core/control/base/H2.cpp:377-411 | reading inverts the prefix encoding of section 5.1 of RFC 7541 for every 32-bit value, prefix and flags, whatever follows |
| `HpackInteger.OverflowTest` | src/core/control/base/H2.cpp:396-403 | the shifted comparison refuses exactly the digits that would take the value above the limit |
| `HpackInteger.ReadInteger` | src/core/control/base/H2.cpp:377-411 | the reader returns a value exactly when the octets encode one of at most five digits that is at most 2^32-1 |
| `HpackInteger.DigitsAreLimited` | src/core/control/base/H2.cpp:393-411 | behind a full prefix, digits that end within five octets are read when the sum is at most 2^32-1, and no others are |
| `HpackInteger.ReadContinuation` | src/core/control/base/H2.cpp:393-411 | the same for the digits after the prefix |
| `HpackHuffmanTable.TableInBand` | src/core/control/base/H2.cpp:111-368 | every code of the table is the one its length band and rank assign |
| `HpackHuffman.HuffmanIsPrefixFree` | src/core/control/base/H2.cpp:111-368 | no code of the table starts another or starts the all-ones end-of-string code |
| `HpackHuffman.ReadingsAgree` | src/core/control/base/H2.cpp:437-485 | with a prefix-free code at most one text is encoded by a string of bits and its padding |
| `HpackHuffman.DecodeHuffman` | src/core/control/base/H2.cpp:437-485 | a text is returned exactly when the bits of the field are its codes followed by at most seven ones |
| `HpackHuffman.CheckPadding` | src/core/control/base/H2.cpp:474-484 | what was read is the one reading of the field exactly when the bits left over are at most seven ones; otherwise there is none |
| `HpackTable.TableIsHistory` | src/core/control/base/H2.cpp:676-698 | after any insertions and resizings the table is what the longest run of latest changes inserted that fitted the limit at every moment since |
| `HpackTable.FitIsLongest` | src/core/control/base/H2.cpp:676-684 | what stays after eviction is the longest newest-first prefix that fits |
| `HpackDecoder.IndexIsRecency` | src/core/control/base/H2.cpp:669-674 | after any history, dynamic index 62 + k names the k-th newest insertion, or nothing past the end of the table |
| `HpackDecoder.HeaderDecoder.Evict` | src/core/control/base/H2.cpp:676-684 | the loop leaves the longest prefix that fits, with an exact size |
| `HpackDecoder.HeaderDecoder.Add` | src/core/control/base/H2.cpp:685-698 | an insertion evicts what no longer fits; an oversize entry empties the table |
| `HpackDecoder.HeaderDecoder.Shrink` | src/core/control/base/H2.cpp:723-731 | a size update sets the limit and evicts |
| `HpackDecoder.HeaderDecoder.Decode` | src/core/control/base/H2.cpp:654-779 | the fields are those of the block read representation by representation, each of which does what the lemmas of HpackForms say of its octets; after every block, rejected or not, the size is exact, at most the limit, itself at most 4096, and the table is the replay of its history |
| `HpackDecoder.ReadStringField` | src/core/control/base/H2.cpp:413-435 | the length and position of a string literal, or nothing when it is malformed or runs past the end |
| `HpackDecoder.EncodingIsUnique` | src/core/control/base/H2.cpp:437-485 | a Huffman-coded field stands for at most one text |
| `HpackForms.StringReadsBack` | src/core/control/base/H2.cpp:413-485 | a string literal, plain or in the Huffman code with its padding, is read back whatever follows it |
| `HpackForms.SpelledField` | src/core/control/base/H2.cpp:733-776 | in every state a literal with a spelled name yields its field; 0x40 inserts it, 0x00 and 0x10 change nothing, and the rest of the block is decoded in the resulting table |
| `HpackForms.NamedField` | src/core/control/base/H2.cpp:733-776 | the same for a literal whose name is given by an index; an index that names nothing ends the block |
| `HpackForms.IndexedField` | src/core/control/base/H2.cpp:705-718 | an indexed field is the table entry and changes nothing; an index that names nothing ends the block |
| `HpackForms.SizeUpdateField` | src/core/control/base/H2.cpp:719-731 | a size update yields no field and resizes the table; one over 4096 ends the block |
| `HpackForms.InsertedIsFirstIndex` | src/core/control/base/H2.cpp:669-698 | after any block whose last change inserts a field, the block 0xBE decodes to exactly that field when the field fits the table, and is rejected otherwise |
| `HpackForms.StoredFieldComesBack` | src/core/control/base/H2.cpp:773-775 | from octets to octets: a literal with indexing in one block comes back from 0xBE in the next; the other forms leave the table as it was |
| `HpackForms.PseudoHeaders` | src/core/control/base/H2.cpp:42-55 | the one-octet blocks 0x81 to 0x8E decode to the pseudo-headers of requests and responses, 0x88 to status 200 |
| `HpackLimit.BlockRoundTrip` | src/core/control/base/H2.cpp:590-639 | from every decoder state a built block decodes to the fields of the request exactly when every literal is at most 126 octets long, unless the first that is longer consists of 127 zeros and stands right before a further extra header |
| `HpackLimit.LongTextReads` | src/core/control/base/H2.cpp:413-435 | a string of 127 octets is read back as itself only when the next octet is 0 or 128 and either the string is all zeros or one of the next two octets is 128 |
| `HpackLimit.MaskedDependsOnTable` | src/core/control/base/H2.cpp:513-541 | in the excepted case both happen: one block that a decoder with one earlier insertion reads back and a new decoder refuses |
| `HpackBuilder.BuiltBlockDecodes` | src/core/control/base/H2.cpp:590-639 | the sufficient half: a block whose literals are at most 126 octets long decodes to the fields of the request from every state |
| `HpackBuilder.IndexedReadsBack` | src/core/control/base/H2.cpp:504-511 | what the indexed helper writes is read back in every context exactly when the index is at most 126 |
| `HpackBuilder.LiteralIndexedReadsBack` | src/core/control/base/H2.cpp:513-524 | what the indexed-name helper writes is read back in every context exactly when the name index is 1 to 62 and the value is at most 126 octets long |
| `HpackBuilder.LiteralNewReadsBack` | src/core/control/base/H2.cpp:526-541 | the same for the new-name helper and both its strings |
| `HpackBuilder.LongContentTypeIsRejected` | src/core/control/base/H2.cpp:513-524 | a content type of 127 octets is accepted by the builder and the block is refused in every decoder state |
| `HpackBuilder.Build` | src/core/control/base/H2.cpp:590-639 | a block is built exactly when every literal is within the limit of the helpers |
| `Recovery.OneWorker` | src/core/hosted/Recovery.cpp:98-138 | in every reachable state at most one bootstrap thread is alive and it is the joinable one; a filled slot between calls has a thread to join; the unlocked reset of the slot happens when no thread is alive |
| `Recovery.NoStaleConnection` | src/core/hosted/Recovery.cpp:43-53 | once a cancellation has begun, no interleaving leaves a connection of an earlier thread in the slot outside a call that is still clearing it, and none is handed out |
| `Recovery.ReturnedIsFresh` | src/core/hosted/Recovery.cpp:75-140 | a connection handed out was started from the options configured now, with no Configure, Cancel, ChangeNetwork or Reset since its thread started, even when the generation wraps |
| `Recovery.RetryIsNotLost` | src/core/hosted/Recovery.cpp:55-61 | after a reported failure, until a cancellation or a returned connection, there is a deadline or an unstopped thread on the current options, and the event loop has a deadline, a wake-up or a live thread that will wake it |
| `Recovery.ChangedNetworkIsRetried` | src/core/hosted/Recovery.cpp:63-73 | the same after a network change, whose deadline is at once |
| `Recovery.DuePollStarts` | src/core/hosted/Recovery.cpp:98-140 | a poll at or after the deadline starts a thread on the current options |
| `Recovery.RunKeeps` | src/core/hosted/Recovery.cpp:23-140 | the invariant of owner, thread, slot and generation over all interleavings: one live thread, on the current options or stopped, whose completion is the one in the slot; a wanted recovery has a deadline or such a thread |
| `RecoveryDelivery.ConnectionIsHandedOut` | src/core/hosted/Recovery.cpp:75-137 | from every reachable state in which an unstopped thread has made a connection, on every run without a cancellation, the next completion judged by a poll hands out that connection and leaves no retry |
| `RecoveryDelivery.DeliveryRuns` | src/core/hosted/Recovery.cpp:128-138 | such a run exists: the thread publishes and exits, the owner takes and joins |
| `RecoveryDelivery.DueRecoveryCanSucceed` | src/core/hosted/Recovery.cpp:98-138 | from every reachable state in which a poll is due, a thread that connects leads to a connection for the current options |
| `RecoveryDelivery.RunCarries` | src/core/hosted/Recovery.cpp:75-138 | until it is judged or cancelled, a connection that was made is in its thread, in the slot or in the hands of the owner |
| `RecoveryDelivery.CallTakesEffect` | src/core/hosted/Recovery.cpp:36-73 | however Configure, Cancel, ChangeNetwork and Reset race with the thread, they end with the options, interface and deadline they were given and no connection in the slot |
| `RecoveryDelivery.ResetEndsEmpty` | src/core/hosted/Recovery.cpp:23-34 | a reset ends with no options, deadline, completion or thread |
| `RecoveryDelivery.ReportedFailureWaits` | src/core/hosted/Recovery.cpp:55-61 | after a reported failure no poll before the deadline starts a thread, and further reports do not move the deadline |
| `RecoveryDelivery.FailedAttemptWaits` | src/core/hosted/Recovery.cpp:93-101 | nor after an attempt that failed, counted from when it is judged |
| `SessionExclusion.ReplacementIsExclusive` | src/platform/linux/HostedServer.cpp:394-417 | over all interleavings without a timed-out wait, at most one session of a key has passed the barrier and not completed |
| `SessionExclusion.AtMostOneActive` | src/platform/linux/HostedServer.cpp:394-417 | the same with timeouts, on every run in which no session that gave up unregisters ahead of a live one while it is the newest of its key or a live session waits for it |
| `SessionExclusion.HarmIsReal` | src/platform/linux/HostedServer.cpp:474-481 | that condition is exact: after such a step a continuation without another one has two sessions past the barrier |
| `SessionExclusion.OneTimeoutBreaksIt` | src/platform/linux/HostedServer.cpp:402-411 | from every state with an active registered session, a run with one timed-out wait reaches two active sessions |
| `SessionExclusion.PassIsAllowed` | src/platform/linux/HostedConnectionRegistry.cpp:34-43 | when the predecessor of a session has completed, no earlier session of the key is live: waiting for one is enough |
| `SessionExclusion.NoTimeoutIsCalm` | src/platform/linux/HostedServer.cpp:474-481 | without a timeout only sessions that passed the barrier reach the teardown that unregisters, so no step is harmful |
| `SessionReplacement.RegistryHoldsNewest` | src/platform/linux/HostedConnectionRegistry.cpp:128-153 | on every run the registry holds under a key exactly the newest registration until that one unregisters, so a superseded Unregister never removes its successor |
| `SessionReplacement.Registry.Register` | src/platform/linux/HostedConnectionRegistry.cpp:128-140 | the previous registration still alive is returned and the new one takes the key |
| `SessionReplacement.Registry.Unregister` | src/platform/linux/HostedConnectionRegistry.cpp:142-153 | the key is freed only when it still holds this registration, which completes in any case |
| `NoiseEndToEnd.ReceivedIsPrefix` | src/core/control/base/NoiseTransport.cpp:35-148 | with any partial writes and read chunks and no refused send, the messages received are a prefix of those sent, nothing fails, and record i has nonce i on both sides |
| `NoiseEndToEnd.NothingIsLost` | src/core/control/base/NoiseTransport.cpp:35-148 | once every octet has moved and no frame can be taken, everything sent has been received |
| `NoiseEndToEnd.RefusedSendDesynchronises` | src/core/control/base/NoiseTransport.cpp:37-44 | with a cipher that binds the nonce, the next whole record is received exactly when the sends refused before it number a multiple of 2^64; otherwise the receiver stops |
| `NoiseEndToEnd.OneRefusalStopsReceiver` | src/core/control/base/NoiseTransport.cpp:37-44 | a concrete failing run, with a cipher that is correct and binds the nonce: one message too long by an octet, then an empty one, and the receiver fails |
| `NoiseEndToEnd.RunKeeps` | src/core/control/base/NoiseTransport.cpp:35-148 | over all runs the octets between the ends are the records not yet received, and message i is what record i opens to under nonce i |
| `NoiseTransport.TakeIsStable` | src/core/control/base/NoiseTransport.cpp:100-127 | octets that arrive later change neither a frame nor an error |
| `NoiseTransport.FramedLayout` | src/core/control/base/NoiseTransport.cpp:46-53 | a record is the octet 4, the length of the ciphertext most significant octet first, and the ciphertext; a reader finds its end from them |
| `NoiseTransport.TakenExactly` | src/core/control/base/NoiseTransport.cpp:100-127 | a message is taken exactly when the buffer starts with a whole record of type 4 that opens, and nothing behind it is touched; another type is refused |
| `NoiseTransport.Transport.Send` | src/core/control/base/NoiseTransport.cpp:35-54 | the nonce advances in any case; accepted and pending octets grow by exactly the record, or by nothing when it is too large; octets stay pending only when the last write was turned away, and the stream counts as closed only when it took nothing |
| `NoiseTransport.Transport.Flush` | src/core/control/base/NoiseTransport.cpp:56-74 | accepted followed by pending octets never change, whatever the stream accepts; octets stay pending only when the last write was turned away |
| `NoiseTransport.Transport.TryTakeBufferedFrame` | src/core/control/base/NoiseTransport.cpp:100-127 | a frame is taken exactly when the buffer starts with a whole one that opens; the nonce advances with it |
| `NoiseTransport.Transport.Receive` | src/core/control/base/NoiseTransport.cpp:81-98 | the outcome depends only on the octets received and still to arrive, not on their chunks; the capacity asked for is between 1 and 65538 |
| `NoiseTransport.Transport.TryReceive` | src/core/control/base/NoiseTransport.cpp:129-148 | the same for one attempt; it answers nothing only after a read, with no whole frame left in the buffer, and then loses nothing |
| `StreamTransport.Stream.Queue` | src/core/hosted/StreamTransport.cpp:20-32 | the pending octets grow by the octets queued exactly when they fit in 4 MiB; the counter is the pending length |
| `StreamTransport.Stream.Flush` | src/core/hosted/StreamTransport.cpp:34-65 | accepted followed by pending octets always equal the octets queued; octets stay pending only while a read holds the socket, when the last write was turned away, or, with more work announced, when the write budget is used up; a reset is reported only for a write that took nothing or more than was offered |
| `StreamTransport.Stream.Receive` | src/core/hosted/StreamTransport.cpp:67-111 | frames follow the octets read; a batch is short only when the decoder is drained and the peer closed, the read budget is used up or the socket gives nothing; the two flags have their exact meaning; closing follows an empty read, hands out every frame decodable from what arrived and is reported as a reset when there is none; a decoding error is an error of the octets read |
| `StreamTransport.Stream.PlainDelivery` | src/core/hosted/StreamTransport.cpp:67-111 | from a sender of plain frames, a drained stream has handed out exactly the frames that arrived whole |
| `HandshakeLimiter.AdmissionsAreBounded` | src/core/serve/HandshakeLimiter.cpp:25-66 | for every run and any clock, admissions are at most burst + floor(elapsed / interval), elapsed running to the latest time seen |
| `HandshakeLimiter.WindowIsBounded` | src/core/serve/HandshakeLimiter.cpp:25-66 | with a clock that does not go back, every window of a given length admits at most burst + ceil(length / interval) |
| `HandshakeLimiter.PendingIsBalance` | src/core/serve/HandshakeLimiter.cpp:25-44 | pending handshakes are admissions minus finishes and never exceed the limit |
| `HandshakeLimiter.EveryAdmissionIsPaid` | src/core/serve/HandshakeLimiter.cpp:25-66 | every admission is paid by a token held at the start or by a whole interval added since, also when the token sum wraps |
| `HandshakeLimiter.AdmittedExactly` | src/core/serve/HandshakeLimiter.cpp:25-35 | unless the 64-bit token sum wraps, a call is admitted exactly when a slot is free and a token is held or an interval has passed |
| `HandshakeLimiter.DueCallAdmittedExactly` | src/core/serve/HandshakeLimiter.cpp:62-64 | a call that is due and has a free slot is admitted exactly when the token sum does not wrap to nothing |
| `HandshakeLimiter.WrappedSumRefuses` | src/core/serve/HandshakeLimiter.cpp:62-64 | a concrete limiter whose sum does: full, one interval later, it refuses |
| `HandshakeLimiter.SpacedCallsAreAdmitted` | src/core/serve/HandshakeLimiter.cpp:25-66 | on every run, calls at least an interval apart that find a free slot are all admitted |
| `HandshakeLimiter.IdleLimiterServesBurst` | src/core/serve/HandshakeLimiter.cpp:51-66 | after an idle burst of intervals, exactly the burst is admitted of calls at one moment |
| `HandshakeLimiter.TokensServe` | src/core/serve/HandshakeLimiter.cpp:25-35 | of calls at one moment as many are admitted as there are tokens after the refill, slots permitting |
| `HandshakeLimiter.HandshakeLimiter.TryBegin` | src/core/serve/HandshakeLimiter.cpp:25-35 | a handshake is admitted exactly when a slot is free and, unless the token sum wraps, a token is held or an interval has passed since the last refill |
| `HandshakeLimiter.HandshakeLimiter.Refill` | src/core/serve/HandshakeLimiter.cpp:51-66 | the whole intervals elapsed are added, up to the burst, unless the token sum wraps; the refill time moves by exactly them and less than one is left over |
| `HandshakeLimiter.Create` | src/core/serve/HandshakeLimiter.cpp:9-23 | a limiter is made exactly from positive values |
| `SendQueue.EveryPacketIsAccountedFor` | src/core/derp/SendQueue.cpp:18-57 | over every history the packets accepted in a class are those that left, in order, followed by those queued, in order; control is dropped only when no data is left, data popped only when no control is, as counted in the queue each time; both limits hold |
| `SendQueue.HistoryIsConserved` | src/core/derp/SendQueue.cpp:18-57 | the same from any queue within its limits |
| `SendQueue.DerpSendQueue.Push` | src/core/derp/SendQueue.cpp:18-44 | the packets dropped are the fewest, data first: with fewer, the queue and the new packet would exceed a limit, and none are dropped when they fit; a packet over the byte limit changes nothing |
| `SendQueue.DropsOnlyToFit` | src/core/derp/SendQueue.cpp:25-38 | the number dropped is the least with which the queue and the new packet keep both limits; nothing is dropped when they already do |
| `SendQueue.EmptiesInOrder` | src/core/derp/SendQueue.cpp:46-57 | popping until the queue is empty returns every packet once: all control, then all data, in order of arrival |
| `SendQueue.DerpSendQueue.Pop` | src/core/derp/SendQueue.cpp:46-57 | control leaves before data, each class from its front |
| `IpRange.BlockContains` | src/core/net/IpRange.cpp:74-78 | a block contains an address exactly when it has the family and agrees on the first prefix bits (section 3.1 of RFC 4632) |
| `IpRange.Block` | src/core/net/IpRange.cpp:54-71 | the bit loop yields the prefix followed by zeros and by ones; a prefix wider than the address is refused |
| `IpRange.ChangeBit` | src/core/net/IpRange.cpp:67-69 | masking changes one bit of the octets and no other |
| `IpRange.BytesCompareByBits` | src/core/net/IpRange.cpp:20-23 | comparing octets lexicographically is comparing bits lexicographically |
| `IpRange.BetweenContains` | src/core/net/IpRange.cpp:33-43 | a dashed range contains exactly the addresses whose numbers lie between its ends, and is not empty |
| `IpRange.TryParse` | src/core/net/IpRange.cpp:31-72 | a text in any of the three forms is accepted exactly when it stands for addresses, and the range contains exactly those |
| `Delegation.RequestIsCanonical` | src/core/hosted/Delegation.cpp:75-144 | a frame decodes to a request exactly when the request is valid and the frame is its encoding |
| `Delegation.ReplyIsCanonical` | src/core/hosted/Delegation.cpp:95-166 | the same for replies |
| `Delegation.AcknowledgementIsCanonical` | src/core/hosted/Delegation.cpp:53-73 | the same for acknowledgements of a network map |
| `Delegation.IdentityLayout` | src/core/hosted/Delegation.cpp:41-51 | octets 0 to 7, 8 to 15 and 16 to 23 of an identity are the generation, the request and the revision, most significant octet first |
| `Delegation.MessageLayout` | src/core/hosted/Delegation.cpp:84-107 | behind the identity stand action and count, and the regions two octets each in order; in a reply, status and failure |
| `Delegation.EncodeRequest` | src/core/hosted/Delegation.cpp:75-93 | a frame is made from exactly the valid requests, and is the encoding |
| `Delegation.EncodeReply` | src/core/hosted/Delegation.cpp:95-107 | a frame is made from exactly the valid replies, and is the encoding |
| `Delegation.DecodeRequest` | src/core/hosted/Delegation.cpp:109-144 | reading regions one by one, each against the last, decides validity of the whole |
| `Delegation.NeighboursDecideOrder` | src/core/hosted/Delegation.cpp:77-83 | sortedness and adjacent difference decide that the regions increase strictly |

## Left out

- JSON codecs, network-map parsing and control requests: they depend on a library and on exchanges with a server.
- Cryptographic primitives: the Noise cipher is abstract.
- Sockets, epoll, TUN, netlink, state files and process control: input and output plumbing.
- TransitionCoordinator, DelegationLease, ReplayWindow, PeerPathState, RetryBackoff: not part of this model; the backoff delay is an arbitrary natural number.
- Text parsing of addresses and prefixes: ranges start from parsed parts, absent when a part did not parse.
- HTTP/2 framing around header blocks, DATA and SETTINGS frames: easy members beside the header codec.
- The visibility functions of the hosted registry (`UpdateNetworkMap`, `WaitForNodeVisibility`): they do not touch the replacement protocol.
- Sizes and counts are unbounded except where the program's width matters: nonces, generations and token sums wrap at 2^64, header integers are checked at 2^32, stream offsets at 2^64.
- `m_bytes + payload` in the send queue is not wrapped: both are sizes of objects in memory.
- HpackDecoder.HeaderDecoder.Decode: gives the fields in the order of the block; the program collects them in an unordered multimap.
- HpackLimit.BlockRoundTrip: leaves out requests whose first string of 127 octets is all zeros right before a further extra header; the string then swallows an octet of that header, and whether the rest still reads as the same fields depends on the decoder's table, both ways (`HpackLimit.MaskedDependsOnTable`).
- RelayProgress.FinishIsReachable: says that a run can be completed, not that the network completes it; for streams longer than the window `RelayLongStreams.CaughtUpCanFinish` and `RelayLongStreams.FullStoreNeverFinishes` give the exact condition, for runs in which everything delivered has been decoded.
- SessionReplacement.Registry.Register: which weak pointers have expired is a parameter; the run theorems derive it from the sessions' lifetimes.
- StreamTransport.Stream.Receive: frames decoded before an error in the same call are lost with it, as in the program; the stream is then outside its guarantees.
