# Rumor: a verified model

Rumor is a shell for Ethereum consensus networking on top of libp2p. Most of it is command
plumbing; this project models the parts that keep state over many steps and proves what they
promise over every input, every run and every interleaving.

- **Req/resp framing** (`Varint`, `Streams`, `BufLimitRead`, `Encode`, `HandleResponse`, `RpcMethod`,
  `TornResponse`, `HandleRequest`): "The Req/Resp domain" of the Ethereum consensus phase0 p2p-interface specification,
  with the "Base 128 Varints" of the Protocol Buffers encoding for lengths. A stream may cut its bytes
  over reads in any way. The decoding loop over the limited read-ahead buffer is proved equal to a
  parser that knows neither buffer nor limits, for all byte streams; the parser is proved inverse to the writer, and exact about torn and malformed streams.
- **Auto-connect** (`PeerChannels`, `ConnectAll`, `ConnectAllReach`): bounded priority channels, nested selects,
  retries and scans as interleaved atomic steps. Conservation, order, a bound on the attempts at failing
  peers, and which peers can still be attempted.
- **Peer metadata** (`MetadataBook`, `MetadataLaws`, `MetadataStore`, `PingPong`, `PingPongRuns`, `PingPongCommands`):
  a cache over a datastore whose calls may fail, refined to the history of calls; persistence with and without a flush; which requests interleaved pings and pongs make, and how many.
- **Lines, tees, finalized chain, sync, addresses, merges** (`LinesReader`, `Tees`, `ColdChain`, `Sync`,
  `SyncPipeline`, `Range`, `HostAddrs`, `Merge`).

Objects of the source are classes; each method is specified by a function or relation on values
(`View`, `Parse`, `Served`, `System`, `Book`, `Replay`, ...) about which the lemmas are stated.
Sums of shifted seven-bit groups stand for the bitwise or in the varint loop, which reads at most ten bytes.

## Where the code departs from what it is for

Each of these is kept as the code has it; the members named say when it happens, exactly, and show a case where one helps.

- A size limit of 2^63 or more becomes negative when converted to `int`: payloads are dropped without an
  error and read as the next chunk (`RpcMethod.LimitMustFitInt`, `HandleRequest.RequestRoundTrip`).
- A refill that arrives together with an error is counted but not copied
  (`BufLimitRead.CanWithholdIff`, `BufLimitRead.ReadRefines`, `BufLimitRead.EagerStreamLosesLastByte`).
- The buffer's comment promises an error when a read crosses the limit; the code shortens the read and
  answers end of file once the limit is used up (`BufLimitRead.CrossingLimitIsNoError`;
  p2p/rpc/reqresp/buf_limit_read.go:19, 42-50).
- A payload cut short by an orderly end of stream reaches the callback short, with no error (`TornResponse.TornInPayload`, `HandleRequest.RequestCutInPayload`).
- A request handler's captured maximum is zeroed by one invalid stream: every later request is then
  served as an empty one, valid or not (`HandleRequest.SameLimitIffNoInvalid`, `AfterInvalidAllEmpty`).
  Under a widening compression it grows with each valid stream, so no later stream meets the limits the
  handler was made with, until the compression refuses the size and the limit is zero for good
  (`HandleRequest.CompressedLimitSameIff`, `CompressedLimit`, `CompressedLimitRunsOut`).
- "r will not read anything more" of an invalid stream (p2p/rpc/reqresp/handle_request.go:16) does not
  hold under compression: its limit is `MaxEncodedLen(0)` (`HandleRequest.ReadInvalid`).
- Two commands can look the metadata up before either registers what it fetched, so a request can be
  made for metadata that has just arrived (`PingPongRuns.OvertakenIff`, `PingPongRuns.OvertakingHappensIff`).
- There are never more than ten priority channels and a retry past the last one is dropped, so a
  `MaxRetries` above ten changes nothing: a lone failing entry gets at most ten attempts (`ConnectAll.FailingPeersDrain`).
- A peer that failed and whose retry found no room is out for good, before its retries are used up
  (`ConnectAllReach.FailedPeerAttemptedIff`, `ConnectAllReach.StrandedIff`).
- A reopened metadata book lowers a stored claim it has not looked up (`MetadataLaws.ClaimFallsIff`).
- Observers replay a batch's puts before its deletes, so a key deleted and then put again is lost to
  them; `Reset` forgets the tee's lists but not the wrapped batch (`Tees.ReplayMatchesIff`, `Tees.DSTeeBatch.Reset`).
- A duplicate in the current address list is announced as added (`HostAddrs.MakeUpdatedAddrEvent`,
  `HostAddrs.DiffOf`). A change in an event that is not emitted is not announced again; a subscriber is
  wrong about an address until the next emitted event that names it, or until a second change is lost
  (`HostAddrs.AnnounceSome`, `HostAddrs.SkippedTwiceIsCurrent`).
- A resolver answer that does not parse is dereferenced all the same (`HostAddrs.ResolveAddrs`).
- A sync whose consumer returns early leaves the requesting goroutine blocked for good if more blocks are
  left than the channel takes. No command sets `ExpectedCount`, so it takes none; with room for every
  block it could not happen (`SyncPipeline.BlocksIff`, `SyncPipeline.UncancelledBlocksIff`).
- Merging shares eth2 parts between entries, so a status can be overwritten through the wrong entry
  (`Merge.MergeInTurn`, `Merge.MergeWritesThrough`).
- A slot range that leaves 64 bits is never served or accepted whole: the client refuses a block of a slot cut off as bad, and
  the server ends its walk early, or asks its chain for a slot it does not have and answers an error
  (`Range.ClientAcceptsRange`, `Range.CutRangeExample`, `Range.ServeRange`).
- `FinalizedChain.ClosestFrom` looks a block root up among the state roots (chain/cold.go:151); it is not modelled.

## Model

| member | source | states |
|---|---|---|
| Varint.EncodeShape | p2p/rpc/reqresp/encode.go:20-26 | the bytes of a length header: the continuation bit on all but the last, and groups that add up to the number |
| Varint.EncodeDigits | p2p/rpc/reqresp/encode.go:20-26 | the i-th byte holds the i-th seven-bit group, the lowest first |
| Varint.EncodeExample | p2p/rpc/reqresp/encode.go:20-26 | the example of the Protocol Buffers encoding: 150 is 0x96 0x01, both ways |
| Varint.PutUvarint | p2p/rpc/reqresp/encode.go:20-26 | the in-place writing loop leaves exactly the wire form in the front of the buffer, at most 10 bytes, and the rest untouched |
| Varint.DecodeEncode | p2p/rpc/reqresp/handle_response.go:41-45 | every 64-bit length is read back from exactly its own 1 to 10 bytes, whatever bytes follow |
| Varint.DecodeTurn | p2p/rpc/reqresp/handle_response.go:41-45 | one turn of the decoding loop keeps the collected groups equal to those of the bytes read, never leaves 64 bits before it is told to, and recognises end and overflow where the reference decoder does |
| Streams.Stream.Read | p2p/rpc/reqresp/buf_limit_read.go:56-80 | the underlying reader: at least one byte and at most the asked number, in order, end reported past the last byte (or with it, if eager) |
| Streams.Copy | p2p/rpc/reqresp/encode.go:46-93 | io.Copy moves all bytes in order; a writer that fails is left with a prefix; success iff everything fitted and the source ended orderly |
| BufLimitRead.BufLimitReader.Read | p2p/rpc/reqresp/buf_limit_read.go:36-86 | every read is one ReadStep of the value model: at most one refill, only when drained, never past N; limit charged unless PerRead; caller's buffer holds exactly the next bytes |
| BufLimitRead.ReadRefines | p2p/rpc/reqresp/buf_limit_read.go:36-86 | bytes delivered followed by bytes buffered are always the bytes taken from the stream; the bytes counted are the bytes delivered iff the read did not withhold a refill that came with an error |
| BufLimitRead.CanWithholdIff | p2p/rpc/reqresp/buf_limit_read.go:63-79 | known before the call: a read can lose its refill iff it would refill an empty buffer smaller than itself from a stream that reports its end with its last bytes and has no more left than is asked for |
| BufLimitRead.CrossingLimitIsNoError | p2p/rpc/reqresp/buf_limit_read.go:41-50 | on a stream that reports its end after its last bytes, a read fails iff the limit is already used up, or it asks for bytes and none are pending; one that crosses the limit is shortened |
| BufLimitRead.DeliveringRead | p2p/rpc/reqresp/buf_limit_read.go:82-86 | a read that withholds nothing delivers the next n pending bytes and leaves the others pending in order |
| BufLimitRead.LimitedRunTakesAtMostLimit | p2p/rpc/reqresp/buf_limit_read.go:41-50 | over any run of reads between two assignments of N, a reader started empty with limit L takes at most L bytes from the stream, read-ahead included, for every kind of stream |
| BufLimitRead.BufLimitReader.ReadByte | p2p/rpc/reqresp/buf_limit_read.go:88-95 | under limit 1: the next byte or the stream's end, no read-ahead, and a lost byte exactly when an eager stream holds its last one |
| BufLimitRead.EagerStreamLosesLastByte | p2p/rpc/reqresp/buf_limit_read.go:76-79 | concrete failure: the last byte of a stream that reports its end with it is answered as zero plus the error, for every byte value |
| BufLimitRead.BufLimitReader.ReadUvarint | p2p/rpc/reqresp/handle_response.go:41-45 | the byte-by-byte reader agrees with the reference decoder on every pending byte sequence, consumes exactly the header and keeps an empty buffer empty |
| BufLimitRead.BufLimitReader.ReadSize | p2p/rpc/reqresp/handle_request.go:45-48 | setting the limit to 1 per read, reading the header and restoring the mode leaves the reader at the first payload byte |
| Encode.StreamHeaderAndPayload | p2p/rpc/reqresp/encode.go:70-93 | announced size then payload; prefix on failure, everything iff success |
| Encode.EncodeHeaderAndPayload | p2p/rpc/reqresp/encode.go:46-66 | buffers first, so the header announces the real length; nothing is written when the source breaks |
| Encode.StreamChunk | p2p/rpc/reqresp/encode.go:112-117 | result byte, header, payload in that order; the writer holds a prefix of the frame, the frame iff success |
| Encode.ShortFrame | p2p/rpc/reqresp/encode.go:103-117 | the bytes of a chunk of less than 128 bytes, one by one: result byte, one length byte, payload |
| Encode.EncodeChunk | p2p/rpc/reqresp/encode.go:103-108 | always an honest frame, or only the result byte when the source breaks |
| HandleResponse.ReadRaw | p2p/rpc/reqresp/rpc_method.go:158-162 | reads min(size, limit, available) bytes whatever buffer sizes are offered; silent at an orderly end, an error at a broken one |
| HandleResponse.HandleChunks | p2p/rpc/reqresp/handle_response.go:22-79 | for every byte stream, fragmentation, limit, chunk cap and callback, the imperative loop over the read-ahead buffer does what the buffer-free Parse says: same chunks, same outcome, same error |
| HandleResponse.ReadHead | p2p/rpc/reqresp/handle_response.go:33-60 | result byte, header and limit choice agree with ParseHead on every input, including truncated and oversized headers |
| RpcMethod.ParseFrames | p2p/rpc/reqresp/handle_response.go:32-76 | response round trip: parsing the frames of any honest chunk list gives what the list itself calls for, for every cap, limit below 2^63, callback and stream end |
| RpcMethod.AllChunksArrive | p2p/rpc/reqresp/handle_response.go:32-76 | chunks that fit and are accepted arrive as exactly that list, indices 0, 1, 2, ..., cut at the chunk cap |
| RpcMethod.TurnOfFrame | p2p/rpc/reqresp/handle_response.go:45-60 | one frame in front of any bytes: refused iff over its limit, otherwise handed over and nothing after it touched |
| TornResponse.AfterChunks | p2p/rpc/reqresp/handle_response.go:32-76 | accepted chunks that fit are handed over, and whatever bytes follow are read as if they came first, with the chunk count so far |
| TornResponse.TornInHeader | p2p/rpc/reqresp/handle_response.go:33-49 | accepted chunks, then one more frame cut inside its length header: an error, also when the stream ends in order there |
| TornResponse.TornInPayload | p2p/rpc/reqresp/handle_response.go:50-70 | cut inside its payload: an error if the stream broke, otherwise the short payload goes to the callback and its verdict decides |
| TornResponse.TooLongAfter | p2p/rpc/reqresp/handle_response.go:41-49 | accepted chunks, then a header of more than 64 bits: an error |
| TornResponse.DoneIffWellFramed | p2p/rpc/reqresp/handle_response.go:32-76 | exact condition for every byte stream: if every chunk is accepted there is no error iff the bytes are whole pieces up to the cap, or up to an orderly end, where the last payload may be short |
| RpcMethod.LimitMustFitInt | p2p/rpc/reqresp/handle_response.go:54 | exact condition: a non-empty chunk within its limit arrives intact iff that limit is below 2^63, because the limit is converted to a signed integer |
| RpcMethod.Exchange | p2p/rpc/reqresp/rpc_method.go:174-216 | chunks written back to back and read through an arbitrarily fragmenting stream give the callback what the list calls for |
| RpcMethod.WriteRawResponseChunk | p2p/rpc/reqresp/rpc_method.go:290-292 | the honest frame of the chunk, whole iff success |
| RpcMethod.WriteErrorChunk | p2p/rpc/reqresp/rpc_method.go:298-305 | the frame of the message, shortened to 256 bytes ending in three dots if longer |
| RpcMethod.ErrorChunkArrives | p2p/rpc/reqresp/rpc_method.go:298-305 | an error chunk gets through to any requester whatever its message and the requester's limit; messages up to 256 bytes unaltered, longer ones as their first 253 bytes and three dots |
| RpcMethod.WriteChunks | p2p/rpc/reqresp/rpc_method.go:290-292 | a sequence of chunk writes leaves the concatenated frames on the wire |
| RpcMethod.RunRequest | p2p/rpc/reqresp/rpc_method.go:174-216 | the request is sent as one message; the response is read iff it was sent and the hook agreed, and then exactly as Parse says |
| HandleRequest.StreamHandler.Handle | p2p/rpc/reqresp/handle_request.go:22-82 | length, reader and verdict handed to the listener, the payload limit, and the captured maximum left for the next stream |
| HandleRequest.StreamHandler.Serve | p2p/rpc/reqresp/rpc_method.go:266-279 | an uncompressed stream read with RawRequest yields Served of its bytes and the limits, however it is fragmented |
| HandleRequest.RequestRoundTrip | p2p/rpc/reqresp/handle_request.go:36-56 | at maximum zero every stream is answered empty; otherwise accepted iff the length lies between minimum and maximum; handed over unchanged iff empty or the maximum is positive and below 2^63 |
| HandleRequest.AnnouncedSizeJudged | p2p/rpc/reqresp/handle_request.go:51-65 | for any announced size, with or without compression: too small, too big, not compressible or accepted, in that order |
| HandleRequest.RequestThenMore | p2p/rpc/reqresp/handle_request.go:66-80 | bytes behind an accepted request make no difference |
| HandleRequest.RequestCutInHeader | p2p/rpc/reqresp/handle_request.go:45-50 | a request that ends inside its length header is an invalid one, however the stream ends |
| HandleRequest.RequestHeaderTooLong | p2p/rpc/reqresp/handle_request.go:45-50 | so is one with a header of more than 64 bits |
| HandleRequest.RequestCutInPayload | p2p/rpc/reqresp/rpc_method.go:266-279 | cut inside its payload: an error if the stream broke, otherwise served short |
| HandleRequest.SameLimitIffNoInvalid | p2p/rpc/reqresp/handle_request.go:66-69 | exact condition for later streams: without compression the captured maximum is the original one iff no earlier stream was invalid, and zero otherwise |
| HandleRequest.AfterInvalidAllEmpty | p2p/rpc/reqresp/handle_request.go:36-39 | after one invalid stream every later one is served as an empty request, whatever it holds |
| HandleRequest.CompressedLimit | p2p/rpc/reqresp/handle_request.go:57-69 | under a widening compression: MaxEncodedLen applied once for every stream handled if each was valid under the limit it met, and zero iff one was not |
| HandleRequest.CompressedLimitGrows | p2p/rpc/reqresp/handle_request.go:57-69 | under a widening compression the limit is zero or has grown by at least the number of streams |
| HandleRequest.CompressedLimitSameIff | p2p/rpc/reqresp/handle_request.go:57-69 | exact condition: under a widening compression the original maximum is met again iff there was no earlier stream, or it is zero |
| HandleRequest.CompressedLimitRunsOut | p2p/rpc/reqresp/compression.go:30-39 | with a compression that refuses sizes above some bound, enough streams, even valid ones alone, bring the limit to zero, after which every request is served as empty |
| HandleRequest.ReadInvalid | p2p/rpc/reqresp/handle_request.go:66-76 | an invalid stream can still be read iff there is a compression whose MaxEncodedLen(0) is a positive signed integer and bytes follow the header |
| PeerChannels.PriorityChannels.TrySend | control/actor/peer/connectall.go:109-114 | one select: accepted iff the channel has room, appended at its end |
| PeerChannels.PriorityChannels.TryReceive | control/actor/peer/connectall.go:72-92 | one select over the context and the first channels: any ready case, a channel giving its oldest peer; with none ready the default if there is one, else it blocks |
| PeerChannels.PriorityChannels.Schedule | control/actor/peer/connectall.go:106-118 | undisturbed: the first channel with room at or after the wanted priority; refused iff there is none, with nothing changed |
| PeerChannels.PriorityChannels.Next | control/actor/peer/connectall.go:51-100 | undisturbed: the oldest peer of the lowest non-empty channel, reported with that channel's index; blocks iff all are empty; once the context is done, nothing or a peer of the first channel |
| ConnectAll.InvStep | control/actor/peer/connectall.go:51-118 | every atomic step keeps conservation, FIFO order, capacities and the priority bound |
| ConnectAll.EveryRunConserves | control/actor/peer/connectall.go:51-118 | in every interleaving from the start, what a channel ever accepted is what was delivered from it followed by what it holds, in order; capacities hold; the reported priority is never below the channel taken from |
| ConnectAll.ChannelsAreFifo | control/actor/peer/connectall.go:104-118 | in every interleaving from the start, the peers sent to a channel by the steps of the run are, in that order, those delivered from it followed by those it holds |
| ConnectAll.EntriesStep | control/actor/peer/connectall.go:171-286 | moving a peer between scan, channel, worker and retry never makes a second entry; only a scan adds one; the failure that exhausts the channels removes one |
| ConnectAll.PotentialStep | control/actor/peer/connectall.go:198-221 | max(0, n-1-attempts) + entries never grows without a success or a new scan entry and strictly falls with every failure |
| ConnectAll.FailingPeersDrain | control/actor/peer/connectall.go:157-165 | over any run without success or new scan entry, failures plus attempts under way are at most max(0, n-1-attempts) + entries |
| ConnectAll.FailedPeersAreNotPicked | control/actor/peer/connectall.go:244-265 | a peer that has failed is not picked by any scan until it succeeds |
| ConnectAll.FailedPeersDrain | control/actor/peer/connectall.go:198-246 | once a peer has failed, the drain bound holds with no assumption about scans |
| ConnectAll.DrainedPeersStayOut | control/actor/peer/connectall.go:205-221 | a failed peer without entries is never attempted again in any run |
| ConnectAll.KthFailureStartsAtK | control/actor/peer/connectall.go:198-221 | over any run from the start without a success, the k-th failure leaves a retry that starts at channel k, if there is such a channel, and none that can reach one otherwise |
| ConnectAllReach.FailedPeerAttemptedIff | control/actor/peer/connectall.go:51-118 | exact condition: from any reachable state, some run attempts a failed peer iff it still has an entry in a channel, with a worker, in a retry that can reach a channel or before the scan, and some worker has not stopped |
| ConnectAllReach.QueuedIsAttempted | control/actor/peer/connectall.go:72-92 | one worker alone gets to any queued peer, in whichever channel it is |
| ConnectAllReach.RetryIsAttempted | control/actor/peer/connectall.go:205-214 | a retry that can still reach a channel gets into the one it is about to try once the worker has made room there |
| ConnectAllReach.StrandedIff | control/actor/peer/connectall.go:205-214 | from the start, some run leaves a given peer with one failure, retries left and no entry iff MaxRetries is at least 2: its retry finds every channel from the second on full |
| ConnectAllReach.RetryAlone | control/actor/peer/connectall.go:106-118 | the steps of one retry alone come to what the scheduler does: its peer goes to the first channel with room from where it stands |
| ConnectAllReach.RetryGivenUp | control/actor/peer/connectall.go:106-118 | and with no room in any of them it is given up |
| ConnectAllReach.WorkerAlone | control/actor/peer/connectall.go:51-100 | the steps of one worker alone come to what the consumer does: the oldest peer of the lowest channel that has one, with that priority |
| ConnectAllReach.FullScanGivesUp | control/actor/peer/connectall.go:279-286 | a scan that finds every channel full skips the round: nobody it still had to schedule is sent anywhere |
| ConnectAll.AttemptBook.OnFailure | control/actor/peer/connectall.go:199-221 | counts the failure and leaves the retry the step model has; the retry can reach a channel iff the count is below the number of channels |
| ConnectAll.AttemptBook.PickPeers | control/actor/peer/connectall.go:239-277 | a prefix of the eligible peers, as long as the peer limit allows and no shorter, all with a zero attempt count |
| ConnectAll.EligibleConcat | control/actor/peer/connectall.go:244-269 | whom a scan considers is decided stored peer by stored peer, in stored order |
| MetadataBook.ClaimBytes | p2p/track/dstrack/metadata.go:69-87 | the i-th of the eight stored bytes is the i-th byte of the claim, and reading them back gives the claim |
| MetadataBook.DsMetadataBook.Metadata | p2p/track/dstrack/metadata.go:95-106 | read-through lookup as the value model has it |
| MetadataBook.DsMetadataBook.ClaimedSeq | p2p/track/dstrack/metadata.go:114-125 | read-through claim lookup as the value model has it |
| MetadataBook.DsMetadataBook.RegisterSeqClaim | p2p/track/dstrack/metadata.go:128-138 | the whole new state of cache and datastore, and whether the claim was news |
| MetadataBook.DsMetadataBook.RegisterMetaFetch | p2p/track/dstrack/metadata.go:142-149 | one more than before, and only that counter changed |
| MetadataBook.DsMetadataBook.RegisterMetadata | p2p/track/dstrack/metadata.go:152-172 | the whole new state of cache, datastore and counter, and whether the metadata was news |
| MetadataBook.DsMetadataBook.Flush | p2p/track/dstrack/metadata.go:174-190 | success iff every put succeeds, then every cached value is stored; on failure some cached claims and metadata are stored and nothing else changed |
| MetadataLaws.BookRefinesHistory | p2p/track/dstrack/metadata.go:89-172 | from an empty datastore, over any calls and datastore failures: Metadata is the first-registered with the greatest number, the claim is the greatest number ever registered |
| MetadataLaws.NeverBack | p2p/track/dstrack/metadata.go:127-172 | neither answer ever decreases and the claim never trails the metadata |
| MetadataLaws.PersistenceRoundTrip | p2p/track/dstrack/metadata.go:174-190 | after a successful flush a new book on the same datastore gives the same answers for every peer |
| MetadataStore.UnflushedPersistence | p2p/track/dstrack/metadata.go:127-172 | without a flush: after any calls whose puts succeed, a new book on the same datastore answers as the old one did, if the datastore can be read |
| MetadataStore.StoredMetaRefinesHistory | p2p/track/dstrack/metadata.go:152-172 | whatever puts fail: the datastore holds the metadata of the last call that registered newer metadata and whose put succeeded |
| MetadataStore.StoredClaimRefinesHistory | p2p/track/dstrack/metadata.go:127-172 | whatever puts fail: it holds the last number that was news as a claim, claimed or with metadata, and whose put succeeded |
| MetadataStore.NewsIff | p2p/track/dstrack/metadata.go:127-172 | what the registering calls answer: a claim is news iff above every number seen or the first one known, metadata iff newer than all registered before |
| MetadataLaws.ReopenedBookRefinesBoth | p2p/track/dstrack/metadata.go:89-194 | flushed, reopened and looked up once, a book answers over any further run as if it had never been closed: by the two histories joined |
| MetadataLaws.ClaimFallsIff | p2p/track/dstrack/metadata.go:159-169 | the exact operations that make a claim fall: the claim is stored but was never looked up, and a lower positive metadata number is accepted or the datastore cannot be read |
| MetadataLaws.LookedUpClaimsNeverFall | p2p/track/dstrack/metadata.go:114-125 | a claim that was looked up once never falls, in any run |
| MetadataLaws.ReopenedBookForgets | p2p/track/dstrack/metadata.go:159-169 | concrete failure: a reopened book given metadata 5 overwrites the stored claim 10 |
| MetadataLaws.RetryBudget | p2p/track/dstrack/metadata.go:142-163 | between two resets the requests granted are exactly the counter's move within the budget, so at most MaxTries |
| MetadataLaws.ResetOnlyByNewest | p2p/track/dstrack/metadata.go:156-163 | the counter is reset iff the metadata is newer than all registered before and at least as new as every claim |
| PingPong.Decide | control/actor/peer/metadata/ping.go:78-85 | a request is made iff forced, or updating is on, the metadata is missing or older than the number, and the budget grants it |
| PingPong.Ping | control/actor/peer/metadata/ping.go:59-108 | what a ping does to the book and when it asks for metadata, for every kind of reply |
| PingPong.ListenReq | control/actor/peer/metadata/pong.go:53-96 | what serving a ping answers, does to the book and spawns; an unreadable ping leaves no trace |
| PingPongCommands.PingIsRun | control/actor/peer/metadata/ping.go:59-108 | a non-forced, updating ping leaves the book, and makes the requests, of its own command in the interleaved model run without interruption |
| PingPongCommands.ListenIsRun | control/actor/peer/metadata/pong.go:53-96 | serving a ping does too, up to the request it spawns |
| PingPongCommands.RunCommands | control/actor/peer/metadata/ping.go:78-85 | over any series of such commands a peer is asked at most MaxTries times for each reset of its counter and once more, and at most MaxTries times if nothing the requests bring is registered |
| PingPongRuns.RequestsOnlyWhenBehind | control/actor/peer/metadata/pong.go:71-79 | in any interleaving on any book, every request has its own command's lookup before it, with no call of that command in between, which found the metadata missing or older than its number; and the counter granted it |
| PingPongRuns.OvertakenIff | control/actor/peer/metadata/pong.go:71-79 | such a request is made although the metadata is as new as its number iff another command registered metadata that new between the lookup and the count |
| PingPongRuns.RequestsOvertakenIff | control/actor/peer/metadata/ping.go:78-101 | the same for every request of every interleaving that starts on an empty book |
| PingPongRuns.OvertakingHappensIff | control/actor/peer/metadata/ping.go:78-101 | that it happens: for every peer and number, some interleaving of two pings requests metadata that is already there iff MaxTries is at least 1 |
| PingPongRuns.RequestsWithinBudget | control/actor/peer/metadata/ping.go:78-85 | over any interleaving of non-forced pings and pongs a peer is asked at most MaxTries times per reset of its counter, and once more |
| LinesReader.LinesReader.Read | control/util.go:40-74 | bytes returned followed by the carry-over are the text of all lines pulled; at most one line per call; bytes or an error, never both, never neither for a non-empty buffer |
| LinesReader.LinesReader.Serve | control/util.go:50-67 | from the carry-over if there is one, else from the next line; an error is consumed alone |
| LinesReader.ReadToError | control/util.go:40-74 | reading with buffers of any sizes returns the carry-over and every line up to the first error, each with its newline |
| LinesReader.TextToCome | control/util.go:50-67 | one read of any size takes exactly the next bytes off the text still to come |
| Tees.DSTee.Put | p2p/track/dstee/tee.go:31-37 | store and all observers move together, or not at all when the put fails |
| Tees.DSTee.Delete | p2p/track/dstee/tee.go:39-45 | store and all observers move together, or not at all when the delete fails |
| Tees.DSTeeBatch.Put | p2p/track/dstee/tee.go:62-68 | the tee batch stays in step with the wrapped batch |
| Tees.DSTeeBatch.Delete | p2p/track/dstee/tee.go:70-76 | the tee batch stays in step with the wrapped batch |
| Tees.DSTeeBatch.Commit | p2p/track/dstee/tee.go:78-84 | observers hold their part of a replay of the batch; in step with the store iff no key that some observer's pattern matches was put again after a delete |
| Tees.DSTeeBatch.Reset | p2p/track/dstee/tee.go:86-89 | forgets only the tee's lists: in step with the wrapped batch afterwards iff that was empty |
| Tees.ReplayMatchesIff | p2p/track/dstee/tee.go:55-84 | exact condition: replaying puts and then deletes gives the store's content iff the batch put no key again after deleting it |
| Tees.FilteredReplayMatchesIff | p2p/track/dstee/filter.go:30-46 | the same behind a filter: its part of the replay is its part of the store iff no matching key was put again after a delete |
| Tees.MirrorTee.OnBatch | p2p/track/dstee/log.go:31-38 | puts first, then deletes |
| Tees.FilterTee.OnBatch | p2p/track/dstee/filter.go:30-46 | the inner observer gets exactly the matching puts and deletes, in order |
| Tees.FilterPutsConcat | p2p/track/dstee/filter.go:30-36 | puts are filtered one by one and keep their order |
| Tees.FilterKeysConcat | p2p/track/dstee/filter.go:37-42 | so are deletes |
| Tees.RestrictReplay | p2p/track/dstee/filter.go:30-46 | filtering a batch and replaying it on the restriction is replaying it and then restricting |
| Tees.MultiTee.Tell | p2p/track/dstee/multi.go:20-36 | in whatever order members are told, each ends with its part of the changed content |
| ColdChain.FinalizedChain.OnFinalizedEntry | chain/cold.go:177-191 | accepts exactly the next slot's entry; arrays and both indexes agree with the log of accepted entries, and a refusal changes nothing |
| ColdChain.FinalizedChain.BySlot | chain/cold.go:164-175 | answers exactly the slots Start..End-1 |
| ColdChain.FinalizedChain.ByStateRoot | chain/cold.go:130-136 | succeeds iff an entry with that state root was appended, and answers the last one, whose state root it is |
| ColdChain.FinalizedChain.ByBlockRoot | chain/cold.go:138-144 | succeeds iff a non-empty entry with that block root was appended, and answers the last one |
| ColdChain.FinalizedChain.BlockRootsFoundAtFirst | chain/cold.go:27-37 | in a linked chain with fresh blocks every block root is found where it first appears, and later slots are empty exactly when they repeat it |
| ColdChain.LastBlockIsFirst | chain/cold.go:186-189 | the index by block root points at the first appearance although later writes win |
| ColdChain.EmptyIffRepeated | chain/cold.go:193-205 | an entry is empty exactly when its block root stood before it |
| ColdChain.ColdChainIter.Entry | chain/cold.go:102-118 | an iterator answers its whole range and nothing outside it, however far the chain has grown |
| Sync.AcceptedInOrder | p2p/rpc/reqresp/handle_response.go:32-76 | for any bytes, accepted chunks were accepted each at its own index, in order, below the cap |
| Sync.IndexStaysBelowCap | p2p/rpc/reqresp/handle_response.go:32 | the callback is never consulted at or past the chunk cap: what it would say there makes no difference |
| Sync.IndexInRange | control/actor/chain/chcmd/sync/root.go:120 | indexing the request by the chunk index is always in range: what an out-of-range index would do makes no difference |
| Sync.PushedBlocksMatchRequest | control/actor/chain/chcmd/sync/root.go:92-126 | for any response stream the blocks pushed have the roots of a prefix of the request |
| Sync.HandleSync | control/actor/chain/chcmd/sync/handle_sync.go:27-78 | for any blocks, work and turn of cancellation: cancelled iff all blocks before that turn pass, with the work done on exactly those; otherwise it stops at the first block that does not pass, or ends with the request's own result |
| Sync.HandledOnce | control/actor/chain/chcmd/sync/handle_sync.go:41-77 | blocks, work and turn of cancellation determine what is processed and stored and the result |
| Sync.SyncByRoot | control/actor/chain/chcmd/sync/root.go:92-131 | blocks processed and stored by a by-root sync have a prefix of the requested roots, in order, for any stream; and they are what handling the accepted chunks comes to |
| Sync.AnswersArePushed | control/actor/chain/chcmd/sync/root.go:92-126 | a server that answers with the requested blocks in order gets them all pushed, without an error iff the stream ends in order or all were answered |
| SyncPipeline.PipelineKeepsOrder | control/actor/chain/chcmd/sync/handle_sync.go:27-78 | the request and the consumer interleaved over the channel, with any buffering: processed and stored blocks are prefixes of the pushed ones, stored at most one behind; the request's own result is returned only when all work is done |
| SyncPipeline.PipelineRefinesHandling | control/actor/chain/chcmd/sync/handle_sync.go:27-78 | whatever the schedule and the buffer, a consumer that returned did what handling the blocks in order does, cancelled at the same turn or not at all |
| SyncPipeline.RunsEnd | control/actor/chain/chcmd/sync/handle_sync.go:27-78 | every run ends, after at most two steps for each block and two more |
| SyncPipeline.BlocksIff | control/actor/chain/chcmd/sync/handle_sync.go:28-74 | exact condition: some run leaves the request blocked for ever with a block in hand iff it has more blocks than the channel has room for |
| SyncPipeline.UncancelledBlocksIff | control/actor/chain/chcmd/sync/handle_sync.go:50-64 | exact condition without cancellation, however the run is scheduled: it ends with the request blocked iff more blocks follow the first refused one than the channel has room for |
| SyncPipeline.ProducerLeftBehind | control/actor/chain/chcmd/sync/handle_sync.go:50-53 | once the consumer has returned, the request gets rid of no more blocks than the channel has room for, and the outcome stays |
| Range.ServeRange | control/actor/chain/chcmd/serve/range.go:85-130 | refused iff one of the checks fails; otherwise the walk ends past its end, at the first slot that cannot be answered, or at the first failing write, and reports the slots before; within 64 bits these are the first requested ones, and exactly those requested iff nothing fails and the range does not leave 64 bits |
| Range.WalkSlots | control/actor/chain/chcmd/serve/range.go:101-130 | the serving loop with its wrapping counter: where it stands when it ends, and whether by its end, a missing block or a failing write |
| Range.ClientAcceptsRange | control/actor/chain/chcmd/sync/range.go:128-131 | exact condition, for every start, count and positive step: the client accepts exactly the requested slots iff the range does not leave 64 bits |
| Range.CutRangeExample | control/actor/chain/chcmd/sync/range.go:128-131 | concrete failure: of the three slots from 0 in steps of 2^63 the first is accepted and the second, also a 64-bit slot, is not |
| Range.OverflowCutsRange | control/actor/chain/chcmd/serve/range.go:85-102 | a range that leaves 64 bits never contains its own last slot: either that slot does not fit or the implied end has wrapped to below it |
| Range.RangeAgreement | control/actor/chain/chcmd/serve/range.go:101-130 | on every request within 64 bits a visited slot is one the client accepts, and after a complete walk every accepted slot was visited |
| HostAddrs.ResolveAddrs | p2p/custom/host.go:675-735 | ends after at most 31 questions; returns, as often as they came up, exactly the given or found addresses that need no resolution, in the order of Resolution; every address that needs it was asked about unless the cap was hit; the program ends early iff an answer does not parse |
| HostAddrs.DepthFirst | p2p/custom/host.go:690-730 | the order: of two lists the later one is resolved first, with all that it resolves to, and the earlier one goes on with the questions that are left |
| HostAddrs.ResolutionBalanced | p2p/custom/host.go:690-730 | whatever the resolver answers: listed are exactly the addresses that came up and need no resolution, counted all that need it |
| HostAddrs.FoundByQuestions | p2p/custom/host.go:712-731 | what a resolution found is made up of the answers to its questions, one after the other, and of nothing else |
| HostAddrs.FoundAt | p2p/custom/host.go:723-731 | and in it every address of every answer stands at its place: behind those of the questions and answers before it, in the order of the answer |
| HostAddrs.AnswersAreListed | p2p/custom/host.go:690-735 | every address given or answered that needs no resolution is in the result |
| HostAddrs.ResolutionAsks | p2p/custom/host.go:700-730 | it asks about every address that needs it while fewer than 31 questions were put, about no other, and crashes iff an answer does not parse |
| HostAddrs.DedupAddrs | p2p/custom/host.go:774-785 | each address once, in the order of first appearance |
| HostAddrs.MakeUpdatedAddrEvent | p2p/custom/host.go:416-446 | no event iff the sets are equal and the current list has no duplicates; otherwise the event takes the previous set to the current one |
| HostAddrs.DiffOf | p2p/custom/host.go:416-446 | previous minus removed plus added is current; added is exactly the new addresses iff no previous address is listed twice |
| HostAddrs.Announce | p2p/custom/host.go:498-512 | a subscriber told of every change holds the current set after any series of lists |
| HostAddrs.AnnounceSome | p2p/custom/host.go:474-512 | exact condition when some events are not emitted, for any series of lists: an address is held as the last list has it iff an even number of its changes was skipped since the last emitted event that names it |
| HostAddrs.AddedIff | p2p/custom/host.go:424-436 | an address is announced as added iff it is new or listed twice |
| HostAddrs.SkippedTwiceIsCurrent | p2p/custom/host.go:474-490 | concrete case: an address that came and went unannounced is rightly not held, though its last change was lost; announced once it went, likewise; one that is lost and then listed twice is announced again |
| Merge.PartialPeerstoreEntry.Merge | p2p/track/dstee/translate/translate.go:111-154 | the merged value, and the eth2 object taken over from the other entry when there was none |
| Merge.Eth2Data.Absorb | p2p/track/dstee/translate/translate.go:116-133 | numbers only forwards, status latest |
| Merge.MergeInGroups | p2p/track/dstee/translate/translate.go:111-154 | on values, folding entries does not depend on how they are grouped |
| Merge.MergeInTurn | p2p/track/dstee/translate/translate.go:111-154 | exact condition on objects, whatever eth2 parts are shared: merging one after the other gives the outcome of the values, except exactly when the third entry holds the first one's eth2 part and the second brings a different status |
| Merge.MergeGrouped | p2p/track/dstee/translate/translate.go:111-154 | merging the last two first gives the outcome of the values, whatever eth2 parts are shared |
| Merge.NumbersAreMaxima | p2p/track/dstee/translate/translate.go:116-133 | after any merges the claim and both sequence numbers are the greatest there were |
| Merge.FirstGreatestIsKept | p2p/track/dstee/translate/translate.go:116-133 | the metadata and the node record of a merged list are those of the first entry with the greatest number |
| Merge.LastGivenIsKept | p2p/track/dstee/translate/translate.go:120-154 | status, records, protocols and texts are those of the last entry that gives them |
| Merge.MergeWritesThrough | p2p/track/dstee/translate/translate.go:113-114 | an entry merged into an empty one shares its eth2 part, so the next merge changes it too |

## Left out

- Streams that report their end together with their last bytes, and streams that return no bytes and no error: the parsing results require the first not to happen (the exact damage is stated at the buffer) and the second is not modelled.
- Compressed payloads: Snappy is an external library; only the limits kept under compression are modelled.
- SSZ, hashing, block decoding: payloads are opaque bytes, metadata and state roots are taken as values, a block's root is a function of its bytes, and a callback that decodes is taken to read the announced size as ReadRaw does.
- HandleResponse.HandleChunks: callbacks that read less than the announced size and then succeed are not modelled; no caller in the repository does so.
- Range.ServeRange: the slot counter may wrap and walk a range again and again; the model's walk is bounded by the number of writes that succeed, which is arbitrary.
- SyncPipeline.PipelineRefinesHandling: working on one block is one step.
- Closing of the scheduling channels while a late retry goroutine still holds them: a race below the granularity of the step model.
- PeerChannels.PriorityChannels.Next: undisturbed by other goroutines; their sends and receives in between its selects are in ConnectAll.
- ConnectAll.AttemptBook.PickPeers: the fork-digest filter is an arbitrary test of a peer; node record parsing is not modelled.
- Sleeping, timeouts and context deadlines: steps that may happen at any time. Wrap-around of the uint64 fetch and attempt counters, and of slots in the finalized chain, is not modelled.
- PingPongRuns.RequestsWithinBudget: forced updates bypass the budget and appear only in the sequential commands, not in the interleaving; the bytes of the pong answer are not modelled.
- Tees.MultiTee.Tell: stands for OnPut, OnDelete and OnBatch at once; members are observers of their own behind one filter each, as the track command attaches them (one without a filter is one whose pattern matches every key), and a failed datastore operation is taken to leave the store unchanged.
- chain/hot.go, the block and state databases, ClosestFrom, the rest of translate.go, shells, sockets, logging and command routing.
