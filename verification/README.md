# RFID reader gateway: a verified model

A Dafny model of the logic of a UHF RFID gateway written in Go: the Reader18 wire protocol and
its incremental frame parser, the SDK's inventory run, the concurrent EPC submit pipeline with
its cache, the life cycles of the reader manager and of the TCP session, LAN discovery, the
terminal client's connect plan, and the hexadecimal parser and printer.

Bytes are `bv8`, the CRC register is `bv16`, and narrowing conversions are written out.  Code
that loops or updates fields is a method or a class, each proved against a specification
function; the properties are lemmas about those functions.  Concurrent code is a transition
system with one step for each critical section, channel operation or reply, so that a lemma over
all action lists covers every interleaving.

| file | subject |
|---|---|
| `Wrappers.dfy`, `Division.dfy` | bytes, `Option`, `Result`; quotients and remainders |
| `Crc16.dfy`, `CrcErrors.dfy`, `CrcDistance.dfy` | CRC-16/MCRF4XX as shifts of a linear register; what corruption it detects |
| `Reader18.dfy`, `FrameStream.dfy` | packets, the greedy parser, and what it does to whole streams |
| `TagPayload.dfy` | tag lists and single results inside responses |
| `Inventory.dfy`, `InventoryRuns.dfy`, `InventoryCounts.dfy` | the SDK client's run: steps, chunk invariance, closed forms |
| `InventoryPolls.dfy`, `InventoryReports.dfy` | the commands of a run byte by byte; what it reports besides tags |
| `Antenna.dfy` | antenna rotation |
| `HexText.dfy`, `EpcText.dfy` | hexadecimal text, EPC keys |
| `CacheStore.dfy`, `SubmitService.dfy` | the cache and the submit service as objects |
| `Pipeline.dfy`, `PipelineTokens.dfy`, `PipelineFate.dfy`, `PipelineHistory.dfy`, `PipelineSubmits.dfy`, `PipelineProgress.dfy` | the submit pipeline over every interleaving |
| `ScanLifecycle.dfy`, `ReaderSession.dfy` | start and stop of the scan loop; connect and disconnect of the session |
| `EndpointKey.dfy`, `FirstOccurrence.dfy`, `Discovery.dfy` | endpoint keys, deduplication, scoring and ranking |
| `ConnectPlan.dfy`, `ConnectWalk.dfy` | the connect plan and the retry walk |

## Where the code does something a reader may not expect

* With two or more workers one EPC can be submitted twice in one stay in the cache, because the
  cache is asked before the inflight lock is taken. `PipelineSubmits.SubmittedTwice` is such a
  run, made only of tags handed in while scanning is on, and at most one worker is exactly the
  condition that rules it out. With more workers the bound, one submission for each, is attained.
* `retryNextConnect` clears the connect queue in the copy of the model it returns when the plan is
  used up, but its callers keep that copy only when there is something to dial. The queue
  therefore stays after the last failure (`ConnectWalk.FailuresWalkPlan`); nothing more is dialled.
* A `Disconnect` that waited for the old session to end can return before that session is
  cleared, and a `Connect` made then is refused (`ReaderSession.RefusedAfterDisconnect`).
* A command without payload is five bytes long and is not accepted by `VerifyPacket`; from 252
  payload bytes on the length byte has wrapped.
* `InventoryTagCount` reads the count from the first data byte, where the tag list parser has
  the antenna mask, so a response without tags is reported with its mask as the count
  (`Inventory.CountOnlyIff`).
* The outcome of a scan depends on the arrival order of results exactly when two results for one
  endpoint differ (`Discovery.ScheduleIndependence`). For a caller that means a port that can be
  dialled and is given twice, with two workers or more (`Discovery.ScanIndependentIff`).

## Model

| member | source | states |
|---|---|---|
| `Crc16.Compute` | internal/protocol/reader18/protocol.go:306-319 | the two nested loops leave the register that the byte-wise specification defines, for data of any length |
| `Crc16.StartComplements` | internal/protocol/reader18/protocol.go:306-308 | the register starts at all ones: processing data is processing it from zero with its first two bytes complemented |
| `Crc16.StartKnown` | internal/protocol/reader18/protocol.go:306-319 | of all pairs of bytes only FF FF brings the register to zero, and what follows that pair is processed from zero |
| `Crc16.ShiftLinear` | internal/protocol/reader18/protocol.go:310-316 | one conditional shift distributes over exclusive-or, although the code branches on the low bit |
| `Crc16.RegisterConcat` | internal/protocol/reader18/protocol.go:306-319 | the register after two byte strings is that of the second started from that of the first |
| `Crc16.TrailerZero` | internal/protocol/reader18/protocol.go:63-64 | two trailer bytes bring any register to zero exactly when they are its low and high byte |
| `Reader18.BuildCommand` | internal/protocol/reader18/protocol.go:43-52 | builds the packet, which verifies exactly when the payload has 1 to 251 bytes |
| `Reader18.PacketLayout` | internal/protocol/reader18/protocol.go:43-52 | what stands at each offset: length, address, command, payload, and a trailer that brings the register to zero |
| `Reader18.InventoryG2Layout` | internal/protocol/reader18/protocol.go:135-141 | where each parameter of an inventory command stands, with and without a TID part |
| `Reader18.VerifyIffResidueZero` | internal/protocol/reader18/protocol.go:55-65 | a packet is accepted exactly when its length is right and the CRC over all of it, trailer included, is zero |
| `Reader18.PacketVerifies` | internal/protocol/reader18/protocol.go:43-65 | builder and checker agree exactly on payloads of 1 to 251 bytes |
| `Reader18.ParseFrames` | internal/protocol/reader18/protocol.go:69-120 | the loop that advances the buffer yields the frames and the remainder of the recursive greedy parse |
| `FrameStream.ParseAppend` | internal/protocol/reader18/protocol.go:69-120 | parsing a prefix and then its remainder followed by the rest gives the frames and remainder of one parse |
| `FrameStream.RemainderBounded` | internal/protocol/reader18/protocol.go:69-120 | at most 255 bytes are ever kept back |
| `FrameStream.TilingUnique` | internal/protocol/reader18/protocol.go:77-116 | every stream has exactly one list of disjoint valid packets in order such that each skipped byte heads no valid packet |
| `FrameStream.ParseIsTiling` | internal/protocol/reader18/protocol.go:69-120 | the emitted frames are the packets of that list, in order, and the remainder is the rest of the stream |
| `FrameStream.NoPacketLost` | internal/protocol/reader18/protocol.go:69-120 | once 256 bytes from its start have arrived, a valid packet is emitted or overlapped by an emitted one that starts earlier |
| `FrameStream.NoiseDropped` | internal/protocol/reader18/protocol.go:82-86 | bytes of value at most four in front of at least six others never matter |
| `FrameStream.NoiseHidesNothingIff` | internal/protocol/reader18/protocol.go:69-120 | dropping the bytes before a position changes neither the frames behind it nor the remainder exactly when each of them neither heads a valid packet nor waits for bytes still to come |
| `FrameStream.StreamRoundTrip` | internal/protocol/reader18/protocol.go:43-120 | responses written one after another, after such noise, parse back to exactly their addresses, commands, statuses and data |
| `FrameStream.StreamRoundTripAfterNoise` | internal/protocol/reader18/protocol.go:43-120 | the same after noise of any bytes that satisfies that condition |
| `CrcErrors.RegisterLinear` | internal/protocol/reader18/protocol.go:306-319 | the register of the exclusive-or of two byte strings is the exclusive-or of their registers |
| `CrcErrors.RegisterIsFeed` | internal/protocol/reader18/protocol.go:306-319 | byte by byte and bit by bit, least significant bit first, the register ends the same |
| `CrcErrors.CorruptionAcceptedIff` | internal/protocol/reader18/protocol.go:55-65 | a corruption of the same length is accepted exactly when the length byte is intact and the difference alone leaves a zero register |
| `CrcErrors.BurstRejected` | internal/protocol/reader18/protocol.go:55-65 | a packet corrupted only within sixteen consecutive bits is rejected, for every packet length |
| `CrcErrors.OddFlipsRejected` | internal/protocol/reader18/protocol.go:55-65 | a packet with an odd number of flipped bits is rejected |
| `CrcDistance.ShiftIsTimes` | internal/protocol/reader18/protocol.go:310-316 | shifting a register n times is multiplying it by the n-th power of x |
| `CrcDistance.NoShortCycle` | internal/protocol/reader18/protocol.go:310-316 | x has no order below 2048, the number of bits of the longest packet |
| `CrcDistance.FewFlipsRejected` | internal/protocol/reader18/protocol.go:55-65 | a packet with one, two or three flipped bits anywhere is rejected, for every packet length |
| `CrcDistance.FourFlipsAccepted` | internal/protocol/reader18/protocol.go:55-65 | these bounds are the best possible: in every packet, at every byte after the length, some four flips within seventeen bits go unnoticed |
| `TagPayload.ParseInventoryG2Tags` | internal/protocol/reader18/protocol.go:209-251 | the cursor loop decodes any payload without reading out of range, to the specified list or error |
| `TagPayload.TagListRoundTrip` | internal/protocol/reader18/protocol.go:209-251 | a non-empty list is decoded exactly from its mask, its count and its own encoding, whatever follows |
| `TagPayload.OneTagOnWire` | internal/protocol/reader18/protocol.go:209-251 | a response with one record, byte by byte: mask, count, length, EPC, RSSI |
| `TagPayload.DecodedIsEncoded` | internal/protocol/reader18/protocol.go:223-250 | a successful decode consumed exactly the encoding of its result |
| `TagPayload.FaultIsFirst` | internal/protocol/reader18/protocol.go:223-242 | an error names the first bad record: those before it decode, and the stated fault is where it should start |
| `TagPayload.SingleRoundTrip` | internal/protocol/reader18/protocol.go:255-279 | a single result is decoded exactly from its own encoding under an accepted status |
| `TagPayload.SingleOnWire` | internal/protocol/reader18/protocol.go:255-279 | a single result, byte by byte: antenna, count, length, EPC |
| `TagPayload.AntennaIdExact` | internal/protocol/reader18/protocol.go:281-304 | a mask of one antenna i is antenna i + 1, any other mask m is m + 1 |
| `Inventory.InventoryClient.StartInventory` | sdk/client.go:222-266 | without a connection or during a run nothing changes; otherwise buffer, seen set, events and counters are cleared, the configured target is taken, and the reader address only where none is known; the run is on exactly if the reader took its configuration |
| `Inventory.InventoryClient.RecordOne` | sdk/client.go:471-499 | one tag resets the no-tag counter, enters the seen set once, and builds one event with the source, antenna and RSSI it was read with, whether its key is new, the round and the unique count |
| `Inventory.InventoryClient.ObserveEmpty` | sdk/client.go:447-469 | the five no-tag statuses count; with session 2 or 3 and a positive threshold the target flips its lowest bit at the threshold |
| `Inventory.InventoryClient.HandleInventoryFrame` | sdk/client.go:410-433 | what each outcome of decoding a tag list does to the run |
| `Inventory.InventoryClient.HandleInventorySingleFrame` | sdk/client.go:435-445 | what a single result does to the run |
| `Inventory.InventoryClient.ConsumeFrame` | sdk/client.go:393-408 | the address is taken over before the frame is dispatched by command |
| `Inventory.InventoryClient.ConsumePacket` | sdk/client.go:378-391 | a packet's frames are those of one parse of the buffer with it, cut to 4096 bytes past 8192, folded in order |
| `Inventory.IntakeKeepsNewest` | sdk/client.go:378-384 | nothing is dropped up to 8192 bytes, and beyond all but the last 4096 |
| `Inventory.InventoryClient.NextInventoryCommand` | sdk/client.go:501-529 | a round advances the rotation, builds a valid command for the antenna it picked and a single-tag command in every n-th round, and returns the polling interval |
| `Inventory.EffectiveInterval` | sdk/types.go:74-83 | the least duration that is at least the setting, the scan time and 40 ms |
| `Inventory.CountOnlyIff` | sdk/client.go:425-431 | a successful response without tags is reported as a count of n exactly when its first byte is n and not zero |
| `InventoryRuns.FramesOpsExact` | sdk/client.go:385-499 | handling frames by their single critical sections and sends is what the client's methods do |
| `InventoryRuns.ChunkInvariance` | sdk/client.go:378-499 | however the bytes are cut into packets, and wherever polls fall, even between two tags of one frame, the worked-off run has the leftover, events but for round numbers, seen set, counters and target of one parse of all bytes; packets of the transport's 4096 bytes never trigger the truncation |
| `InventoryRuns.PollsFair` | sdk/client.go:501-529 | over a run with whole turns of polls, whatever packets come in between, each enabled antenna is asked for equally often and no other |
| `InventoryRuns.PollsEven` | sdk/client.go:501-529 | the same for any number of polls: each enabled antenna is asked for its share, rounded down, or one more |
| `InventoryPolls.PollOnWire` | sdk/client.go:511-520 | the ten bytes of a round's inventory command: length 9, address, 01, Q, session, target, 128 plus the antenna, scan time, and a valid trailer |
| `InventoryPolls.SingleOnWire` | sdk/client.go:521-523 | the five bytes of the single-tag command |
| `InventoryPolls.FirstPoll` | sdk/client.go:501-529 | the first round after a start asks for the lowest enabled antenna |
| `InventoryPolls.SinglesCounted` | sdk/client.go:501-529 | of n polls since the start floor(n / each) also send the single-tag command, none when each is 0, whatever comes in between |
| `InventoryPolls.EventsNumbered` | sdk/client.go:471-499 | events are only added, and a tag event carries the number of polls sent before the step that builds it |
| `InventoryReports.RunReports` | sdk/client.go:393-433 | however the bytes are cut and wherever polls fall, the reader information, counts without tags and parse errors reported are those of the frames in order, a missing RSSI byte staying silent; the address used is that of the last frame if it is taken over |
| `InventoryRuns.NormalizedUsable` | sdk/types.go:85-105 | a normalized configuration is usable, and exactly the usable ones are left as they are |
| `InventoryRuns.NormalizedNearest` | sdk/types.go:85-105 | each number moves no further than to the nearest usable one, a polling interval that is not positive becomes 40 ms, and nothing else changes |
| `InventoryRuns.SeeFrames` | sdk/client.go:393-499 | counters and counted events of a run depend only on the sequence of sightings in its frames |
| `InventoryCounts.TargetClosedForm` | sdk/client.go:447-487 | with session at least 2 and threshold N at least 1 the switch events report the alternating targets, as many as the sum of floor(length / N) over the tag-free stretches, the counter is the remainder of the open stretch, and the target is the first one switched that often; otherwise the target stays and no switch is reported |
| `InventoryCounts.RunTargetClosedForm` | sdk/client.go:378-499 | the same for whole runs of packets, single steps and polls: only the delivered bytes matter |
| `InventoryCounts.RunFaithful` | sdk/client.go:471-499 | event k carries the source, antenna, RSSI and key of the tag read k-th, is new exactly when its bytes were not sighted before, and reports how many different EPCs there were; the unique counter is the size of the seen set and the last tag is the one read last |
| `InventoryCounts.WholeRunFaithful` | sdk/client.go:378-499 | the same for whole runs of packets, single steps and polls |
| `InventoryCounts.OneNewEventEach` | sdk/client.go:471-499 | each sighted EPC has exactly one new event and the reported unique count never goes down |
| `Antenna.NextInventoryAntenna` | sdk/client.go:566-578 | the loop finds the first enabled antenna of the turn starting at the index, negative indices included, and never reaches its fallback |
| `Antenna.PickNearest` | sdk/client.go:566-578 | it is the first enabled one among the index, the index plus one and so on modulo eight, for negative indices too; without a mask it is antenna 0 |
| `Antenna.EnabledExact` | sdk/client.go:572-575 | a mask 2^i enables antenna i alone, and joined masks what either enables |
| `Antenna.AntennaByteValue` | sdk/client.go:575 | the byte that asks for antenna i is 128 + i |
| `Antenna.TurnExact` | sdk/client.go:566-578 | one turn names each enabled antenna once and no other |
| `Antenna.TurnRotates` | sdk/client.go:501-529 | starting after the antenna just used rotates the turn by one |
| `Antenna.RotationFair` | sdk/client.go:566-578 | in any number of whole turns of the rotation every enabled antenna is used equally often and no disabled one at all |
| `Antenna.CallsFair` | sdk/client.go:501-529 | for every mask, zero included, and every integer start: of k enabled antennas each is chosen n times in n times k calls threaded through the returned index |
| `Antenna.CallsEven` | sdk/client.go:501-529 | the same for any number of calls: each of k enabled antennas is chosen floor(n / k) or one more times in n calls, a disabled one never |
| `HexText.ParseHexInput` | internal/tui/commands.go:128-162 | the token loop yields the bytes or the first error of the specification |
| `HexText.TokenNumber` | internal/tui/commands.go:140-156 | digits of any case, with or without 0x or 0X, decode to the bytes of the number they denote, an odd number of digits as with a zero in front |
| `HexText.TokensSplit` | internal/tui/commands.go:128-138 | commas, colons, blanks, tabs and line breaks separate tokens |
| `HexText.TrimExact` | internal/tui/commands.go:129 | trimming takes away the spaces at both ends and nothing else |
| `HexText.ParseRefused` | internal/tui/commands.go:128-162 | space alone is no input, space and separators have no tokens, the bad token named is one, and what is accepted has at least one byte |
| `HexText.FirstBadToken` | internal/tui/commands.go:140-156 | the token named is the first one that does not decode |
| `HexText.FormatHex` | internal/tui/commands.go:164-186 | the printer loop yields the spaced upper-case digits, cut at the limit |
| `HexText.PrintLayout` | internal/tui/commands.go:164-186 | two digits for each byte at every third place, and a blank between |
| `HexText.CutPrint` | internal/tui/commands.go:164-186 | a print that is cut shows as many bytes as the limit allows |
| `HexText.ParseFormatted` | internal/tui/commands.go:128-186 | parsing printed bytes returns exactly them when they fit the limit, an empty-input error when there are none, and an invalid-token error when they were cut |
| `HexText.HexUpperInjective` | sdk/client.go:471-475 | different EPC byte strings have different keys in the seen set |
| `EpcText.SdkKeysSurvive` | internal/gobot/erp/client.go:151-165 | the key the SDK reports is a fixed point of the service's normalization, so different tags stay different |
| `EpcText.NormalizedIsCanonical` | internal/gobot/erp/client.go:151-165 | normalization leaves upper-case hexadecimal digits only |
| `EpcText.DigitsKept` | internal/gobot/erp/client.go:151-165 | wherever it stands, a hexadecimal digit is kept in upper case and any other character dropped |
| `EpcText.CaseIsIgnored` | internal/gobot/erp/client.go:151-165 | lower-case digits give the same key as the SDK's upper-case ones |
| `EpcText.NormalizeEPCList` | internal/gobot/service/service.go:474-489 | the list has no repetition and holds exactly the non-empty normalized values |
| `CacheStore.Store.Replace` | internal/gobot/cache/store.go:14-26 | the store holds exactly the non-empty entries |
| `CacheStore.Store.Add` | internal/gobot/cache/store.go:28-44 | the union is stored and the number of entries that were new is reported |
| `CacheStore.Store.Remove` | internal/gobot/cache/store.go:46-53 | exactly this entry is gone |
| `CacheStore.Store.Has` | internal/gobot/cache/store.go:55-63 | membership, the empty EPC never being a member |
| `CacheStore.Store.Size` | internal/gobot/cache/store.go:65-70 | the number of entries |
| `PipelineTokens.OneHolder` | internal/gobot/service/service.go:302-418 | in every reachable state an EPC is in `queued` exactly when exactly one of the enqueuers, channel slots and workers holds it |
| `PipelineTokens.ChannelDistinct` | internal/gobot/service/service.go:375-402 | the channel never holds an EPC twice and never more than its size |
| `PipelineTokens.MutualExclusion` | internal/gobot/service/service.go:327-330 | ERP calls for one EPC never overlap, and it is in `inflight` exactly while one worker has it locked |
| `PipelineProgress.ReservationCanEnd` | internal/gobot/service/service.go:302-402 | from every reachable state with a worker that has not stopped, every EPC in `queued` can leave it within 8 (queue size + 1) steps of workers and of calls already made |
| `PipelineFate.NothingLost` | internal/gobot/service/service.go:302-402 | however often an EPC was sent, that often it is in the channel, held by a worker, skipped, or counted under exactly one outcome |
| `PipelineFate.CountersAddUp` | internal/gobot/service/service.go:198-233 | each counter is the number of its events: EPCs handed in, those with scanning off, hits and misses up to calls about to count theirs, outcomes and drops; and seen is inactive plus hits plus misses plus calls in progress |
| `PipelineFate.ErrorsAreExhausted` | internal/gobot/service/service.go:332-373 | an error is counted only after exactly `SubmitRetry + 1` failed calls, an answer after at most `SubmitRetry` and as the answer that the last call gave |
| `PipelineHistory.CacheIsHistory` | internal/gobot/service/service.go:198-373 | in every reachable state the cache is what its changes and the removals after answers leave, and every hit and miss was true of it |
| `PipelineHistory.FirstInFirstOut` | internal/gobot/service/service.go:302-402 | in every reachable state the EPCs sent are those taken by workers, in order, followed by the channel |
| `PipelineHistory.RecentIsHistory` | internal/gobot/service/service.go:204-208 | in every reachable state exactly the EPCs are remembered whose last sighting has not aged past the TTL at any later sighting or collection, each with the time it was last handed in |
| `PipelineHistory.ReservedIff` | internal/gobot/service/service.go:375-390 | an enqueuer reserves its EPC exactly when that is not empty, not queued and not in flight |
| `PipelineHistory.InflightNotReserved` | internal/gobot/service/service.go:385-388 | no step reserves an EPC that is in flight, and an EPC is looked up only when handed in with scanning on |
| `PipelineSubmits.ResubmissionBounded` | internal/gobot/service/service.go:302-373 | removals of an EPC after an ERP answer never exceed the worker count times its arrivals in the cache |
| `PipelineSubmits.SubmittedByMany` | internal/gobot/service/service.go:198-373 | the bound is attained: for every k up to the worker count a run without any replay submits one arrival k times |
| `PipelineSubmits.SubmittedTwice` | internal/gobot/service/service.go:323-330 | with two workers there is such a run that submits one arrival twice |
| `PipelineSubmits.OnceIffOneWorker` | internal/gobot/service/service.go:302-373 | at most one submission per stay in the cache holds over all runs exactly when there is at most one worker, and likewise over all runs without a replay |
| `SubmitService.EnqueueIsCallerSteps` | internal/gobot/service/service.go:375-402 | the interruptible steps of an enqueuer, taken alone, do what the `Enqueue` method is proved to do |
| `SubmitService.HandleIsCallerSteps` | internal/gobot/service/service.go:198-233 | the same for an EPC handed in |
| `SubmitService.ProcessIsWorkerSteps` | internal/gobot/service/service.go:319-373 | the steps of a worker, taken alone against any replies, do what the `ProcessSubmit` method is proved to do |
| `SubmitService.ReplayComplete` | internal/gobot/service/service.go:258-264 | after an uninterrupted replay every candidate is queued, in flight or counted as dropped; what it queued was on its list and not in flight; exactly that was sent, and drops only happen to a full channel |
| `SubmitService.CandidatesAreHistory` | internal/gobot/service/service.go:426-466 | over every run the candidates for a replay are the cached EPCs whose last sighting is fresh at that moment, and that are in the focus list if it names any |
| `SubmitService.SightingReplayed` | internal/gobot/service/service.go:198-264 | an EPC handed in, scanning on or off, is a candidate for every replay within the TTL while it is cached |
| `SubmitService.Service.Enqueue` | internal/gobot/service/service.go:375-402 | sent exactly when the EPC is not empty, not queued, not in flight and there is room; otherwise nothing changes but the drop counter of an EPC that found no room |
| `SubmitService.Service.CollectReplayCandidates` | internal/gobot/service/service.go:426-458 | the candidates are exactly the EPCs seen within the TTL that are in the cache, and in the focus list when that names any |
| `SubmitService.Service.SetScanActive` | internal/gobot/service/service.go:235-264 | replays exactly when the flag flips to active, and then completely |
| `SubmitService.Service.RefreshCache` | internal/gobot/service/service.go:120-157 | a successful fetch replaces the cache and, with scanning active, leaves every cached EPC seen within the TTL queued, in flight or dropped |
| `SubmitService.Service.AddDraftEPCs` | internal/gobot/service/service.go:179-196 | the cache grows by the normalized values, whose seen tags are replayed |
| `SubmitService.Service.HandleEPC` | internal/gobot/service/service.go:198-233 | the reported action, the counters, the channel and the memory of sightings for each way an EPC can be handled |
| `SubmitService.Service.NoteSighting` | internal/gobot/service/service.go:204-212 | the sighting is remembered with its time, aged ones are forgotten, and it is counted |
| `SubmitService.Service.ProcessSubmit` | internal/gobot/service/service.go:319-373 | calls go on until the first answer or until all retries failed; the EPC leaves the cache exactly on an answer, which is counted as what it was |
| `SubmitService.Service.WorkerTurn` | internal/gobot/service/service.go:302-316 | the first EPC of the channel is taken, its reservation cleared, and it is submitted |
| `ScanLifecycle.Manager.Start` | internal/gobot/reader/manager.go:56-74 | a stopped manager installs a new generation, a running one is left alone |
| `ScanLifecycle.Manager.CaptureForStop` | internal/gobot/reader/manager.go:76-82 | takes the cancel function away and hands out what to cancel and to wait for |
| `ScanLifecycle.Manager.SetConnected` | internal/gobot/reader/manager.go:147-149 | the connection flag of the status is set and every other field of the run stays; the status texts are not part of this model |
| `ScanLifecycle.ConnectionReported` | internal/gobot/reader/manager.go:116-150 | the connection flag goes up only when a scanning loop reports it and down only when one does or ends |
| `ScanLifecycle.Manager.FinishStopped` | internal/gobot/reader/manager.go:279-287 | clears every field of the run |
| `ScanLifecycle.OneLoopAtATime` | internal/gobot/reader/manager.go:56-89 | at most one loop is before its finish step and `running` says whether there is one |
| `ScanLifecycle.FinishIsOwn` | internal/gobot/reader/manager.go:112-114 | a finishing loop finds only its own generation in the fields it clears |
| `ScanLifecycle.NoDoubleClose` | internal/gobot/reader/manager.go:112-114 | no done channel is closed twice |
| `ScanLifecycle.StopMeansStopped` | internal/gobot/reader/manager.go:76-89 | when `Stop` returns, the loop it captured has finished and closed its channel and is no longer in the fields |
| `ScanLifecycle.WaitingIsServed` | internal/gobot/reader/manager.go:76-89 | a loop somebody waits for has been cancelled or is about to be, by the `Stop` that holds its cancel function |
| `ScanLifecycle.WaitingCanReturn` | internal/gobot/reader/manager.go:76-114 | from every reachable state a waiting `Stop` can return by at most four steps of loops and of calls already made |
| `ReaderSession.Client.Install` | internal/reader/client.go:72-79 | a session is installed only where there is none |
| `ReaderSession.Client.Clear` | internal/reader/client.go:91-95 | only the loop's own session is cleared |
| `ReaderSession.SessionIffLoop` | internal/reader/client.go:46-96 | a session is installed exactly while its read loop has not cleared it, there is at most one such loop, and the guard of the clearing section never fails |
| `ReaderSession.ChannelsClosedOnce` | internal/reader/client.go:85-96 | each channel of a session is closed at most once, in order, and all of them before the session is cleared |
| `ReaderSession.OneOwner` | internal/reader/client.go:46-83 | no two calls of `Connect` get the same session |
| `ReaderSession.ReconnectRefusedIff` | internal/reader/client.go:46-139 | after a `Disconnect` that saw its session end, the next `Connect` is refused exactly while the old loop has closed its channels but not cleared the session |
| `ReaderSession.RefusedAfterDisconnect` | internal/reader/client.go:46-139 | a run in which that happens |
| `EndpointKey.AddressInjective` | internal/reader/client.go:18-20 | different endpoints have different address texts, so the `seen` maps never merge two |
| `FirstOccurrence.FirstsUnique` | internal/tui/update.go:1200-1211 | keeping what a `seen` map lets through is the one list of the elements at first positions of their keys, in order |
| `Discovery.KeywordScore` | internal/discovery/scanner.go:353-363 | 18 for each different keyword the banner mentions in any case |
| `Discovery.ProbeTarget` | internal/discovery/scanner.go:195-229 | a candidate exactly where a connection was made, with the fields, the reason and the score of what the probe found out |
| `Discovery.ScoreTiers` | internal/discovery/scanner.go:204-217 | verified candidates score 170 to 215, others 10 to 163 |
| `Discovery.PortsRank` | internal/discovery/scanner.go:340-351 | with the same findings a reader port beats port 23, that beats a web port, and that any other; these classes count 55, 30, 20 and 10 points |
| `Discovery.CollectResults` | internal/discovery/scanner.go:167-176 | the first result of each endpoint is kept, in order of arrival |
| `Discovery.BeforeTransitive` | internal/discovery/scanner.go:178-186 | the comparator is transitive |
| `Discovery.BeforeOrder` | internal/discovery/scanner.go:178-186 | the comparator is asymmetric and total on different endpoints |
| `Discovery.RankingUnique` | internal/discovery/scanner.go:178-186 | whatever sorting algorithm is used, distinct endpoints come out in one order |
| `Discovery.ScanOrder` | internal/discovery/scanner.go:167-186 | a scan's outcome is in strict order of falling score, then rising host, then rising port |
| `Discovery.ScheduleIndependence` | internal/discovery/scanner.go:167-186 | the outcome is the same for every arrival order exactly when results for one endpoint agree |
| `Discovery.ScanIndependentIff` | internal/discovery/scanner.go:53-229 | the condition a caller can check: with the hosts collected once each, whatever the dialled targets answer and however its workers deliver the answers, the outcome is the same exactly when there is no host, one worker, or no port in 1 to 65535 given twice |
| `Discovery.PreferredIndex` | internal/tui/update.go:1305-1325 | the first verified candidate, or else the first one |
| `Discovery.QuickConnectIndex` | sdk/client.go:126-133 | the same choice in the SDK |
| `Discovery.BestIsFirst` | internal/discovery/scanner.go:167-186 | in a scan's outcome verified candidates precede all others, so every such search ends at index 0 |
| `ConnectPlan.CandidateConnectOrder` | internal/tui/update.go:1225-1248 | the loop moves a valid preferred index to the front and keeps the others in order |
| `ConnectPlan.OrderIsPermutation` | internal/tui/update.go:1225-1248 | every candidate index occurs exactly once |
| `ConnectPlan.MergePortOrder` | internal/tui/update.go:1250-1273 | the two loops keep the positive ports, each the first time |
| `ConnectPlan.BuildConnectPlan` | internal/tui/update.go:1190-1223 | the plan is the first occurrences of all valid host and port pairs over the candidates in connect order, although the code also deduplicates ports on the way |
| `ConnectPlan.PlanExact` | internal/tui/update.go:1190-1223 | no endpoint twice, and exactly the pairs of a non-blank host with its own, a scanned or a fallback port that is positive |
| `ConnectPlan.PortsInOrder` | internal/tui/update.go:1190-1273 | for one host the plan has its own port, then the scanned ones, then the well-known ones, each where it first stands in that list |
| `ConnectPlan.PlanGrows` | internal/tui/update.go:1190-1248 | candidates are dialled in their order: later ones only add endpoints at the end |
| `ConnectPlan.PreferredInFront` | internal/tui/update.go:1225-1248 | a preferred candidate is dialled as if it stood in front of the others |
| `ConnectPlan.EmptyPlan` | internal/tui/update.go:1133-1143 | there is nothing to dial exactly when every host is blank |
| `ConnectPlan.PreferredDialledFirst` | internal/tui/update.go:1145-1153 | the preferred candidate's own endpoint is dialled first |
| `ConnectWalk.BeginConnectPlan` | internal/tui/update.go:1133-1154 | the model after a plan begins and the endpoint dialled |
| `ConnectWalk.RetryNextConnect` | internal/tui/update.go:1156-1188 | the copy that is returned and the endpoint to dial; the queue is never indexed out of range |
| `ConnectWalk.Program.Update` | internal/tui/update.go:21-258 | what each message about scans, connections and probes does to the kept model |
| `ConnectWalk.WhoDials` | internal/tui/update.go:21-258 | a failure, a timeout, or a loss while nothing is being dialled dials the next endpoint if there is one, and no other message does; when a dial is under way afterwards |
| `ConnectWalk.DialsFollowPlan` | internal/tui/update.go:1133-1188 | until the next plan every run of messages dials a prefix of the plan in order, no endpoint twice |
| `ConnectWalk.FailuresWalkPlan` | internal/tui/update.go:244-254 | n failed connects dial the first n + 1 endpoints and finally all; the queue is still kept after the last one |
| `ConnectWalk.QueueClearedIff` | internal/tui/update.go:21-258 | until the next plan the queue is cleared exactly by a successful connect, a disconnect, a new scan or an empty scan |
| `ConnectWalk.RetriesWalkQueue` | internal/tui/update.go:1156-1188 | threading the returned copies instead walks the queue and clears it on the retry after the last endpoint |

## Left out

- Sockets, HTTP, Telegram, Unix sockets, the process sidecar, environment loading and JSON: ERP replies, probe answers and received bytes are inputs.
- Terminal rendering, menus, styles, status and log texts: user interface without decisions of interest here.
- Wall-clock time, tickers, sleeps and deadlines: time is an integer argument and cancellation a step that may happen at any moment.
- Delivery on the tag, status and error channels: events are those the client builds; a full channel may drop some, as may the read loop's packet channel.
- Overlapping start and stop of the SDK client, and changing its configuration during a run: a run is modelled from its start, under one configuration.
- `SubmitService.Service.RefreshCache`: leaves out refresh times, the last error, draft counts and notifications, which nothing in the pipeline reads.
- An unbuffered submit channel: a channel without room never accepts an EPC in the model; configuration loading keeps the size at 64 or more.
- Replies of the ERP that failed, timed out or had an unknown status are one kind of failure.
- `PipelineSubmits.OnceIffOneWorker`: needs a channel with room for one EPC, which configuration loading guarantees.
- A replay step of the transition system may enqueue any EPC: it allows more runs than the code, so the safety properties hold for all of them, and the run that attains the bound does without it.
- Which corruptions of four or more bits, in even number and wider than sixteen bits, go unnoticed: only the exact condition on the difference is given.
- A scan cancelled on the way: it returns the candidates that had arrived, and which ones is a matter of time.
- Machine integers for counters: they are unbounded here; bytes, the CRC register and the length byte are not.
- Non-ASCII letters in banners, tokens and EPC texts: case folding is that of ASCII, and texts are sequences of characters rather than UTF-8 bytes.
- Host enumeration and the order of protocol probes.
- `sort.Slice` is any function that returns a sorted permutation; the model ranks by insertion.
- Closing the connection of a read loop that ended by itself, and errors while closing beyond a second close.
