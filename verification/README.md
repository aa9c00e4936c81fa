# Verified model of the rust_lmax_mev pipeline

A Dafny 4.11 model of the stateful and byte-level core of the pipeline, and proofs about it. Run
`dafny verify dfyconfig.toml` in this directory.

What is modelled, in the order in which data flows:

- **Mempool ingress** (`Lru`, `Ingress`): the LRU deduplication in front of the fetch, against a definition by
  distinct hashes since the last occurrence, with every way its loop can end.
- **Event bus** (`EventBus`, `BoundedBus`): publishers, the consumer and drops as a state machine over atomic actions,
  with invariants over every interleaving and progress; then `publish`, `recv` and `try_recv` as methods of a class,
  each statement one action of that machine, with arbitrary actions of the other side in between.
- **Journal** (`Crc32`, `Frame`, `JournalSteps`, `JournalLog`, `JournalTorn`, `Journal`, `JournalRuns`,
  `JournalFaults`): concrete CRC-32 and byte layout, a writer whose buffer may spill any prefix at any time and whose
  writes may stop half-way, a reader whose reads may be split anywhere, the fused iterator with its counters; what a
  whole, cut, damaged or arbitrary file yields; what is worth a record appended behind a torn frame; and every run of
  open, append, flush, spill and reopen, with and without appends that fail half-way.
- **State fetching** (`Ordered`, `SlotLayouts`, `StorageKeys`, `StateFetcher`, `UniV3Resolution`, `PoolStorage`): the
  bounded resolution loop behind two shared LRU caches with other threads between any two atomic actions, the
  three-phase UniswapV3 layout stated on the raw words of a pool, and the 32-byte key buffers below it.
- **Prices and swaps** (`Amm`, `SwapRuns`, `Opportunity`, `PriceFilter`, `SwapRoute`, `OpportunityDriver`,
  `OpportunitiesSent`): the checked V2 formula, the Q64 filter for V2 and V3 pools, the simulated V2 route from the
  packed reserves slot, and the driver that pairs updates by block.
- **Simulator** (`SimulatorDb`, `FixtureCache`): the two database wrappers under any deterministic client, and the
  fixture cache as a lock / fetch / lock state machine.
- **Signing and comparing** (`Rlp`, `Eip1559`, `RelaySim`, `ComparatorDriver`, `ComparatorStory`): the EIP-1559
  encoders against a strict RLP decoder (Ethereum Yellow Paper, Appendix B; EIP-2718; EIP-1559), the zero-tolerance
  comparator, and the driver that journals before it broadcasts.

`Wrappers`, `Arithmetic`, `Numbers`, `Bytes`, `BigEndian`, `Types` and `Pools` are what these share.

## Findings

Places where the code does not do what its comments or its use suggest. Each is stated by a member below.

- `check` calls its threshold "~24 bps", but `cheap_price >> 12` is 1/4096, about 2.4 bps
  (crates/opportunity/src/lib.rs:140-143). The model follows the code. A profitable V2 pair is then never dropped or
  reversed once the source price is at least 166, and that bound is tight (`Opportunity.ProfitablePairIsKept`,
  `Opportunity.BoundIsTight`).
- The test of `check` for a profit of zero never decides: a spread that clears the threshold is worth at least an 8192th
  of the fixed amount in (`PriceFilter.CheckIsExact`).
- `uniswap_v2_get_amount_out` is documented to revert on a zero `reserve_in`. It panics then only if the amount is zero too
  (`SwapRoute.PanicsExactlyWhen`); otherwise it quotes the whole output reserve (`SwapRoute.EmptyReserveIsQuotedAll`).
- `seal_envelope` stamps block 0 and the zero hash, and `check` takes the block of an opportunity from that stamp. So
  behind the state driver every opportunity carries block hash zero (`OpportunityDriver.StateDriverLosesBlocks`),
  and a prefetch for a zero hash that misses the cache always fails (`FixtureCache.LocalSimulator.PrefetchFor`).
- The pair driver re-checks every pair of a block on each further update of it: n updates cause n(n+1)(n-1)/6 checks,
  not n(n-1)/2 (`OpportunityDriver.ChecksAreCubic`).
- `append` writes envelopes that `validate` rejects, and the iterator then stops at the first of them; a complete log
  reads back exactly when all its envelopes are valid (`JournalLog.ReadBack`, `JournalLog.StopAtInvalid`).
- A fixture is keyed by addresses and block only, while the guards compare whole pool ids. A cache hit can thus be
  followed by a mismatch error if one address occurs with two pool kinds (`FixtureCache.KindsMatter`), and only then
  (`FixtureCache.PrefetchThenSimulate`).
- `compare` is not reflexive: a run that read one slot before and after a commit does not agree with a relay reporting
  exactly that run (`RelaySim.ReadCommitReadDoesNotMirrorItself`); the exact condition is `RelaySim.SelfComparison`.
- Opening a file with a torn last record puts the write head behind the torn bytes (`Journal.FileJournal.Open`). What is
  appended there reads back, with a clean end, if and only if the tear is at a frame boundary and all of it is valid
  (`JournalTorn.ReopenedAndAppended`). A torn frame whose length prefix survived swallows what follows
  (`JournalTorn.TornFrameSwallows`, with one concrete file in `JournalTorn.OneTornFile`).
- A failed `append` may leave a part of its frame in the stream while the offset stays. Every position returned until the
  file is opened again is then short of its frame by the length of the parts left (`JournalFaults.PositionsDrift`), and
  what follows reads back if and only if each part is nothing or a whole frame (`JournalTorn.AppendedAfterFailure`,
  `JournalFaults.FaultyRunReadsBack`).
- `StrictMissingDb::commit` marks every listed slot as populated, but the inner store skips untouched accounts and clears
  created and self-destructed ones. A populated slot can then read as a zero that nobody stored instead of as a typed
  error (`SimulatorDb.UntouchedListingIsSilentZero`, `SimulatorDb.CreationIsSilentZero`).
  `SimulatorDb.SilentZeroExactlyWhen` says exactly when, and `SimulatorDb.SilentZeroAfterWrite` which single writes leave
  one behind. A client is safe with an account that it never creates or destroys and for which, while untouched, it lists
  only slots named before (`SimulatorDb.HarmlessHistoryHasNoSilentZero`).

## Model

| member | source | states |
|---|---|---|
| Types.Seal | crates/types/src/lib.rs:174-194 | sealing fails exactly for a zero timestamp, event version or chain id, and otherwise yields a valid envelope with the given parts |
| Crc32.IeeeIsSound | crates/journal/src/journal.rs:227 | the IEEE constants of CRC-32 meet the two conditions every detection proof rests on |
| Crc32.IeeePolynomial | crates/journal/src/journal.rs:227 | the constant is the generator polynomial of IEEE 802.3, coefficient by coefficient |
| Crc32.UpdateIsTableLookup | crates/journal/src/journal.rs:227 | the table lookup of section 8 of RFC 1952 gives the same register as folding the byte in and running eight rounds |
| Crc32.UpdateIsSerial | crates/journal/src/journal.rs:227 | folding bytes in and running eight rounds each equals the serial shift register over the bit stream |
| Crc32.SealedIffResidue | crates/journal/src/journal.rs:427-435 | a checksum matches exactly when payload and trailer together leave one fixed residue |
| Crc32.BurstBreaksSeal | crates/journal/src/journal.rs:427-435 | any change confined to four consecutive bytes of payload and trailer breaks a matching checksum |
| Frame.ValidateHeader | crates/journal/src/frame.rs:65-91 | eight bytes are accepted exactly when they are magic, version 1 and three zeros; otherwise the first failing check answers, with the bytes it found |
| JournalLog.SampleCodecIsLawful | crates/journal/src/journal.rs:215-219 | a concrete codec meets what the journal proofs assume of the payload format |
| JournalLog.ReadWhole | crates/journal/src/journal.rs:356-425 | a frame that is all there is read up to its body whatever surrounds it and whatever its trailer |
| JournalLog.ReadCut | crates/journal/src/journal.rs:374-424 | a frame cut after any number of bytes gives the truncation error of the part that is short, with the exact needed and got |
| JournalLog.ScanThrough | crates/journal/src/journal.rs:346-454 | iteration passes over any run of intact valid frames, whatever bytes follow |
| JournalLog.CutFile | crates/journal/src/journal.rs:346-446 | any log, cut anywhere past its header, yields exactly the whole records, then a clean end at a boundary, else one exact truncation error at the cut frame; unless a whole frame holds an invalid envelope, and then the records before the first such and its violation at its offset |
| JournalLog.ReadBack | crates/journal/src/journal.rs:346-454 | a complete log reads back in full without an error if and only if every appended envelope is valid |
| JournalLog.StopAtInvalid | crates/journal/src/journal.rs:443-446 | the first invalid envelope ends the iteration at its own offset with its own violation, after all earlier records and whatever follows |
| JournalLog.BadLengthStops | crates/journal/src/journal.rs:380-386 | a length prefix of zero or above 16 MiB ends the iteration there with the length found, after all earlier records |
| JournalLog.UndecodableStops | crates/journal/src/journal.rs:437-441 | a whole frame with a good checksum that does not decode ends it with the archive error |
| JournalLog.BurstIsCaught | crates/journal/src/journal.rs:427-435 | damage within four consecutive bytes of a record's payload and trailer yields all earlier records, then ChecksumMismatch at that record |
| JournalLog.OneByteIsCaught | crates/journal/src/journal.rs:427-435 | the same for changing any single byte in place in the file |
| JournalLog.GotIsAFrame | crates/journal/src/journal.rs:427-453 | an accepted record's bytes are exactly the frame of its payload, which decodes to a valid envelope |
| JournalLog.ScanIsExact | crates/journal/src/journal.rs:346-454 | on arbitrary bytes, re-framing the accepted payloads reproduces the bytes read; at most a ninth as many records as bytes |
| JournalTorn.FramesDetermine | crates/journal/src/journal.rs:229-242 | the bytes of a run of frames determine the payloads, so a log has one reading |
| JournalTorn.ReopenedAndAppended | crates/journal/src/journal.rs:137-147 | for any log cut anywhere past its header, reopened and appended to any number of times: the whole records are yielded, and they and the new ones read back with a clean end if and only if the cut is a frame boundary and all of them are valid |
| JournalTorn.ReadsAsLog | crates/journal/src/journal.rs:346-454 | any bytes behind the header read back as given accepted envelopes, with a clean end, if and only if they are the log of them and all are valid |
| JournalTorn.AppendedAfterFailure | crates/journal/src/journal.rs:210-242 | valid records appended after a failed append, any number of them, read back with a clean end if and only if the failed one left nothing or its whole frame |
| JournalTorn.TornFrameSwallows | crates/journal/src/journal.rs:392-424 | a torn frame with its length prefix swallows what follows up to the payload it announces, and ends the iteration as truncated |
| JournalTorn.OneTornFile | crates/journal/src/journal.rs:137-147 | one such file under the sample codec: an envelope torn after its length prefix hides the whole shorter one appended behind it |
| Journal.FileReader.Read | crates/journal/src/journal.rs:363 | a read returns any non-zero part of what is left, nothing only at the end, or fails |
| Journal.FileReader.Fill | crates/journal/src/journal.rs:360-368 | the read loop fills the buffer with the next bytes of the file however reads are split, and is short only at the end of the file |
| Journal.FileJournal.Open | crates/journal/src/journal.rs:111-161 | an empty file gets the header, any other is accepted exactly when its first eight bytes are it; the write head is then the file length, every error has its cause |
| Journal.FileJournal.WriteFileHeader | crates/journal/src/frame.rs:51-56 | writes the eight header bytes; on failure a prefix of them |
| Journal.FileJournal.WritePieces | crates/journal/src/journal.rs:234-242 | the three writes extend file plus buffer by the whole frame, or on failure by a prefix of it, with any spilling |
| Journal.FileJournal.Flush | crates/journal/src/journal.rs:179-181 | success moves the whole buffer to the file; failure moves some prefix and loses nothing |
| Journal.FileJournal.Append | crates/journal/src/journal.rs:215-262 | success is exactly one frame at the returned position with offset and counters advanced; a rejected envelope changes nothing; a failed write leaves offset and counters and at most a part of the frame, and comes only with a failing write; the length error names offset, length and maximum |
| Journal.FileJournal.IterAll | crates/journal/src/journal.rs:274-301 | a fresh handle at the first record, or an iterator holding the open error |
| Journal.JournalIter.FuseWithCorrupt | crates/journal/src/journal.rs:327-335 | fuses, counts one corrupt frame and returns the error |
| Journal.JournalIter.Next | crates/journal/src/journal.rs:346-454 | unless a read fails, and exactly then an I/O error comes instead, the item is the one determined by the bytes at the offset; the first error is the last item; buffers never exceed MAX_FRAME_LEN; counters and offset move by exactly that item |
| Journal.JournalIter.ReadRecord | crates/journal/src/journal.rs:388-425 | the same for the part after the length prefix |
| Journal.JournalIter.CheckBody | crates/journal/src/journal.rs:427-453 | checksum, decoding and validation in that order, with offset and counters moved only on success |
| Journal.JournalIter.Collect | crates/journal/src/journal.rs:346-454 | driving an iterator to its end yields the scan of the file; read_total grows by the records, corrupt_frames_total by at most one |
| JournalRuns.RunKeepsLog | crates/journal/src/journal.rs:111-262 | over every run without I/O failure, file plus buffer is header and all accepted frames, the offset is its length, and every returned position is the start of its own frame |
| JournalRuns.RunCounts | crates/journal/src/journal.rs:244-255 | appended_total and bytes_written_total are the number of records appended since the last open and the bytes of their frames |
| JournalRuns.RunReadsPrefix | crates/journal/src/journal.rs:264-446 | at every moment of every run the file on disk reads as valid records that are a prefix of what was appended; what stops it is the exact truncation of the next frame or the violation of the next envelope, at its position; with nothing pending and all valid it reads in full |
| JournalRuns.FlushedRunReadsBack | crates/journal/src/journal.rs:173-181 | after a flush all appended records read back without error if and only if all are valid |
| JournalFaults.WriteHeadDrifts | crates/journal/src/journal.rs:210-262 | over every run with failing appends the offset is behind the end of the stream by exactly the bytes that failed appends left since the last open |
| JournalFaults.PositionsDrift | crates/journal/src/journal.rs:210-262 | a returned position is short of the start of its frame by exactly those bytes, and the frame stays where it is |
| JournalFaults.FaultyRunReadsBack | crates/journal/src/journal.rs:210-262 | with nothing pending, the file reads back cleanly as exactly the envelopes whose whole frames were written if and only if no failed append left a proper part of its frame and all of them are valid |
| JournalFaults.ReadUpToTheTear | crates/journal/src/journal.rs:346-454 | whatever is torn later, valid records written before the first tear are read back |
| EventBus.StepKeepsInv | crates/event-bus/src/lib.rs:311-346 | every atomic action of any publisher, the consumer or a drop keeps the bus invariant |
| EventBus.RunKeepsInv | crates/event-bus/src/lib.rs:281-393 | so every reachable state has it |
| EventBus.DeliveryInOrder | crates/event-bus/src/lib.rs:311-346 | received and queued envelopes are 0, 1, 2, ... without gap or repeat whatever publishes fail, u64::MAX is never published, each ack matches its envelope and call, depth is within capacity, consumed_total is at most published_total + 1 |
| EventBus.QuiescentCounters | crates/event-bus/src/lib.rs:356-364 | with nobody inside a call published_total, next_sequence, acks, and consumed_total plus depth (plus what a dropped consumer discarded) agree |
| EventBus.StatsTellHistory | crates/event-bus/src/lib.rs:356-364 | at every moment of every run the five statistics are the acknowledged calls, the received envelopes, the calls that waited, the queue and the capacity, up to the two counts under way |
| EventBus.FailedCallConsumesNothing | crates/event-bus/src/lib.rs:311-335 | a whole failing call, from the lock to its error and whatever the consumer does meanwhile, leaves sequence, published envelopes, published_total and acks as it found them, and raises backpressure_total by one exactly if it failed while waiting |
| EventBus.BackpressureCountsWaits | crates/event-bus/src/lib.rs:325-328 | in every run backpressure_total is the number of calls that have had to wait, the current one included |
| EventBus.BlockedPublisherBlocksNobody | crates/event-bus/src/lib.rs:323-382 | in every reachable state with a publisher blocked in its send, stats is enabled and shows that wait, and if the send cannot go on then the consumer can, and its next pop lets the send go on |
| EventBus.SomeActionAdvances | crates/event-bus/src/lib.rs:323-335 | whenever the lock is held some action inside the bus is enabled and brings its release closer; for a blocked send on a full queue it is the consumer's |
| EventBus.LockIsAlwaysReleased | crates/event-bus/src/lib.rs:311-346 | from every reachable state the lock can be freed by the holder's and the consumer's own steps, in a bounded number of them |
| BoundedBus.CrossbeamBoundedBus.constructor | crates/event-bus/src/lib.rs:281-302 | a new bus is empty, at sequence 0, and satisfies the invariant |
| BoundedBus.CrossbeamBoundedBus.Prepare | crates/event-bus/src/lib.rs:312-321 | clock, sequence and seal: succeeds exactly when all three can, otherwise with the error of the first that cannot; numbers the envelope by next_sequence and changes nothing else |
| BoundedBus.CrossbeamBoundedBus.Attempt | crates/event-bus/src/lib.rs:323-335 | one try puts exactly this envelope at the end, or reports no room, or fails Closed exactly when the consumer is gone |
| BoundedBus.CrossbeamBoundedBus.Send | crates/event-bus/src/lib.rs:323-335 | backpressure grows by one exactly if the call waited, and always before blocking; on every outcome the rest is unchanged |
| BoundedBus.CrossbeamBoundedBus.Acknowledge | crates/event-bus/src/lib.rs:337-345 | sequence and published_total advance by one and the ack is the envelope's, with the consumer running between the steps |
| BoundedBus.CrossbeamBoundedBus.Publish | crates/event-bus/src/lib.rs:311-346 | with the consumer acting between any two statements: success adds exactly this envelope at the sequence found; failure changes nothing and has the error of the first refusing check, or Closed with the consumer gone; backpressure grows by one exactly if the call waited; only a still blocked call holds the lock |
| BoundedBus.CrossbeamBoundedBus.TryRecv | crates/event-bus/src/lib.rs:384-397 | the envelope received is the next in sequence and is counted once; nothing on empty; Closed only on an empty queue of a dropped bus |
| BoundedBus.CrossbeamBoundedBus.Recv | crates/event-bus/src/lib.rs:371-382 | the same for the blocking receive, with publishers acting in between |
| Lru.PutKeepsShape | crates/ingress/src/lib.rs:213-217 | an insertion keeps keys unique and size within capacity, and finds the new value under its key |
| Lru.TouchKeepsShape | crates/state-fetcher/src/lib.rs:260 | a hit reorders and keeps exactly the same entries |
| Lru.LruCache.Insert | crates/ingress/src/lib.rs:213-217 | returns the replaced value and leaves the key most recent, dropping the oldest entry only when full |
| Ingress.PlaceInRecent | crates/ingress/src/lib.rs:211-217 | in recency order exactly the distinct hashes since a hash's last occurrence stand before it |
| Ingress.CacheIsRecent | crates/ingress/src/lib.rs:195-217 | after any stream the cache holds the most recent distinct hashes, as many as fit, in recency order |
| Ingress.CacheRecognises | crates/ingress/src/lib.rs:211-217 | a hash is missed if and only if it never occurred or at least `capacity` distinct other hashes have occurred since |
| Ingress.BuildMempoolStream | crates/ingress/src/lib.rs:189-246 | the loop fetches at exactly the fresh positions, delivers in order, and stops at exactly the first position that closes it or finds the receiver gone |
| Ordered.AscendingIsUnique | crates/state-fetcher/src/lib.rs:340-342 | a strictly ascending list is determined by its elements, so sort and dedup have one result |
| Ordered.SortDedupAscends | crates/state-fetcher/src/lib.rs:340-341 | sort and dedup leave a strictly ascending list (of the same elements) |
| Ordered.SortBySlotAscends | crates/state-fetcher/src/lib.rs:363 | sorting distinct slots by key keeps every entry and leaves them strictly ascending |
| SlotLayouts.KeyIsFaithful | crates/state-fetcher/src/storage_key.rs:41-47 | a signed key is the value's true 256-bit encoding if and only if its magnitude fits the kept bytes |
| SlotLayouts.CompressTick | crates/state-fetcher/src/uniswap.rs:50-56 | truncating division with the correction for negative remainders rounds down |
| SlotLayouts.WordTickSlotsMembers | crates/state-fetcher/src/uniswap.rs:268-281 | the slots for a bitmap word are exactly the four info slots of each of its set bits |
| SlotLayouts.CollectTickInfoSlots | crates/state-fetcher/src/uniswap.rs:219-284 | the nested loops push exactly the specified list, in order |
| StorageKeys.SignedIntKeyBuffer | crates/state-fetcher/src/storage_key.rs:41-47 | the 32-byte buffer that is filled reads as the sign-extended key, for every i32 and every width |
| StorageKeys.AddressKeyBuffer | crates/state-fetcher/src/storage_key.rs:52-56 | the padded buffer reads as the address |
| StorageKeys.MappingPreimage | crates/state-fetcher/src/storage_key.rs:27-32 | fills the 64 bytes that are hashed: the key, then the slot |
| StorageKeys.PreimagesDiffer | crates/state-fetcher/src/storage_key.rs:27-32 | two mapping entries are hashed from the same bytes if and only if slot and key are the same |
| StateFetcher.ArchiveStateFetcher.OtherThreads | crates/state-fetcher/src/lib.rs:254-306 | any interleaving of other threads' lookups, misses, calls and insertions keeps the cache invariant |
| StateFetcher.ArchiveStateFetcher.GetStorageCached | crates/state-fetcher/src/lib.rs:280-306 | a result is the chain's own value whatever happens concurrently; and is then the most recent cache entry; an error comes exactly with a failing call; counted misses equal backend calls made or about to be made; without other threads a cached key costs no call and any other exactly one |
| StateFetcher.ArchiveStateFetcher.GetCodeCached | crates/state-fetcher/src/lib.rs:254-278 | the same for bytecode |
| StateFetcher.ArchiveStateFetcher.FetchSlots | crates/state-fetcher/src/lib.rs:346-351 | one pass reads exactly the listed slots in order, or fails with a node error |
| StateFetcher.ArchiveStateFetcher.FetchPool | crates/state-fetcher/src/lib.rs:321-372 | for any layout an Ok or a depth error is the one of the uncached resolution, the zero hash and only it is refused, the node error comes exactly with a failing call, and no run makes more than three passes |
| StateFetcher.ArchiveStateFetcher.FetchAccount | crates/state-fetcher/src/lib.rs:374-400 | exactly the listed slots, each once, ascending, with the chain's values |
| SlotLayouts.SomeHashIsIdeal | crates/state-fetcher/src/storage_key.rs:27-32 | what is assumed of the hash can be met |
| UniV3Resolution.KeysAreFaithful | crates/state-fetcher/src/uniswap.rs:202-211 | every word position and tick key is the true 256-bit encoding, for every slot 0 whatever |
| UniV3Resolution.KeysFitTheirWidth | crates/state-fetcher/src/uniswap.rs:186-284 | for any tick within 887272 of zero every key fits int16 or int24 |
| UniV3Resolution.UniV3Resolves | crates/state-fetcher/src/uniswap.rs:129-284 | for every storage, with a hash that keeps the 65536 possible bitmap words apart and off the base slots, the layout never runs too deep and yields, strictly ascending, exactly the five base slots, the three bitmap words and the four info slots of each set bit, with their values |
| PoolStorage.CompleteMeans | crates/state-fetcher/src/uniswap.rs:119-284 | on the raw storage: if bits 160 to 183 of slot 0 hold the tick t, the fetched slots are exactly 0 to 4, the words of mapping 6 under floor(t / 2560) and its two neighbours, and four slots of mapping 5 under 10c for every set bit c of those words, ascending, each with its value |
| PoolStorage.ResolutionFollowsStorage | crates/state-fetcher/src/uniswap.rs:119-284 | so is the resolution of every storage, and it always ends |
| PoolStorage.Unpack | crates/state-fetcher/src/uniswap.rs:186-200 | every slot 0 holds such a tick |
| PoolStorage.NearbyTicksAreCovered | crates/state-fetcher/src/uniswap.rs:119-181 | every initialised tick within 256 tick spacings of the one in slot 0 has all four of its slots in the result |
| PoolStorage.BaseOnlyMeans | crates/state-fetcher/src/uniswap.rs:73-91 | what is fetched of a V2 pool is exactly slots 0, 6, 7 and 8 with their values |
| UniV3Resolution.OnePassResolves | crates/state-fetcher/src/uniswap.rs:73-91 | a layout that derives nothing resolves for every storage to exactly its base slots, ascending, with their values |
| UniV3Resolution.TooDeepExactlyWhen | crates/state-fetcher/src/lib.rs:337-363 | the depth error comes exactly when three passes each fetch something new and more is derived after the third |
| Amm.NeverPanics | crates/simulator/src/swap_calldata.rs:22-35 | on uint112 amounts with a positive input reserve no checked operation fails |
| Amm.StaysBelowReserve | crates/simulator/src/swap_calldata.rs:22-35 | the output is below the output reserve |
| Amm.LargestAccepted | crates/simulator/src/swap_calldata.rs:22-35 | an output passes the fee-adjusted constant-product check (section 3.2.1 of the Uniswap v2 whitepaper) if and only if it is at most the computed one |
| Amm.Monotone | crates/simulator/src/swap_calldata.rs:22-35 | more in never gives less out |
| SwapRuns.RoundTripNeverGains | crates/simulator/src/swap_calldata.rs:22-35 | swapping the output straight back on the updated reserves returns at most what was put in |
| SwapRuns.ProductNeverFalls | crates/simulator/src/swap_calldata.rs:22-35 | over any run of swaps in any directions the product of the reserves never falls |
| SwapRuns.NoFreeLunch | crates/simulator/src/swap_calldata.rs:22-35 | no run of swaps takes one token out of a pool without leaving more of the other |
| Opportunity.CheckIsSymmetric | crates/opportunity/src/lib.rs:106-162 | the order of the two pools does not matter |
| Opportunity.PriceGap | crates/opportunity/src/lib.rs:172-193 | the rounded Q64 prices of a profitable V2 pair are two swap fees apart, up to one unit |
| Opportunity.ProfitablePairIsKept | crates/opportunity/src/lib.rs:106-162 | the filter never reverses a profitable V2 pair, drops it if and only if both prices round to the same number, and never drops it once the source price is at least 166 |
| Opportunity.BoundIsTight | crates/opportunity/src/lib.rs:106-162 | at a source price of 165 a concrete profitable pair is dropped |
| Opportunity.CandidateFields | crates/opportunity/src/lib.rs:137-161 | an event names the cheap pool as source, carries the context's block, and expects a profit between 1 and the amount in |
| PriceFilter.PriceIsExact | crates/opportunity/src/lib.rs:172-193 | a V2 or V3 pool has a price exactly unless its reserve 0 or square-root price is zero or the product overflows, and it is 2^64 reserve1 / reserve0 or sqrtPrice^2 / 2^128 rounded down |
| PriceFilter.CheckIsExact | crates/opportunity/src/lib.rs:106-162 | for any two pools: an event exactly if both have a price and the spread is at least a 4096th of the higher one, without overflow; then the pool dearer before rounding is the source, context, amount, gas and rounded profit are the exact ones, and the profit is at least an 8192th of the amount |
| PriceFilter.V2AgainstV3 | crates/opportunity/src/lib.rs:106-193 | between a V2 and a V3 pool, in either order, the source is the one with the higher exact price: sqrtPrice^2 times reserve0 against reserve1 times 2^192 |
| SwapRoute.DecodeUndoesPack | crates/simulator/src/lib.rs:1211-1228 | decoding the packed slot gives back the reserves for every timestamp |
| SwapRoute.FetchedPoolHasReserves | crates/simulator/src/lib.rs:1211-1228 | a fetched V2 pool always has its reserves slot, holding the chain's value |
| SwapRoute.PanicsExactlyWhen | crates/simulator/src/swap_calldata.rs:22-35 | the checked formula panics exactly on a product or sum of 256 bits or more or on a divisor of zero |
| SwapRoute.EmptyReserveIsQuotedAll | crates/simulator/src/swap_calldata.rs:20-35 | with an input reserve of zero nothing in is a panic, and anything else is quoted the whole output reserve |
| SwapRoute.QuoteEndsExactly | crates/simulator/src/lib.rs:1062-1228 | either swap is the setup error exactly without slot 8, panics exactly for nothing put into a pool without that reserve, and is quoted otherwise |
| SwapRoute.RouteNeverPanics | crates/simulator/src/lib.rs:1062-1142 | on funded pools swap 1 is quoted for any uint112 input and swap 2 for any uint112 USDC balance then held, each below the reserve it comes out of |
| SwapRoute.GainfulRouteIsReported | crates/simulator/src/lib.rs:612-720 | if swap 2 spends any USDC balance up to what swap 1 was quoted and the route returns more WETH than went in, the filter reports exactly that source and sink in either argument order, unless both prices round to one number, which they do not from 166 on |
| OpportunityDriver.Drive | crates/app/src/lib.rs:1198-1255 | the loop's groups, checks and sends are those of the specified fold over the updates |
| OpportunityDriver.CheckGroup | crates/app/src/lib.rs:1216-1239 | the nested loops check exactly the pairs of the group, earlier update first, and send in that order |
| OpportunityDriver.AtMostSixteenBlocks | crates/app/src/lib.rs:1241-1245 | at most 16 blocks are held after every update, at most 9 after an eviction |
| OpportunityDriver.DroppedExactlyWhen | crates/app/src/lib.rs:1241-1245 | a block is dropped if and only if a 17th is held and some held block is more than 8 above it |
| OpportunityDriver.GroupIsRecentHistory | crates/app/src/lib.rs:1208-1215 | a block's group is exactly its updates since it was last held anew |
| OpportunityDriver.CloseBlocksAreKept | crates/app/src/lib.rs:1241-1245 | while nothing more than 8 blocks above arrives, a block keeps all its updates |
| OpportunityDriver.CloseUpdatesAreChecked | crates/app/src/lib.rs:1216-1239 | two updates of block b are checked, the earlier first, if no block above b + 8 arrived by the second |
| OpportunityDriver.OnlySameBlockIsChecked | crates/app/src/lib.rs:1208-1239 | only updates of one block are ever checked against each other |
| OpportunityDriver.ChecksAreCubic | crates/app/src/lib.rs:1216-1239 | n updates of a retained block cause exactly n(n+1)(n-1)/6 checks |
| OpportunityDriver.PairsInOrder | crates/app/src/lib.rs:1216-1239 | the pairs of a group come in the order of their earlier and then of their later member |
| OpportunitiesSent.SentIsWhatWasFound | crates/app/src/lib.rs:1222-1233 | for every stream, what was sent is exactly what `check` finds for the checked pairs, in order and numbered from one, without those whose seal failed for a zero clock |
| OpportunitiesSent.EveryOpportunityIsSent | crates/app/src/lib.rs:1222-1233 | with a clock that is never zero there is one envelope per opportunity, the i-th numbered i + 1 until the counter wraps, with its clock reading and the fixed metadata |
| OpportunityDriver.OpportunitiesLoseTheirBlock | crates/app/src/lib.rs:2014-2031 | if every update carries the stamp of `seal_envelope`, every opportunity sent is valid but carries block 0 and the zero hash |
| OpportunityDriver.StateDriverLosesBlocks | crates/app/src/lib.rs:2014-2031 | updates sealed by the state driver carry that stamp, whatever event, sequence number and clock: behind it every opportunity carries block 0 and the zero hash |
| SimulatorDb.RecordingIsTransparent | crates/simulator/src/recording_db.rs:69-103 | any deterministic client gets the same answers and leaves the same inner state, and the recording is exactly its successful storage reads in order |
| SimulatorDb.RecordingDb.Storage | crates/simulator/src/recording_db.rs:80-89 | passes the read through and records it if and only if it succeeded |
| SimulatorDb.StrictMissingDb.CommitChanges | crates/simulator/src/strict_db.rs:167-180 | marks exactly the listed accounts and slots as populated, touched or not, and then applies the changes as the inner store does |
| SimulatorDb.ReadsAreLatest | crates/simulator/src/strict_db.rs:146-160 | after any history a slot is a typed error if and only if no write named it, and otherwise reads as the value last stored and not cleared since, or as zero if there is none |
| SimulatorDb.BasicIsLatest | crates/simulator/src/strict_db.rs:122-131 | after any history `basic` is a typed error if and only if no write named the account, and otherwise what the last write that made anything of it left |
| SimulatorDb.CodeIsFirst | crates/simulator/src/strict_db.rs:133-144 | `code_by_hash` gives the code first inserted under a hash; the empty hash has none and any other is a typed error |
| SimulatorDb.EveryReplyFollowsHistory | crates/simulator/src/strict_db.rs:119-180 | every reply of any kind to any client is the one after the writes before it; block hashes are always a typed error |
| SimulatorDb.LatestStands | crates/simulator/src/strict_db.rs:146-180 | that value is the one stored at a position with no later store or clearing, and there is one if and only if such a position exists |
| SimulatorDb.SilentZeroExactlyWhen | crates/simulator/src/strict_db.rs:167-180 | a populated slot reads as a zero nobody stored if and only if it was named and no stored value still stands |
| SimulatorDb.HarmlessHistoryHasNoSilentZero | crates/simulator/src/strict_db.rs:167-180 | it never does while no account is created or destroyed and untouched accounts list only slots named before |
| SimulatorDb.SilentZeroAfterWrite | crates/simulator/src/strict_db.rs:68-180 | one more insert or commit leaves a silent zero if and only if it does not store the slot and either clears the account of a slot that is or becomes populated, or clears nothing and keeps one or lists the slot for the first time |
| SimulatorDb.UntouchedListingIsSilentZero | crates/simulator/src/strict_db.rs:167-180 | a concrete commit of an untouched account after which it does |
| SimulatorDb.CreationIsSilentZero | crates/simulator/src/strict_db.rs:167-180 | so is a slot inserted before a commit that creates its account |
| SimulatorDb.EveryReadIsLatest | crates/simulator/src/strict_db.rs:122-180 | every storage read of any client is answered so from the writes inserted before the run or committed during it |
| SimulatorDb.RecordedValuesAreLatest | crates/simulator/src/recording_db.rs:80-89 | so each recorded value is the one standing at the moment of its read |
| SimulatorDb.PopulatedOnlyGrows | crates/simulator/src/strict_db.rs:68-97 | populated accounts and slots only ever grow |
| FixtureCache.StepsKeepKeyed | crates/simulator/src/lib.rs:389-393 | over every interleaving of loads and prefetch phases each cached fixture sits under its own key, within capacity |
| FixtureCache.HitMatchesKey | crates/simulator/src/lib.rs:447-459 | a hit leaves a fixture of the opportunity's own block hash and addresses active |
| FixtureCache.LookUpIsExact | crates/simulator/src/lib.rs:428-461 | a hit is a cached key in a cache not evicted for a block number that advanced by the window; what it makes most recent and active, what a miss leaves alone, and the highest block seen |
| FixtureCache.GuardErrors | crates/simulator/src/lib.rs:527-550 | no fixture, another block hash, source or sink pool: each has its own error, in that order |
| FixtureCache.EvmRunsOnMatchesOnly | crates/simulator/src/lib.rs:527-550 | over every interleaving the EVM runs only on a fixture with the opportunity's block hash and both its pools that some thread loaded or fetched before |
| FixtureCache.PrefetchThenSimulate | crates/simulator/src/lib.rs:415-550 | with one driver, a successful prefetch is followed by a mismatch error if and only if it was a hit on a fixture with another pool kind |
| FixtureCache.FixedKindsNeverMismatch | crates/simulator/src/lib.rs:415-550 | with pool kind fixed by address, over any history a successful prefetch is never followed by a fixture-mismatch error |
| FixtureCache.KindsMatter | crates/simulator/src/lib.rs:252-267 | without that a concrete history leads to a mismatch after a hit |
| FixtureCache.LayoutDispatch | crates/simulator/src/lib.rs:1230-1247 | a result is the named pool with the chain's code and, by its kind, the complete V3 slots (under the hash assumption) or the V2 slots; the zero hash and only it is refused as such, and a node failure is the only other error |
| FixtureCache.FetchFixture | crates/simulator/src/lib.rs:463-507 | each of the six parts of the fixture is the contract it is named for, with the chain's code and exactly its listed slots at the opportunity's block; the error is the invalid block hash if and only if the hash is zero |
| FixtureCache.LocalSimulator.LoadFixture | crates/simulator/src/lib.rs:357-394 | loads exactly when all six block hashes agree, the fixture then being active and cached, and otherwise changes nothing |
| FixtureCache.LocalSimulator.CacheLookup | crates/simulator/src/lib.rs:428-461 | the first critical section, including the retention rule, is the specified step |
| FixtureCache.LocalSimulator.PrefetchFor | crates/simulator/src/lib.rs:415-515 | with other threads in between: on success the active fixture is keyed by the opportunity, after a miss it is such a fixture and passes every guard and is cached under the key; a node error comes exactly with a failing call, a missing implementation only with a proxy that names none, and the error is the invalid block hash if and only if a zero hash missed |
| Rlp.DecodeEncodeItem | crates/signer/src/rlp.rs:91-106 | decoding an encoded item gives it back and consumes exactly its bytes, whatever follows |
| Rlp.EncodeDecodeItem | crates/signer/src/rlp.rs:91-106 | re-encoding anything the strict decoder accepts gives the same bytes |
| Eip1559.WriteUnsignedFields | crates/signer/src/rlp.rs:91-106 | appends the nine items of EIP-1559 in order |
| Eip1559.PayloadLengthIsExact | crates/signer/src/rlp.rs:108-122 | the length computed up front is the number of bytes written |
| Eip1559.EncodeUnsigned | crates/signer/src/rlp.rs:30-42 | the sign input is the canonical type-2 envelope of the nine fields, and its nine items are, by position, those of the given transaction |
| Eip1559.EncodeSigned | crates/signer/src/rlp.rs:49-79 | the signed bytes are the canonical type-2 envelope of the nine fields and the signature, and its twelve items are, by position, those of the given transaction, parity, r and s |
| Eip1559.DecodeEncodeTx | crates/signer/src/rlp.rs:30-122 | the strict decoder recovers every encoded field and consumes all input |
| Eip1559.EncodeDecodeTx | crates/signer/src/rlp.rs:30-122 | any accepted bytes are exactly the envelope of what they decode to |
| Eip1559.PreimagesAndSignedBytes | crates/signer/src/rlp.rs:30-122 | unsigned preimages are equal if and only if the transactions agree in all but sender and correlation id, signed bytes if and only if the signatures agree too, and no signed encoding equals an unsigned one |
| RelaySim.HighestPrecedenceWins | crates/relay-sim/src/lib.rs:187-296 | `compare` is Ok if and only if no category is a mismatch, and otherwise returns the first failing one in the documented precedence, with both sides' data |
| RelaySim.UnknownIsRelayError | crates/relay-sim/src/lib.rs:303-318 | Unknown comes from a relay error and only from one, and only then the abort lacks the relay outcome |
| RelaySim.AbortShowsDifference | crates/relay-sim/src/lib.rs:196-318 | an abort shows the two values that differ, local first; for the state the first local observation that disagrees and the relay's first entry for its slot |
| RelaySim.OrderDoesNotMatter | crates/relay-sim/src/lib.rs:242-265 | permuting the local observations never changes the category, nor does permuting the relay's when no observed slot is reported with two values |
| RelaySim.OrderMattersExactlyWhen | crates/relay-sim/src/lib.rs:242-265 | where the state check passes, some relay order fails it if and only if an observed slot is reported with two values |
| RelaySim.SelfComparison | crates/relay-sim/src/lib.rs:187-296 | a run agrees with its own mirror if and only if it observed one value per slot, and otherwise fails with StateDependency |
| RelaySim.CommitFreeRunMirrorsItself | crates/relay-sim/src/lib.rs:242-265 | every recorded strict run of any client that commits nothing agrees with its own mirror |
| RelaySim.ReadCommitReadDoesNotMirrorItself | crates/relay-sim/src/lib.rs:242-265 | one that reads, commits and reads again does not |
| ComparatorDriver.Drive | crates/app/src/lib.rs:1509-1660 | the loop's visible effects, in order, are those of the specified fold over what it receives |
| ComparatorDriver.CompareMessage | crates/app/src/lib.rs:1564-1647 | one iteration's effects and sequence counter |
| ComparatorDriver.JournalBeforeBroadcast | crates/app/src/lib.rs:1606-1647 | at every moment of every run, whatever fails, the broadcast aborts are in order among those already flushed |
| ComparatorDriver.InOrderMeans | crates/app/src/lib.rs:1606-1647 | being in order among them means at rising positions of the journal, each with the same abort |
| ComparatorDriver.OnlyClearedAreSubmitted | crates/app/src/lib.rs:1538-1656 | the submissions are exactly the signed bundles of messages read with the switch inactive and compared Ok, each once and in order; the broadcasts exactly the aborts whose seal, append and flush all succeeded |
| ComparatorDriver.AbortsTellTheirStory | crates/app/src/lib.rs:1614-1620 | every journaled envelope is valid, carries the abort, context and correlation of a message that was compared, and concerns a successful local run with a profit |
| ComparatorDriver.SequencesRise | crates/app/src/lib.rs:1665-1684 | until the counter wraps, journaled sequence numbers strictly rise |
| ComparatorStory.RunIsItsStories | crates/app/src/lib.rs:1538-1656 | all effects of a run are, message by message: the relay asked with the message's context, then the exact bundle candidate and its signed bundle, or the sealed abort with number, context, source and time appended, flushed and broadcast as far as each succeeds |
| ComparatorStory.DriverIsItsStories | crates/app/src/lib.rs:1509-1660 | the driver does exactly that and one last flush when its stream has ended, and nothing without a relay |

## Left out

- rkyv archive layout: an abstract pair `encode`/`decode` with `decode(encode(e)) == e`, which may also refuse to encode; the relation is assumed by `Lawful`, which `JournalLog.SampleCodecIsLawful` shows can be met.
- keccak256: an abstract function. Assumed of it (`SlotLayouts.Ideal`) is that the 65536 int16 keys of bitmap words do not collide and that none of these words is one of the slots 0 to 4; that the buffers it hashes differ is proved. Only the completeness clauses for UniswapV3 pools need it.
- CRC-32 in the journal proofs is any instance with the two properties that `Crc32.IeeeIsSound` proves of the IEEE constants, which `Crc32.IeeePolynomial` gives coefficient by coefficient.
- 64-bit wrap-around of counters and file offsets in the journal, the bus and the fetcher; offsets and totals are unbounded there. The drivers' wrapping `seq` is modelled.
- Journal.FileReader.Fill: the file does not change while one read loop runs; reads of a growing file are modelled between calls of the iterator.
- BufReader and BufWriter internals: reads are split and writes spill arbitrarily instead. `flush` is not durability across a crash.
- Journal.FileJournal.Open: file creation, seeking and metadata calls that fail are all the same `Io` error here.
- `CrossbeamBoundedBus` and `CrossbeamConsumer` are one class in `BoundedBus`; a call that blocks for ever is modelled by a `patience` bound after which it is reported as still blocked. The proofs in `EventBus` have no such bound.
- Relaxed memory ordering of the bus counters: each counter update is one atomic action in a total order.
- Contract bytecode is a number, account code and storage at one block never change; `NodeError` kinds are one `Node` error.
- FixtureCache.FetchFixture: the fixed slot lists for WETH and USDC and the parsing of the proxy's implementation slot are parameters.
- SimulatorDb.StrictMissingDb.CommitChanges: the inner store is revm 14.0.3's `CacheDB` over an empty database, as `InnerCommit` says; bytecode that a committed account brings along is not stored, and an account inserted with code under the empty or zero hash keeps the hash it is given.
- SimulatorDb.InsertAccount: `CacheDB` remembers an address that it first met through a slot, or through a read that found nothing, as not existing, and `basic` then answers None for it even after its account is inserted, until a commit touches it; the model answers the inserted account. Storage reads, which the results here are about, do not depend on it.
- The EVM, the mock router and recorded fixtures: replaced by an arbitrary deterministic client of the database interface. `SwapRoute` takes the USDC balance that the router holds after swap 1 as a parameter.
- UniswapV3 swap arithmetic and calldata layout, for both pool kinds.
- Ingress: `observed_at` timestamps and the other transaction fields; the fetch is a function of the position.
- tokio broadcast channels: a driver sees a finite script of messages, then Lagged, Closed or nothing yet; sends never fail visibly. `OpportunityDriver` sees the messages up to the first Lagged or Closed.
- ComparatorDriver.Drive: the bid strategy is a function of the outcome, the candidate's profit source is dropped, and the journal is its answers to append and flush.
- Clocks, logging, metrics, configuration, relay HTTP clients, KMS signing, key recovery, RocksDB snapshots and the wiring: calls into libraries whose behaviour is not part of this model.
- Risk gate, bid strategies, retry and reconcile: single comparisons or one formula each, with no state and no second function to relate them to.
