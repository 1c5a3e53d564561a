# A verified model of bitc's core

bitc is a Bitcoin client that keeps only block headers and its own transactions. This project models
the parts of it that other code relies on without looking, and proves what they promise:

- **Header chain** (`HeaderChain`, `HeaderReplay`, `BlockStore`): block headers arrive in any order; the
  store keeps the longest known branch as its main chain, the rest as orphans, and writes the main
  chain to a file that it replays when it starts.
- **Filter scan** (`FilterScan`, `ScanSafety`, `ScanHandlers`, `PeerGroup`): block filters (BIP157) for a range of
  heights are fetched in chunks from many peers at once; chunks are lost, handed out again and finished
  out of order, and a resume height is saved as the scan goes on.
- **Filter headers** (`CfHeaderStore`, `FilterHeaderChain`): the hash-linked headers that filters are
  checked against, in a file with two formats that survives writes cut short.
- **Filter matching** (`Gcs`): the BIP158 Golomb-coded set decoder and matcher.
- **Codecs** (`TxFormat`, `Serialize`, `Base58`): transactions and blocks on a growable buffer, and
  base-58 text.
- **Ledger** (`Ledger`, `CoinSelection`, `TxDb`): the wallet's coins, what is saved of them, and how a
  payment picks coins.
- **Containers** (`HashTable`, `CircList`, `TimerQueue`, `PollLoop`): the chained hash table, and the
  timer queue in an intrusive circular list.

Every one of these is a C file that changes things in place, so each has a class or a method with the
same fields, loops and order of writes. Where an operation is also reasoned about over whole runs, a
function on values stands beside it (`HeaderChain.AddEntry`, `FilterScan.HandleFilter`,
`CfHeaderStore.Append`, `TxFormat.ParseTx`, `Ledger.HandleTx`, `TimerQueue.Apply`, ...): the method is
proved to compute exactly that function, and the lemmas are about the function. An assertion or a
panic in the source is the outcome `Stopped`. Hash functions, the wallet's keys, the clock, and whether
a write or a send succeeds are inputs.

## What differs from what the source says of itself

The model follows the code. In these places the code does less than its comments or its callers
expect, and the member named says when.

- A filter's match is recorded after the resume height has moved, so the height can be past a block
  that is still to be fetched, and a crash then loses the match, since the next scan starts at the
  resume height: exactly when a filter matches at a height already behind it, or is the last one missing
  in the done prefix, matches below its end, and no earlier fetch holds the resume height back (`ScanSafety.FilterKeepsPendingAbove`,
  `ScanSafety.LastPassesMatch`, `ScanSafety.CrashesLoseOnlyPendingBelow`).
- A fetch that times out is dropped if there is no other peer to ask, although the message says that it
  will remain pending (`ScanSafety.TimeoutForgets`).
- A chunk is done after as many filters as it has heights, even if some were for the same height or for
  heights of no chunk; it is covered exactly if they were all different and its own
  (`ScanSafety.DoneCoversExactly`, `ScanSafety.DuplicateFinishesChunk`). The chunk index rounds toward
  zero, so heights just below the range count for the first chunk, and heights above the tip for the
  last (`FilterScan.ChunkIndexExact`).
- A filter or a block that names an unknown block ends the program, although the handler has a test
  meant to skip it (`PeerGroup.Group.ReceiveCfilter`).
- An orphan branch is not looked at again when its root arrives, so the best chain is the longest one
  exactly as long as no such branch outgrows it (`HeaderChain.StaysLongestExactlyWhen`,
  `HeaderChain.LongestExactlyWhen`, `HeaderChain.LateParentIsNotAdopted`); a second child of genesis, or
  a dangling branch that outgrows the best chain, ends the program
  (`HeaderChain.AddEntryStopsExactlyWhen`).
- Entries are flagged as written before the write is tried, so the headers of a failed write never
  reach the file while the program runs (`HeaderReplay.LostForGood`). A load right after it rebuilds the
  best chain exactly if there was nothing to write (`HeaderReplay.FailedWriteReplaysExactlyWhen`), and
  after further writes it may not load at all (`HeaderReplay.FailedWriteBreaksReplay`).
- A crash in the middle of the count in the header of the filter-header file can lose more than the last
  entry, when the new count carries into bytes not yet written (`CfHeaderStore.TornAppendSurvives`).
- A batch of filter headers that fails half way leaves the remembered previous header behind the store
  (`FilterHeaderChain.HandleKeeps`, `FilterHeaderChain.FailedAppendLosesLink`).
- Coin selection checks that the coins cover the payments, not the payments and the fee; in between the
  change wraps around (`CoinSelection.SelectConserves`, `CoinSelection.FeeNotCovered`).
- Confirming a transaction does not reach its coins: a coin names the block its transaction had when the
  coin was created or last loaded, so one that came unconfirmed can be spent only after a restart
  (`Ledger.CoinNamesBlockExactlyWhen`, `Ledger.ConfirmedCoinWaitsForRestart`).
- `serialize_varint` drops the high half of lengths of 2^32 and more (`TxFormat.VarintRoundTrip`), and
  `buff_check_overflow` adds without a guard against wrapping (`Serialize.OverflowsExact`).
- A timer's callback cannot remove its own timer (`TimerQueue.SelfRemovalMisses`).
- The matcher's running value starts at 0, so a query whose value is 0 always matches; the item count
  only scales the hashes and is not used to stop (`Gcs.MatchesEncodedSet`).
- A hash table that grew past 256 buckets never gets back below 1024, and one with 2^30 buckets stays
  there until it is empty (`HashTable.NeverBackBelow`).

## Model

| member | source | states |
|---|---|---|
| HeaderChain.AddEntryKeeps | core/block-store.c:467-519 | An arrival that returns keeps the structure: the two indexes are disjoint, the main chain is linked by parent from genesis, no known header is lost, and the main chain changes only to a strictly longer one that ends in the new header, so a tie keeps the incumbent |
| HeaderChain.AddEntryStopsExactlyWhen | core/block-store.c:389-519 | The run ends exactly for a first header that is not genesis, a header (not on the tip) whose parent is genesis, and a branch with an unknown root that is longer than the best chain |
| HeaderChain.RewireKeeps | core/block-store.c:317-376 | Switching to an attached branch keeps the structure and every header, and the new tip is the branch's end at the junction's height plus the branch's length |
| HeaderChain.AltHeightIsDepth | core/block-store.c:389-416 | With known parents the recursive height search reaches the main chain and returns the header's true depth below genesis, counted along parents only |
| HeaderChain.MainDepth | core/block-store.c:427-456 | The height of a main-chain entry is its depth counted along parents |
| HeaderChain.HeightAfter | core/block-store.c:467-519 | A new header whose branch reaches the main chain leaves the greater of the old height and its own; any other leaves the height |
| HeaderChain.HangingDepth | core/block-store.c:467-519 | An orphan whose branch ended in an unknown parent gets a depth only through the header that becomes that parent, and is deeper than it by the length of the branch |
| HeaderChain.StaysLongestExactlyWhen | core/block-store.c:467-519 | A new header, in any order of arrival, keeps the stored height at the greatest depth of all known headers exactly if, when it gets a depth itself, every orphan branch that hangs from it is no deeper than the height before |
| HeaderChain.LongestExactlyWhen | core/block-store.c:467-519 | Over every run that returns, in any order of arrival, the height is the greatest depth before and after each arrival exactly if no arrival completes an orphan branch that outgrows the best chain of that time |
| HeaderChain.LongestChain | core/block-store.c:467-519 | So it is if each header arrives after its parent, and then the tip has that depth |
| HeaderChain.LateParentIsNotAdopted | core/block-store.c:490-517 | The shortest run where it fails: genesis, a grandchild, then its parent leaves the longer chain an orphan |
| HeaderChain.AddHeaderKeeps | core/block-store.c:672-708 | Adding a header, known or new, keeps the structure, forgets nothing, leaves the header findable, and never lowers the height |
| HeaderChain.SecondChildOfGenesisStops | core/block-store.c:389-416 | A second child of genesis always ends the run |
| HeaderChain.KnownOrphanStops | core/block-store.c:505-515 | Adding an orphan a second time ends the run, unless its parent has become the tip |
| HeaderReplay.LoadWellOrdered | core/block-store.c:739-826 | A file that starts at genesis, lists each other header after its parent and has one child of genesis loads without stopping, with every header rooted and the height at the greatest depth |
| HeaderReplay.LoadFindsDeepest | core/block-store.c:739-826 | Loading such a file ends with its sole deepest header as the tip, at its depth |
| HeaderReplay.WriteExact | core/block-store.c:615-661 | A write stops the run exactly if the last 2048 headers of the main chain, or more, are not written; else it flags the unwritten end of the chain, and appends it if the write succeeds |
| HeaderReplay.WriteKeeps | core/block-store.c:615-661 | A successful write keeps "written implies parent written" and a file in which parents come first, and leaves the whole main chain written |
| HeaderReplay.RunKeeps | core/block-store.c:615-826 | Every run of arrivals, successful writes and reopenings keeps that invariant, and that nothing written is as deep as the tip but the tip |
| HeaderReplay.ReplayRebuilds | core/block-store.c:615-826 | After any such run from an empty store a further successful write leaves a file from which a new store rebuilds the same main chain, tip and height |
| HeaderReplay.FailedWriteBreaksReplay | core/block-store.c:638-660 | A failed write followed by a successful one leaves a file that does not start at genesis and cannot be loaded |
| HeaderReplay.FailedWriteReplaysExactlyWhen | core/block-store.c:638-660 | After a failed write the file still loads, and what it rebuilds is the main chain exactly if the whole main chain was written before |
| HeaderReplay.LostForGood | core/block-store.c:615-661 | A header that a failed write left out of the file is not in it after any further run, until the program starts again |
| BlockStore.Store.constructor | core/block-store.c:903-979 | An empty store |
| BlockStore.Store.Lookup | core/block-store.c:93-114 | Finds the orphan with this hash, else the main-chain entry, else nothing |
| BlockStore.Store.FindAlternateChainHeight | core/block-store.c:389-416 | On linked entries the recursion returns the junction's height plus the number of steps, the number of steps less one for an unknown root, and stops at genesis |
| BlockStore.Store.SetChainLinks | core/block-store.c:317-376 | The recursion moves the tail above the junction to the orphans, puts the branch on the main chain in the links and both indexes, and returns the new height; it stops exactly on a branch that is not attached |
| BlockStore.Store.SetBestChain | core/block-store.c:427-456 | In place, computes HeaderChain.SetBestChain on heights, links and indexes, and keeps the set of entries |
| BlockStore.Store.AddEntry | core/block-store.c:467-519 | In place, computes HeaderChain.AddEntry, stopping exactly when it does, and keeps next and prev inverse along the main chain with heights 0 up to the tip, the tip's next null, and orphans at height -1 |
| BlockStore.Store.AddHeader | core/block-store.c:672-708 | In place, computes HeaderChain.AddHeader; reports whether the header was new and whether it became an orphan |
| BlockStore.Store.WriteHeaders | core/block-store.c:615-661 | Walks back over unwritten entries, flags them and appends their headers oldest first: computes HeaderReplay.WriteHeaders, failed writes included |
| BlockStore.Store.CountUnwritten | core/block-store.c:615-640 | Counts the entries at the end of the main chain that are not written |
| BlockStore.Open | core/block-store.c:739-826 | Reads a file in batches into a new store: computes HeaderReplay.Load, with everything flagged as written |
| BlockStore.Store.LoadBatch | core/block-store.c:768-814 | One batch takes the load further by exactly its headers |
| FilterScan.ChunkIndexExact | core/peergroup.c:58 | Chunks cover the range without overlap and the index is exact on it; outside it, the 999 heights below the floor go to chunk 0 and those above the tip to the last chunk |
| PeerGroup.Group.constructor | core/peergroup.c:1303-1332 | The loop that carves the range into chunks makes FilterScan.Start |
| PeerGroup.Group.AssignChunk | core/peergroup.c:786-816 | In place, computes FilterScan.Assign: the chunk changes hands only if the request is sent |
| PeerGroup.Group.AssignNextChunkTo | core/peergroup.c:833-846 | Gives the first chunk the peer may have |
| PeerGroup.Group.ScheduleCfilters | core/peergroup.c:865-917 | In place, computes FilterScan.Schedule: idle filter peers in order, up to 64 chunks at once |
| PeerGroup.Group.CheckPendingChunks | core/peergroup.c:933-981 | In place, computes FilterScan.CheckChunks: takes back stalled chunks, then schedules |
| PeerGroup.Group.RequeuePeerChunks | core/peergroup.c:1003-1031 | In place, takes back one peer's unfinished chunks, then schedules |
| PeerGroup.Group.DestroyPeer | core/peer.c:491-557 | The peer is marked as gone before its chunks are requeued and leaves the list after |
| PeerGroup.Group.AddPeer | core/peergroup.c:1197-1380 | A new peer is listed, and work is handed out if the filter headers are synced |
| PeerGroup.Group.ReceiveCfilter | core/peergroup.c:490-515 | The handler for the block a message names: ends the program, with nothing changed, exactly on a block that is not on the main chain |
| PeerGroup.Group.ReceiveBlock | core/peergroup.c:1857-1925 | So does this one |
| PeerGroup.Group.ReceiveNotfound | core/peer.c:678-702 | Retries each block with one other peer; ends the program exactly if a block it requests again is not on the main chain |
| PeerGroup.Group.AdvanceLastblk | core/peergroup.c:730-774 | In place, computes FilterScan.AdvanceLast |
| PeerGroup.Group.CountFilter | core/peergroup.c:576-600 | Counts one filter, and moves the watermark to the end of the done prefix when that finishes the chunk |
| PeerGroup.Group.HandleCfilter | core/peergroup.c:490-649 | In place, computes FilterScan.HandleFilter and whether the peer is kept |
| PeerGroup.Group.RemovePendingBlock | core/peergroup.c:1041-1054 | Takes out the first fetch of a block, the last entry taking its place |
| PeerGroup.Group.HandleFetchedBlock | core/peergroup.c:1857-1925 | Feeds the block, removes its fetch, then moves the resume height |
| PeerGroup.Group.ChooseRetryPeer | core/peergroup.c:1953-1980 | The single pass over the peers finds FilterScan.RetryPeer |
| PeerGroup.Group.RetryBlockFetch | core/peergroup.c:1942-1996 | In place, computes FilterScan.RetryAll |
| PeerGroup.Group.CollectExpired | core/peergroup.c:1071-1098 | The first 64 expired fetches, without changing the list |
| PeerGroup.Group.CheckPendingBlocks | core/peergroup.c:1071-1115 | In place, computes FilterScan.CheckBlocks: each expired fetch is removed before it is retried |
| ScanSafety.StartValid | core/peergroup.c:1303-1332 | A scan starts in a valid state |
| ScanSafety.AssignKeeps | core/peergroup.c:786-816 | Giving a free chunk to an idle live peer keeps the invariant |
| ScanSafety.ScheduleKeeps | core/peergroup.c:865-917 | The scheduling loop keeps the invariant, at most 64 owned chunks and one a peer included |
| ScanSafety.AdvanceKeeps | core/peergroup.c:730-774 | The resume height moves strictly up, to a height inside the done prefix and below every pending block, or stays |
| ScanHandlers.AdvanceIsFurthest | core/peergroup.c:730-774 | It goes exactly as far as it may: every chunk that starts at or below it is done and no block at or below it is pending, and that is true of no height above it |
| ScanHandlers.LastFilterIsFurthest | core/peergroup.c:579-598 | So when a chunk is finished the resume height is as far as it may be |
| ScanHandlers.BlockExact | core/peergroup.c:1857-1925 | A fetched block is fed, one fetch of it is no longer pending, no other fetch and no chunk changes, and the resume height is as far as it may be |
| ScanSafety.HandleFilterKeeps | core/peergroup.c:490-649 | A filter keeps the invariant, undoes no chunk, and moves the resume height only as promised |
| ScanSafety.HandleBlockKeeps | core/peergroup.c:1857-1925 | So does a fetched block |
| ScanSafety.RetryExpiredKeeps | core/peergroup.c:1071-1115 | So does a timed-out fetch |
| ScanSafety.StepKeeps | core/peergroup.c:490-1115 | Every event keeps the invariant and makes progress only: no chunk is undone, and when the resume height moves every block recorded before at or below it was fed or dropped |
| ScanSafety.RunKeeps | core/peergroup.c:490-1115 | So does every step of every run, in which records are never lost and the resume height never falls |
| ScanSafety.RecordedIsAccountedFor | core/peergroup.c:659-675 | A block recorded at any time is later still pending, or was fed to the wallet, or was dropped by a retry |
| ScanSafety.DoneCoversExactly | core/peergroup.c:576-600 | A done chunk counted as many filters in its last assignment as it has heights, and they cover it exactly if they were for different heights, all its own |
| ScanSafety.CountedIsVerified | core/peergroup.c:520-600 | Every height that a chunk's last assignment counted had a filter with the stored hash, and its block was recorded if the filter matched |
| ScanSafety.DoneIsVerified | core/peergroup.c:528-601 | So every height of a done chunk whose last assignment was proper in this sense is verified, whatever happened in other chunks or in earlier assignments |
| ScanSafety.WatermarkIsVerified | core/peergroup.c:562-601 | Every height up to the end of the done prefix, and up to a resume height that has moved, is verified if its own chunk's last assignment was proper |
| ScanSafety.CompleteScan | core/peergroup.c:689-708 | A finished scan with nothing pending has fed or dropped the block of each height whose filter matched, if the height's chunk was proper |
| ScanSafety.SchedulerSafe | core/peergroup.c:786-917 | Two assignments of a chunk in a row go to different peers, an unfinished chunk has between 1 and its size filters left, its owner is connected and owns no other, and at most 64 are owned |
| ScanHandlers.TickTakesBackExactly | core/peergroup.c:933-981 | A tick takes back exactly the unfinished chunks whose owner has sent nothing for them for 10,000,000 microseconds: they start over, free or with another peer; any other owned or done chunk stays as it is, a free one may be handed out, and without a silent owner nothing changes |
| ScanHandlers.GoneTakesBackExactly | core/peergroup.c:1003-1031 | A peer that goes loses exactly its own unfinished chunks, which start over, free or with another peer, and it alone leaves the list |
| ScanHandlers.ScheduleServes | core/peergroup.c:865-917 | The scheduler leaves no work undone: if its requests get through, 64 chunks are owned afterwards, or every connected filter peer owns one or may have none of those left |
| ScanHandlers.RequeueServes | core/peergroup.c:978-1031 | So it is after a tick or a lost peer that took a chunk back |
| ScanHandlers.LateFilterIsHarmless | core/peergroup.c:555-574 | A filter for a chunk that its sender does not own, or that is done, moves no chunk, not the watermark and not the resume height |
| ScanHandlers.FilterCounts | core/peergroup.c:576-584 | A filter from the owner of its chunk leaves one fewer to come and starts the clock of its progress again; before the last one nothing else moves |
| ScanHandlers.LastFilterMovesOn | core/peergroup.c:579-600 | With the last one the chunk is done, its owner is given the first chunk it may have, if the request gets through, and no other chunk moves |
| ScanHandlers.FilterExact | core/peergroup.c:490-649 | A refused filter changes nothing; an accepted one is noted, and its block is asked from its sender if it matches; the peer is dropped exactly for a wrong hash, or if that request does not get through |
| ScanSafety.RestartCovers | core/peergroup.c:1303-1326 | A scan that starts again covers exactly the heights from the resume height to the tip |
| ScanSafety.OvertakenExact | core/peergroup.c:730-774 | After a filter for a height is counted, the resume height is past that height exactly if it was before, or the filter is the one that its chunk lacks, all earlier chunks are done, no block up to the next height is pending, and the height is not its chunk's last or the next chunk is done |
| ScanSafety.FilterKeepsPendingAbove | core/peergroup.c:576-646 | A filter leaves no block to fetch below the resume height exactly unless it is accepted and matches at a height that is overtaken in this sense |
| ScanSafety.OthersKeepPendingAbove | core/peergroup.c:730-774 | Nor does any other event, if "not found" answers name pending blocks |
| ScanSafety.RunKeepsPendingAbove | core/peergroup.c:490-1115 | Nor does any run without such a filter or answer, so that a crash at any time loses no block that is still to be fetched |
| ScanSafety.LastPassesMatch | core/peergroup.c:576-646 | Two heights whose filters arrive in the other order, the last one matching: the resume height is past the match before its fetch is recorded, and no later scan covers it |
| ScanSafety.DuplicateFinishesChunk | core/peergroup.c:576-600 | A filter sent three times finishes a chunk of three heights; height 2 was never checked, and a scan that starts again from the resume height does not cover it |
| ScanSafety.CrashesLoseOnlyPendingBelow | core/peergroup.c:490-1332 | Over any number of crashes, each followed by a scan from a saved resume height, until a scan is over: every height is settled in the last scan that started at or below it, if its chunk was proper there; its match was fed, or dropped, or was pending below the resume height when that scan crashed, which the condition on filters excludes |
| ScanSafety.TimeoutForgets | core/peergroup.c:1071-1115 | A tick drops, for each block, exactly as many fetches as it found expired and could not send to another peer |
| ScanHandlers.ExpiredExactly | core/peergroup.c:1071-1098 | A tick looks at the fetches that are 10,000,000 microseconds old or more, in their order, 64 of them at most |
| ScanHandlers.ExpiredRetries | core/peergroup.c:1100-1115 | Each of them is taken off the list, and asked from the chosen peer from now on if the request gets through |
| ScanHandlers.NotFoundExact | core/peergroup.c:1942-1996 | A "not found" answer adds a fetch from one other peer for each block it names, if the requests get through, and takes none off |
| ScanSafety.RetryPrefersFull | core/peergroup.c:1953-1980 | No peer is found exactly if no other connected full node is left; a limited one is chosen only if all are limited, and the first of those that may be |
| CfHeaderStore.HeaderFile.WriteHeader | core/cfheader-store.c:131-159 | Writes the file header at offset 0; fails exactly if it is cut short, and says which bytes are there then |
| CfHeaderStore.HeaderFile.constructor | core/cfheader-store.c:169-303 | On any bytes, opening does what Init says of them |
| CfHeaderStore.HeaderFile.LoadRecords | core/cfheader-store.c:252-291 | Reads the records one by one and corrects count and base height |
| CfHeaderStore.HeaderFile.AppendEntry | core/cfheader-store.c:378-442 | Appends, with its two writes cut short anywhere, as Append says |
| CfHeaderStore.HeaderFile.Get | core/cfheader-store.c:452-492 | Looks up by height as Find says |
| CfHeaderStore.WriteLE32 | core/cfheader-store.c:103-110 | Four bytes, the lowest first |
| CfHeaderStore.RecordRoundTrip | core/cfheader-store.c:257-273 | A record reads back as written, negative heights included |
| CfHeaderStore.RecordLayout | core/cfheader-store.c:413-416 | A record is 68 bytes: the height in 4, the lowest first, the filter header, the filter hash |
| CfHeaderStore.HeaderLayout | core/cfheader-store.c:19-33 | The file header is the magic number, the version, the number of records in 4 bytes and, in version 2, the height of the first one |
| CfHeaderStore.AcceptsExactly | core/cfheader-store.c:391-404 | An append takes the next height; for the first entry any height in the new format and only 0 in the old one |
| CfHeaderStore.ForeignFile | core/cfheader-store.c:195-250 | A file without one of the two headers, or cut off inside it, becomes an empty store in the new format |
| CfHeaderStore.InitReadsPrefix | core/cfheader-store.c:202-291 | Opening a file that backs some entries reads their longest prefix that the file claims and holds whole, and leaves memory and file in agreement |
| CfHeaderStore.InitWrites | core/cfheader-store.c:287-291 | Opening leaves the file as it is if its count is right, and else rewrites its header and nothing more |
| CfHeaderStore.CutBacks | core/cfheader-store.c:252-291 | A file cut off anywhere above its header still backs the same entries |
| CfHeaderStore.CutHeader | core/cfheader-store.c:202-251 | A file cut off inside its header opens as an empty store |
| CfHeaderStore.TornHeader | core/cfheader-store.c:131-159 | A header write cut short after any byte leaves exactly the low bytes of the new count over the high bytes of the old one, never more than the new one |
| CfHeaderStore.TornAppendSurvives | core/cfheader-store.c:378-442 | After an append to an up-to-date file whose header write was cut short with j bytes of the count written, all entries are found again unless those bytes carry, and then all but 256^j are; all or nothing of the header loses one at most |
| CfHeaderStore.CarriedExact | core/cfheader-store.c:131-159 | With one, two or three bytes of the count written it is 256, 65,536 or 16,777,216 entries, exactly when the count just became a multiple of that; with none it is one entry, and with all none |
| CfHeaderStore.AppendKeeps | core/cfheader-store.c:378-442 | An append adds the entry or changes nothing, whatever part of its writes reached the file; it reports success exactly if both were whole, and then the file counts the entry |
| CfHeaderStore.StepKeeps | core/cfheader-store.c:202-442 | An append whose record is written adds its entry; after a restart on a file cut to any length, up to date or not, the entries are exactly the first ones, as many as the header counts and the file holds whole |
| CfHeaderStore.SurvivingIsMost | core/cfheader-store.c:252-291 | These are as many as are counted and whole: one more is not counted, or its record is cut off |
| CfHeaderStore.RunContents | core/cfheader-store.c:202-442 | After any run of torn appends and restarts the entries are exactly what was appended whole, in order, cut at each restart to the surviving prefix |
| CfHeaderStore.FindExact | core/cfheader-store.c:452-492 | A lookup by height returns the entry that carries that height, and misses exactly outside the stored range |
| CfHeaderStore.EmptyFile | core/cfheader-store.c:202-240 | A new file and an empty one in the old format open as empty stores |
| FilterHeaderChain.HeaderSync.constructor | core/peergroup.c:1338-1356 | A sync continues from the stored tip's header, or from zero |
| FilterHeaderChain.BeginExact | core/peergroup.c:1338-1356 | It starts from the header of the stored tip, and from zero if nothing is stored |
| FilterHeaderChain.HeaderSync.HandleCfheaders | core/peergroup.c:1751-1844 | In place on the store's file, computes HandleHeaders, whichever bytes of each append reach the file |
| FilterHeaderChain.HandleKeeps | core/peergroup.c:1751-1844 | With a stored tip a batch is refused exactly if it does not continue it, and then nothing changes; else it appends its hashes up to the first failure, each header the hash of its filter hash and the header before, and keeps the chain and the previous header in step exactly if no append failed, or none added an entry, or the new tip has the old header |
| FilterHeaderChain.AddedExact | core/peergroup.c:1795-1827 | All appends of a batch succeed exactly if all their writes are whole; else the first that fails is the last one tried, and adds its entry exactly if its record was written |
| FilterHeaderChain.RestartKeeps | core/peergroup.c:1338-1356 | A restart, even after the file was cut off, keeps the chain linked and the previous header on its tip |
| FilterHeaderChain.RunStaysLinked | core/peergroup.c:1751-1844 | Every run of batches, none of which fails half way, and restarts keeps each stored header the hash of its filter hash and the header before, and the previous header on the stored tip |
| FilterHeaderChain.FailedAppendLosesLink | core/peergroup.c:1795-1827 | After a batch that fails half way the batch that continues the stored tip is refused, or, if no header was known before, no batch is |
| Gcs.BitReader.ReadBit | core/gcs.c:168-186 | The next bit, most significant first, or -1 at the end |
| Gcs.BitReader.ReadBits | core/gcs.c:189-203 | The next n bits as a number, or -1 |
| Gcs.BitReader.ReadDelta | core/gcs.c:211-240 | The next Golomb-Rice value, or -1 at the end of the data or past the quotient cap |
| Gcs.ReadCompactSize | core/gcs.c:250-288 | Reads the item count, in any of its four forms, as CompactSize says |
| Gcs.CompactSizeRoundTrip | core/gcs.c:250-288 | A count in its shortest form reads back, and the position is after it |
| Gcs.CompactSizeExact | core/gcs.c:250-288 | A count is read in every form, shortest or not, and refused exactly if the bytes end first |
| Gcs.Sort | core/gcs.c:352-361 | The insertion sort sorts the array and keeps its values |
| Gcs.HashToRangeExact | core/gcs.c:346-349 | The value of an item is the whole part of its hash over 2^64 times the range, which is the item count times 784931 |
| Gcs.HashToRangeMonotone | core/gcs.c:346-349 | The values come in the order of the hashes |
| Gcs.ItemValueExact | core/gcs.c:317-349 | The hash is keyed with the first 16 bytes of the block hash |
| Gcs.Merge | core/gcs.c:363-394 | The two-stream merge ends, and says yes exactly when some query is one of the running sums decoded before the first failed read |
| Gcs.MatchAny | core/gcs.c:301-395 | On any bytes the matcher says yes exactly when naive membership does, for an item count from 1 to 10,000,000, and no otherwise |
| Gcs.BadCountMatchesNothing | core/gcs.c:319-338 | A filter whose count does not read, is 0 or is above 10,000,000 matches nothing |
| Gcs.SumsBounded | core/gcs.c:363-394 | No running sum reaches the number of bits times 2^19 |
| Gcs.DeltaExact | core/gcs.c:211-240 | A value is decoded exactly when its BIP158 code stands at the position and its quotient is within the cap |
| Gcs.SumsOfDeltas | core/gcs.c:363-394 | The deltas of BIP158 decode to the values one by one, and the padding bits never to one more |
| Gcs.QuotientFits | core/gcs.c:211-240 | The quotient cap never fires on a value in range |
| Gcs.MatchesEncodedSet | core/gcs.c:301-395 | On the BIP158 filter of a block's 1 to 10,000,000 items the matcher says yes exactly when some query's value is 0 or the value of an item |
| Gcs.NoFalseNegative | core/gcs.c:301-395 | A query that is an item of the block always matches |
| TxFormat.VarintLayout | core/serialize.c:498-525 | A varint is one byte below 253, else a byte that says how many follow and then the number, the lowest byte first |
| TxFormat.VarintReads | core/serialize.c:275-303 | The reader takes every form, minimal or not, and fails exactly if the bytes end first |
| TxFormat.InLayout | core/serialize.c:196-202 | An input is the hash, the index in 4 bytes, the length of the script, the script, the sequence in 4 bytes |
| TxFormat.OutLayout | core/serialize.c:206-210 | An output is the value in 8 bytes, the length of the script, the script |
| TxFormat.TxLayout | core/serialize.c:187-216 | A transaction is the version in 4 bytes, the number of inputs and the inputs, the number of outputs and the outputs, the lock time in the last 4 bytes |
| TxFormat.InsLayout | core/serialize.c:196-202 | The inputs stand one after another in their order |
| TxFormat.OutsLayout | core/serialize.c:206-210 | So do the outputs |
| TxFormat.GuardsRefuseNothing | core/serialize.c:127-245 | The guards of 41, 9 and 10 bytes refuse no input, output or transaction that could be read |
| TxFormat.VarintRoundTrip | core/serialize.c:498-525 | A printed varint reads back exactly if it is below 2^32 |
| TxFormat.VarintExact | core/serialize.c:275-303 | Printing a varint that was read gives the bytes back if it was minimal, else fewer bytes |
| TxFormat.InputsRoundTrip | core/serialize.c:127-150 | The guard of 41 bytes an input rejects no genuine encoding |
| TxFormat.OutputsRoundTrip | core/serialize.c:151-172 | Nor does the guard of 9 bytes an output |
| TxFormat.TxRoundTrip | core/serialize.c:116-216 | A printed transaction with lengths below 2^32 parses to itself wherever it stands, and nothing more is read |
| TxFormat.PrintedTxParses | core/serialize.c:116-216 | The same with any bytes after it, which are left |
| TxFormat.ReprintsExactly | core/serialize.c:116-216 | Printing an accepted transaction gives back the bytes it was read from exactly if all its varints were minimal |
| TxFormat.BlockReprintsExactly | core/serialize.c:227-264 | An accepted block is used up to its last byte, and prints back exactly if all its varints were minimal |
| TxFormat.BlockRoundTrip | core/serialize.c:227-264 | A printed block parses to itself |
| Serialize.OverflowsExact | core/buff.h:66-71 | The overflow test is right exactly if its sum does not wrap, or wraps to past the end |
| Serialize.Buff.constructor | core/buff.h:198-209 | A fixed buffer over received bytes |
| Serialize.Buff.Alloc | core/buff.h:357-369 | An empty buffer that grows |
| Serialize.Buff.Resize | core/buff.h:24-39 | Grows at least to twice its size and keeps what is there |
| Serialize.Buff.CopyTo | core/buff.h:220-236 | Appends the bytes, or fails exactly if they do not fit and the buffer may not grow |
| Serialize.Buff.CopyFrom | core/buff.h:247-266 | Takes the next bytes, or fails and stays where it is |
| Serialize.Buff.ReadLE | core/serialize.c:36-89 | A number of up to 8 bytes, the lowest first |
| Serialize.Buff.ReadVarint | core/serialize.c:275-303 | Reads as ParseVarint says |
| Serialize.DeserializeTx | core/serialize.c:116-176 | Fails exactly when ParseTx does, else gives its transaction and stops where it ends |
| Serialize.DeserializeBlock | core/serialize.c:227-264 | Fails exactly when ParseBlock does, else gives its block |
| Serialize.SerializeVarint | core/serialize.c:498-525 | Appends the printed varint, or fails because it does not fit; then the prefix byte stays if there was room for it |
| Serialize.SerializeTx | core/serialize.c:187-216 | Appends the printed transaction, or fails exactly if it does not fit a buffer that may not grow |
| Serialize.Reprint | core/peergroup.c:1882-1902 | A transaction parsed from a block and printed anew gives its bytes in the block exactly if its varints were minimal |
| Base58.CapacityFits | core/base58.c:235 | 256^n is at most 58 to the number of digits the buffer for n bytes holds |
| Base58.EncodingFits | core/base58.c:235-281 | The digits of any bytes that are not all zero, and one character for each leading zero byte, fit the buffer |
| Base58.DecodesEncoded | core/base58.c:63-298 | Decoding the encoding of bytes that are not all zero gives them back, leading zeros included |
| Base58.EncodesDecoded | core/base58.c:63-298 | Encoding what text in the alphabet decodes to gives the text back, if it is worth more than zero |
| Base58.EncodeStopsOnZeros | core/base58.c:230-298 | Encoding stops exactly on bytes that are all zero |
| Base58.CharactersExact | core/base58.c:19-20 | The digits are the 58 characters of the alphabet in its order, and no other character is one |
| Base58.DecodesExactlyWhen | core/base58.c:63-134 | Text decodes exactly if it is characters of the alphabet with nothing but spaces around them |
| Base58.DecodesLaidOut | core/base58.c:63-134 | Then it decodes to the number it writes, in bytes, after a zero byte for each 1 that it starts with |
| Base58.MpiExact | core/base58.c:30-219 | A number reads back from the form that the big-number library gives it, and the top bit of its first byte is the sign |
| Base58.SetVch | core/base58.c:195-219 | The number of the reversed bytes, positive because of the extra byte |
| Base58.GetVch | core/base58.c:30-52 | The number's bytes, lowest first, with a sign byte if the top bit is set |
| Base58.EncodeText | core/base58.c:230-298 | The digit loop and the padding stay inside the digit buffer and produce the encoding |
| Base58.DecodeText | core/base58.c:63-134 | Decodes as Decode says: spaces around the text, no other foreign characters, a zero byte for each leading 1 |
| Ledger.ProcessBalance | core/txdb.c:550-619 | One transaction moves the balance by what it pays the wallet minus the known coins it spends |
| Ledger.ProcessExact | core/txdb.c:550-619 | A new transaction spends exactly the known coins that its inputs name, and each output that pays the wallet becomes a coin with its value, its block and whether the wallet can sign for it; it fails exactly if an input names a coin already spent |
| Ledger.RememberExact | core/txdb.c:1100-1159 | Its entry has its block and time, and is relevant exactly if an input names a known coin or an output pays the wallet; then it is saved at the end; nothing else changes |
| Ledger.RememberKeeps | core/txdb.c:1100-1159 | Remembering a new transaction keeps the ledger rebuildable; it stops exactly on bytes that do not parse or on a coin already spent |
| Ledger.ConfirmKeeps | core/txdb.c:1002-1089 | Confirming keeps it rebuildable; it stops exactly on a zero hash, on a second block, or on a relevant transaction with no time |
| Ledger.ConfirmExact | core/txdb.c:1002-1089 | After it the entry and the record of a relevant transaction have the block, and every other entry, record and coin is as before; an unknown transaction changes nothing and an irrelevant one is forgotten |
| Ledger.ArrivalConfirms | core/txdb.c:1170-1202 | A relevant transaction that arrives in a block has that block afterwards, known before or not, and no other is touched |
| Ledger.BlockSticks | core/txdb.c:550-1202 | No step, not even a restart, takes the block of a relevant transaction away again |
| Ledger.StepKeeps | core/txdb.c:550-1202 | Every step that returns keeps the ledger rebuildable, and a restart always returns |
| Ledger.RunRebuilds | core/txdb.c:793-857 | After any run that trips no assertion, replaying the saved records in order rebuilds the same relevant transactions and the same coins with their values and spent flags |
| Ledger.RedeliveryIsNoOp | core/txdb.c:1170-1202 | Redelivering a relevant known transaction, in its block or in none, changes nothing |
| Ledger.RunConserves | core/txdb.c:232-312 | After any run the balance is the sum over the distinct relevant transactions of what each gave minus the known coins each spent |
| Ledger.LoadedBlocks | core/txdb.c:793-857 | A loaded coin names the block of its transaction |
| Ledger.LoadChecksHashes | core/txdb.c:793-857 | A load that returns has checked that the bytes of every record have the hash it is saved under |
| Ledger.StepBlocks | core/txdb.c:550-1202 | No step but a restart changes the block that a coin names, a new coin names its transaction's, and after a restart every coin does |
| Ledger.RunNamesBlockOrNone | core/txdb.c:550-1202 | On every run a coin names the block of its transaction, or none |
| Ledger.CoinNamesBlockExactlyWhen | core/txdb.c:550-1202 | After any run a coin names exactly the block that its transaction had when the coin was created or last loaded |
| Ledger.ConfirmedCoinWaitsForRestart | core/txdb.c:1002-1089 | So a coin whose transaction is confirmed later names no block over any run until a restart, which makes it name the block |
| Ledger.ConfirmedCoinsNameBlock | core/txdb.c:793-1202 | From a restart on, over any run, the coins of a relevant transaction that arrived in a block before it name that block |
| TxDb.Database.ProcessTxEntry | core/txdb.c:550-619 | In place, spends the known inputs and adds the wallet's outputs as Process says; tells whether the transaction is relevant |
| TxDb.Database.RememberTx | core/txdb.c:1100-1159 | In place, computes Ledger.Remember |
| TxDb.Database.ConfirmOneTx | core/txdb.c:1002-1089 | In place, computes Ledger.Confirm |
| TxDb.Database.HandleTransaction | core/txdb.c:1170-1202 | In place, computes Ledger.HandleTx |
| TxDb.Database.GetBalance | core/txdb.c:630-673 | Walking the coins in any order adds up the balance, in 64 bits |
| TxDb.Open | core/txdb.c:793-937 | Loads the saved records one by one as Ledger.Load says |
| CoinSelection.SelectCoins | core/txdb.c:1367-1415 | The loop picks what Select says |
| CoinSelection.StopsAtFirst | core/txdb.c:1391-1409 | The loop stops at the first position whose coins suffice, or at the end |
| CoinSelection.PickedAre | core/txdb.c:1391-1409 | The inputs are different coins of the list, each unspent, spendable and in a block, and none of those before the stop is left out |
| CoinSelection.OrderIsTotal | core/txdb.c:1309-1336 | Any coins can be put in the order of selection: of two, one is not after the other, and it is transitive |
| CoinSelection.TotalCounts | core/txdb.c:1391-1409 | A coin counts with its value exactly if it is unspent, can be signed for and is in a block |
| CoinSelection.TakesOldest | core/txdb.c:1300-1409 | Exactly those that count among the first coins are taken, and no coin left over is older than one of them |
| CoinSelection.ChangeIsPaid | core/txdb.c:1457-1465 | The change is one more output, unless it is zero |
| CoinSelection.SelectConserves | core/txdb.c:1241-1513 | Selection stops exactly if the eligible coins do not cover the payments; the inputs are the shortest sufficient part, oldest first; and inputs equal outputs plus fee exactly if the coins also cover the fee |
| CoinSelection.SignedInputsAreKnown | core/txdb.c:1272-1297 | Every picked input names an output of a transaction in the table, so signing never misses |
| CoinSelection.FeeNotCovered | core/txdb.c:1411-1412 | A coin that covers the payment but not the fee gives a change near 2^64 |
| HashTable.FoldDecreases | lib/hashtable/hashtable.c:73-90 | Each round of the folding loop makes the hash smaller |
| HashTable.FoldExact | lib/hashtable/hashtable.c:73-90 | A bit of the bucket number is set exactly if it is set in an odd number of the pieces of that length that the hash is made of |
| HashTable.ComputeHash | lib/hashtable/hashtable.c:73-90 | The loop ends with a bucket in range |
| HashTable.Table.constructor | lib/hashtable/hashtable.c:357-370 | The empty map |
| HashTable.Table.LookupEntry | lib/hashtable/hashtable.c:210-226 | Finds the entry of the key, or says rightly that there is none |
| HashTable.Table.Lookup | lib/hashtable/hashtable.c:237-253 | Looks the key up in the map |
| HashTable.Table.CheckResize | lib/hashtable/hashtable.c:264-307 | The map stays the same through a resize in either direction, and the number of buckets follows the count |
| HashTable.ResizeMakesRoom | lib/hashtable/hashtable.c:264-307 | One check leaves at most four entries a bucket, until there are 2^30 buckets |
| HashTable.ResizedExactly | lib/hashtable/hashtable.c:264-307 | A check multiplies the buckets by four exactly above four entries a bucket, and divides them by four exactly below a quarter of an entry a bucket, but not down to 256; 2^30 buckets stay unless the table is empty |
| HashTable.NeverBackBelow | lib/hashtable/hashtable.c:264-307 | Over any run of checks a table that has grown keeps at least 1024 buckets, and one with 2^30 keeps them unless it is found empty |
| HashTable.Rehash | lib/hashtable/hashtable.c:285-302 | Every entry is relinked into the new bucket of its key, none is lost or doubled |
| HashTable.Table.Insert | lib/hashtable/hashtable.c:318-346 | Adds the pair to the map unless the key is there, and keeps the buckets at about four entries on average |
| HashTable.Table.Remove | lib/hashtable/hashtable.c:505-542 | Takes the key out of the map and says whether it was there |
| HashTable.ForEach | lib/hashtable/hashtable.c:381-398 | Visits each pair of the map exactly once |
| HashTable.Linearize | lib/hashtable/hashtable.c:617-638 | Fills a buffer sized by the count exactly with the values of the pairs, each once |
| CircList.QueueItem | core/circlist.h:116-131 | Adds an item at the end of the ring |
| CircList.PushItem | core/circlist.h:144-150 | Adds an item at the front |
| CircList.InsertBefore | lib/poll/poll.c:331-339 | Adding at the end of the ring that starts at an inner item inserts before that item |
| CircList.DeleteItem | core/circlist.h:161-177 | Takes an item out and moves the head on if it was the head |
| TimerQueue.InsertIsStable | lib/poll/poll.c:309-352 | A timer goes behind all that expire no later and before all that expire later: sorted, first in first out among equals |
| TimerQueue.AddRegisters | lib/poll/poll.c:904-932 | A registration puts one timer in the queue, with the callback, data, flag and delay it was given, due at the time of the clock plus the delay; the others keep their order |
| TimerQueue.RemoveTakesFirst | lib/poll/poll.c:986-1014 | A removal takes off exactly the first timer with this callback, data and flag, or nothing if there is none |
| TimerQueue.ApplyKeeps | lib/poll/poll.c:904-1014 | What a callback registers is not due in this run, and what it removes is all that it takes from the due timers |
| TimerQueue.FiringKeeps | lib/poll/poll.c:785-813 | A firing takes exactly the head, and what its callback removed, from the due timers, and keeps the queue sorted |
| TimerQueue.RunFires | lib/poll/poll.c:785-813 | A run ends, fires each timer due at its start exactly once in order of expiry, except those a callback removed while they were due, and leaves only timers that expire later |
| TimerQueue.FiredComesBack | lib/poll/poll.c:795-811 | A fired timer that repeats is put back, due after its delay from the end of its callback; any other is gone |
| TimerQueue.RunAccounts | lib/poll/poll.c:785-813 | In a run every timer is fired, or taken off by a callback, or still there when it ends |
| TimerQueue.FiresOnTime | lib/poll/poll.c:785-932 | Over many runs, a timer fires in the first run at or after the time of its registration plus its delay, and in none before, unless it is taken off |
| TimerQueue.SelfRemovalMisses | lib/poll/poll.c:986-1014 | A repeating timer's callback that removes itself finds another timer or none, and is put back |
| PollLoop.Loop.EntryGet | lib/poll/poll.c:155-166 | A free entry, or a new one, that is on neither list |
| PollLoop.Loop.EntryUnref | lib/poll/poll.c:213-228 | Drops a reference, and puts the entry on the free list exactly with the last one |
| PollLoop.Loop.InsertTime | lib/poll/poll.c:309-352 | Relinks the ring so that it holds the timers Insert gives |
| PollLoop.Loop.CallbackTime | lib/poll/poll.c:904-932 | Registers a timer: the queue is changed by Add |
| PollLoop.Loop.CallbackTimeRemove | lib/poll/poll.c:986-1014 | Takes off the first timer that fits: the queue is changed by Remove; says whether there was one |
| PollLoop.Loop.FireHead | lib/poll/poll.c:785-813 | Takes a reference, unlinks the head, lets its callback change the queue, then frees the entry or puts it back later |
| PollLoop.Loop.RunTimeQueue | lib/poll/poll.c:785-813 | Calls the callbacks of exactly the timers that TimerQueue's run fires, in that order, and leaves its queue |

## Left out

- Sockets, SOCKS, the device half of the poll loop, curl, LevelDB, OpenSSL, the user interface, logging, configuration and the address book: foreign code, I/O, or no hard property.
- SHA-256, SipHash and Murmur are arbitrary functions; that different headers have different hashes is assumed only of the headers a run offers (`HeaderChain.Offered`), together with the fact that a header cannot be its own ancestor.
- The checkpoint table of the block store, an assertion that ends the program.
- HeaderChain.LongestChain: is about runs in which parents arrive first; `HeaderChain.LongestExactlyWhen` is about all.
- HeaderReplay.ReplayRebuilds: is about runs whose writes succeed; `HeaderReplay.FailedWriteReplaysExactlyWhen` shows that this is needed.
- BlockStore.Store.WriteHeaders: takes a write to reach the file whole or not at all; the source's short write leaves bytes past the recorded end, which later writes may cover in part and which a restart reads.
- BlockStore.Open: is about files that list no header twice, which `HeaderReplay.RunKeeps` proves of every file the store writes, and reads that succeed.
- A block on the main chain is its height during a filter scan, so that chain is taken not to change meanwhile. `ScanSafety` speaks of blocks by height.
- Liveness of the filter scan: with one peer a lost chunk may never be handed out again, so only safety is proved.
- ScanSafety.OthersKeepPendingAbove: takes "not found" answers to name blocks that were requested.
- `--stop-after-height`, the comparison of filter checkpoints between peers, and the start of a filter-header sync at a wallet's birthday, after which the heights of the first batch are off.
- PeerGroup.Group.HandleFetchedBlock: marks the block as fed; the ledger's part of feeding it is `TxDb.Database.HandleTransaction`, and the two are not composed.
- CfHeaderStore.HeaderFile.constructor: rewrites the file header in full when it opens a file; writes cut short are those of appends. A rewrite cut short on a file of another format can make its bytes read as entries.
- A crash loses what the saved resume height and the ledger's records do not hold; that both are on disk when they say so is taken from LevelDB and the configuration file.
- FilterHeaderChain.RunStaysLinked: is about runs in which no batch fails half way, which `FilterHeaderChain.HandleKeeps` shows to be needed, and takes no filter header to be all zeros, which the source uses as "none yet".
- Gcs.MatchAny: keeps running values and hashes as integers; `Gcs.SumsBounded` says how far they go.
- Serialize.Buff.CopyTo: takes what a buffer grows to to be an object, below 2^63 bytes, and the printers ask for 2^60; `Serialize.OverflowsExact` says what happens where sums of sizes wrap.
- Heights, sizes and counts that C keeps in `int` or `size_t` are unbounded where no limit is near; the 32-bit heights of the filter-header file, the 32-bit count and sizes of the hash table, 64-bit amounts and 32-bit varints are as wide as in the source.
- Records are saved by LevelDB without failing; the crash points of the ledger are those between whole records.
- CoinSelection.SelectConserves: is about amounts whose sums stay below 2^64; the library sort of the coins is the assumption that the list is in order; key lookup, signing and script code are predicates of the wallet.
- TimerQueue.RunFires: takes delays to be positive and the clock not to run backwards; with a zero delay a repeating timer would be due again at once.
- HashTable.Table.Insert: proves its bound on the load for tables of fewer than 2^32 entries, beyond which the count wraps.
- base58check, whose checksum is a hash, and C strings that hold a zero byte.
- Mutexes: one loop runs all the code.
