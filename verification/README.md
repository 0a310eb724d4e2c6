# PomaiDB: a verified model

PomaiDB is an embedded vector database. This project models its storage core
in Dafny and proves, for every input, every run and every pattern of I/O
failure, what that core is for. Nothing here executes the original program.

The components, each with a specification much simpler than the code:

- **Page pool** (`PagePoolSpec`, `PagePoolProofs`, `PagePoolRuns`, `PagePoolLoss`, `PagePoolPins`,
  `PagePoolReports`, `PagePool`):
  frames with pins, dirty bits, CLOCK eviction and a copy-on-write swap file
  refine a plain map from page to bytes.
- **Memtable hash map** (`FlatHashSpec`, `FlatHashProofs`, `FlatHashErase`,
  `FlatHashMask`, `FlatHashMemMap`): open addressing with doubling refines a map.
  The source header speaks of robin-hood hashing; the code probes linearly, and
  so does the model.
- **Append-only storage engine** (`LogFormat`, `EngineSpec`, `EngineProofs`, `EngineUnmapped`,
  `EngineRuns`, `EngineReports`, `EngineAppends`, `EngineWitnesses`, `StorageEngine`): buffer, log file and parsed index; newest record wins.
- **Segments and filter masks** (`SegmentFormat`, `Segment`, `SegmentOps`,
  `SegmentFooter`, `SortedRange`, `BitsetMask`): a byte-exact file image, binary searches, and
  three filter plans.
- **Thread pool** (`ThreadPool`): a protocol of interleaved steps.
- **Memtable** (`MemTableSpec`, `MemTableProofs`, `MemTable`): metadata and
  temporal index in step, on top of the verified hash map.
- **Kernels**: CRC-32C (`Crc32c`, `CrcPolynomial`, `CrcDetection`), top-k
  collection (`TopK`, `TopKTies`), eight-bit and one-bit quantization (`Sq8`, `BitDistance`,
  on the bits of `BitWords`).

State is modelled twice where the code updates it in place: as a value with
functions, about which the theorems speak, and as a class whose methods have the
code's loops and are proved to compute those functions. I/O calls take their
outcomes (bytes transferred, success) from a parameter, so that a statement for
all parameters covers every failure. Bytes and words are bounded integers or bit
vectors; records, headers and segments are laid out byte for byte, little-endian.

Where a promise does not hold of the code as written, the model follows the code
and the exact condition is proved:

- backward-shift deletion can lose keys (`EraseKeepsOthersIff`, `ThirdOfThreeLost`,
  `EraseLosesThird`);
- a write after reopening overwrites the log's header (`OpenedLogOpensAgainIff`,
  `ReopenedLogIsLost`);
- a record flushed to a file that could not be mapped is reported as corrupt
  (`FreshRunNewestWins`, `UnmappedRecordIsCorrupt`);
- a flush retried after a write that stopped inside a record is not indexed
  (`RetriedFlushIndexedIff`, `RetryLosesRecord`);
- an unmarked change to a clean page does not survive eviction, and a hit ignores
  `for_write` (`FetchedChangeSurvivesIff`, `UnmarkedChangeIsLost`);
- options without filters, and a timestamp filter with no upper bound, can make
  the mask inexact (`NoFilterExactIff`, `TemporalExactIff`, `UnboundedRangeMisses`);
- the all-pass mask counts bits beyond its size (`AllPopulationIff`);
- a segment's footer is not the checksum of the file (`FooterNeverMatches`);
- a time range with crossed bounds walks off its index (`RunsOffIff`,
  `RangeDefinedIff`, `CrossedRangeUndefined`);
- metadata without tenant, source id, timestamp or text is not stored
  (`MetadataReadsBackIff`, `DeviceAloneIsForgotten`);
- which of several tied hits the top-k sink keeps depends on the order in which
  they arrive (`KeepsBestIff`, `TieDependsOnOrder`).

## Model

| member | source | states |
|---|---|---|
| `PagePoolRuns.RunRefinesPageMap` | src/palloc_page_pool.cc:104-407 | REFINEMENT: from a created pool, over every run of fetches, client writes, unpins and flushes and every pattern of short or failed I/O, each page that no client abandoned has as its logical value the last bytes written to it, zeros if none |
| `PagePoolRuns.FetchReturnsLastWritten` | src/palloc_page_pool.cc:336-371 | at any point of any such run a fetch that succeeds returns a pinned frame holding the last bytes written to the page; `is_new` implies they are zeros; a fetch that fails changes no page's value |
| `PagePoolRuns.DisciplineAbandonsNothing` | src/palloc_page_pool.cc:350-390 | if every last unpin of a changed page carries the dirty mark, no page is ever abandoned, so the refinement holds for all pages |
| `PagePoolLoss.ChangeSurvivesEvictionIff` | src/palloc_page_pool.cc:198-235 | after a change to a pinned page and any scan under any I/O, the page still has the changed contents if and only if its frame was dirty, or the unpin marked it dirty, or the scan did not evict it, or the change changed nothing |
| `PagePoolReports.FetchedChangeSurvivesIff` | src/palloc_page_pool.cc:198-390 | fetch, change, unpin, scan from any state under any I/O: the change survives if and only if it was marked dirty, or the fetch was a miss with `for_write`, or a hit on a dirty frame, or the page was not evicted, or nothing changed |
| `PagePoolReports.WriterKeepsChange` | src/palloc_page_pool.cc:355-371 | a page that a miss brought in for writing keeps an unmarked change through any scan |
| `PagePoolReports.FetchTells` | src/palloc_page_pool.cc:336-371 | `is_new` if and only if the fetch succeeds, the page was not resident and swap had no copy of it; the frame returned is referenced, has one pin more, and is dirty exactly if it was, or if a miss fetched it for writing |
| `PagePoolReports.FreeFrameEvictsNothing` | src/palloc_page_pool.cc:176-196 | while a frame is free, a miss takes the lowest free one and evicts nothing |
| `PagePoolReports.FlushPageTells` | src/palloc_page_pool.cc:392-401 | success if and only if the page is not resident, or clean, or swap is open and a whole page is written; afterwards it is clean and swap holds its bytes, and no other page's copy has changed |
| `PagePoolReports.FlushAllTells` | src/palloc_page_pool.cc:165-171 | success if and only if every dirty frame's write, one call each in frame order, transfers a whole page; afterwards exactly the frames whose write fell short are dirty |
| `PagePoolReports.SweptPageIsSafe` | src/palloc_page_pool.cc:165-171 | after a sweep that succeeds, swap holds the bytes of every page that was dirty |
| `PagePoolPins.RunPins` | src/palloc_page_pool.cc:336-390 | over every run and any I/O, a page's pin count is the number of its successful fetches that have not been unpinned |
| `PagePoolPins.FetchPins` | src/palloc_page_pool.cc:336-371 | a successful fetch pins its page once more and no other; a failed one pins nothing |
| `PagePoolPins.SecondChance` | src/palloc_page_pool.cc:198-209 | in its first round the scan takes no frame whose reference bit is set |
| `PagePoolPins.NearestClearFrameGoes` | src/palloc_page_pool.cc:198-235 | if an evictable frame has a clear reference bit, the victim is an unpinned frame with a clear bit that the hand reaches no later |
| `PagePoolLoss.UnmarkedChangeIsLost` | src/palloc_page_pool.cc:336-390 | witness run from creation with one frame: fetch 0, change it, unpin it unmarked, fetch and unpin 1, fetch 0: zeros |
| `PagePoolLoss.ScanSpares` | src/palloc_page_pool.cc:198-235 | a scan writes no clean page out: it leaves the page in its frame or drops it, and swap's copy is as before |
| `PagePoolRuns.StepKeeps` | src/palloc_page_pool.cc:336-407 | one operation, any I/O: index bijection, exact counters, distinct swap slots and clean-frames-equal-swap are kept, and only the client's own write changes a page's value |
| `PagePoolRuns.RunFreezesSlots` | src/palloc_page_pool.cc:104-129 | over whole runs no swap slot, once written, is ever changed |
| `PagePoolRuns.PinnedPageKeepsFrame` | src/palloc_page_pool.cc:336-390 | while a page stays pinned through a run it stays in the same frame |
| `PagePoolRuns.ResidentWithinBudget` | src/palloc_page_pool.cc:282-328 | in every state of the invariant `resident_pages` is the number of indexed pages and their bytes fit the capacity |
| `PagePoolRuns.ClockFindsVictim` | src/palloc_page_pool.cc:198-235 | from any hand position and any reference bits the scan finds a victim within the distance to an evictable frame plus one round if its reference bit is set, however many other flushes fail |
| `PagePoolRuns.ClockFindsVictimInTwoRounds` | src/palloc_page_pool.cc:198-235 | so 2n steps always suffice |
| `PagePoolRuns.ClockFindsNothing` | src/palloc_page_pool.cc:198-235 | when every frame is pinned, or dirty without swap, no number of steps finds a victim |
| `PagePoolRuns.MissFailsIffAllStuck` | src/palloc_page_pool.cc:174-235 | with working or without swap, a miss fails if and only if every frame is in use and pinned, or dirty with no swap |
| `PagePoolProofs.SwapWriteIsCopyOnWrite` | src/palloc_page_pool.cc:104-129 | a swap write goes to a slot never written and used by no page, and the next slot moves past it; short or failed, it leaves every page's copy as it was |
| `PagePoolProofs.FlushFrameKeeps` | src/palloc_page_pool.cc:153-163 | a flush changes no page's value; on failure the frame is still dirty and its last good copy intact |
| `PagePoolProofs.FlushFromKeeps` | src/palloc_page_pool.cc:165-171 | the same for a sweep over all frames that goes on past failures |
| `PagePoolProofs.ClockScanKeeps` | src/palloc_page_pool.cc:198-235 | the scan keeps every page's value, and the frame it yields is unpinned, clean, equal to its swap copy and out of the index |
| `PagePoolProofs.AllocateKeeps` | src/palloc_page_pool.cc:174-235 | allocation, successful or not, keeps every page's value; on success the frame holds the page's swap copy or zeros |
| `PagePoolProofs.FetchHitKeeps` | src/palloc_page_pool.cc:341-353 | a hit pins the page, leaves its bytes and dirty bit alone and returns the frame of its logical value |
| `PagePoolProofs.FetchMissKeeps` | src/palloc_page_pool.cc:355-371 | a miss, whatever its I/O does, keeps every page's value and every pinned page's frame and bytes |
| `PagePoolRuns.CreatedMatches` | src/palloc_page_pool.cc:282-328 | a created pool satisfies every invariant, fits its budget, and every page reads as zeros |
| `PagePool.Pages.constructor` | src/palloc_page_pool.cc:282-328 | starts in the created state, within budget |
| `PagePool.Pages.Make` | src/palloc_page_pool.cc:282-328 | no pool for refused options |
| `PagePool.Pages.WritePageToSwap` | src/palloc_page_pool.cc:104-129 | new state and result are the specification's |
| `PagePool.Pages.ReadPageFromSwap` | src/palloc_page_pool.cc:131-151 | new state and result are the specification's |
| `PagePool.Pages.FlushOne` | src/palloc_page_pool.cc:153-163 | new state and result are the specification's |
| `PagePool.Pages.FlushEach` | src/palloc_page_pool.cc:165-171 | the loop is the specification's sweep |
| `PagePool.Pages.Sweep` | src/palloc_page_pool.cc:200-219 | one move of the hand is the specification's step |
| `PagePool.Pages.BringIn` | src/palloc_page_pool.cc:220-234 | loading a claimed frame, or giving it up after a failed read |
| `PagePool.Pages.AllocateFrameForPage` | src/palloc_page_pool.cc:174-235 | free-frame search, CLOCK loop and load together are the specification's allocation |
| `PagePool.Pages.FetchPage` | src/palloc_page_pool.cc:336-371 | a page no client abandoned comes back in a pinned frame holding the last bytes written to it over the object's whole history; `is_new` exactly for a page neither resident nor swapped; one pin more; dirty exactly as `FetchTells` says, and after a miss for writing an unmarked change survives any scan |
| `PagePool.Pages.PinFrame` | src/palloc_page_pool.cc:341-371 | hit and miss as in the code: state, frame and `is_new` are the specification's |
| `PagePool.Pages.UnpinPage` | src/palloc_page_pool.cc:373-390 | one pin less, dirty if marked; every page not abandoned still holds its last written bytes; the ledger records an unmarked change let go |
| `PagePool.Pages.DropPin` | src/palloc_page_pool.cc:373-390 | the code of the unpin is the specification's |
| `PagePool.Pages.FlushOnePage` | src/palloc_page_pool.cc:392-401 | success if and only if the page is not resident, or clean, or fully written; then it is clean and swap holds its bytes; every page keeps its contents |
| `PagePool.Pages.FlushAll` | src/palloc_page_pool.cc:403-407 | every frame is tried; success if and only if every dirty frame is written whole, and then none is dirty; every page keeps its contents |
| `PagePool.Pages.Store` | src/palloc_page_pool.cc:370-371 | a client writing through the pointer it was given changes that page only, and the page is owed to clients again |
| `FlatHashProofs.FindTellsLatest` | src/table/flat_hash_memmap.h:54-262 | REFINEMENT: for every hash function and every run of Put and Clear from an empty table, doublings included, Find tells the last Put since the last Clear |
| `FlatHashProofs.RunCorrect` | src/table/flat_hash_memmap.h:73-142 | every run keeps keys unique and reachable, the count exact and an empty slot free |
| `FlatHashProofs.FindIsLookup` | src/table/flat_hash_memmap.h:82-90 | in a well-formed table probing answers as the map the slots stand for |
| `FlatHashProofs.ProbeStops` | src/table/flat_hash_memmap.h:206-226 | with a free slot no probe runs off the table, so the overflow assertion is never met |
| `FlatHashProofs.InsertCorrect` | src/table/flat_hash_memmap.h:206-226 | inserting or overwriting changes exactly one binding, keeps the table well formed and says whether the key was new |
| `FlatHashProofs.RawInsertCorrect` | src/table/flat_hash_memmap.h:252-262 | inserting an absent key without looking for it does the same |
| `FlatHashProofs.RehashCorrect` | src/table/flat_hash_memmap.h:240-245 | carrying the slots over one by one carries the map over |
| `FlatHashProofs.GrowCorrect` | src/table/flat_hash_memmap.h:228-250 | one doubling keeps the map and the count and leaves the table below its threshold |
| `FlatHashProofs.PutCorrect` | src/table/flat_hash_memmap.h:73-79 | Put is the map's update and reports a new key exactly; the table doubles exactly when the count has reached three quarters of the capacity |
| `FlatHashProofs.ClearCorrect` | src/table/flat_hash_memmap.h:139-142 | Clear leaves the empty map in a well-formed table |
| `FlatHashErase.EraseAllCorrect` | src/table/flat_hash_memmap.h:96-133 | the contiguous backward shift that the comment describes removes exactly one key and keeps every other key findable |
| `FlatHashErase.EraseKeepsOthersIff` | src/table/flat_hash_memmap.h:98-133 | deletion as written, whose slot number is taken from a hole that has moved, answers like the map without the key if and only if, on the table before the call, the slots it jumps over hold no key that belongs in the last hole of its chain |
| `FlatHashErase.EraseTells` | src/table/flat_hash_memmap.h:98-133 | a key is found exactly if the table holds it, and otherwise nothing changes |
| `FlatHashErase.ShiftFollowsChain` | src/table/flat_hash_memmap.h:109-127 | the holes of the loop can be read off the unchanged table: slots beyond the last hole are untouched and no wrapped-around slot ever moves |
| `FlatHashErase.ThirdOfThreeLost` | src/table/flat_hash_memmap.h:113-113 | in every table, three keys in a row at their common home before an empty slot: erasing the first loses the third |
| `FlatHashErase.EraseLosesThird` | src/table/flat_hash_memmap.h:113-113 | witness: three keys with one home; erasing the first loses the third |
| `FlatHashMask.MaskIsCyclic` | src/table/flat_hash_memmap.h:55-56 | for a power-of-two capacity the masked 64-bit expressions for home, probe and distance are the cyclic ones of the model |
| `FlatHashMask.AndMask` | src/table/flat_hash_memmap.h:182-184 | and with a power of two less one is the remainder |
| `FlatHashMemMap.MemMap.constructor` | src/table/flat_hash_memmap.h:54-62 | an empty well-formed table |
| `FlatHashMemMap.MemMap.FindKey` | src/table/flat_hash_memmap.h:82-90 | the probe loop answers as the map |
| `FlatHashMemMap.MemMap.PutInternal` | src/table/flat_hash_memmap.h:206-226 | the insertion loop is the specification's |
| `FlatHashMemMap.MemMap.PutIntoRaw` | src/table/flat_hash_memmap.h:252-262 | the insertion loop into a raw array is the specification's |
| `FlatHashMemMap.MemMap.GrowTable` | src/table/flat_hash_memmap.h:228-250 | keeps the map, doubles the capacity |
| `FlatHashMemMap.MemMap.PutKey` | src/table/flat_hash_memmap.h:73-79 | the map is updated in this key only; the capacity doubles exactly at three quarters full |
| `FlatHashMemMap.MemMap.ClearAll` | src/table/flat_hash_memmap.h:139-142 | the map is empty, the capacity kept |
| `FlatHashMemMap.MemMap.FindPosition` | src/table/flat_hash_memmap.h:99-107 | the slot of a key, or the capacity |
| `FlatHashMemMap.MemMap.EraseKey` | src/table/flat_hash_memmap.h:98-133 | deletion as written; found exactly if the map had the key, and otherwise nothing changes |
| `FlatHashMemMap.MemMap.ShiftBack` | src/table/flat_hash_memmap.h:109-127 | the shift loop as written |
| `EngineRuns.FreshRunNewestWins` | src/storage/storage_engine.cc:159-438 | on a log begun as a fresh file, over every run of appends, deletes and flushes with writes stopping anywhere and fsyncs, fstats and mmaps failing, as long as no flush completes after a write that stopped inside a record, a lookup answers with the newest record of its id if and only if the file is mapped, or that record is still buffered, is a tombstone or does not exist; otherwise it reports corruption, never an older record |
| `EngineUnmapped.LookupIsNewestIff` | src/storage/storage_engine.cc:371-438 | the same for any state in step with its log: right exactly when the newest record can be told, otherwise corruption |
| `EngineUnmapped.UnmappedLookup` | src/storage/storage_engine.cc:392-416 | without a map, a record that is neither buffered nor a tombstone is reported as corrupt, and every other lookup is right |
| `EngineUnmapped.FlushSeen` | src/storage/storage_engine.cc:314-390 | whatever fails in a flush, the last index entry of each id keeps standing for the newest record of that id, tombstone or not |
| `EngineWitnesses.UnmappedRecordIsCorrupt` | src/storage/storage_engine.cc:371-416 | witness: a vector that was found before is written out, the file cannot be mapped, and its lookup reports corruption |
| `EngineProofs.LookupIsNewest` | src/storage/storage_engine.cc:392-438 | with the map loaded and the file a log, Get answers with the last record appended for the id, buffered or flushed |
| `EngineProofs.BufferedLookup` | src/storage/storage_engine.cc:399-415 | a record still in the buffer is found there whatever the file holds |
| `EngineProofs.FlushKeeps` | src/storage/storage_engine.cc:314-390 | a flush that succeeds, stops anywhere or fails to reload loses no appended record and stays consistent, unless it writes somewhere other than behind whole records; after success the index parsed from the file is that of all records in order |
| `EngineRuns.FreshRunReindexesIff` | src/storage/storage_engine.cc:314-390 | at any point of any such run, mapped or not, a successful flush leaves the index equal to the one before it with `in_buffer` cleared (ids, offsets, lengths, tombstones, order) if and only if no flush has written and failed since the last one that succeeded; while the file is mapped that is so if and only if `file_size_` is the size of the file |
| `EngineRuns.FlushReindexesIff` | src/storage/storage_engine.cc:314-390 | the same from any state such runs reach |
| `EngineProofs.FailedWriteKeeps` | src/storage/storage_engine.cc:319-329 | a write that fails after w bytes keeps every buffered record and every lookup |
| `EngineProofs.FsyncRetryIsIdempotent` | src/storage/storage_engine.cc:331-334 | a full write whose fsync fails, more appends and a successful flush leave the records in the file twice and every lookup as if the first fsync had succeeded |
| `EngineRuns.ReopenedLogOpensAgainIff` | src/storage/storage_engine.cc:46-91 | reopened at descriptor position 0, a log to which records are appended and written out has its header overwritten: its header is valid again if and only if there was nothing to write, and if there was, for no dimension |
| `StorageEngine.OpenedLogOpensAgainIff` | src/storage/storage_engine.cc:30-95 | the same for the state Open yields on any existing log, torn tail included |
| `EngineWitnesses.ReopenedLogIsLost` | src/storage/storage_engine.cc:314-329 | witness: an empty log reopened, one deletion flushed, and the header is valid for no dimension |
| `EngineRuns.RunConsistent` | src/storage/storage_engine.cc:115-390 | every such run keeps file, buffer, map, sizes and index in step with the list of appended records and with those still waiting |
| `EngineProofs.PushKeeps` | src/storage/storage_engine.cc:115-157 | appending to the buffer keeps them in step |
| `EngineAppends.AddedIsFound` | src/storage/storage_engine.cc:159-312 | the record a call has just added with success is what its id answers, from the buffer or from the file |
| `EngineAppends.AppendedVectorIsFound` | src/storage/storage_engine.cc:159-214 | a raw vector appended with success reads back word for word under its id |
| `EngineAppends.AppendedCodesAreFound` | src/storage/storage_engine.cc:173-214 | a quantized one reads back as the range of the vector and one code for each value |
| `EngineAppends.DeletedIsGone` | src/storage/storage_engine.cc:284-312 | an id deleted with success answers as a tombstone |
| `EngineAppends.OthersAnswerAsBefore` | src/storage/storage_engine.cc:159-312 | on a mapped log an append or a delete changes what no other id answers |
| `EngineAppends.AddFlushesAtThreshold` | src/storage/storage_engine.cc:206-212 | below the threshold nothing is written; after success less than the threshold waits |
| `EngineAppends.BatchLoggedAdds` | src/storage/storage_engine.cc:216-282 | record i of a batch has the i-th id and coordinate by coordinate the i-th vector, quantized under the range of the whole batch |
| `EngineReports.WrittenIsOffered` | src/storage/storage_engine.cc:317-329 | the write loop gets out what the writes before the first error take, interrupted ones none, and succeeds exactly if that is everything |
| `EngineReports.FlushSucceedsIff` | src/storage/storage_engine.cc:314-390 | a flush succeeds if and only if all is written and synced and the file can be mapped again |
| `EngineReports.HeaderValidIff` | include/pomai/storage_engine.hpp:74-84 | Open accepts a file if and only if it begins with the 20 bytes that Open writes for that dimension |
| `EngineReports.LogOpensWithItsDimension` | src/storage/storage_engine.cc:76-91 | a log opens with its own dimension and no other |
| `EngineReports.MetadataLies` | src/storage/storage_engine.cc:115-157 | the metadata blob lies behind the record header, with its length in the header |
| `EngineWitnesses.FirstBytes` | include/pomai/storage_engine.hpp:74-84 | the magic, version and dimension of a fresh file, byte for byte |
| `EngineWitnesses.QuantizedBytes` | src/storage/storage_engine.cc:136-157 | a quantized record with a tenant, byte for byte |
| `LogFormat.TornTailRecovery` | src/storage/storage_engine.cc:355-369 | cutting a log at any byte at or after its header and parsing it yields exactly the index of the longest prefix of whole records |
| `LogFormat.ParseLog` | src/storage/storage_engine.cc:355-369 | a log with an incomplete last record parses to the index of its whole records, in order |
| `LogFormat.CutLog` | src/storage/storage_engine.cc:355-369 | every cut of a log is a log of a prefix of its records and an incomplete one |
| `LogFormat.RecordReadsBack` | src/storage/storage_engine.cc:115-157 | an encoded record, raw or quantized, wherever it lies, reads back with its dimension and payload |
| `EngineRuns.RetriedFlushIndexedIff` | src/storage/storage_engine.cc:314-353 | two flushes, the first failing after w bytes: the file is the log, those bytes and the records again, and the records are indexed where the second wrote them if and only if the first had stopped between two records |
| `EngineWitnesses.RetryLosesRecord` | src/storage/storage_engine.cc:314-353 | witness: one byte of a tombstone, then all of it; the flush succeeds and the id is neither deleted nor present |
| `LogFormat.RepeatsAreHarmless` | src/storage/storage_engine.cc:392-402 | records written again change no newest-record lookup |
| `StorageEngine.OpenedConsistent` | src/storage/storage_engine.cc:76-95 | opening an existing log, even one with a torn tail, gives lookups over its whole records |
| `StorageEngine.Engine.Open` | src/storage/storage_engine.cc:30-95 | success exactly if every call succeeds and the file is empty or its header valid for the dimension, each failure with its status; a fresh file is ready for appending, an existing log is readable with the descriptor at 0 |
| `StorageEngine.Engine.AttachFresh` | src/storage/storage_engine.cc:61-75 | the header of an empty file is written and mapped, and the log is empty |
| `StorageEngine.Engine.AttachExisting` | src/storage/storage_engine.cc:76-95 | a file with a valid header is mapped; if it is a log, lookups start from its records |
| `StorageEngine.Engine.Close` | src/storage/storage_engine.cc:97-113 | unflushed records are gone, the file is as it was |
| `StorageEngine.Engine.BuildIndex` | src/storage/storage_engine.cc:355-369 | the parsing loop is the specification's parser |
| `StorageEngine.Engine.ReloadMmap` | src/storage/storage_engine.cc:371-390 | new state and result are the specification's |
| `StorageEngine.Engine.WriteBuffer` | src/storage/storage_engine.cc:317-329 | the write loop over short and interrupted writes gets out exactly the bytes that the outcomes say |
| `StorageEngine.Engine.FlushBufferToFile` | src/storage/storage_engine.cc:314-345 | new state and result are the specification's |
| `StorageEngine.Engine.FlushNow` | src/storage/storage_engine.cc:347-353 | new state and result are the specification's, success exactly as the system calls allow; the list of appended records is unchanged |
| `StorageEngine.Engine.Append` | src/storage/storage_engine.cc:159-214 | error cases leave the state alone; otherwise the log grows by one record with this id, dimension and tenant, and the vector itself or its range and codes; after success less than the flush threshold waits |
| `StorageEngine.Engine.AppendBatch` | src/storage/storage_engine.cc:216-282 | errors change nothing; a raw batch ends in the state of appending its vectors one by one up to the first failure, each with its own automatic flush, a quantized one in that of buffering all and flushing once; the log grows by a prefix of the batch, the whole on success, record i with id i and the coordinates of vector i |
| `StorageEngine.Engine.AppendRawBatch` | src/storage/storage_engine.cc:228-235 | the loop stops at the first failing append and leaves exactly its state |
| `StorageEngine.Engine.AppendQuantizedBatch` | src/storage/storage_engine.cc:237-281 | all records are buffered under one value range, then at most one flush |
| `StorageEngine.Engine.Delete` | src/storage/storage_engine.cc:284-312 | the newest record of this id is a tombstone, and that of every other id is as before |
| `StorageEngine.Engine.Get` | src/storage/storage_engine.cc:392-438 | newest record wins, exactly when the file is mapped or the record is buffered, a tombstone or missing, else corruption; nothing is found in a closed engine |
| `SegmentOps.SegmentRoundTrip` | src/table/segment.cc:71-331 | for entries with unique ids that fit the 32-bit fields, whatever order the sorts leave equal timestamps in, the image opens and binary search over its bytes for any id answers with that entry's vector or tombstone and its ten metadata fields, or with not-found |
| `SegmentOps.SearchIsLookup` | src/table/segment.cc:757-797 | binary search over the bytes between any two bounds that enclose the id is lookup in the entries |
| `SegmentFooter.FooterNeverMatches` | src/table/segment.cc:186-310 | the header is hashed before the temporal offset is known and rewritten after: the footer of a segment that fits is never the checksum of the finished file |
| `SegmentFooter.FooterIsEarly` | src/table/segment.cc:186-306 | the checksum chained over the pieces is one checksum over the header before its rewrite and everything behind it |
| `Segment.BuiltIsSeen` | src/table/segment.cc:431-524 | the image of any entries that fit is read back exactly: ids, tombstones, vectors, metadata and temporal index |
| `Segment.OpenBuilt` | src/table/segment.cc:431-524 | opening the image finds the layout it was built with |
| `Segment.CutImageOpensIff` | src/table/segment.cc:431-524 | a file cut short opens if and only if all its entries and four more bytes are left |
| `Segment.ForeignFileIsRefused` | src/table/segment.cc:447-464 | a file too short for a header, without the magic, or of a version outside 2 to 6 is refused |
| `SegmentFormat.MetaRoundTrip` | src/table/segment.cc:621-660 | all ten metadata fields come back for arbitrary strings, wherever the encoding lies |
| `SegmentOps.FindRaw` | src/table/segment.cc:757-797 | binary search over the file agrees with lookup in the entries, for present, deleted and absent ids |
| `SegmentOps.ForEach` | src/table/segment.h:114-199 | visits every entry in order with its id, tombstone flag and decoded metadata, and its vector unless it is a tombstone |
| `SegmentOps.SearchTemporal` | src/table/segment.cc:574-593 | the walk between the two bounds is the specification's range, None where it would run off the index |
| `SegmentOps.LowerBound` | src/table/segment.cc:574-593 | binary search finds the first stamp not below the key |
| `SegmentOps.UpperBound` | src/table/segment.cc:574-593 | binary search finds the first stamp above the key |
| `SegmentOps.ScanTimesIsRange` | src/table/segment.cc:574-593 | a range scan finds exactly the entries with a timestamp in the range |
| `SegmentOps.ScanTimesDistinct` | src/table/segment.cc:574-593 | and each once |
| `SortedRange.RunsOffIff` | src/table/segment.cc:574-593 | the scan runs off exactly when the bounds are crossed with a stamp strictly between them |
| `SortedRange.CrossedRunsOff` | src/table/segment.cc:574-593 | witness: from 9 to 1 over the single stamp 5 |
| `SegmentOps.AnySortedTimesOk` | src/table/segment.cc:71-331 | any sorted permutation of the collected stamps is a temporal index |
| `SegmentOps.Finish` | src/table/segment.cc:71-331 | the written file is the image of the entries sorted by id and a sorted temporal index |
| `SegmentOps.StreamEntries` | src/table/segment.cc:71-331 | the entry area is the encoding of the entries in order |
| `SegmentOps.CollectMetadata` | src/table/segment.cc:71-331 | blob offsets, blob and stamps are those of the entries in order |
| `BitsetMask.TemporalExactIff` | src/core/bitset_mask.cc:55-80 | with a timestamp filter the temporal plan marks exactly the live entries that match if and only if the upper bound is set or every such entry has timestamp 0 |
| `BitsetMask.ProperRangeExact` | src/core/bitset_mask.cc:55-80 | so with 0 < max and min <= max it agrees with the full scan |
| `BitsetMask.PlansAgree` | src/core/bitset_mask.cc:24-108 | whichever plan built the mask, with open options and no filters, with filters none of which is temporal, or with a proper time range, bit i is set exactly when entry i is live and the options match it, and the population is the number of such entries |
| `BitsetMask.MaskByValue` | src/core/bitset_mask.cc:24-92 | with one filter by tenant, device or location, bit i is set exactly if entry i is live and has that value |
| `BitsetMask.MaskByTime` | src/core/bitset_mask.cc:55-80 | with one proper time range, bit i is set exactly if entry i is live and its timestamp is in the range |
| `BitsetMask.FilterMeans` | include/pomai/metadata.h:80-110 | a filter by tenant, device, location, time or place constrains that field and no other; any other name constrains nothing |
| `BitsetMask.PassesMeans` | include/pomai/metadata.h:126-137 | an entry passes if it is live, within the as-of bounds, in the chosen partitions, and every filter holds |
| `BitsetMask.NoFilterExactIff` | src/core/bitset_mask.cc:39-53 | without filters the mask is exact on every segment if and only if the as-of options are unset or maximal and the partition options are empty; otherwise one late entry refutes it |
| `BitsetMask.UnboundedRangeMisses` | src/core/bitset_mask.cc:55-80 | witness: a filter from 1 on without upper bound matches an entry of time 5 that the temporal plan does not mark |
| `BitsetMask.PopIsMarked` | src/core/bitset_mask.cc:95-108 | the population count of a built mask is the number of entries its plan marks |
| `BitsetMask.PopWordsCounts` | src/core/bitset_mask.cc:95-108 | the population of the words is the number of positions that test true |
| `BitsetMask.AllPopulationIff` | src/core/bitset_mask.h:44-48 | the all-pass mask has population n exactly when n is a multiple of 64 |
| `BitsetMask.Mask.constructor` | src/core/bitset_mask.h:40-41 | every position tests false |
| `BitsetMask.Mask.Test` | src/core/bitset_mask.h:59-61 | reads the bit of its position |
| `BitsetMask.Mask.Set` | src/core/bitset_mask.h:81-83 | position i tests true afterwards and every other position tests as before |
| `BitsetMask.Mask.PopCount` | src/core/bitset_mask.cc:95-108 | counts the positions that test true |
| `BitsetMask.Mask.BuildFromSegment` | src/core/bitset_mask.cc:24-92 | the mask holds exactly the positions of the chosen plan and no stray bit |
| `BitsetMask.Mask.MarkListed` | src/core/bitset_mask.cc:69-91 | of the listed positions exactly the live, matching ones are marked |
| `BitsetMask.Mask.MarkLive` | src/core/bitset_mask.cc:44-53 | exactly the entries that are not tombstones are marked |
| `BitsetMask.Mask.FirstTemporalFilter` | src/core/bitset_mask.cc:57-66 | the first timestamp filter, or none |
| `BitsetMask.Mask.CheckEntry` | src/core/bitset_mask.cc:74-74 | true exactly for a live entry whose metadata the options match |
| `ThreadPool.StepKeeps` | src/util/thread_pool.h:21-71 | every step of every interleaving keeps: tasks accounted for once each, pending exact, no exit before the queue is drained for good, and a non-empty queue attended by an awake worker or a notification under way |
| `ThreadPool.EveryRunIsFifo` | src/util/thread_pool.h:16-71 | in every interleaving tasks are taken once each in the order they were accepted, which are exactly those enqueued; each is queued, running or done; pending is exact and work in the queue has somebody awake or about to be woken |
| `ThreadPool.RunCounts` | src/util/thread_pool.h:36-71 | the tasks accepted are those of the Enqueue calls that did not throw, the tasks ended those that finished, and the pool is stopped exactly after a Stop |
| `ThreadPool.ExitMeansDrained` | src/util/thread_pool.h:27-30 | once any worker has exited the queue is empty for good and nothing more is accepted |
| `ThreadPool.ProductiveRunsAreBounded` | src/util/thread_pool.h:21-34 | no run of the pool's own steps is longer than the work left: it cannot spin |
| `ThreadPool.ProductiveStepsShrinkWork` | src/util/thread_pool.h:21-34 | each of its steps shrinks that work |
| `ThreadPool.QuietMeansDone` | src/util/thread_pool.h:27-45 | no lost wake-up: where no step is possible every accepted task has run and, after stop, every worker has returned |
| `MemTableProofs.RangeIsMetadataScan` | src/table/memtable.cc:78-192 | after any run of Put, PutBatch, Delete and Clear a time-range scan that is defined yields, in timestamp order, exactly the ids whose stored metadata lies in the range, once each, all of them live |
| `MemTableProofs.RangeDefinedIff` | src/table/memtable.h:188-195 | the scan is undefined exactly when a stamp lies strictly between crossed bounds |
| `MemTableProofs.StepKeeps` | src/table/memtable.cc:78-234 | every operation keeps the temporal index holding (timestamp, id) exactly once per id with stored positive timestamp, and metadata on live ids only |
| `MemTableProofs.StampGoesLast` | src/table/memtable.cc:126-131 | a new stamp goes behind all stamps of the same time, and the rest keep their order |
| `MemTableProofs.GetTellsLatest` | src/table/memtable.cc:78-222 | after any run an id reads back with the newest vector written to it and the metadata of its last Put; a batch that overwrites the vector leaves old metadata in place |
| `MemTableProofs.MetadataReadsBackIff` | src/table/memtable.cc:126-136 | metadata put comes back if and only if it has a tenant, source id, timestamp or text, or was empty |
| `MemTableProofs.DeviceAloneIsForgotten` | src/table/memtable.cc:126-136 | witness: metadata that names only a device reads back as none |
| `MemTableProofs.CrossedRangeUndefined` | src/table/memtable.h:188-195 | witness: after one put at time 5 the range from 9 to 1 is not defined |
| `MemTable.Table.constructor` | src/table/memtable.cc:61-66 | an empty table in step |
| `MemTable.Table.Put` | src/table/memtable.cc:78-138 | refused on a dimension mismatch with no change; otherwise the id has this vector and, if it has a tenant, source id, timestamp or text, this metadata; every other id is as before, and the indexes stay in step |
| `MemTable.Table.PutMetadata` | src/table/memtable.cc:111-136 | metadata and temporal index after a put |
| `MemTable.Table.DropStamp` | src/table/memtable.cc:112-124 | the equal-range search takes out this id's stamp |
| `MemTable.Table.PutBatch` | src/table/memtable.cc:143-167 | refused on size or dimension mismatch with no change; otherwise all vectors are put, metadata untouched |
| `MemTable.Table.Delete` | src/table/memtable.cc:172-192 | a tombstone; metadata and stamp gone; every other id as before |
| `MemTable.Table.Get` | src/table/memtable.cc:204-222 | found exactly for a live id, with its vector and metadata |
| `MemTable.Table.GetByTimeRange` | src/table/memtable.h:188-195 | the ids of the specification's range in order, None where it is undefined |
| `MemTable.Table.Clear` | src/table/memtable.cc:227-234 | the empty table |
| `CrcPolynomial.ChecksumIsRemainder` | src/util/crc32c.cc:16-34 | for every message and seed the complemented checksum is the remainder of long division by the Castagnoli polynomial of the message times x^32 with the complemented seed added in front |
| `CrcPolynomial.PolyIsDivisor` | src/util/crc32c.cc:6-6 | the reflected constant is the polynomial of section 12.1 of RFC 3720 |
| `CrcPolynomial.FeedDivides` | src/util/crc32c.cc:8-14 | feeding a register bit by bit is long division |
| `CrcPolynomial.RegisterIsFeed` | src/util/crc32c.cc:27-32 | the table-driven register is the one fed bit by bit |
| `Crc32c.TableIsEightSteps` | src/util/crc32c.cc:30-30 | one byte through the table is eight single steps of the register with the byte added |
| `CrcDetection.DetectsBursts` | src/util/crc32c.cc:16-34 | two messages that differ only within 32 consecutive bits have different checksums |
| `CrcDetection.DetectsByteBursts` | src/util/crc32c.cc:16-34 | two messages that differ only within four consecutive bytes have different checksums |
| `CrcDetection.DetectsOddErrors` | src/util/crc32c.cc:16-34 | two messages of equal length that differ in an odd number of bits have different checksums |
| `CrcDetection.ChecksumInPieces` | src/util/crc32c.cc:16-34 | the checksum of a concatenation is that of the second part seeded with that of the first |
| `Crc32c.Checksum.TableAt` | src/util/crc32c.cc:8-14 | the loop computes eight steps |
| `Crc32c.Checksum.FillTable` | src/util/crc32c.cc:18-25 | after the first call the table holds every entry |
| `Crc32c.Checksum.Compute` | src/util/crc32c.cc:16-34 | the loop over the bytes computes the checksum |
| `TopKTies.KeepsBestIff` | src/capi/capi_db.cc:150-163 | every order of pushing the same hits, repeated ones included, leaves exactly the k best with their copies if and only if k <= 1 or no score class is contested: cut in two, with a lower id beside its highest, and two hits beating that |
| `TopKTies.BadOrder` | src/capi/capi_db.cc:154-163 | for a contested class there is an order that keeps too many copies of its highest id, since the queue gives up the better of two tied hits |
| `TopKTies.TieDependsOnOrder` | src/capi/capi_db.cc:154-163 | witness: three tied hits and two slots, pushed upwards and downwards |
| `TopKTies.BestStays` | src/capi/capi_db.cc:154-163 | a hit that beats every other is never given up |
| `TopK.KeepsBestScores` | src/capi/capi_db.cc:154-163 | whatever the order, and wherever the scores are cut, the sink holds as many hits above the cut as were pushed, up to k |
| `TopK.ScoresOrderFree` | src/capi/capi_db.cc:154-163 | two orders of the same hits leave the same scores |
| `TopK.RoomMeansKept` | src/capi/capi_db.cc:154-163 | a hit whose whole score class fits is kept, in any order |
| `TopK.CollectHolds` | src/capi/capi_db.cc:154-163 | the sink holds min(k, n) of the hits pushed, as a priority queue |
| `TopKTies.SingleKeepsBest` | src/capi/capi_db.cc:154-163 | with one slot the best hit is kept, ties included |
| `TopK.Sink.PushHit` | src/capi/capi_db.cc:154-163 | the queue is that of all hits pushed so far |
| `TopK.Sink.Finalize` | src/capi/capi_db.cc:165-175 | ids and scores come out paired, scores nonincreasing, and are those of the queue |
| `Sq8.DecodeError` | src/storage/storage_engine.cc:177-191 | a stored coordinate decodes within half a step, within 1e-9 for a flat vector |
| `Sq8.CodeReadsBack` | src/storage/storage_engine.cc:422-433 | a decoded vector encodes to the same codes |
| `Sq8.EndsAreExact` | src/storage/storage_engine.cc:177-191 | the smallest and the largest coordinate are kept exactly |
| `Sq8.EncodeKeepsOrder` | src/storage/storage_engine.cc:184-188 | codes keep the order of coordinates |
| `Sq8.DriftBound` | src/storage/storage_engine.cc:422-433 | the squared distance of a vector from its stored form is at most n times the square of half a step |
| `Sq8.Range` | src/storage/storage_engine.cc:178-182 | the loop finds the least and the greatest coordinate |
| `Sq8.DotSq8` | src/core/distance.cc:38-44 | the kernel differs from decode-then-multiply by the error of the caller's query sum times the minimum, so it is exact if and only if that sum is right or the minimum is zero |
| `Sq8.L2SqSq8` | src/core/distance.cc:163-190 | the 32-wide chunks add up to decode-then-distance for every length; 0 on a size mismatch |
| `Sq8.TruncatedError` | src/table/memtable.cc:90-103 | the memtable's variant only moves a coordinate down, by less than a step |
| `BitDistance.ScoreCountsSigns` | src/core/distance.cc:66-73 | against the code of a vector of its length a query scores one for each coordinate whose sign agrees; padding bits never count |
| `BitDistance.ByteCounts` | src/core/distance.cc:57-64 | the population of an exclusive or is the number of signs that differ in a byte |
| `BitDistance.BitQuantize` | src/core/distance.cc:47-55 | bit i is set exactly for a positive coordinate i, and no bit beyond |
| `BitDistance.Hamming` | src/core/distance.cc:57-64 | the number of differing signs in the common bytes |
| `BitDistance.DotBit` | src/core/distance.cc:66-73 | the query's length less the number of differing signs; against the code of a vector of its length, one for each coordinate whose sign agrees |

## Left out

- Page pool: statistics (`bytes_in_swap`, `evictions`, epochs), the per-frame copy of the swap slot, defaults by device profile, allocation failure, destruction and 32-bit wrap-around of pin counts are not modelled; neither is the Windows build, which has no swap.
- PagePool.Pages.Store: the client writes whole pages; a partial write is a whole write of the changed page.
- FlatHashMemMap.MemMap.constructor: takes any positive capacity and any hash; rounding a requested capacity up to a power of two and overflow of the doubling are not modelled.
- FlatHashMemMap.MemMap.PutKey: requires a key other than the reserved all-ones key, as the source asserts.
- StorageEngine.Engine.WriteBuffer: the outcomes of write form a finite list, so a write that returns 0 for ever, on which the source loops for ever, is not modelled.
- StorageEngine.Engine.Append: the quantizer is any pair of functions on float bit patterns here; its arithmetic is in `Sq8`, over the reals. Tenants of 4 GiB and more are excluded by the 32-bit length field.
- EngineRuns.FreshRunNewestWins: says nothing after a flush has completed behind a torn record, where `RetryLosesRecord` shows a lookup going wrong and `RetriedFlushIndexedIff` tells which records are found.
- EngineRuns.FreshRunReindexesIff: speaks of the same runs, in which no flush completes behind a torn record.
- StorageEngine.Engine.Get: an Open that reports an error because an existing log could not be mapped leaves an open engine with an empty index; what lookups tell about an unmapped file is promised after an Open that succeeds.
- StorageEngine.Engine.ReloadMmap: called by the engine only; a caller reloading while records are buffered is not modelled.
- SegmentOps.SegmentRoundTrip: version 6 segments without vector quantization whose sizes fit the header's 32-bit fields; older versions, quantized payloads and sidecar index files are not modelled. The footer in the image is any four bytes; what the code puts there is in `SegmentFooter`.
- SegmentOps.Finish: `std::sort` is an insertion sort in the method; the theorems hold for any sorted permutation.
- BitsetMask.Mask.BuildFromSegment: the spatial test of a filter is an arbitrary predicate; its trigonometry is not modelled.
- ThreadPool: modelled as steps over values, not as an object; tasks are numbers, futures and exceptions of tasks are left out, and so is the destruction of the queue and mutex before the workers have joined.
- MemTable.Table.Put: stores vectors as they are; the in-memory quantized layout appears only as arithmetic in `Sq8.TruncatedError`. The arena is not modelled, nor the lexical index, whose entries a second Put does not remove, nor cursors.
- TopKTies.KeepsBestIff: `std::priority_queue` is an ordered sequence; scores are reals without NaN.
- Crc32c.Checksum.Compute: bytes are an immutable sequence; concurrent first calls filling the static table are not modelled.
- Sq8.DecodeError: arithmetic over the reals; rounding and NaN are not modelled. SIMD kernels are their mathematical sums.
- BitDistance.BitQuantize: returns a fresh sequence instead of filling the caller's buffer.
- The write-ahead log, membranes, micro-kernel, query planner, HNSW, IVF and product quantization, the chunker, agent memory, the rest of the C interface, bindings, tools and Vulkan code are not part of this model.
