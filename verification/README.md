# The housekeeping ring store

The housekeeping service of the satellite's on-board computer collects one record per interval and keeps the last
`MAX_FILES` of them. Four pieces of state share a 1-indexed cursor: a record file of fixed-size slots that is
overwritten in a circle, an array of record times used to look records up, a configuration file that persists cursor
and times, and a paging reader that sends records to the ground, newest first. This project models
`Services/source/housekeeping/housekeeping_service.c` and proves that, over whole runs with outages, the four pieces
stay a faithful image of one growing history of records, and it says exactly where they do not.

How the files fit together:

- `Machine`, `ByteFile`, `RingMath`: machine words and their bytes, files with zero-filled gaps and short reads, and
  slot arithmetic.
- `RecordFile`, `ConfigFile`: the layout of the two files, down to bytes, and the reads and writes through an open file.
- `TimestampSearch`: the lookup by time on an arbitrary index.
- `Store`, `StepBytes`: RAM and disk as values, every operation as a step on them, and each step word by word and byte
  by byte. Memory that an allocation leaves uninitialised is a parameter (`junk`), as are the collected record and what
  becomes of its write.
- `HousekeepingService`: the source's globals as fields of a class and its functions as methods with their loops, each
  proved to take exactly the step described in `Store` and `Fetching`.
- `Refinement`, `Runs`: the store against a history of records, over runs of populates, lost records, power cycles and
  interrupted writes. `Faults`: populates during which the configuration file or the memory for the index fails.
- `Resizing`, `SkippedSlot`, `IndexSync`: growth and wipes, the runs after them, and when the incremental store of the
  configuration equals a full rewrite.
- `Paging`, `Fetching`, `Interleaving`, `Requests`, `HistorySearch`: what paging, requests by id and by time, and
  searching mean for that history.

A run is a sequence of events. A history is the sequence of records written by its successful populates; record number
`j` (from 0) goes to slot `j mod n + 1`. A wipe does not erase the times of the earlier ring from the configuration
file. The refinement therefore carries a *past*: what an earlier ring left on disk in slots the present history has not
reached, and whether a power loss has since brought it into RAM. `NoPast` is a store without any; `Refines` with
`NoPast` is the plain claim, and `Refinement.RefinesAfreshExactly` says when a store with a past satisfies it.

Where the source and its own comments disagree, the model follows the source:

- The search on a full ring is commented as following the circular order (line 74), but line 82 subtracts the offset
  again, so slots are probed in physical order. `TimestampSearch.OffsetElimination` shows that the offset has no
  effect at all, `TimestampSearch.FindsEverySlotExactlyAtOne` that the search finds every record of a full ring
  exactly when the cursor is back on slot 1, and `TimestampSearch.FoundExactly` which records it finds at any other
  cursor: those whose bisection never compares a slot on the other side of the cursor, and so none on the other side
  from the middle slot (`TimestampSearch.OtherHalfMissed`). A request by a time that is missed is answered with the
  most recent page (`HistorySearch.MissedTimeSendsNewest`, `HistorySearch.PageBeforeTime`). The search the comment
  describes is modelled beside it (`TimestampSearch.AgeOrderFileId`) and proved exact.
- The test for a ring that is not full (line 66) looks at the word at the cursor. After a wipe and a power loss an
  earlier ring's time may be there, and the search then takes the ring for a full one: it misses records and may
  answer a slot without one (`HistorySearch.RemainsCounterexample`). `HistorySearch.FoundByOwnTimeExactly` and
  `HistorySearch.AnswersAreClosest` say when, `HistorySearch.FoundAfterWipe` for every run after a wipe.
- `set_max_files` promises that growth leaves the data flow unaffected (line 729). The copy at line 139 leaves out the
  last slot, and a ring that has wrapped is not re-based. `Resizing.GrowthTransparent` gives the condition under which
  the promise holds, on any loaded store whose records have nonzero times. Between a power cycle and the next populate
  the promise never holds: the capacity in RAM is then the limit, and every accepted request wipes the store
  (`Resizing.UnloadedGrowthWipes`).
- `set_max_files` promises that the next file written after a reduction is number 1 (line 728). When the configuration
  has not been loaded since boot, the next populate loads the cursor that the wipe stored and steps past it:
  `Resizing.FirstSlotAfterWipe`; `SkippedSlot.RunAfterSkippedSlot` follows the runs from there. Setting the current
  capacity again also wipes (line 748).
- A wipe rewrites the header of the configuration file but leaves the old times behind it. They come back as index
  entries with the next power cycle unless the new ring has overwritten them: `Resizing.RecoveryAfterWipe` gives the
  condition over every run after a wipe.
- A request that arrives after a power cycle and before the first populate pages back from slot 1 of a ring of 20160,
  because only a populate loads the configuration: `Requests.UnloadedStart` says when it starts at the newest record,
  and `Requests.UnloadedSends` what it sends.
- A request for more packets than records are held reads past the end of the record file and resends the last record;
  the last packet then announces, wrongly, that more follow: `Requests.FinalFlags`.
- A failed lazy load is only logged (line 668) and never tried again. Without memory for the index the next record
  replaces the newest one (`Faults.FailedLoadReplacesNewest`); when the file cannot be opened, capacity and cursor are
  forgotten (`Faults.UnopenedConfigForgets`).

## Model

| member | source | states |
|---|---|---|
| HousekeepingService.Service.constructor | Services/source/housekeeping/housekeeping_service.c:30-38 | the state of a satellite that has never stored a record: capacity 20160, cursor 1, no index, nothing loaded, no files |
| HousekeepingService.Service.PowerLoss | Services/source/housekeeping/housekeeping_service.c:30-38 | a power cycle, at any point, resets all RAM variables to those values and leaves both files |
| HousekeepingService.Service.GetFileIdFromTimestamp | Services/source/housekeeping/housekeeping_service.c:55-113 | the method answers what the specified search answers, on any valid state |
| HousekeepingService.Service.Bisect | Services/source/housekeeping/housekeeping_service.c:80-87 | the loop ends on the specified position, terminates, and its 32-bit sum never overflows |
| HousekeepingService.Service.DecideAt | Services/source/housekeeping/housekeeping_service.c:88-112 | the neighbour checks with wrapping 32-bit subtraction |
| HousekeepingService.Service.DynamicTimestampArrayHandler | Services/source/housekeeping/housekeeping_service.c:123-151 | the index after release, growth, shrinking and no change, word by word; failure exactly when a needed allocation fails, and then nothing changes |
| HousekeepingService.Service.StoreConfig | Services/source/housekeeping/housekeeping_service.c:456-477 | the bytes of the configuration file after the incremental and the full store; failure exactly when it cannot be opened, and then no change |
| HousekeepingService.Service.LoadConfig | Services/source/housekeeping/housekeeping_service.c:479-505 | failure exactly without a file, when it cannot be opened, or without memory; capacity, advanced cursor and index come from the file, and after a failed allocation capacity and cursor, not advanced, have changed alone |
| HousekeepingService.Service.EnsureLoaded | Services/source/housekeeping/housekeeping_service.c:666-671 | the lazy load of a populate, once per boot, whether it succeeds or not |
| HousekeepingService.Service.WriteHkToFile | Services/source/housekeeping/housekeeping_service.c:545-576 | the record's bytes land at its slot's position; or the file is untouched when it cannot be opened; or any bytes land there when a write reports an error |
| HousekeepingService.Service.ReadHkFromFile | Services/source/housekeeping/housekeeping_service.c:591-626 | the record read from a slot over the memory given; failure exactly without a file or on an error of the file system |
| HousekeepingService.Service.PopulateAndStoreHkData | Services/source/housekeeping/housekeeping_service.c:654-700 | the whole new state of RAM and both files after a populate: with any outcome of the load, of the record's write and of the store of the configuration |
| HousekeepingService.Service.PopulateCutOff | Services/source/housekeeping/housekeeping_service.c:654-689 | power lost between the record write, finished or not, and the store of the configuration: the state `Store.Crash` starts from |
| HousekeepingService.Service.SetMaxFiles | Services/source/housekeeping/housekeeping_service.c:735-767 | rejection of all but 1..20160, growth and wipe, as one new state; without memory growth changes only the capacity, and when the configuration cannot be stored a wipe leaves its file |
| HousekeepingService.Service.SetMaxFilesCutOff | Services/source/housekeeping/housekeeping_service.c:735-766 | power lost before the configuration is stored: a wipe has removed the record file only, growth has changed nothing |
| HousekeepingService.Service.NextPacket | Services/source/housekeeping/housekeeping_service.c:848-889 | the record loaded, converted and flagged, and its packet, byte by byte; failure when it cannot be read |
| HousekeepingService.Service.TransmitPages | Services/source/housekeeping/housekeeping_service.c:841-898 | the loop sends exactly the specified packets, also when the file is missing or a read or a send fails part-way |
| HousekeepingService.Service.FetchHistoricHkAndTransmit | Services/source/housekeeping/housekeeping_service.c:818-899 | the reply to any request, for every limit, id and time: exactly min(limit, capacity) packets if every read and send succeeds, fewer and a failure otherwise |
| HousekeepingService.BuildPacket | Services/source/housekeeping/housekeeping_service.c:860-889 | every copy stays inside the requested buffer and the packet is the specified one |
| RecordFile.WriteFields | Services/source/housekeeping/housekeeping_service.c:558-567 | the nine sequential writes are one write of the record's image |
| RecordFile.ReadFields | Services/source/housekeeping/housekeeping_service.c:608-617 | the nine sequential reads, short reads included, give the specified record |
| RecordFile.RecordBytes | Services/source/housekeeping/housekeeping_service.c:557-567 | the bytes of a record: `final`, time, position, then the eight segments in file order |
| RecordFile.ReadExactly | Services/source/housekeeping/housekeeping_service.c:608-617 | what each field is after a read, whole or short: the bytes at its place over the memory it had |
| ConfigFile.WriteHeader | Services/source/housekeeping/housekeeping_service.c:466-468 | the three header writes are one write of the eight header bytes |
| ConfigFile.ReadHeader | Services/source/housekeeping/housekeeping_service.c:489-491 | the three header reads |
| ConfigFile.WriteWords | Services/source/housekeeping/housekeeping_service.c:470 | the bulk write puts word i at byte 8 + 4i |
| ConfigFile.ReadWords | Services/source/housekeeping/housekeeping_service.c:493 | the bulk read takes word i from byte 8 + 4i and leaves words the file does not reach |
| RecordFile.SlotSize | Services/source/housekeeping/housekeeping_service.c:515-529 | the uint16 size sum does not wrap and equals the total of the nine writes |
| RecordFile.OffsetFitsInt32 | Services/source/housekeeping/housekeeping_service.c:554 | every slot up to 20160 lies below 2^31 |
| RecordFile.ReadHeld | Services/source/housekeeping/housekeeping_service.c:604-617 | reading a slot that holds a record gives that record, whatever memory held |
| RecordFile.WriteFrame | Services/source/housekeeping/housekeeping_service.c:554-567 | writing at most one slot's bytes leaves every other held record |
| RecordFile.RecordFileRoundTrip | Services/source/housekeeping/housekeeping_service.c:545-626 | write then read gives back all segments, and every other slot reads as before |
| StepBytes.SlotPosition | Services/source/housekeeping/housekeeping_service.c:548-554 | slot i starts (i - 1) times the size of a record from the start of the file |
| StepBytes.SlotBytes | Services/source/housekeeping/housekeeping_service.c:545-567 | bytes written at a slot land there, every other byte stays, and a gap is zeroes |
| StepBytes.StoredBytes | Services/source/housekeeping/housekeeping_service.c:456-477 | capacity, cursor and debug time in bytes 0-7, the word of slot i at 8 + 4i, and every other byte as it was |
| StepBytes.LoadBytes | Services/source/housekeeping/housekeeping_service.c:479-505 | the same bytes back into the variables, on every valid state, with the cursor advanced |
| StepBytes.LoadedByExactly | Services/source/housekeeping/housekeeping_service.c:666-671 | the lazy load on every valid state, for every outcome |
| StepBytes.WrittenExactly | Services/source/housekeeping/housekeeping_service.c:676-696 | a populate on every state, word by word: index, position, record, stored header and cursor |
| StepBytes.DamageExactly | Services/source/housekeeping/housekeeping_service.c:569-573 | a failed record write leaves its bytes at the cursor's slot and changes nothing else |
| StepBytes.SetMaxExactly | Services/source/housekeeping/housekeeping_service.c:735-767 | a change of capacity on every valid state, word by word |
| StepBytes.SetMaxCutOffExactly | Services/source/housekeeping/housekeeping_service.c:735-766 | what a power loss leaves of it |
| ConfigFile.StoredIncremental | Services/source/housekeeping/housekeeping_service.c:472-473 | the seek path changes the cursor's word and no other |
| ConfigFile.StoredFull | Services/source/housekeeping/housekeeping_service.c:469-470 | the bulk path writes every index word and leaves the words behind it |
| ConfigFile.IncrementalIsFull | Services/source/housekeeping/housekeeping_service.c:466-474 | both paths leave the same bytes if and only if the file matched the index everywhere but at the cursor |
| IndexSync.IncrementalIsFullOnRuns | Services/source/housekeeping/housekeeping_service.c:456-505 | in every run from a blank disk at the default capacity the incremental store leaves the file of a full rewrite |
| IndexSync.IncrementalIsFullExactly | Services/source/housekeeping/housekeeping_service.c:466-474 | on every refining store, for any capacity and past: the incremental store of the next populate leaves the file of a full rewrite if and only if the earlier ring's times in the free slots are in RAM too, the unused word 0 agrees, and the file is long enough |
| IndexSync.IncrementalIsFullAfterWipe | Services/source/housekeeping/housekeeping_service.c:735-767 | the same condition on every run after a wipe, in terms of the times the wipe left |
| Store.ReachableInBounds | Services/source/housekeeping/housekeeping_service.c:123-151 | over every run, resizing included: cursor and capacity bounds in RAM and on disk, index absent or of exactly the capacity |
| TimestampSearch.ProbeBrackets | Services/source/housekeeping/housekeeping_service.c:80-87 | in any array, the element before the final position was below the query and the final one, if probed, was not |
| TimestampSearch.LoopHalves | Services/source/housekeeping/housekeeping_service.c:80-87 | every turn compares the slot half-way between the ends, goes on above it or up to it, and at least halves the interval |
| TimestampSearch.DecideExactly | Services/source/housekeeping/housekeeping_service.c:88-112 | what is answered where the loop ends, as 15 s arcs of the 32-bit circle |
| TimestampSearch.OffsetElimination | Services/source/housekeeping/housekeeping_service.c:73-88 | the loop with offset ends on the same slot as the plain loop |
| TimestampSearch.OffsetKeepsProbes | Services/source/housekeeping/housekeeping_service.c:73-88 | and probes the same slots in the same order |
| TimestampSearch.CursorIrrelevant | Services/source/housekeeping/housekeeping_service.c:73-88 | on a full ring the answer is that of the plain loop over slots 1..N, whatever the cursor |
| TimestampSearch.SoundExactlyUpToSafeTime | Services/source/housekeeping/housekeeping_service.c:80-112 | every answer on every index, sorted or not, is truly within 15 s, exactly for query times up to 2^32 - 16 |
| TimestampSearch.SearchExact | Services/source/housekeeping/housekeeping_service.c:55-113 | on an ascending index with 30 s gaps: answers are closest, ties go low, and there is none exactly when no slot is near (or past the newest of a ring not full) - for all queries less than 2^32 - 15 s past the newest slot, and for no other |
| TimestampSearch.WrapAnswersNewest | Services/source/housekeeping/housekeeping_service.c:93-110 | any query further past the newest slot is answered with that slot |
| TimestampSearch.ThirtySecondsExactlyNeeded | Services/source/housekeeping/housekeeping_service.c:56-57 | answers are closest for all queries if and only if all gaps are at least 30 s |
| TimestampSearch.AgeOrderExact | Services/source/housekeeping/housekeeping_service.c:73-88 | the search by age that the comment intends is exact on a full ring with any cursor |
| TimestampSearch.CodeIsAgeOrderAtOne | Services/source/housekeeping/housekeeping_service.c:73-88 | with the cursor on slot 1 the source's search is that one |
| TimestampSearch.OldestNeverFound | Services/source/housekeeping/housekeeping_service.c:73-112 | with the cursor elsewhere, the oldest record's own time finds nothing |
| TimestampSearch.FoundNear | Services/source/housekeeping/housekeeping_service.c:73-112 | on a full ring with any cursor, a query within 15 s of a record is answered with it if and only if its bisection compares only slots on the record's side of the cursor |
| TimestampSearch.FoundExactly | Services/source/housekeeping/housekeeping_service.c:73-112 | in particular, which records are found by their own time |
| TimestampSearch.OtherHalfMissed | Services/source/housekeeping/housekeeping_service.c:73-112 | so no record on the other side of the cursor from the middle slot is ever found, by any time near its own |
| TimestampSearch.FoundAmongOlder | Services/source/housekeeping/housekeeping_service.c:66-112 | the same condition when the slots from the cursor on hold older times in any order, for the slots before the cursor |
| TimestampSearch.NoneFoundBelowHalf | Services/source/housekeeping/housekeeping_service.c:66-112 | and none of those is found while the cursor has not passed the middle slot |
| TimestampSearch.FindsEverySlotExactlyAtOne | Services/source/housekeeping/housekeeping_service.c:73-112 | a full ring finds every record by its own time if and only if the cursor is on slot 1 |
| TimestampSearch.RotatedRingCounterexample | Services/source/housekeeping/housekeeping_service.c:73-112 | a concrete rotated ring of three on which the source's search misses a record |
| RingMath.SlotIsMod | Services/source/housekeeping/housekeeping_service.c:32-33 | write j goes to slot j mod n + 1 |
| RingMath.SlotNext | Services/source/housekeeping/housekeeping_service.c:693-696 | increment with wrap moves the cursor to the next write's slot |
| Refinement.LoadRefines | Services/source/housekeeping/housekeeping_service.c:479-505 | loading after boot rebuilds capacity, cursor and index of the history |
| Refinement.PopulateRefines | Services/source/housekeeping/housekeeping_service.c:654-700 | a populate extends the history by exactly one record, keeping file, index, config and cursor in step, and repairs a torn slot; whatever an earlier ring left stays where it was |
| Refinement.LostRefines | Services/source/housekeeping/housekeeping_service.c:677-681 | a populate whose record write fails leaves the history; only the slot about to be reused may be damaged |
| Refinement.CrashRefines | Services/source/housekeeping/housekeeping_service.c:671-696 | an interrupted write leaves the history; only the slot about to be reused may be damaged |
| Refinement.RefinesAfreshExactly | Services/source/housekeeping/housekeeping_service.c:754-766 | a store over the remains of an earlier ring is one that never had a past if and only if the times left in slots not yet reached are zero |
| Refinement.FullTurnHeals | Services/source/housekeeping/housekeeping_service.c:654-700 | a full turn of the ring overwrites all remains |
| Faults.FailedLoadReplacesNewest | Services/source/housekeeping/housekeeping_service.c:495-500 | a lazy load without memory for the index makes the populate replace the newest record: the disk then holds, and the next boot loads, the history so changed, and until then the index knows that record only |
| Faults.UnopenedConfigForgets | Services/source/housekeeping/housekeeping_service.c:666-671 | a lazy load that cannot open the file makes the populate start anew in slot 1 at the default capacity, on disk too |
| Faults.UnstoredIsCrash | Services/source/housekeeping/housekeeping_service.c:689-696 | a populate whose configuration cannot be stored continues the history in RAM, and a power loss takes the record back like a crash |
| Runs.RunRefines | Services/source/housekeeping/housekeeping_service.c:654-700 | every run of populates, lost and torn populates, crashes and power cycles keeps the refinement |
| Runs.WholeRun | Services/source/housekeeping/housekeeping_service.c:654-700 | after k writes: cursor (k mod n) + 1, every slot's file record, position and index time is the latest write there, index slots not reached are as before, and the not-full test holds exactly for k < n with no earlier time at the cursor |
| Runs.WholeRunFromBlank | Services/source/housekeeping/housekeeping_service.c:654-700 | the same over every run of a new satellite at the default capacity: unwritten times are 0 and the not-full test holds exactly for k < n |
| Runs.NotFullTest | Services/source/housekeeping/housekeeping_service.c:66 | the "haven't made full loop" test holds if and only if the ring is not full and no earlier ring's time is at the cursor |
| Runs.RecoveryExactly | Services/source/housekeeping/housekeeping_service.c:456-505 | after any outages the next load rebuilds the RAM of the last populate if and only if the outages bring no earlier ring's times into RAM |
| Runs.RecoveryRoundTrip | Services/source/housekeeping/housekeeping_service.c:456-505 | so without remains, after a full turn, or once they are in RAM, every outage is recovered from |
| Runs.CrashRecovers | Services/source/housekeeping/housekeeping_service.c:671-696 | power loss between record write and config store recovers to the previous cursor and index (under the same condition) with all other records intact |
| Runs.CrashRepaired | Services/source/housekeeping/housekeeping_service.c:671-696 | the next populate rewrites that slot and completes the history |
| HistorySearch.SearchOverHistory | Services/source/housekeeping/housekeeping_service.c:55-113 | in states not yet full (with a zero word at the cursor) or just wrapped, over any past, the search is exact on the retained history |
| HistorySearch.FindsExactlyInOrder | Services/source/housekeeping/housekeeping_service.c:55-113 | over every reached state, any past included: all retained records are found by their own times if and only if the state is one of those, or the ring, not full but taken for full, lets the newest record be found |
| HistorySearch.FoundByOwnTimeExactly | Services/source/housekeeping/housekeeping_service.c:55-113 | over every reached state, any past included, which retained records are found by their own time |
| HistorySearch.FoundAfterWipe | Services/source/housekeeping/housekeeping_service.c:55-113 | the same over every run after a wipe, in terms of the power losses since and the times the wipe left |
| HistorySearch.RemainsCounterexample | Services/source/housekeeping/housekeeping_service.c:66-112 | a ring of three in which times of an earlier ring hide the only record, and one of them is answered itself |
| HistorySearch.AnswersAreClosest | Services/source/housekeeping/housekeeping_service.c:55-113 | with any cursor and past, an answer to a query in reach of the oldest record is the slot of a retained record within 15 s, with none closer; or a slot not reached yet, and only if an earlier ring's time at the cursor makes the ring be taken for full |
| HistorySearch.NearTimeOnFullRing | Services/source/housekeeping/housekeeping_service.c:73-112 | which queries near a retained record of a full ring are answered with it |
| HistorySearch.OtherHalfNeverAnswered | Services/source/housekeeping/housekeeping_service.c:73-112 | which records of a full ring are answered to no query near them: all on the other side of the cursor from slot (n + 1) / 2 |
| HistorySearch.AgeOrderFindsAll | Services/source/housekeeping/housekeeping_service.c:73-88 | the intended search finds every record of every full ring |
| HistorySearch.MissedTimeSendsNewest | Services/source/housekeeping/housekeeping_service.c:820-848 | a request by a time the search misses sends the most recent page |
| HistorySearch.AnsweredTimeSends | Services/source/housekeeping/housekeeping_service.c:820-848 | a request by any time answered with a record's slot sends the records written just before that record |
| HistorySearch.PageBeforeNearTime | Services/source/housekeeping/housekeeping_service.c:820-848 | in ordered states a request by any time within 15 s of a record sends the records before the closest one |
| HistorySearch.RemainsAnswerSendsZeroes | Services/source/housekeeping/housekeeping_service.c:820-853 | a request answered with such a slot starts with a packet of zeroes |
| HistorySearch.PageBeforeTime | Services/source/housekeeping/housekeeping_service.c:820-848 | with any cursor and past, a request by a record's time sends the records written just before it if the search finds it, and otherwise (and for the oldest record of a full ring) the most recent ones |
| Paging.IdAt | Services/source/housekeeping/housekeeping_service.c:841-846 | the k-th id is ((b - 2 - k) mod N) + 1 |
| Paging.IdsDistinct | Services/source/housekeeping/housekeeping_service.c:841-846 | no id repeats within one turn of the ring |
| Paging.FullTurnVisitsAll | Services/source/housekeeping/housekeeping_service.c:832-846 | a request for N visits every slot |
| Paging.PagesCompose | Services/source/housekeeping/housekeeping_service.c:804-848 | two consecutive pages visit the ids of one larger request |
| Paging.PacketLayout | Services/source/housekeeping/housekeeping_service.c:851-889 | payload, length and `final` byte of a packet against the stored record's image |
| Paging.PacketBytes | Services/source/housekeeping/housekeeping_service.c:851-889 | the bytes of a packet from the stored record: time and position in network order, segments 1 to 4 converted, 0, 5 and 6 as stored, the last left out |
| Fetching.Fetch | Services/source/housekeeping/housekeeping_service.c:832-899 | at most limit and at most capacity packets, and one of the two on success, which is exactly when every record can be read and every packet sent |
| Fetching.PagesReadIds | Services/source/housekeeping/housekeeping_service.c:841-858 | packet k carries the record in the k-th id's slot, for any file that reaches it |
| Fetching.PastEndRepeats | Services/source/housekeeping/housekeeping_service.c:839-853 | a slot past the end of the file resends the previous memory, converted again |
| Fetching.PageSends | Services/source/housekeeping/housekeeping_service.c:829-848 | a page from any held record sends the records before it, in reverse |
| Fetching.NewestFirst | Services/source/housekeeping/housekeeping_service.c:829-848 | a most-recent request sends the last records in reverse, across the wrap, without a gap |
| Requests.ReplyReads | Services/source/housekeeping/housekeeping_service.c:820-897 | the reply to any request on any valid state, packet by packet: which slot is read, over what memory, and its flag |
| Requests.ZeroImage | Services/source/housekeeping/housekeeping_service.c:839 | the record memory starts as zeroes |
| Requests.WholeRing | Services/source/housekeeping/housekeeping_service.c:832-848 | a limit of the capacity or more on a full ring sends all records, newest first |
| Requests.SlotSends | Services/source/housekeeping/housekeeping_service.c:841-858 | packet i of any request that reaches a written slot carries the latest record there |
| Requests.PageById | Services/source/housekeeping/housekeeping_service.c:829-848 | a request by any id of a written slot sends the records before the one in that slot; by id 0, the cursor or an id beyond the capacity, the most recent ones |
| Requests.UnloadedStart | Services/source/housekeeping/housekeeping_service.c:829-831 | after a power cycle and before the lazy load, a request starts at the newest record if and only if the ring has the default capacity and has just wrapped |
| Requests.UnloadedSends | Services/source/housekeeping/housekeeping_service.c:829-858 | what any request sends then, packet by packet, for every id, time, capacity and limit |
| Requests.UnloadedPageById | Services/source/housekeeping/housekeeping_service.c:829-848 | then too, a request that names a slot and does not page past slot 1 is answered as if loaded |
| Requests.FinalFlags | Services/source/housekeeping/housekeeping_service.c:856-858 | for every limit: `final` = 1 on every packet but the last, and on the last one if and only if more were asked for than are held |
| Interleaving.UndisturbedPages | Services/source/housekeeping/housekeeping_service.c:841-897 | the interleaved loop without interference is the plain loop |
| Interleaving.InterleavedStable | Services/source/housekeeping/housekeeping_service.c:818-898 | with populates, lost and torn ones included, between the turns and a torn slot at the start: packet i of a most-recent request still carries the i-th newest record exactly when fewer than N - i writes, a torn one at the end included, came in before its turn; otherwise a newer one, or the torn slot |
| Interleaving.PagesCarrySame | Services/source/housekeeping/housekeeping_service.c:804-848 | two pages with any run in between that writes w records carry the packets of one request while w + m + n <= N (one less with a torn slot) |
| Resizing.GrowthKeeps | Services/source/housekeeping/housekeeping_service.c:137-151 | growth keeps cursor, files and slots 1..old-1, zeroes the new slots, and keeps slot old only if the fresh memory holds its time |
| Resizing.GrowthExactly | Services/source/housekeeping/housekeeping_service.c:735-752 | for every past: growth and a populate continue the history over it if and only if the ring had not filled and the slots still free hold, in RAM and on disk, what that past says |
| Resizing.GrowthTransparent | Services/source/housekeeping/housekeeping_service.c:735-752 | they continue it over some past if and only if the ring had not filled and the free slots of the grown index are all zero or all as on disk |
| Resizing.CleanGrowth | Services/source/housekeeping/housekeeping_service.c:137-151 | those conditions on the state before: the lost slot was not in use, and no old times are in RAM (or in the file either) |
| Resizing.RunAfterGrowth | Services/source/housekeeping/housekeeping_service.c:735-752 | runs after such growth continue the history at the larger capacity |
| Resizing.UnloadedGrowthWipes | Services/source/housekeeping/housekeeping_service.c:735-766 | after a power cycle and before the first populate every accepted request, growth too, removes all records |
| Resizing.GrowthNotPersisted | Services/source/housekeeping/housekeeping_service.c:748-752 | a power cycle before the next populate undoes growth |
| Resizing.WipeExactly | Services/source/housekeeping/housekeeping_service.c:754-766 | on every valid store: a wipe empties RAM and records and points at slot 1; the result refines an empty history if and only if the configuration was loaded, and one without a past if and only if no old times remained either |
| Resizing.WipeCutOff | Services/source/housekeeping/housekeeping_service.c:754-765 | a wipe cut off after the unlink: the next load gives back capacity, cursor and index without the records, and every request fails |
| Resizing.FirstSlotAfterWipe | Services/source/housekeeping/housekeeping_service.c:721-767 | the next populate writes slot 1 if and only if the configuration was loaded or the capacity is 1 |
| Resizing.FirstSlotAfterWipeAndOutage | Services/source/housekeeping/housekeeping_service.c:479-505 | after a wipe and a power cycle it writes slot 2 |
| Resizing.RunAfterWipe | Services/source/housekeeping/housekeeping_service.c:735-767 | after a wipe, clean or not, every run that stores a record before power is lost refines a new history at the new capacity |
| Resizing.SkippedSlotBreaks | Services/source/housekeeping/housekeeping_service.c:479-505 | and the run must: a first record after a wipe without a loaded configuration, or after a power loss, leaves no such refinement (unless the capacity is 1) |
| SkippedSlot.RunAfterSkippedSlot | Services/source/housekeeping/housekeeping_service.c:479-505 | every run from there: capacity, cursor, index and all other records are those of a history with a phantom record in slot 1, and the store refines it if and only if slot 1 has been written to since (after a full turn) |
| SkippedSlot.UnloadedRunIsSame | Services/source/housekeeping/housekeeping_service.c:666-671 | a store wiped before it was loaded runs like one that lost power after the wipe |
| Resizing.RecoveryAfterWipe | Services/source/housekeeping/housekeeping_service.c:735-767 | over every such run: the index survives the next power cycle if and only if all old times have been overwritten or were zero, or are in RAM already |

## Left out

- The released array: line 126 frees the array without clearing the pointer. The model treats a released array as the
  null pointer, so later uses of the stale pointer (a second release, and the one word written from it to the unused
  word 0 of the configuration file) are not modelled.
- HousekeepingService.Service.StoreConfig: a null index is written as no word at all, where the source writes the one
  word it reads through the pointer.
- HousekeepingService.Service.PopulateAndStoreHkData: the allocation that follows the record's write succeeds; when it
  fails, the source stores a word read through a null or outdated pointer.
- HousekeepingService.Service.SetMaxFiles: runs continue only after growth whose allocation and a wipe whose store
  succeed.
- Faults.UnstoredIsCrash: runs go on with the configuration file in step; what later populates leave after a skipped
  store of it is not followed.
- Errors inside the configuration file: once opened it is read and written whole, and a power loss may tear a record
  write at any byte but not the write of the configuration.
- Interleaving.InterleavedStable: no change of capacity comes in between the turns, and record reads and writes are
  single steps.
- HistorySearch.SearchOverHistory: query times stop 2^32 - 16 s past the newest record; beyond that the answer is wrong
  (`TimestampSearch.SearchExact`).
- HistorySearch.FoundByOwnTimeExactly: what an earlier ring left is older than the history, as it is while the clock
  goes on (`HistorySearch.FoundAfterWipe`).
- Contents of the device records: sub-structs are byte strings of symbolic sizes, and their byte-order converters are
  arbitrary functions that keep the size. The order and sizes come from the device drivers, which are not part of this
  model.
- The startup telemetry of the power supply: it is in the record struct but is neither written nor read.
- Collecting a record from the devices, the mock data and the clock: the collected record is a parameter.
- The byte order of the processor: words are modelled least significant byte first; nothing proved depends on it.
- The semaphore: populate and change of capacity are single steps; the fetch loop is not.
- Sockets, packet buffers that cannot be obtained, the server task, logging, and decoding of request packets.
