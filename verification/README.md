# TickTockDB: a Dafny model of its queues, hash table, compressors, rollups and aggregation

TickTockDB is a time series database in C++. This project models the parts of it that pair a fast,
stateful form with a simple mathematical one, and proves that the two agree: over every interleaving of
threads, every sequence of operations, every run of calls.

`dafny verify dfyconfig.toml` checks the whole project (Dafny 4.11). Every file is one module.

## What is modelled

- **Queues and the scheduler** (`MpmcQueue`, `MpmcCalls`, `SpscQueue`, `TaskScheduler`, `SchedulerCalls`). Every
  atomic load, compare-and-swap and store of `Queue` and `Queue11` is one step of a state machine, with a program
  counter per thread. The scheduler runs on top of the rings, one submitter and any number of workers, at the
  granularity of the rings' steps.
- **The robin-hood hash table** (`GrowthPolicy`, `RobinTable`, `RobinMap`). A class over an array of buckets with
  the probe, displacement, backward-shift and rehash loops; it answers as a finite map.
- **The page compressors.** `BitSet` packs bits into a byte buffer with shifts and masks; `BitWriter` and
  `BitReader` are the ways it is used. Version 2 (Gorilla XOR): `GorillaCode`, `GorillaStream`, `GorillaTheorems`,
  `GorillaRoom`, `GorillaLimits`, `GorillaRestore`, `GorillaReader`, and the class in `CompressorV2`. Version 3
  (deltas at a fixed precision, values over the reals): `FixedPointCode`, `FixedPointStream`, `FixedPointTheorems`,
  `FixedPointRoom`, `FixedPointLimits`, `FixedPointRestore`, and the class in `CompressorV3`. Version 1 (bytes with
  escapes): `ByteCode`, `ByteStream`, `ByteRoom`, and the class in `CompressorV1`. For each, a machine over bit or
  byte strings says what one `compress` call does, the class refines that machine down to bytes and cursors, and the
  promises are proved for whole runs of the machine. `Series`, `StreamCode`, `BitCode`, `ByteBits`, `Bits`,
  `ZeroBits`, `Sequences` and `StampDrift` hold what they share.
- **Rollups** (`RollupCodec`, `RollupFile`, `Calendar`, `CivilCalendar`, `RollupManager`, `RollupReader`,
  `RollupShared`, `RollupQuery`, `RollupPrecision`, `RollupBytes`). The entry codec, the cursor that reads a file of
  entries through a buffer, the month cache against the Gregorian calendar, the manager whose entries carry no time,
  the clock that gives them one, queries of files that many series share, what the rounding in the files does to the
  answers, and all of it together from the bytes of the files to the output.
- **Downsampling and aggregation** (`Stats`, `Downsample`, `DownsampleGrid`, `DownsampleMeaning`, `Downsampler`,
  `AggregatorMerge`, `Variance`). Groups, fillers and output as functions and what they mean for the points, with
  the interval as asked or as changed for rollup entries; the downsampler as a class that updates the back of its
  output; the k-way merge that overwrites the slots it has consumed; and one-pass deviation.
- **The object pool** (`RecyclePool`, `PoolRuns`). The intrusive free list, the usage-based collection, and whole
  runs of both.

## What turned out not to hold

- **A ring of one slot overwrites unread items.** In `Queue`, the version a producer stores and the version the
  next producer waits for coincide when the capacity is 1. The ring is safe exactly when it has at least two slots
  (`MpmcQueue.SafeIffTwoSlots`, `MpmcQueue.OneSlotOverfills`).
- **A large page can be corrupted by its point counter.** Compressors 2 and 3 decide by a 16-bit counter whether a
  point is the first of a page. After 65536 points it reads zero, and the next point is written as a page header
  into the middle of the stream. Version 2 is lossless for every run exactly on pages below 131262 bits (up to
  16407 bytes), version 3 keeps the timestamps of every run exactly on pages below 196797 bits (up to 24599 bytes)
  (`GorillaLimits.LosslessIffSmall`, `FixedPointLimits.KeepsTimesIffSmall`). Version 1 looks at the cursor instead,
  and has no such limit.
- **Timestamps survive only in range.** Version 2 returns the stored timestamps exactly when the first lies within
  32 bits of the page start and every delta of deltas fits 33 bits; version 1 when it fits 32 bits; version 3
  needs only the first condition. All three are stated as "if and only if", on conditions a caller can check.
- **A month without points shifts the hourly entries after it.** Rollup entries carry no time. The manager leaves
  out a month in which a series has no points, but a query counts hours on from file to file, so that entries of
  March are read as entries of February if February has none. The entries read are the true ones, and all queries
  are answered as the points would answer them, exactly when no month was skipped before the current hour
  (`RollupReader.DatesRightIffGapless`, `RollupQuery.AnswersRightIffSkipFree`, `RollupQuery.SkippedFebruary`).
- **A query of several series can lose entries.** The file of a month is left at the first entry of any queried
  series that is past the range, and nothing behind it is read. A series gets all its entries in range exactly when,
  in the file of the last month of the range, none of them is behind an entry past the range of any queried series.
  A query of one series never loses any, nor does one of entries in the order of their times
  (`RollupShared.SharedQuery.Query`, `RollupShared.AllUnlessLost`, `RollupShared.SecondSeriesLost`).
- **Filling can leave the grid.** When rollup entries are used, the interval is rounded to whole hours or days, but
  filling still starts from the range as it was stepped down with the interval asked for. Fillers are then put
  between grid points or before the start, and behind the one value of a query of the whole range. The output has
  the times of the grid for every series exactly under a condition on the query alone, which holds whenever the
  interval was not changed (`DownsampleGrid.KeepsGridIff`, `DownsampleGrid.FillsOffGrid`,
  `DownsampleGrid.FillsBeforeStart`, `DownsampleGrid.FillsAfterAll`).
- **A query without points loses the first filler** when its start is a grid point, because the fillers then begin one
  interval after it (`DownsampleGrid.NothingKeepsGridIff`).
- **Stopping and restoring a version 3 page shows**, because the restored compressor goes on from the value as it
  is read back. It does not show exactly when the first timestamp is in range and the rounding errors of the points
  stored so far add up to zero, or when no further point is accepted, for which there must usually be less than 3
  bits left; either way the error of later values starts again from nothing
  (`FixedPointRestore.InvisibleIffNoDrift`, `FixedPointRestore.AcceptsIff`, `FixedPointRestore.StopShows`,
  `FixedPointRestore.RestoreRestartsError`).
- **A version 1 or 2 page with timestamps out of range is restored right** exactly when what was lost of them adds up
  to zero, in the times and in their deltas (`ByteStream.RestoreInvisible`, `GorillaRestore.RestoredIsTwin`).
- **A version 1 page must hold 12 bytes.** Its first point is written without looking at the size
  (`ByteStream.StaysInPageIff`).
- **Hourly entries answer a query as raw points do** exactly for intervals that are multiples of an hour, or the
  whole range (`Downsample.RollupsAgree`, `Downsample.OtherIntervalsDiffer`).
- **Merged times repeat** exactly when those of a source do (`AggregatorMerge.StrictIffSourcesStrict`).
- The comment on `append` in `include/bitset.h` speaks of a returned flag; the code throws. The model follows the
  code, with the exception as a result.

## Model

| member | source | states |
|---|---|---|
| MpmcQueue.KeepsWinTail | include/queue.h:154-177 | winning a tail ticket keeps the invariant: the slot of the ticket is free, and no other thread owns it |
| MpmcQueue.KeepsPutValue | include/queue.h:154-177 | the producer's store of its value touches only the slot it owns and keeps the invariant |
| MpmcQueue.KeepsPublish | include/queue.h:154-177 | the producer's version store hands the filled slot to the consumer of the same ticket |
| MpmcQueue.KeepsWinHead | include/queue.h:179-202 | winning a head ticket keeps the invariant: the slot holds the value of the enqueue with that ticket |
| MpmcQueue.KeepsReadValue | include/queue.h:179-202 | the consumer reads the value stored by the enqueue that won its ticket |
| MpmcQueue.KeepsRelease | include/queue.h:179-202 | the consumer's version store hands the slot to the producer one lap later |
| MpmcQueue.KeepsAdvance | include/queue.h:154-202 | every atomic step of every thread keeps the invariant, given at least two slots |
| MpmcQueue.RunHolds | include/queue.h:123-202 | every reachable state of every interleaving satisfies the invariant, with head <= tail <= head + capacity |
| MpmcQueue.OneOwnerPerSlot | include/queue.h:154-202 | in every reachable state of a ring of at least two slots no two threads, producers or consumers, are between their compare-and-swap and their version store on the same slot |
| MpmcQueue.SafeIffTwoSlots | include/queue.h:123-202 | every reachable state is safe if and only if the capacity is at least 2: at most capacity items, every dequeue gets the item of its ticket, and tickets and slots have one owner at a time |
| MpmcQueue.OneSlotOverfills | include/queue.h:173-199 | with one slot, for any two items there is a run in which both are accepted, none is read, and the only slot holds the second |
| MpmcQueue.EveryItemInOnePlace | include/queue.h:154-202 | in every reachable state the item of every won ticket is in exactly one place: nothing is lost, duplicated or overwritten early |
| MpmcQueue.QuiescentFifo | include/queue.h:154-202 | when all operations have returned, the dequeues got exactly the first items in ticket order and the ring holds the rest |
| MpmcCalls.LoneEnqueue | include/queue.h:154-177 | in every reachable state, an enqueue that runs alone returns true and puts its item if and only if the item one lap before its ticket has been given away; otherwise it returns false and changes nothing |
| MpmcCalls.LoneDequeue | include/queue.h:179-202 | in every reachable state, a dequeue that runs alone returns the item of the next ticket if it is in the ring; otherwise it returns false and changes nothing |
| MpmcCalls.QuiescentReady | include/queue.h:154-202 | with no operation under way, there is room exactly below capacity, and an item ready exactly if one is held |
| MpmcCalls.EnqueueCall | include/queue.h:154-177 | in every interleaving, an enqueue that returns true has put its item under the ticket that was next at its call; one that returns false had an instant at which that ticket had no room or was taken |
| MpmcCalls.DequeueCall | include/queue.h:179-202 | in every interleaving, a dequeue that returns true returns the item of the ticket that was next at its call; one that returns false had an instant at which that item was not ready or was taken |
| SpscQueue.SeesRoom | include/queue.h:85-95 | the producer's comparison of the next tail with head is true exactly when capacity - 1 items are held |
| SpscQueue.SeesData | include/queue.h:97-104 | head and tail are equal exactly when everything put has been taken |
| SpscQueue.KeepsStep | include/queue.h:85-104 | every atomic step of either thread keeps the invariant of the ring |
| SpscQueue.RunHolds | include/queue.h:50-104 | every reachable state of every interleaving satisfies the invariant of the ring |
| SpscQueue.RefinesFifo | include/queue.h:50-104 | in every interleaving each step acts on the contents as one step of a FIFO of capacity - 1 items |
| SpscQueue.RefusalsAreHonest | include/queue.h:85-104 | an enqueue is refused only at an instant when capacity - 1 items are held, a dequeue only when none is |
| SpscQueue.EnqueueCall | include/queue.h:85-95 | in every interleaving, a whole enqueue puts its item once, unless at some instant of it capacity - 1 items are held, and then it puts nothing |
| SpscQueue.DequeueCall | include/queue.h:97-104 | in every interleaving, a whole dequeue takes the oldest item, unless at some instant of it none is held, and then it takes nothing |
| SpscQueue.LoneEnqueue | include/queue.h:85-95 | alone, an enqueue ends after three steps, and puts its item exactly if fewer than capacity - 1 are held |
| SpscQueue.LoneDequeue | include/queue.h:97-104 | alone, a dequeue ends after three steps, and takes the oldest item if there is one |
| TaskScheduler.KeepsStep | src/core/task.cpp:119-299 | every step of the submitter, of a worker and of shutdown keeps the bookkeeping of who holds which task |
| TaskScheduler.RunHolds | src/core/task.cpp:119-299 | every reachable state of every interleaving satisfies that bookkeeping |
| TaskScheduler.PlacedExactlyOnce | src/core/task.cpp:119-161 | a submission that returned id >= 0 put its task exactly once into the ring of worker id and nowhere else; one that returned -1 put it nowhere |
| TaskScheduler.AnsweredAsAsked | src/core/task.cpp:119-161 | in every interleaving, a submission for one worker returns that worker or -1, and -1 is returned only after shutdown was requested |
| SchedulerCalls.LoneSubmit | src/core/task.cpp:119-161 | in every reachable state without shutdown, a submission that runs alone puts its task once into the ring of the worker asked for, or else of the first with room counting round from the one that is up, and returns it; the one after it is up next |
| TaskScheduler.RunsInSubmissionOrder | src/core/task.cpp:252-299 | every worker has run the runnable tasks placed in its ring, each once and in submission order, all it has taken while it polls and else up to the one it holds; it stops only at shutdown |
| SchedulerCalls.LoneWorker | src/core/task.cpp:252-299 | in every reachable state, a polling worker that runs alone takes the oldest task of its ring and runs it if it is runnable; with an empty ring it stays as it is; after shutdown it stops |
| SchedulerCalls.NothingRunsAfterStop | src/core/task.cpp:252-299 | whatever happens, a worker that was told to stop runs no further task |
| GrowthPolicy.RoundUpToPowerOfTwo | include/tsl/robin_growth_policy.h:146-165 | the smearing loop yields the least power of two that is not below the request |
| GrowthPolicy.CanGrowIff | include/tsl/robin_growth_policy.h:120-127 | a table can grow if and only if twice its buckets are at most 2^63 |
| GrowthPolicy.TruncatedHashSameBucket | include/tsl/robin_hash.h:408-420 | when the bucket-count test passes, masking the stored 32 bits picks the bucket of the whole hash, which is the hash modulo the bucket count |
| GrowthPolicy.TruncatedHashMisplaces | include/tsl/robin_hash.h:408-420 | the test is exact: when it fails, some hash is misplaced by its stored bits |
| RobinTable.ProbeReaches | include/tsl/robin_hash.h:1157-1175 | no bucket on the probe path before a stored key stops the search |
| RobinTable.EarlyStopIsRight | include/tsl/robin_hash.h:1157-1175 | when the probe meets a bucket poorer than itself, the key is nowhere in the table |
| RobinTable.SwapCarries | include/tsl/robin_hash.h:1276-1306 | displacing a richer entry keeps the distance invariant, with the displaced entry carried on |
| RobinTable.SkipCarries | include/tsl/robin_hash.h:1276-1306 | passing a poorer entry by keeps the carried entry placeable further on |
| RobinTable.DropKeeps | include/tsl/robin_hash.h:1276-1306 | settling in an empty bucket restores the full table invariant |
| RobinTable.CrowdBehind | include/tsl/robin_hash.h:1276-1306 | by the distance invariant an entry d buckets from home has d more entries right behind it |
| RobinTable.CarriedPast | include/tsl/robin_hash.h:1282-1292 | an entry carried d buckets from home has passed d stored entries, so that a long probe means a well-filled table |
| RobinTable.ClearMakesHole | include/tsl/robin_hash.h:1177-1205 | emptying a bucket leaves a table that is in order except for that one hole |
| RobinTable.ShiftKeepsHole | include/tsl/robin_hash.h:1177-1205 | moving the next entry one bucket back moves the hole on and breaks nothing else |
| RobinTable.HoleCloses | include/tsl/robin_hash.h:1177-1205 | the shifting may stop at an empty bucket or at an entry in its home: then the table is in order |
| RobinMap.Probe | include/tsl/robin_hash.h:1157-1175 | the loop ends, at the bucket of the key if it is stored, otherwise at the first bucket poorer than the probe |
| RobinMap.InsertValueImpl | include/tsl/robin_hash.h:1276-1306 | the displacement loop ends with a table in order that holds the old entries and the new one; growth is asked for if and only if a further entry was displaced by one at least 4096 buckets from home, and then at least 4096 entries were stored |
| RobinMap.InsertValueOnRehash | include/tsl/robin_hash.h:1344-1363 | the same for one entry put into the new table of a rehash |
| RobinMap.EraseFromBucket | include/tsl/robin_hash.h:1177-1205 | the backward shift ends with a table in order that holds all entries but the erased one |
| RobinMap.RehashInto | include/tsl/robin_hash.h:1308-1342 | a table of another size holds exactly the same entries, even when only the stored hash bits are used |
| RobinMap.RobinMap.Find | include/tsl/robin_hash.h:991-1006 | exactly the lookup of the abstract map |
| RobinMap.RobinMap.Erase | include/tsl/robin_hash.h:902-917 | exactly the removal from the abstract map, and whether there was anything to remove |
| RobinMap.RobinMap.RehashImpl | include/tsl/robin_hash.h:1308-1342 | the abstract map is untouched, and the buckets are the least power of two that is not below the request |
| RobinMap.RobinMap.RehashOnExtremeLoad | include/tsl/robin_hash.h:1372-1390 | the buckets double exactly when the table is half full or was told to grow, and it fails exactly when it then cannot; otherwise there is room for one more element at half load |
| RobinMap.RobinMap.Insert | include/tsl/robin_hash.h:1208-1267 | adds an absent key, leaves a present one and its value alone, and reports where it is; the buckets double exactly when a new key finds the table half full or told to grow, and it is told to grow exactly by a long move; fails, with nothing changed, if and only if the key is absent and the table is to grow and cannot |
| RobinMap.Apply | include/tsl/robin_hash.h:1157-1390 | one operation answers as a finite map does, or is refused, exactly when the table would exceed its maximum size, and then leaves the map as it was |
| RobinMap.FewKeysFit | include/tsl/robin_hash.h:1372-1390 | below 4096 keys and without a long probe, no insertion is refused, and no rehash to an allowed size |
| RobinMap.Replay | include/tsl/robin_hash.h:1157-1390 | for every sequence of finds, inserts, erases and rehashes, every answer is that of a finite map, and the table ends up as that map and at most half full; it stops early only at an operation refused for the size of the table, and not before 4096 keys were held at once or a rehash to too many buckets was asked for |
| BitSet.BitSet.Append | src/utils/bitset.cpp:158-181 | succeeds exactly when the bits fit; then the contents grow by exactly those bits of the source; on failure the old contents are still there |
| BitSet.BitSet.AppendSome | src/utils/bitset.cpp:183-254 | one turn of the shifting and masking appends the next bits of the source byte, in all three alignments |
| BitSet.BitSet.RestoreFromCheckPoint | include/bitset.h:84-88 | cuts the contents back to the size at the checkpoint |
| BitSet.BitSet.Retrieve | src/utils/bitset.cpp:287-319 | copies exactly the bits at the cursor over the destination from the given bit on, and fails exactly at the end |
| BitSet.BitSet.CopyFrom | src/utils/bitset.cpp:271-284 | the contents become the given whole bytes and bits of another buffer, or of its own if none or its own is given |
| StreamCode.HeaderFieldsRead | src/core/compress.cpp:595-612 | the page header is read back, with the offset cut to 32 bits |
| GorillaCode.DodCodeReads | src/core/compress.cpp:637-673 | the 1, 14, 17 and 33-bit codes are told apart and consumed exactly, whatever bits follow |
| GorillaCode.DodSurvives | src/core/compress.cpp:637-673 | a delta of deltas survives storing if and only if it fits 33 bits |
| GorillaCode.ValueCodeReads | src/core/compress.cpp:675-715 | the XOR codes, with window reuse and 64 stored as 0, are consumed exactly and give back the XOR and the window |
| GorillaStream.NextDecodes | src/core/compress.cpp:733-882 | appending the code of one more point appends exactly that point to what is decoded |
| GorillaTheorems.FeedStores | src/core/compress.cpp:614-730 | a refused call marks the page full and leaves the stream as it was; an accepted one stores the point unless it is older than the last |
| GorillaRoom.AcceptedIff | src/core/compress.cpp:614-730 | a point in order is accepted if and only if its width fits: 1, 16, 20 or 36 bits for the time by the range of the delta of deltas, and 1 bit for the same value, 2 and the last window if it covers all bits that differ, or 13 and the window of these bits; an accepted one takes exactly that width |
| GorillaRoom.RefusedIff | src/core/compress.cpp:614-730 | for every run, the first refused call is the first whose point does not fit the page as it then is |
| GorillaRoom.AlwaysFits | src/core/compress.cpp:614-730 | 113 free bits suffice for any later point, and 96 for the first |
| GorillaTheorems.StoresKept | src/core/compress.cpp:614-730 | a page stores exactly the points that are not older than their predecessors, of the calls before the first refused one |
| GorillaTheorems.RoundTrip | src/core/compress.cpp:595-897 | for every run, the page stores the kept points of exactly the calls before the first refused one; they are decoded with their values, bit for bit, and with their times if and only if those are in range |
| GorillaLimits.LargePageLoses | src/core/compress.cpp:595-630 | 65537 equal points on a large page come back as another number of points |
| GorillaLimits.LosslessIffSmall | src/core/compress.cpp:595-897 | every in-range run is decoded to the points stored if and only if the page has fewer than 131262 bits |
| GorillaRestore.TwinsCompress | src/core/compress.cpp:675-715 | two compressors that differ only in windows that cannot be reused accept the same points and write the same bits |
| GorillaRestore.DriftHolds | src/core/compress.cpp:614-897 | after every run, the time and the delta that the reader ends at are off by the sums of what the header and the deltas of deltas lost, in 64-bit arithmetic |
| GorillaRestore.RestoredIsTwin | src/core/compress.cpp:564-586 | the fields set by reading the stream back differ from the writer's at most in such a window, if and only if those sums are zero; timestamps in range suffice |
| GorillaRestore.RestoreInvisible | src/core/compress.cpp:564-586 | then, after stopping, saving and restoring, any further calls are accepted alike and give the stream of a run that never stopped |
| GorillaReader.GetSigned | src/core/compress.cpp:787-842 | copying 14, 17 or 33 bits into a buffer and repairing the sign with the constants yields the number those bits stand for |
| GorillaReader.GetWindowed | src/core/compress.cpp:870-876 | copying the meaningful bits into a word and masking with the table rebuilds the XOR |
| GorillaReader.Uncompress | src/core/compress.cpp:733-897 | on every stream that can be decoded, the points and the reader's state of the specification |
| CompressorV2.CompressorV2.PutTime | src/core/compress.cpp:637-673 | appends exactly the timestamp code, or reports that it does not fit and keeps what was there |
| CompressorV2.CompressorV2.PutValue | src/core/compress.cpp:675-715 | appends exactly the value code and remembers the window it used, or keeps both |
| CompressorV2.CompressorV2.Compress | src/core/compress.cpp:614-730 | one step of the machine over bit strings, with the bit set cut back when it throws; it returns true if and only if the width of the point fits |
| CompressorV2.CompressorV2.Uncompress | src/core/compress.cpp:733-883 | the points that the specification decodes from the contents |
| CompressorV2.CompressorV2.Restore | src/core/compress.cpp:564-574 | takes over the saved bits, from another buffer or its own, and sets the fields to those of the restored machine |
| CompressorV2.WriteAndRead | src/core/compress.cpp:595-897 | writing any series through the class and reading it back gives exactly the kept points when they are in range |
| FixedPointCode.IntCodeReads | src/core/compress.cpp:300-359 | the 1, 12, 17 and 64-bit codes are consumed exactly, whatever bits follow |
| FixedPointCode.StoredExactly | src/core/compress.cpp:300-359 | a number survives storing if and only if it is a 64-bit number |
| FixedPointCode.PrefixFree | src/core/compress.cpp:300-359 | no code begins another |
| FixedPointCode.QuantiseNear | src/core/compress.cpp:279-298 | a stored difference is off by at most one unit of precision |
| FixedPointCode.QuantiseExact | src/core/compress.cpp:279-298 | a difference that is a whole number of units is stored exactly, by whichever branch |
| FixedPointCode.FloatCodeReads | src/core/compress.cpp:427-443 | the code of a difference is consumed exactly, whatever bits follow |
| FixedPointTheorems.KeepsFeed | src/core/compress.cpp:230-277 | one call keeps the invariant of a run; a refused one leaves the stream as it was and marks the page full |
| FixedPointRoom.QuantumStands | src/core/compress.cpp:279-298 | the number stored of a difference is its whole part if that leaves less than a unit, and else the nearest number of units, halves away from zero, and marked as such |
| FixedPointRoom.AcceptedIff | src/core/compress.cpp:230-359 | a point in order is accepted if and only if its width fits: 1, 14, 20 or 67 bits for the delta of deltas, and 1 more than that for the number of the difference; an accepted one takes exactly that width |
| FixedPointRoom.RefusedIff | src/core/compress.cpp:230-359 | for every run, the first refused call is the first whose point does not fit the page as it then is |
| FixedPointRoom.AlwaysFits | src/core/compress.cpp:230-359 | 135 free bits suffice for any later point, and 96 for the first |
| FixedPointTheorems.RoundTrip | src/core/compress.cpp:212-425 | for every run, the page stores the kept points of exactly the calls before the first refused one; their times come back if and only if the first is within 32 bits of the start; the k-th value is off by at most k units, and not at all when all differences are whole units |
| FixedPointLimits.KeepsTimesIffSmall | src/core/compress.cpp:212-425 | for every precision and every format in which 0 is the word of zero bits, every run keeps its timestamps if and only if the page has fewer than 196797 bits |
| FixedPointRestore.DriftHolds | src/core/compress.cpp:212-425 | after every run, what is read back of the last value is that value plus the sum of the rounding errors of the points stored, at a time off by what the header lost, and with the right delta |
| FixedPointRestore.StepTells | src/core/compress.cpp:279-298 | for two different previous values there is a next value whose difference from the one is stored as nothing and from the other is not |
| FixedPointRestore.RestoreInvisible | src/core/compress.cpp:180-198 | when the rounding errors add up to zero, a run that was stopped goes on exactly as one that never was, however full the page is |
| FixedPointRestore.AcceptsIff | src/core/compress.cpp:230-277 | a page accepts some further point if and only if three bits are left, unless the next time would exceed 64 bits |
| FixedPointRestore.InvisibleIffNoDrift | src/core/compress.cpp:180-298 | no further calls tell the restored compressor from the saved one if and only if the header lost nothing and the rounding errors of the points stored add up to zero, or no further point is accepted; whole differences suffice for the values |
| FixedPointRestore.RestoreRestartsError | src/core/compress.cpp:177-425 | whatever was written before, after a restore all later times come back, what could be read is read again unchanged, and the i-th later value is off by at most i units |
| FixedPointRestore.StopShows | src/core/compress.cpp:177-298 | with units of 1, a stop after 0 and 0.5 makes the page store 1.2 differently |
| CompressorV3.CompressorV3.PutInt | src/core/compress.cpp:300-359 | appends exactly the integer code, or reports that it does not fit and keeps what was there |
| CompressorV3.CompressorV3.PutFloat | src/core/compress.cpp:279-298 | appends exactly the code of a difference, or keeps what was there |
| CompressorV3.CompressorV3.Compress | src/core/compress.cpp:230-277 | one step of the machine, with the bit set cut back when it throws; it returns true if and only if the width of the point fits |
| CompressorV3.GetInt | src/core/compress.cpp:445-512 | reads exactly what the specification reads, with the sign repaired in the buffer |
| CompressorV3.GetFloat | src/core/compress.cpp:427-443 | reads exactly the difference of the specification |
| CompressorV3.CompressorV3.Uncompress | src/core/compress.cpp:361-425 | on every stream that ends after a point, the points and the state of the specification |
| CompressorV3.CompressorV3.Restore | src/core/compress.cpp:180-198 | takes over the saved bits, from another buffer or its own, and sets the fields to those of the restored machine |
| CompressorV3.WriteAndRead | src/core/compress.cpp:212-425 | writing any series through the class and reading it back gives the kept times if the first is near the start, and the kept values within their bound |
| ByteCode.TimeCodeReads | src/core/compress.cpp:1030-1063 | short and escaped timestamp codes are told apart and consumed exactly, whatever bytes follow |
| ByteCode.TimeSurvives | src/core/compress.cpp:1030-1063 | a delta of deltas survives storing if and only if it is a 32-bit number |
| ByteCode.XorCodeReads | src/core/compress.cpp:1065-1081 | the control byte and the bytes that are not zero give back the XOR and consume exactly their code |
| ByteStream.KeepsFeed | src/core/compress.cpp:1005-1104 | one call keeps the invariant of a run; a refused one changes nothing but the mark that the page is full |
| ByteRoom.AcceptedIff | src/core/compress.cpp:1005-1104 | a later point in order is accepted if and only if its length fits: 1 or 5 bytes for the time, or 2 or 6 in milliseconds, a control byte, and one for every byte in which the values differ; an accepted one takes exactly that length |
| ByteRoom.RefusedIff | src/core/compress.cpp:1005-1104 | for every run, the first refused call is the first whose point does not fit the page as it then is |
| ByteRoom.AlwaysFits | src/core/compress.cpp:1005-1104 | 15 free bytes suffice for any later point |
| ByteStream.RoundTrip | src/core/compress.cpp:986-1201 | for every run, the page stores the kept points of exactly the calls before the first refused one; they are decoded with their values, byte for byte, and with their times if and only if those are in range |
| ByteStream.StaysInPageIff | src/core/compress.cpp:986-1104 | no run writes past the end of the page if and only if the page has at least 12 bytes |
| ByteStream.DriftHolds | src/core/compress.cpp:1005-1192 | after every run, the time and the delta that the reader ends at are off by the sums of what the header and the deltas of deltas lost, in 64-bit arithmetic |
| ByteStream.RestoreInvisible | src/core/compress.cpp:947-965 | the compressor restored from its own bytes is exactly the one that was saved if and only if those sums are zero; timestamps in range suffice |
| CompressorV1.Pack | src/core/compress.cpp:1065-1081 | the loop over the bytes writes exactly the control byte and the bytes that are not zero |
| CompressorV1.Unpack | src/core/compress.cpp:1171-1186 | the loop that shifts the control byte rebuilds exactly the bytes it describes |
| CompressorV1.CompressorV1.Compress | src/core/compress.cpp:1005-1104 | one step of the machine over byte strings; it returns true if and only if the length of the point fits |
| CompressorV1.CompressorV1.Uncompress | src/core/compress.cpp:1106-1192 | on every stream that can be decoded, the points and the state of the specification |
| CompressorV1.CompressorV1.Restore | src/core/compress.cpp:947-965 | takes over the saved bytes and sets the fields to those of the restored machine |
| CompressorV1.WriteAndRead | src/core/compress.cpp:986-1201 | writing any series through the class and reading it back gives exactly the kept points when they are in range |
| RollupCodec.FlagReads | src/core/compress.cpp:1385-1391 | the flag byte tells a reader exactly the field widths the writer chose |
| RollupCodec.EncodeParses | src/core/compress.cpp:1392-1641 | parsing an encoding, whatever follows it, consumes exactly that encoding and gives the quantised entry |
| RollupCodec.EncodeLength | src/core/compress.cpp:1392-1506 | a flag byte, 3 or 4 bytes for the series, 2 or 4 for the count, and for an entry that is not empty 2, 3, 4 or 8 bytes for the minimum and 3, 4, 5 or 8 for the maximum and the sum: always the fewest that hold the number |
| RollupCodec.QuantisedNear | src/core/compress.cpp:1392-1506 | minimum, maximum and sum are stored within half a unit of precision, identifier and count exactly |
| RollupCodec.SelfDelimiting | src/core/compress.cpp:1511-1641 | of the first s bytes of an encoding, an entry is read if and only if all its bytes are there |
| RollupCodec.FileParses | src/core/compress.cpp:1511-1641 | a concatenation of encodings, the last possibly cut off, parses to the complete entries in order |
| RollupFile.Compress | src/core/compress.cpp:1392-1506 | the buffer holds exactly the encoding, and the result is its length |
| RollupFile.Uncompress | src/core/compress.cpp:1511-1641 | returns 0 if and only if the first entry is cut off, otherwise its length and its fields, without reading past the end |
| RollupFile.Reader.FirstEntry | src/core/mmap.cpp:1562-1583 | the first entry of the file, if it is complete |
| RollupFile.Reader.NextEntry | src/core/mmap.cpp:1585-1619 | the next entry of the file, even when it straddles two blocks of the buffer |
| RollupFile.Scan | src/core/mmap.cpp:1562-1619 | reading through a refilled buffer gives exactly the entries of the whole file |
| CivilCalendar.StartIsCivil | src/utils/utils.cpp:160-205 | every month begins at 86400 times 365 days for every year since 1970, the days of a common year before it, and the leap days before it by the rule of 4, 100 and 400 |
| CivilCalendar.BoundariesAreCivil | src/utils/utils.cpp:160-205 | the start and the end of the month of a time are those of the Gregorian month it lies in |
| CivilCalendar.Repeats | src/utils/utils.cpp:160-205 | the calendar repeats after 400 years of 146097 days |
| CivilCalendar.MarchOf2023 | src/utils/utils.cpp:160-205 | 1 March 2023 begins its month, and February 2024 has 29 days |
| Calendar.MonthUnique | src/utils/utils.cpp:160-205 | the month of a time is the only one that contains it |
| Calendar.FortyFiveDays | src/utils/cal.cpp:121-135 | 45 days after the start of any month lies in the next month, so stepping by it skips none |
| Calendar.Calendar.Find | src/utils/cal.cpp:33-51 | the downward scan finds a month if and only if both its boundaries are cached |
| Calendar.Calendar.BeginMonthOf | src/utils/cal.cpp:30-54 | the uncached start of the month, in any order of calls, with the cache left contiguous and no smaller |
| Calendar.Calendar.EndMonthOf | src/utils/cal.cpp:56-78 | the uncached end of the month, likewise |
| Calendar.Calendar.AddMonth | src/utils/cal.cpp:80-142 | extends the cache at either end, filling the gap, and says where the month is |
| Stats.StatsMeaning | src/agg/rollup.cpp:214-217 | the accumulated count, minimum, maximum and sum are those of the values |
| RollupManager.Flushed | src/agg/rollup.cpp:220-245 | writing the current hour and moving on keeps entry k of every month about hour k |
| RollupManager.Jumped | src/agg/rollup.cpp:202-207 | moving to the start of a later month keeps the invariant |
| RollupManager.FlushGaps | src/agg/rollup.cpp:220-245 | writing the current hour leaves no month out, and puts an entry behind a left-out month exactly if one was left out before |
| RollupManager.GapsAfter | src/agg/rollup.cpp:193-207 | a point leaves months out of the files exactly when it skips whole months |
| RollupManager.FlagExact | src/agg/rollup.cpp:208-212 | the out-of-order flag is raised if and only if some point is counted in an hour that is not its own |
| RollupManager.LatestMeaning | src/agg/rollup.cpp:193-207 | the current hour is the latest hour of any point |
| RollupManager.InOrderMeaning | src/agg/rollup.cpp:208-212 | a run is in order if and only if the hours of its points never go back |
| RollupManager.VisitedComplete | src/agg/rollup.cpp:193-207 | the file of every earlier month that holds a point has an entry for every hour of that month |
| RollupManager.OwnEntries | src/agg/rollup.cpp:178-245 | in a run in order, entry k of a month is exactly about the points of hour k of that month |
| RollupManager.RollupManager.Flush | src/agg/rollup.cpp:220-245 | appends exactly the current hour to the file of its month |
| RollupManager.RollupManager.AddDataPoint | src/agg/rollup.cpp:178-218 | keeps the whole invariant for any point, in or out of order, with a month left out of the files exactly when the points skip one |
| RollupManager.RollUp | src/agg/rollup.cpp:178-245 | for any series the flushed counts and the current one add up to the points, and for a series in order every entry is about its own hour |
| RollupShared.SharedQuery.QueryEntry | src/core/mmap.cpp:1622-1658 | the clock of the series starts at the month of the file or goes on by an hour, an entry that is not empty and in range is passed on with it, and other series are left alone |
| RollupShared.SharedQuery.QueryFile | src/core/mmap.cpp:1660-1682 | every series has seen exactly its entries among the first ones of the file, up to and with the first that is past the range |
| RollupShared.SharedQuery.Query | src/agg/rollup.cpp:353-384 | every series gets its entries in range as one clock dates them, from all files but the last in full and from the last up to the first entry of any queried series past the range; that is all its files hold for it if and only if, in the last file, none of its entries in range is behind an entry past the range; the only series of a query always gets all |
| RollupShared.AllUnlessLost | src/agg/rollup.cpp:353-384 | such a query gives a series all its entries in range if and only if none is lost in that way, and fewer otherwise |
| RollupShared.SameIffNoneCounts | src/core/mmap.cpp:1660-1682 | leaving a file early gives a series the same if and only if nothing in range is behind, and fewer entries otherwise |
| RollupShared.AloneLosesNothing | src/core/mmap.cpp:1660-1682 | the only series queried loses nothing |
| RollupShared.OrderedLosesNothing | src/core/mmap.cpp:1660-1682 | nor does any series, if the entries of the queried series are in the order of their times in the last file |
| RollupShared.SecondSeriesLost | src/core/mmap.cpp:1660-1682 | two series and a range of one hour: the files hold an entry of the second in range, and the query gives none |
| RollupReader.ClockLags | src/core/mmap.cpp:1635-1643 | the clock is never ahead of the hour of an entry, and right if and only if no month was left out before it |
| RollupReader.DatesRightIffGapless | src/core/mmap.cpp:1635-1643 | the entries are dated with their hours if and only if none that is not empty lies behind a left-out month |
| RollupReader.EntriesInPart | src/agg/rollup.cpp:479-519 | the hours of a range are all in the files that a query of it reads |
| RollupReader.WithinMeaning | include/range.h:79-82 | what is read of a range is exactly what has a time from its start on and before its end |
| Downsample.Regroup | src/agg/down.cpp:285-398 | grouping coarsely what was grouped finely gives the coarse groups |
| Downsample.RollupsAgree | src/agg/down.cpp:285-398 | hourly groups give the output of the raw points, for every kind and fill policy, when the interval is a multiple of an hour or the whole range |
| Downsample.OtherIntervalsDiffer | src/agg/down.cpp:285-398 | for every other interval there is a series on which they differ |
| Downsample.RolledIsNearest | src/core/query.cpp:1087-1105 | the interval used with rollup entries is the nearest multiple of 3600 seconds to the one asked for, or of 86400 from a day on, and of two the shorter |
| Downsample.RolledSameIff | src/core/query.cpp:1087-1105 | it is the one asked for if and only if that is such a multiple |
| DownsampleGrid.FilledGridIff | src/agg/down.cpp:235-282 | with a fill policy and an accepted point, the output times are exactly the grid points of the range if and only if filling starts at the first of them, or after it when the first group is there; for the whole range, if and only if the interval reaches past its end |
| DownsampleGrid.KeepsGridIff | src/agg/down.cpp:235-282 | that is so for every series if and only if filling starts at the first grid point, or there is none, or only one and filling starts after it; for the whole range likewise |
| DownsampleGrid.NothingFilled | src/agg/down.cpp:258-282 | without an accepted point, fillers are put from one interval after the stepped-down start on |
| DownsampleGrid.NothingKeepsGridIff | src/agg/down.cpp:258-282 | with the interval asked for and no accepted point, these are exactly the grid points if and only if the start of the query is not one of them; otherwise the first is missing |
| DownsampleGrid.AskedKeepsGrid | src/agg/down.cpp:44-117 | a query with the interval asked for always keeps the grid |
| DownsampleGrid.RolledKeepsGrid | src/core/query.cpp:1060-1119 | so does one with rollup entries whose interval need not be changed |
| DownsampleGrid.FillsOffGrid | src/core/query.cpp:1101-1113 | 6000 seconds from 12001 on become 7200, and the filler is at 19200 instead of 14400 |
| DownsampleGrid.FillsBeforeStart | src/core/query.cpp:1101-1113 | 4980 seconds from 4979 on become 3600, and the filler is at 3600 |
| DownsampleGrid.FillsAfterAll | src/core/query.cpp:1101-1113 | the whole range of 0 to 5000 becomes an hour, and a filler follows the only value |
| DownsampleGrid.LeastTickIsLeast | src/agg/down.cpp:235-256 | the first grid point is a time that a group can have, and no other such time is earlier |
| DownsampleGrid.TicksMeaning | src/agg/down.cpp:235-282 | the grid points are one interval apart and stop at the last one not after the end |
| DownsampleMeaning.GroupsMeaning | src/agg/down.cpp:285-398 | for a sorted series every group combines exactly the accepted items of its interval, and every interval with accepted items has a group |
| DownsampleMeaning.DownMeaning | src/agg/down.cpp:235-398 | for a sorted series, every query and every kind, output times strictly increase, every value is the result for exactly the items of its interval, every interval with items has its value, and without a fill policy there is nothing else |
| DownsampleMeaning.ResultOfValues | src/agg/down.cpp:285-398 | the result for an interval of points is the average, number, least, greatest or sum of their values |
| DownsampleMeaning.RawMeaning | src/agg/down.cpp:235-398 | so every interval with points gets, once, the average, number, least, greatest or sum of the values of its points |
| Downsampler.Downsampler.constructor | src/agg/down.cpp:44-117 | no output yet, an interval of at least 1, and the range stepped down to it; for the whole range an interval that reaches past its end |
| Downsampler.Downsampler.SetInterval | include/down.h:68-71 | changes the interval and leaves the stepped-down start of filling as it was |
| Downsampler.Downsampler.UseRollup | src/core/query.cpp:1060-1119 | whether the interval is long enough for rollup entries; the interval becomes the nearest one they serve, and the start of filling stays as it was |
| Downsampler.Downsampler.FillTo | src/agg/down.cpp:235-256 | appends a filler for every interval between the last output, or the start of filling as it was set up, and the new one |
| Downsampler.Downsampler.Add | src/agg/down.cpp:285-344 | updates the output as one more item of the specification does, with points before the start dropped |
| Downsampler.Downsampler.Accumulate | src/agg/down.cpp:357-398 | updating the back of the output, or the held average, is combining the statistics of the interval |
| Downsampler.Downsampler.Close | src/agg/down.cpp:258-282 | the held value and the trailing fillers complete the specified output |
| Downsampler.Run | src/agg/down.cpp:44-398 | for every query, with or without a change of interval, and every input the class produces the specified output; for a sorted series no time comes twice, every value is the result for exactly the items of its interval, and every interval with items has one |
| RollupQuery.GroupsWithin | src/core/ts.cpp:462-481 | of a series in order, the hourly groups within a range are the groups of the points of the hours of that range |
| RollupQuery.WholeHours | src/core/query.cpp:1137-1167 | for a range of whole hours, the points of its hours are exactly the points from its start on and before its end |
| RollupQuery.EntriesAnswer | src/core/mmap.cpp:1622-1658 | with no month left out of the files of a range, what a query reads of it gives the output of the points of its hours |
| RollupQuery.AnswersRightIffSkipFree | src/core/mmap.cpp:1635-1643 | all queries, of any range, interval of hours, start of filling and kind, are answered as the points would answer them if and only if no month was skipped before the current hour |
| RollupQuery.SkippedFebruary | src/core/mmap.cpp:1635-1643 | after a full January, the first entry of March is read as one of the first of February |
| RollupQuery.JanuaryThenMarch | src/agg/rollup.cpp:202-207 | three points, one in January and two in March, are in order and skip a month |
| RollupQuery.QueryHourly | src/core/query.cpp:1137-1167 | for one series, from files that it shares with others: its entries of the range as the clock dates them, then its current hour |
| RollupQuery.RollUpAndQuery | src/agg/rollup.cpp:178-384 | rolling any series up and querying a range, with the interval asked for changed to serve rollup entries, gives the output of what the clock dates; for a series in order that is what the points of its hours give if no month was skipped, and for all queries together only then |
| RollupPrecision.RoundedOutput | src/agg/down.cpp:235-398 | rounding every item by at most h leaves times, fillers and counts as they are, and moves averages and extremes by at most h and sums by at most h for every item |
| RollupPrecision.CodedIsRead | src/core/compress.cpp:1392-1641 | what the model takes to be read back of an entry is what the codec reads back of what it wrote |
| RollupPrecision.FilesAnswer | src/core/mmap.cpp:1622-1682 | the answer read from the encoded files next to the one of the points: counts equal, averages and extremes off by half a unit of precision, sums by half a unit for every hour |
| RollupPrecision.WholeIsExact | src/core/compress.cpp:1392-1506 | nothing is lost when the stored values are whole numbers of units |
| RollupBytes.ScanAll | src/core/mmap.cpp:1562-1619 | reading the bytes of all files through a buffer gives the entries written, rounded as the codec rounds them |
| RollupBytes.ReadBackHolds | src/core/mmap.cpp:1562-1682 | what is read back holds, of every series that shares the files, the rounded log of its manager |
| RollupBytes.LostAsWritten | src/core/mmap.cpp:1622-1682 | what a query loses of the entries read back is what it would lose of those written |
| RollupBytes.QueryBytes | src/agg/rollup.cpp:353-384 | from the bytes, a query of several series gives each all its rounded entries in range if and only if, in the last file as written, none of them is behind an entry past the range of any queried series; a query of one series always does |
| RollupBytes.AnswerFromBytes | src/core/query.cpp:1060-1167 | from the bytes to the output: what downsampling the rounded entries gives; for a series in order with no month left out of the files read, next to the output of its points, with counts equal, averages and extremes off by half a unit of precision and sums by half a unit for every hour |
| AggregatorMerge.Visit | src/agg/aggregate.cpp:184-206 | one source in one round: its point is taken, the slot overwritten is one already consumed, and what remains is unchanged |
| AggregatorMerge.Round | src/agg/aggregate.cpp:179-211 | a round gathers exactly one point at its time from every source that has one left, and finds the least time that remains |
| AggregatorMerge.Merge | src/agg/aggregate.cpp:160-212 | the times of the result do not decrease and are those of the sources; the n-th entry at a time aggregates exactly the n-th point of every source at it; times strictly increase if and only if those of all sources do |
| AggregatorMerge.StrictIffSourcesStrict | src/agg/aggregate.cpp:160-212 | any such result has strictly increasing times if and only if every source has |
| AggregatorMerge.MergedUnique | src/agg/aggregate.cpp:160-212 | only one result satisfies that |
| Variance.SquaresSnoc | src/agg/aggregate.cpp:274-282 | the update of the running sum of squares is exact: it stays the sum of squared distances from the mean |
| Variance.StdDev | src/agg/aggregate.cpp:259-286 | the one-pass loop computes the square root of the population variance of every list, and NaN for none |
| Variance.DevAccumulator.Add | src/agg/down.cpp:401-428 | the streaming accumulator keeps the exact mean and sum of squared deviations of the values of its interval |
| Variance.DevAccumulator.CalcDev | include/down.h:146-150 | the square root of the population variance of the values seen |
| Variance.Streamed | src/agg/down.cpp:401-438 | the streaming form gives what the batch form gives, for every list |
| RecyclePool.RecyclePool.Alloc | src/core/memmgr.cpp:702-884 | hands out an object that was not in use; total minus free stays the number in use |
| RecyclePool.RecyclePool.Free | src/core/memmgr.cpp:887-931 | the object goes once to the front of the free list, or is deleted and no longer counted |
| RecyclePool.RecyclePool.Shrink | src/core/memmgr.cpp:1012-1028 | deletes only free objects and never stops early, so that exactly the limit remains |
| RecyclePool.RecyclePool.CollectGarbage | src/core/memmgr.cpp:982-1029 | objects in use are untouched; a total above the highest of the last twelve recorded usages comes down to exactly it |
| PoolRuns.Replay | src/core/memmgr.cpp:702-1029 | after any sequence of allocations, frees and collections, the pool holds as many objects, in use and in all, as counters say that cut the total, at a forced or every twelfth collection, to the most in use at the last twelve |
| PoolRuns.NeverAbovePeak | src/core/memmgr.cpp:702-1029 | so it never holds more objects than were ever in use at once, nor fewer than are |

## Left out

- GorillaReader.Uncompress: says nothing about streams that cannot be decoded, for the reason given next.
- CompressorV2.CompressorV2.Uncompress: says nothing about streams that no run of `compress` writes; there the code reads past the stream or indexes its mask table out of range.
- CompressorV3.CompressorV3.Uncompress: says nothing about streams that end inside a point, because the bits after the end of the stream are then read from the buffer.
- CompressorV1.CompressorV1.Uncompress: says nothing about streams that end inside a point, for the same reason.
- RollupManager.RollupManager.AddDataPoint: counts are unbounded; the 32-bit wrap of the count of one hour is not modelled.
- RobinMap.Replay: distances are unbounded integers, and the load threshold is half the bucket count instead of a product of floats.
- RobinMap.RobinMap.Insert: the maximum table size is that of the growth policy; the smaller one of the allocator is not modelled.
- RollupShared.SharedQuery.Query: the limit at the year 2300 is not modelled.
- RollupQuery.RollUpAndQuery: for a series out of order, for which the database goes back to the raw points, only says what the entries give. From an interval of a day on, this is a query of months that have not been rolled up into daily files yet.
- RollupBytes.AnswerFromBytes: the query is of one series, and the counts of an hour are 32-bit numbers; from an interval of a day on, no daily files exist yet, likewise.
- Weak memory orders, the wrap of tickets at 2^64, and progress of the spin loops.
- `std::labs` of the most negative 64-bit number in version 1, which the language leaves undefined; the model takes the escape.
- The robin-hood table's range erase, iterators, serialization, other growth policies and shrinking below a minimum load factor, which is 0 unless set.
- Compressor version 0, which does not compress, and the saving of a page to a file.
- The square root, which is a parameter of the deviation.
- Rounding of doubles, NaN and infinities: version 1 and 2 values are bit patterns, all other values are reals, with differences and scaled values inside 64 bits where the code converts them.
- Output in another time unit than the input.
- The percentile, top and bottom aggregators, and the `first`, `last` and percentile downsamplers: easy next to the others.
- The type dispatch of the memory manager: the pool is that of one type, at the granularity of whole operations.
- Rollup file naming, reference counts, the write-ahead file, daily rollups, sockets, configuration and logging.
