# Verified model of the modified Redis core

This project models the parts of the modified Redis server that decide what is kept, what is thrown away and what
comes back, and proves what they promise. It has four cores.

* **Eviction** (`evict.c`, with the access history of `db.c` and `object.c`): the 16-slot pool with its shifted array
  and recycled key buffers, the histogram LRU score, and the loops of `performEvictions`. Modules `PoolSpec`, `Pool`,
  `Histogram`, `LruClock`, `RandomScan`, `Evict`, `EvictSpec`, `EvictLaws`, `EvictServer`.
* **The dump format** (`rdb.c`): lengths, times, integers, strings, sets, hashes, consumer groups and whole databases.
  Modules `Decimal`, `RdbCodec`, `RdbIo`, `RdbValues`, `RdbLoad`, `RdbDump`, `RdbServer`, `StreamSpec`, `StreamLoad`.
* **The keyspace** (`db.c`, `object.c`): lazy expiry against eager expiry, and reference counts. Modules
  `KeyspaceSpec`, `Keyspace`.
* **Configuration** (`config.c`): CONFIG SET as a transaction, CONFIG REWRITE as an editor of lines, enumerated
  settings. Modules `ConfigSet`, `ConfigEnum`, `RewriteSpec`, `RewriteLaws`, `RewriteTwice`, `ConfigRewrite`.

The code that works in place is modelled by classes and methods with loops; each is tied to a function on values, and
the main results are lemmas about those functions. A `Rio` is a byte buffer, a configuration file is a string, doubles
are reals, and the standard deviation is any non-negative root of the variance. Compression, intset and listpack blobs
are pairs of functions of which only "decoding undoes encoding" is used. What the eviction engine reads from outside -
the keys that sampling returns, every reading of memory, the time limit, background frees - is an input
(`EvictSpec.Env`), and the results hold for all of its values; draws are only assumed to be non-empty and made from the
keys that can be evicted, and such draws exist for every policy (`EvictLaws.DrawsExist`). Results that speak of the
standard deviation also assume that `sqrt` gives the square root (`Env.Roots`) and that ages have not wrapped.

`dafny verify dfyconfig.toml` checks everything.

## Where the code does not do what it says

The model follows the code in each of these cases.

* The histogram populate function calls `calculateGlobalStatistics`; the function shown is `calculateStatistics`. They
  are taken to be the same.
* The weights array has five entries and is read from index 1, so the first weight is never used.
* The scoring loop runs to boundary 5 of an array of five. `SamplesAreCovered` shows that it never gets there when the
  clock is the one of the statistics, `LaterClockIsNotCovered` that it does at any later clock value.
* After the 24-bit clock wraps, the unsigned age of a fresh access is enormous (`AgeIsElapsedTime`).
* Loading a key with an idle time records the idle time itself as a time of access
  (`LoadedAccessTimeIsTheIdleTime`).
* An idle time equal to the range of the clock does not always survive (`IdleTimeSurvivesStoring`,
  `IdleTimeSurvivesDump`).
* The random policies' 32-bit counter can skip a database when it wraps (`ScanVisitsAllIffComplete`), so that they may
  report that nothing is left when something is (`NeverMissesIff`, `MissesEndsTheCycle`).
* Storing an object under a key after four recorded accesses writes past its array of access times
  (`InsideIffNotPutAgain`, `FourUsesReachTheEnd`).
* An expire of -1 cannot be told from none (`ExpirePreserved`).
* Running is the answer of an eviction cycle that has brought memory within its limit whenever the timer was live
  before (`PerformEvictions`); the comment above the function says otherwise.
* Keeping the expire of an expired key that the caller claims to know makes the new value invisible
  (`SetRefinesIff`).
* A second configuration rewrite can change an option whose lines are forced one by one (`BufferLimitsMove`).
* The repository's own description speaks of an 8-bit access frequency counter; the number of recorded accesses stops
  at four.

## Model

| member | source | states |
|---|---|---|
| `RdbCodec.LenRoundTrip` | redis-source-code-modifications/src/rdb.c:172-249 | Every length below 2^64, in whichever of the four forms it takes, reads back as itself and leaves exactly the bytes that followed it. |
| `RdbCodec.LenFormat` | redis-source-code-modifications/src/rdb.c:172-203 | The four length forms byte by byte: six bits, fourteen bits, or a marker and four or eight bytes in network order. |
| `RdbCodec.CountRoundTrip` | redis-source-code-modifications/src/rdb.c:255-260 | Read through the interface that reports errors in-band, a length survives if and only if it is not the error marker 2^64-1. |
| `RdbCodec.TimeRoundTrip` | redis-source-code-modifications/src/rdb.c:140-167 | Every signed 64-bit time, negative ones included, reads back as itself. |
| `RdbCodec.TimeFormat` | redis-source-code-modifications/src/rdb.c:140-144 | A time is its eight bytes, least significant first. |
| `RdbCodec.IntegerFormat` | redis-source-code-modifications/src/rdb.c:266-287 | A value is written in one, two or four bytes, least significant first, behind the marker of its width, and in no such form if it needs more than 32 bits. |
| `RdbCodec.IntegerRoundTrip` | redis-source-code-modifications/src/rdb.c:266-331 | Every value of at most 32 bits reads back as its decimal text, whichever of the 8, 16 and 32-bit forms was written. |
| `Decimal.String2llInvertsLl2String` | redis-source-code-modifications/src/rdb.c:336-343 | A string is taken for a number if and only if it is exactly what that number prints as, so integer encoding loses nothing. |
| `RdbCodec.LzfRoundTrip` | redis-source-code-modifications/src/rdb.c:345-438 | A compressed string reads back as the original, given only that decompression undoes compression. |
| `RdbCodec.StringFormat` | redis-source-code-modifications/src/rdb.c:442-472 | A string is written as a number if and only if it is the text of a 32-bit one, else compressed if and only if compression is on, it is longer than 20 bytes and at least four are saved, else as its length and itself. |
| `RdbCodec.StringRoundTrip` | redis-source-code-modifications/src/rdb.c:442-568 | Every byte string, numeric, compressible or neither, with any bytes following, loads back as itself and leaves exactly those bytes. |
| `RdbCodec.StringObjectRoundTrip` | redis-source-code-modifications/src/rdb.c:475-568 | A string held as a number and a string held as bytes both load back as the text a client would see. |
| `RdbIo.SaveLen` | redis-source-code-modifications/src/rdb.c:172-203 | Appends exactly the encoding that LenRoundTrip speaks of and reports its size. |
| `RdbIo.LoadLenByRef` | redis-source-code-modifications/src/rdb.c:215-249 | Consumes and returns exactly what that encoding's parser does; truncated input and the unknown 2-bit kind are errors. |
| `RdbIo.LoadMillisecondTime` | redis-source-code-modifications/src/rdb.c:161-167 | Returns the stored time, or the largest 64-bit value with the stream's error flag set when fewer than eight bytes are left. |
| `RdbIo.SaveLzfStringObject` | redis-source-code-modifications/src/rdb.c:345-386 | Writes the compressed form only when it saves at least four bytes, and otherwise writes nothing at all. |
| `RdbIo.SaveRawString` | redis-source-code-modifications/src/rdb.c:442-472 | Appends the string in the form StringRoundTrip undoes: number first, then compressed, then verbatim. |
| `RdbIo.GenericLoadStringObject` | redis-source-code-modifications/src/rdb.c:518-568 | Accepts and consumes exactly what the parser of StringRoundTrip does, and fails on everything else. |
| `RdbValues.ObjectRoundTrip` | redis-source-code-modifications/src/rdb.c:814-1105 | Whatever encoding a string, set or hash was saved in and whatever thresholds the loading server has, its content comes back unchanged and exactly its own bytes are consumed; empty collections other than an empty intset are dropped. |
| `RdbValues.SameContentIsSameData` | redis-source-code-modifications/src/rdb.c:814-1105 | Two values have the same content, as the round trips speak of it, if and only if a client reads the same from them: the text, the members, or the answer to every field. |
| `RdbValues.SetTableLoads` | redis-source-code-modifications/src/rdb.c:1884-1982 | A stored set loads if and only if no member is there twice; an empty one is dropped. |
| `RdbValues.HashTableLoads` | redis-source-code-modifications/src/rdb.c:2053-2173 | A stored hash becomes a listpack if and only if the number of pairs, every field, every value and the total stay within their limits; one with a repeated field is refused unless it becomes a listpack without deep validation. |
| `RdbValues.SetListpackLoads` | redis-source-code-modifications/src/rdb.c:2372-2395 | A stored listpack of members that repeat is refused if and only if deep validation is on or it has to be converted. |
| `RdbValues.HashListpackLoads` | redis-source-code-modifications/src/rdb.c:2466-2488 | The same for fields, and a last field without a value is refused if and only if deep validation is on. |
| `RdbLoad.SaveObject` | redis-source-code-modifications/src/rdb.c:814-967 | The save loops append exactly the bytes ObjectRoundTrip undoes. |
| `RdbLoad.AddSetEntry` | redis-source-code-modifications/src/rdb.c:1918-1978 | Adding an entry keeps all earlier members, through any change from intset over listpack to table, and is refused if and only if the entry is already there. |
| `RdbLoad.LoadSetEntries` | redis-source-code-modifications/src/rdb.c:1884-1982 | For all thresholds, the loop accepts exactly the duplicate-free lists of strings and yields exactly their members; the intset or listpack it ends with is within its limits. |
| `RdbLoad.LoadHashPacked` | redis-source-code-modifications/src/rdb.c:2077-2139 | The first phase consumes pairs until one no longer fits a listpack or all are read, and says how many are still to come. |
| `RdbLoad.LoadHashTable` | redis-source-code-modifications/src/rdb.c:2141-2173 | The second phase consumes exactly the remaining pairs and refuses a field seen in either phase. |
| `RdbLoad.LoadHashEntries` | redis-source-code-modifications/src/rdb.c:2053-2173 | Both phases together consume exactly the announced number of pairs and build exactly the hash they list; a repeated field goes unnoticed only in a listpack loaded without deep validation. |
| `RdbLoad.LoadPacked` | redis-source-code-modifications/src/rdb.c:2251-2488 | A stored listpack or intset keeps its content when the thresholds force another encoding; repeated members, and a last field without a value, are refused under deep validation; otherwise repeated members only when the blob has to be converted. |
| `RdbLoad.LoadObject` | redis-source-code-modifications/src/rdb.c:1838-2488 | Returns an object with exactly the parsed content, distinguishes an empty key from corruption, and leaves the stream after the object. |
| `RdbDump.ExpectedDbExact` | redis-source-code-modifications/src/rdb.c:3264-3338 | What a database is expected to become: each surviving record under its key with its own attributes, and no other key. |
| `RdbDump.RecordFormat` | redis-source-code-modifications/src/rdb.c:1125-1178 | A record byte by byte: expire, idle time and frequency, each under its opcode and only if there is one or it is asked for, then type, key and value. |
| `RdbDump.DumpFormat` | redis-source-code-modifications/src/rdb.c:1389-1430 | A dump of one key: selector, size hints with the number of keys that have an expire, the record and the end marker. |
| `RdbDump.ExpireCountCounts` | redis-source-code-modifications/src/rdb.c:1333-1341 | The hint for expires is the number of keys that have one. |
| `RdbDump.RunSeconds` | redis-source-code-modifications/src/rdb.c:3070-3077 | The older expire opcode is taken in seconds. |
| `RdbDump.AuxReadsBack` | redis-source-code-modifications/src/rdb.c:1181-1190 | Each auxiliary field written reads back as the same name and value. |
| `RdbDump.ExpirePreserved` | redis-source-code-modifications/src/rdb.c:1125-1134 | A key's expire survives a dump if and only if it is not -1, the value that also means that there is none. |
| `RdbDump.RunRecord` | redis-source-code-modifications/src/rdb.c:1125-1178 | Running the loader over one record's opcodes stores that key with exactly its own expire, idle time and frequency and leaves no attribute behind for the next key. |
| `RdbDump.RunDb` | redis-source-code-modifications/src/rdb.c:1313-1379 | Running the loader over one saved database adds to that database exactly its surviving records and touches no other; an empty database leaves no trace. |
| `RdbDump.DumpRoundTrip` | redis-source-code-modifications/src/rdb.c:3062-3339 | For any databases, with any bytes following, the opcode loop run on a saved dump rebuilds exactly every surviving key, content, expire and usage attribute of each database and stops after the end marker. |
| `RdbServer.SaveKeyValuePair` | redis-source-code-modifications/src/rdb.c:1125-1178 | Writes the opcodes and bytes of the record RunRecord speaks of, omitting absent attributes. |
| `RdbServer.SaveDb` | redis-source-code-modifications/src/rdb.c:1313-1379 | Writes selector, size hints and every key of a non-empty database, and nothing for an empty one. |
| `RdbServer.SaveRio` | redis-source-code-modifications/src/rdb.c:1389-1430 | Writes the whole dump of DumpRoundTrip, without header and checksum. |
| `RdbServer.StoreLoadedKey` | redis-source-code-modifications/src/rdb.c:3277-3327 | On a master that loads no preamble a key with an expire other than -1 and before the present is dropped; otherwise a key already there is refused or replaced, as duplicates are allowed or not, and the value is stored with its own expire and usage. |
| `RdbServer.LoadRio` | redis-source-code-modifications/src/rdb.c:3062-3339 | The imperative opcode loop, for any input bytes, succeeds exactly when the specification loop does and builds the same databases. |
| `RdbServer.SaveThenLoad` | redis-source-code-modifications/src/rdb.c:1389-1430 | End to end on the imperative code: a client finds each saved key that has something in it, with the same data, expire and usage, and no other key; on a master without preamble exactly the keys whose expire is before the present are missing. |
| `RdbServer.OverIsInvisible` | redis-source-code-modifications/src/rdb.c:3277-3279 | The keys a loading master drops are exactly those that a reader of the saved keyspace no longer sees. |
| `StreamSpec.GroupRoundTrip` | redis-source-code-modifications/src/rdb.c:2606-2795 | A saved consumer group loads back exactly, with any bytes following, if and only if consumers list only entries of the global PEL and, under deep validation, every entry is listed by some consumer; otherwise loading fails. |
| `StreamSpec.FieldFormat` | redis-source-code-modifications/src/rdb.c:719-810 | Header, pending entry and consumer are written field by field in this order, with 16 raw bytes for an ID. |
| `StreamSpec.GroupFormat` | redis-source-code-modifications/src/rdb.c:1036-1078 | A group is its header, its counted pending entries and its counted consumers. |
| `StreamSpec.LastListerOwns` | redis-source-code-modifications/src/rdb.c:2752-2774 | An entry that several consumers list ends up with the last of them. |
| `StreamSpec.OwnerIsTheLister` | redis-source-code-modifications/src/rdb.c:2740-2775 | Every loaded entry belongs to the consumer that listed it if and only if no entry is listed twice. |
| `StreamLoad.SaveStreamPEL` | redis-source-code-modifications/src/rdb.c:719-758 | For any walking order of the radix tree, writes every entry of the PEL once, with delivery data for the group and the bare ID for a consumer. |
| `StreamLoad.SaveStreamConsumers` | redis-source-code-modifications/src/rdb.c:763-810 | Writes every consumer once with its name, times and local PEL. |
| `StreamLoad.LoadPending` | redis-source-code-modifications/src/rdb.c:2660-2690 | Builds one separate, still unowned entry object for each ID, and fails on a repeated ID. |
| `StreamLoad.LoadId` | redis-source-code-modifications/src/rdb.c:2747-2775 | Points the group's own entry to the consumer, shares it with the consumer's PEL and leaves every other entry's owner alone; an ID unknown to the group or repeated is refused. |
| `StreamLoad.LoadConsumer` | redis-source-code-modifications/src/rdb.c:2703-2775 | A new consumer gets exactly the entries it lists; the owner of all other entries is unchanged; a taken name is refused. |
| `StreamLoad.LoadGroup` | redis-source-code-modifications/src/rdb.c:2606-2795 | The heap built by the loader is exactly the parsed group: both levels share their entry objects and every entry points to the consumer it was last resolved to, or to none. |
| `StreamLoad.LoadedIsLinked` | redis-source-code-modifications/src/rdb.c:2740-2775 | A group loaded from the dump of a well-linked one is well linked again: the local PELs split the global one and every entry points to its holder. |
| `StreamLoad.SaveThenLoadGroup` | redis-source-code-modifications/src/rdb.c:719-810 | End to end on the imperative code: saving a group whose local PELs partition the global PEL and loading it restores both levels, all delivery data and every entry's owner, with or without deep validation. |
| `PoolSpec.OfferedKeepsOrder` | redis-source-code-modifications/src/evict.c:232-280 | An offer to an ascending pool of at most 16 leaves an ascending pool of at most 16. |
| `PoolSpec.PoolIsBoundedQueue` | redis-source-code-modifications/src/evict.c:232-296 | Over every interleaving of offers and picks the pool equals the bounded priority queue ordered by rank and then by time of offer: an offer to a full pool drops the worst of 17, a pick removes the best. |
| `PoolSpec.BestSixteen` | redis-source-code-modifications/src/evict.c:232-296 | Any number of offers to an empty pool leaves exactly the best 16 of them. |
| `PoolSpec.TopIsBest` | redis-source-code-modifications/src/evict.c:837-865 | The first candidate a round looks at is the best of all offered in it, and among equals the one offered first. |
| `Pool.EvictionPool.constructor` | redis-source-code-modifications/src/evict.c:165-178 | Sixteen empty slots with sixteen different key buffers. |
| `Pool.EvictionPool.FindSlot` | redis-source-code-modifications/src/evict.c:232-235 | Finds the first slot that is empty or whose rank is not below the given one. |
| `Pool.EvictionPool.ShiftRight` | redis-source-code-modifications/src/evict.c:254-263 | Opens a hole at k by shifting the tail right, moving the last slot's spare buffer into the hole. |
| `Pool.EvictionPool.ShiftLeft` | redis-source-code-modifications/src/evict.c:264-273 | Discards the worst entry, freeing exactly its key and only if that was a heap string, and opens a hole at k by shifting the head left. |
| `Pool.EvictionPool.Insert` | redis-source-code-modifications/src/evict.c:232-296 | On the array, with shifts and recycled buffers, an offer leaves exactly the contents PoolIsBoundedQueue describes, and keeps every buffer in one slot and every heap string owned by one slot. |
| `Pool.EvictionPool.TakeLast` | redis-source-code-modifications/src/evict.c:850-857 | Emptying the last occupied slot removes the best candidate and frees its key exactly if that was a heap string. |
| `Pool.EvictionPool.Free` | redis-source-code-modifications/src/evict.c:850-852 | A heap string is freed only while it is still allocated, so none is freed twice. |
| `Pool.BuffersAreRecycled` | redis-source-code-modifications/src/evict.c:261-295 | In every valid pool the sixteen slots hold all of the sixteen original buffers, each once. |
| `Histogram.AccessHistory.Touch` | redis-source-code-modifications/src/db.c:61-74 | Appends the access time while there is room and otherwise forgets the oldest one. |
| `Histogram.HistoryIsLastAccesses` | redis-source-code-modifications/src/db.c:61-74 | After any run of accesses the history is exactly the last four of them, in order. |
| `Histogram.AgeIsElapsedTime` | redis-source-code-modifications/src/evict.c:123-123 | The unsigned age of an access is the elapsed time if and only if the 24-bit clock has not wrapped since; after a wrap a fresh access looks older than anything. |
| `Histogram.CalculateStatistics` | redis-source-code-modifications/src/evict.c:300-333 | The five accumulators are those of all ages of all samples, each counted once, in 64-bit arithmetic. |
| `Histogram.NoOverflow` | redis-source-code-modifications/src/evict.c:318-333 | With 24-bit ages and at most 2^16 of them no accumulator wraps, and minimum and maximum are ages that occur. |
| `Histogram.CauchySchwarz` | redis-source-code-modifications/src/evict.c:326-334 | For all lists of ages, count times the sum of squares is at least the square of the sum. |
| `Histogram.StatisticsSound` | redis-source-code-modifications/src/evict.c:326-334 | With at least one recent access the variance is not negative, so its root exists, and the mean lies between minimum and maximum. |
| `Histogram.StatisticsAreTheSpread` | redis-source-code-modifications/src/evict.c:326-334 | For recent ages the mean times their number is their sum, and the squared deviation times their number is the sum of their squared distances from the mean. |
| `Histogram.EveryAccessCounts` | redis-source-code-modifications/src/evict.c:306-324 | The ages are those of all recorded accesses of all sampled objects, each counted once. |
| `Histogram.WindowsSortByDeviation` | redis-source-code-modifications/src/evict.c:336-348 | With the boundaries set for recent ages, an age between least and greatest is filed under window 1 if and only if it is the least or at least a deviation below the mean, under 1 or 2 if and only if it is at most the mean, and under 1 to 3 if and only if it is at most a deviation above it. |
| `Histogram.UsefulnessInNumbers` | redis-source-code-modifications/src/evict.c:107-141 | Under such boundaries an access is worth 0.31, 0.21, 0.16 or 0.06 by where its age lies among mean and deviation, and an object the sum of its accesses. |
| `Histogram.DefineWindowBoundaries` | redis-source-code-modifications/src/evict.c:336-347 | Fills the array with the five boundaries of BoundariesAscend. |
| `Histogram.BoundariesAscend` | redis-source-code-modifications/src/evict.c:336-347 | The five boundaries never descend and run from the least age over the mean to the greatest. |
| `Histogram.CountAge` | redis-source-code-modifications/src/evict.c:124-129 | Files an age under exactly one window; the loop stays inside the boundary array exactly because the age does not exceed the last boundary. |
| `Histogram.EstimateObjectEvictionScore` | redis-source-code-modifications/src/evict.c:107-141 | The two loops compute minus the sum, over all accesses, of the weight of the access's window plus 0.01. |
| `Histogram.WindowsPartition` | redis-source-code-modifications/src/evict.c:121-130 | When no age exceeds the last boundary, the counts of windows 1 to 4 sum to the number of accesses and window 5 stays empty. |
| `Histogram.SamplesAreCovered` | redis-source-code-modifications/src/evict.c:359-385 | Scored at the clock value of the statistics, no access of a sampled object lies beyond the last boundary. |
| `Histogram.LaterClockIsNotCovered` | redis-source-code-modifications/src/evict.c:108-125 | Scored at any later clock value, some sampled object does have an access beyond it, so the loop would read past the array. |
| `Histogram.UsefulnessRange` | redis-source-code-modifications/src/evict.c:132-140 | An object with n recorded accesses scores between -0.31 n and -0.06 n. |
| `Histogram.Dominance` | redis-source-code-modifications/src/evict.c:107-141 | An object whose accesses include, one for one, accesses no older than another's never scores as the more evictable, whatever the boundaries. |
| `Histogram.TouchNeverHurts` | redis-source-code-modifications/src/db.c:61-74 | Recording an access never makes an object more evictable, whatever its history holds and even when it pushes out the oldest entry. |
| `LruClock.LoadedObject.Record` | redis-source-code-modifications/src/object.c:55-76 | Whatever the count, the place written to is inside the array if and only if the count is not exactly four; below four the next place is filled, above it the oldest entry is shifted out, and the 8-bit count goes on rising. |
| `LruClock.LoadedObject.SetLru` | redis-source-code-modifications/src/object.c:1449-1473 | Stores an idle time as an absolute, possibly wrapped clock value and records the idle time itself as an access, as Record does; a negative idle time changes nothing. |
| `LruClock.InsideIffNotPutAgain` | redis-source-code-modifications/src/db.c:61-74 | A run of uses of a new object writes inside its array of access times if and only if the object is not put under a key again after its first four uses; the count is then the number of uses, up to four. |
| `LruClock.FourUsesReachTheEnd` | redis-source-code-modifications/src/object.c:62-75 | The write past the array happens at a count of exactly four, which four accesses, or one SET and the lookups of two reads and a RENAME, bring about before the object is stored again. |
| `LruClock.IdleTicks` | redis-source-code-modifications/src/evict.c:96-104 | The idle time is none at the moment of access, grows by a second with every tick of the clock, and not at all when the clock wraps. |
| `LruClock.IdleTimeSurvivesStoring` | redis-source-code-modifications/src/evict.c:96-104 | A stored idle time reads back at the same clock if and only if it is below the clock's range or does not exceed the clock. |
| `LruClock.IdleTimeSurvivesDump` | redis-source-code-modifications/src/rdb.c:1138-1144 | The idle time seen at saving is seen after loading, for all clocks on both sides, except for the one extreme pair of clock and access time, which needs a loading clock at its maximum. |
| `LruClock.LoadedAccessTimeIsTheIdleTime` | redis-source-code-modifications/src/object.c:1466-1468 | Loading records the idle time as a time of access, and the age the histogram derives from it is right only when twice the idle time is the clock, exactly or by one 64-bit wrap. |
| `RandomScan.ScanVisitsAllIffComplete` | redis-source-code-modifications/src/evict.c:868-886 | One turn of the random policies' counter visits every database if and only if the 32-bit counter does not wrap during it, or wraps where that does no harm. |
| `RandomScan.SkippedWhenIncomplete` | redis-source-code-modifications/src/evict.c:868-886 | Otherwise it names a database that the turn leaves out. |
| `Evict.CounterAfterPeriods` | redis-source-code-modifications/src/evict.c:517-552 | What is left of a frequency counter is its low byte less the number of whole decay periods since the stored minute, but not less than zero; without a decay time it is the low byte. |
| `Evict.EvictableByPolicy` | redis-source-code-modifications/src/evict.c:822-835 | The volatile policies may evict exactly the keys that have an expire, the allkeys policies every key. |
| `Evict.RemovedExactly` | redis-source-code-modifications/src/evict.c:889-921 | Deleting takes away the named key and its expire, and nothing else. |
| `Evict.FrequencyDecays` | redis-source-code-modifications/src/evict.c:517-552 | The more minutes count as elapsed, across a wrap of the 16-bit clock as well, the less is left of a frequency counter. |
| `Evict.RankOrders` | redis-source-code-modifications/src/evict.c:208-230 | A key ranks higher exactly when it was accessed longer ago (while the clock has not wrapped), is used less often after decay, or expires sooner, according to the policy. |
| `Evict.TotalDecreases` | redis-source-code-modifications/src/evict.c:889-921 | Deleting an evictable key lowers the number of evictable keys by exactly one. |
| `EvictLaws.RoundMembers` | redis-source-code-modifications/src/evict.c:189-298 | A round offers nothing but drawn keys, each under its database with the rank its policy gives it; for the histogram policy that is the score under the windows of that database's own draw. |
| `EvictLaws.RankedByOwnObject` | redis-source-code-modifications/src/evict.c:189-230 | Every candidate of the other policies is ranked by the object and the expire of its own key. |
| `EvictLaws.DrawIsRanked` | redis-source-code-modifications/src/evict.c:350-460 | With recent ages, every key drawn by the histogram policy is offered with minus the usefulness its own accesses have by mean and deviation of all accesses to the keys drawn. |
| `EvictLaws.EveryDrawIsOffered` | redis-source-code-modifications/src/evict.c:822-835 | Every key drawn from every database is offered with that rank. |
| `EvictLaws.RoundNotEmpty` | redis-source-code-modifications/src/evict.c:822-835 | A round offers something if and only if something can be evicted somewhere. |
| `EvictLaws.PickFinds` | redis-source-code-modifications/src/evict.c:815-866 | For all pools and draws the search needs at most two rounds and finds a victim if and only if something can be evicted; from an empty pool, or after a round of ghosts, the victim is the best key of the last round. |
| `EvictLaws.VictimOutranksDraw` | redis-source-code-modifications/src/evict.c:815-866 | Whatever earlier rounds left in the pool, the victim is the best entry that can still be evicted, and the rank it was offered with is no lower than that of any key drawn in the round that finds it. |
| `EvictLaws.EveryVictimOutranksDraw` | redis-source-code-modifications/src/evict.c:799-955 | The same holds for the search of every pass of a run, and as long as keys are left the run has a next pass. |
| `EvictLaws.VictimIsLeastUseful` | redis-source-code-modifications/src/evict.c:350-460 | End to end: under the histogram policy, a victim picked from an empty pool was itself drawn and is worth no more, under the windows computed from its database's draw, than any other key drawn in that round from any database. |
| `EvictLaws.RandomPickVisits` | redis-source-code-modifications/src/evict.c:868-886 | A random choice takes its key from the first non-empty database after the one it stopped at, and finds none if and only if all databases visited are empty. |
| `EvictLaws.NextVictimFinds` | redis-source-code-modifications/src/evict.c:812-886 | Under every policy a search finds a key that can be evicted, and finds none only if there is none or a random policy's counter skipped it. |
| `EvictLaws.NeverMissesIff` | redis-source-code-modifications/src/evict.c:868-886 | Whatever the databases hold, a random search finds nothing only when nothing is left, if and only if the counter it starts from gives a complete scan; from any other counter there are sound databases in which it misses a key that could be evicted. |
| `EvictLaws.MissesEndsTheCycle` | redis-source-code-modifications/src/evict.c:952-977 | Such a miss ends the cycle at once: over its limit and with keys left to evict it deletes nothing and reports that nothing is left. |
| `EvictLaws.PassesRemoveOnlyEvictable` | redis-source-code-modifications/src/evict.c:799-955 | After any number k of passes exactly k keys are gone, every one of them evictable under the policy, so volatile policies never delete a key without an expire; all other keys, objects and expires are as they were. |
| `EvictSpec.FreedEnough` | redis-source-code-modifications/src/evict.c:799-799 | When only deletions change memory, the loop's guard fails if and only if memory is within the limit. |
| `EvictSpec.EndsOneWay` | redis-source-code-modifications/src/evict.c:764-991 | Given its draws and memory readings a cycle can end in one way only: the same number of deletions, for the same reason, in the same state. |
| `EvictLaws.CycleKeeps` | redis-source-code-modifications/src/evict.c:764-991 | However a cycle ends, only evictable keys are gone and as many as counted; leaving by the guard in a quiet world puts memory within the limit; giving up means that nothing is left or that the random scan is incomplete. |
| `EvictLaws.CycleInNumbers` | redis-source-code-modifications/src/evict.c:764-991 | A cycle deletes keys only if there is a limit and the first reading is over it, and then deletes at least one unless it may not or finds none; it never goes past a sixteenth deletion at which time is up or lazy freeing has brought memory within the limit; in a quiet world it deletes no key once memory is within the limit, and leaves by the guard only then. |
| `EvictSpec.WaitInPolls` | redis-source-code-modifications/src/evict.c:962-977 | The wait for background frees succeeds if and only if, while something is still pending, one of its polls finds memory within the limit. |
| `EvictServer.Server.PopulateIdle` | redis-source-code-modifications/src/evict.c:189-298 | The pool becomes what it was after offers of exactly the drawn keys, in order, ranked by idle time, inverted decayed frequency or inverted expire. |
| `EvictServer.Server.PopulateHistogram` | redis-source-code-modifications/src/evict.c:350-460 | The pool becomes what it was after offers of exactly the drawn keys, in order, scored under windows computed from the same keys at the same clock; with recent ages these scores are those of DrawIsRanked. |
| `EvictServer.Server.PopulateAll` | redis-source-code-modifications/src/evict.c:822-835 | Every database with something to evict is drawn from and all keys drawn are offered; the total counts what can be evicted. |
| `EvictServer.Server.ScanPool` | redis-source-code-modifications/src/evict.c:837-865 | Takes the best candidate that still exists; everything better was a ghost and has been removed; without a live one the pool ends empty. |
| `EvictServer.Server.PickVictim` | redis-source-code-modifications/src/evict.c:815-866 | The search loop ends and computes exactly the choice that PickFinds and VictimIsLeastUseful speak of. |
| `EvictServer.Server.PickRandom` | redis-source-code-modifications/src/evict.c:868-886 | Computes exactly the choice that RandomPickVisits speaks of, and leaves the counter where it stopped. |
| `EvictServer.Server.GetMaxmemoryState` | redis-source-code-modifications/src/evict.c:623-659 | Within the limit if and only if there is no limit or used memory less the output buffers does not exceed it; otherwise the exact excess. |
| `EvictServer.Server.WaitForLazyFree` | redis-source-code-modifications/src/evict.c:962-977 | Succeeds if and only if one of the polls made while objects are being freed finds memory within the limit. |
| `EvictServer.Server.StartEvictionTimeProc` | redis-source-code-modifications/src/evict.c:695-701 | However often it is asked, at most one timer is live. |
| `EvictServer.Server.EvictionTimeProc` | redis-source-code-modifications/src/evict.c:680-694 | The callback leaves the databases, the pool and the counter exactly as the eviction cycle ends; the timer stays exactly when that was by guard, check or time limit, and otherwise none is left. |
| `EvictServer.Server.EvictOne` | redis-source-code-modifications/src/evict.c:799-947 | A pass deletes exactly the chosen victim and nothing else, and measures what its deletion freed; or there was none to find and nothing changed. |
| `EvictServer.Server.EvictionLoop` | redis-source-code-modifications/src/evict.c:799-955 | Terminates even when deletions free nothing, and stops after exactly the pass at which the guard, the sixteenth-deletion checks or an empty search say so. |
| `EvictServer.Server.PerformEvictions` | redis-source-code-modifications/src/evict.c:764-991 | Ends in the one way EndsOneWay allows, and so as CycleKeeps promises; fails if and only if the policy forbids eviction or a search found nothing and the wait did not help; answers running if and only if its time was up or a timer was live before and the loop ended by guard or check; without a limit it answers OK and deletes nothing. |
| `KeyspaceSpec.SetRefinesIff` | redis-source-code-modifications/src/db.c:314-334 | Setting a key shows the same keyspace as an eager assignment if and only if the caller did not both claim to know the key and keep the expire of a key already expired. |
| `KeyspaceSpec.DelRefines` | redis-source-code-modifications/src/db.c:737-753 | Deleting a list of keys removes the visible ones and counts only those, however many expired ones linger. |
| `KeyspaceSpec.RenameRefines` | redis-source-code-modifications/src/db.c:1262-1302 | Renaming, with and without overwriting, moves value and expire and answers as if expired keys were not there. |
| `KeyspaceSpec.MoveRefines` | redis-source-code-modifications/src/db.c:1312-1372 | Moving between databases carries value and expire along and is stopped only by a visible target. |
| `KeyspaceSpec.StepRefines` | redis-source-code-modifications/src/db.c:104-159 | Every command gives the reply of a keyspace that purges expired keys at once and leaves what that keyspace would hold. |
| `KeyspaceSpec.LazyRefinesEager` | redis-source-code-modifications/src/db.c:1749-1837 | Over every run of commands at any times that do not go back, all replies and the final view equal those of eager expiry. |
| `Keyspace.Keyspace.CreateObject` | redis-source-code-modifications/src/object.c:43-53 | A new object has one reference, its creator's. |
| `Keyspace.Keyspace.Retain` | redis-source-code-modifications/src/object.c:413-423 | One more hold; all counts stay right if and only if the count has not come up to the reserved values. |
| `Keyspace.Keyspace.Release` | redis-source-code-modifications/src/object.c:425-442 | Giving up a reference frees the object if and only if it was the last one. |
| `Keyspace.Keyspace.GenericDelete` | redis-source-code-modifications/src/db.c:376-407 | Removes key, value and expire together, says whether the key was there, and frees the value exactly if nothing else refers to it. |
| `Keyspace.Keyspace.ExpireIfNeeded` | redis-source-code-modifications/src/db.c:1794-1837 | Deletes a key exactly when its expire has passed. |
| `Keyspace.Keyspace.LookupKey` | redis-source-code-modifications/src/db.c:104-159 | Never returns an expired key, and returns only live objects. |
| `Keyspace.Keyspace.DbAdd` | redis-source-code-modifications/src/db.c:212-230 | Leaves every object but the new value with its exact count; the missing reference is the caller's to take. |
| `Keyspace.Keyspace.DbSetValue` | redis-source-code-modifications/src/db.c:264-293 | Overwriting gives up exactly the old value's reference. |
| `Keyspace.Keyspace.SetKey` | redis-source-code-modifications/src/db.c:314-334 | The heap operation performs exactly the specified transition; every reference count is exact afterwards if and only if the value had room for one more reference or was already held under this key. |
| `Keyspace.Keyspace.DelGeneric` | redis-source-code-modifications/src/db.c:737-753 | As SetKey, for a list of keys; the reply counts the keys deleted. |
| `Keyspace.Keyspace.RenameGeneric` | redis-source-code-modifications/src/db.c:1262-1302 | As SetKey; the value is held across the deletion of the source, so it is never freed on the way, and no hold is left over. |
| `Keyspace.Keyspace.MoveGeneric` | redis-source-code-modifications/src/db.c:1312-1372 | As SetKey; the value passes from one database to the other without being freed. |
| `Keyspace.Keyspace.RandomKey` | redis-source-code-modifications/src/db.c:340-373 | Terminates, returns only a key a reader can see, returns none only if there is none, and changes nothing a reader can see. |
| `ConfigSet.AppliesExact` | redis-source-code-modifications/src/config.c:905-921 | The apply list holds exactly the apply functions of options that took a new value, each once. |
| `ConfigSet.Server.FindConfigs` | redis-source-code-modifications/src/config.c:831-888 | Reads the arguments in order and returns the options or the error that FindExact speaks of. |
| `ConfigSet.FindExact` | redis-source-code-modifications/src/config.c:831-888 | All arguments are accepted if and only if each is known, may be set under these flags and was not named before, be it by an alias; the options found are then the named ones, all different; otherwise the error is the one due to the first argument that is not fine. |
| `ConfigSet.Server.SetAll` | redis-source-code-modifications/src/config.c:895-924 | Either every option is set and the apply list is a gapless prefix as AppliesExact says, or it names exactly the option that refused, with those before it set and none after it. |
| `ConfigSet.Server.RestoreCells` | redis-source-code-modifications/src/config.c:779-788 | Sets the old texts again one by one; one that is refused is passed over. |
| `ConfigSet.Server.ApplyAll` | redis-source-code-modifications/src/config.c:789-795 | Runs every stored apply function again on the restored cells; one that fails is passed over. |
| `ConfigSet.RestoresIffLastWrites` | redis-source-code-modifications/src/config.c:779-788 | Whatever was set or spoilt before, the roll-back returns all cells if and only if, for every cell, the last old text set again brings its value back, also when an alias and its primary name wrote the same cell. |
| `ConfigSet.SettledRollsBack` | redis-source-code-modifications/src/config.c:890-937 | From a settled configuration (values can be set again from their texts, effects are up to date) a command that fails anywhere leaves every cell and every effect as it was. |
| `ConfigSet.StaysSettled` | redis-source-code-modifications/src/config.c:890-937 | A command that succeeds leaves a settled configuration settled, provided that aliases share their apply function and an apply function looks only at the cells of its own options. |
| `ConfigSet.Server.ConfigSet` | redis-source-code-modifications/src/config.c:805-960 | Succeeds if and only if all arguments are acceptable, all options take their values and all apply functions concerned succeed; otherwise it leaves exactly what the roll-back makes of it, which from a settled configuration is the old one; settled configurations stay settled over any number of commands. Every cell then holds what the texts given for its own arguments make of it one after the other, and a failure names the option that refused its own text or one whose apply function fails. |
| `ConfigSet.LastArgumentDecides` | redis-source-code-modifications/src/config.c:895-924 | The last argument that writes a cell decides it: the cell holds what that option makes of that argument's text. |
| `ConfigEnum.SameNameUpToCase` | redis-source-code-modifications/src/config.c:307-307 | Names are the same if and only if they differ in nothing but the case of letters. |
| `ConfigEnum.GreedyRule` | redis-source-code-modifications/src/config.c:325-330 | The next entry is taken if and only if it has bits, all of them in the value and none in an entry taken before. |
| `ConfigEnum.GetValue` | redis-source-code-modifications/src/config.c:301-315 | Fails exactly on no names, on several names where one is expected, or on an unknown name; otherwise the bits of all entries named. |
| `ConfigEnum.GetName` | redis-source-code-modifications/src/config.c:318-342 | Computes the names NamesReadBack speaks of: a perfect match if there is one, else the greedy choice of entries. |
| `ConfigEnum.NamesReadBack` | redis-source-code-modifications/src/config.c:318-342 | With unique names, whatever is answered other than unknown sets the same value again. |
| `ConfigEnum.SettableIsNamed` | redis-source-code-modifications/src/config.c:325-342 | When any two entries are disjoint or nested with the larger one first, every value that can be set has a name. |
| `ConfigEnum.OverlapIsUnknown` | redis-source-code-modifications/src/config.c:318-342 | With two entries given together the value has a name if and only if they are disjoint or one contains the other. |
| `RewriteSpec.SplitJoin` | redis-source-code-modifications/src/config.c:1599-1620 | Lines written with a newline each read back as the same lines and one empty one. |
| `RewriteSpec.TrimStrips` | redis-source-code-modifications/src/config.c:1147-1147 | Trimming takes away the blanks at both ends and nothing else. |
| `RewriteLaws.FileKeeps` | redis-source-code-modifications/src/config.c:1119-1228 | In terms of the two files: every comment, every blank line and every line of an option that was not rewritten stands in the new file without its outer blanks, an unparsable one behind its mark, in the old order; no two blank lines follow each other. |
| `RewriteLaws.CollapsePlaces` | redis-source-code-modifications/src/config.c:1599-1620 | Of every run of empty lines exactly one is kept, and every other line, in order. |
| `RewriteLaws.FileWrites` | redis-source-code-modifications/src/config.c:1232-1266 | Every line written for an option stands in the new file. |
| `RewriteLaws.KeepsTheRest` | redis-source-code-modifications/src/config.c:1748-1790 | Comments, blank lines and lines of unprocessed options keep content and place; every other old line is reused for its own option or blanked; the signature is appended at most once, first, and only if the file had none. |
| `RewriteLaws.EmittedInOrder` | redis-source-code-modifications/src/config.c:1232-1266 | Each processed option ends with exactly the lines written for it, in emission order, and no old line of it is left; unprocessed options keep theirs. |
| `RewriteTwice.WrittenForm` | redis-source-code-modifications/src/config.c:1238-1263 | Of an option's emissions those that its old lines absorb are all written, later ones only when forced. |
| `RewriteTwice.RewriteTwiceIsOnce` | redis-source-code-modifications/src/config.c:1748-1790 | A second rewrite gives the same non-blank lines if and only if for every option, past the emissions its old lines absorb, forced emissions precede unforced ones. |
| `RewriteTwice.SingleOrForced` | redis-source-code-modifications/src/config.c:1287-1380 | Options that emit one line or force all their lines are stable under rewriting. |
| `RewriteTwice.BufferLimitsMove` | redis-source-code-modifications/src/config.c:1492-1517 | From an empty file, buffer limits of which only the second differs from its default are written as one line first and as two the next time. |
| `ConfigRewrite.RewriteState.AddLine` | redis-source-code-modifications/src/config.c:1088-1102 | A line read from the file is appended and put at the end of its option's list of unused lines. |
| `ConfigRewrite.RewriteState.RewriteLine` | redis-source-code-modifications/src/config.c:1232-1266 | Writes over the option's first unused line, or appends when there is none and the line is forced, with the signature first; reports whether it wrote. |
| `ConfigRewrite.RewriteState.RemoveOrphaned` | redis-source-code-modifications/src/config.c:1625-1650 | Blanks exactly the unused lines of processed options, whatever order the options are visited in. |
| `ConfigRewrite.GetContentFromState` | redis-source-code-modifications/src/config.c:1599-1616 | Every run of empty lines becomes a single one; all other lines are kept in order. |
| `ConfigRewrite.ReadOldFile` | redis-source-code-modifications/src/config.c:1119-1217 | A missing or empty file gives the empty state and an unreadable one none; lines are trimmed, those that cannot be parsed become comments, and each option's unused lines are listed in file order. |
| `ConfigRewrite.ForceWritesAll` | redis-source-code-modifications/src/config.c:1232-1266 | When all changes are to be written, every line emitted for an option is in the new file, in the order emitted. |
| `ConfigRewrite.RewriteConfig` | redis-source-code-modifications/src/config.c:1748-1790 | The imperative editor produces exactly the file that RewriteTwiceIsOnce and KeepsTheRest speak about, with all lines forced when asked. |

## Left out

- Header, version and checksum of a dump, module values and functions: no bearing on the keys.
- Lists, sorted sets and the entries of a stream: the same table and packed forms again, or listpacks that are opaque here.
- Older encodings (ziplists, zipmaps, earlier stream types, second-precision expires).
- `intset.c`, `listpack.c`, `rax.c`, `dict.c`, `sds.c`, `util.c`, the LZF library and `expire.c` are not part of this model; decimal text is modelled by `Decimal`.
- RdbLoad.LoadSetEntries: does not model the 32-bit loop index, which cannot count sets of 2^32 members.
- RdbValues.ObjectRoundTrip: keeps an intset in the order it was saved in; the sorted layout belongs to `intset.c`.
- StreamLoad.LoadGroup: an unknown length code ends the load at once, as it does outside RESTORE; the several groups of one stream are loaded one by one, and a repeated group name is not modelled.
- StreamLoad.SaveStreamPEL: the order in which a radix tree is walked is arbitrary; that it is ascending is not used.
- Write errors while saving, and the short reads of the network variants.
- Replicas, paused and suspended expiry, and notifications, tracking and replication around the commands.
- Asynchronous deletion and its thread; its effect on memory is part of the arbitrary readings in `EvictServer`.
- The values' own content in the keyspace model; overwriting keeps access fields of the old object, about which nothing is claimed.
- Keyspace.Keyspace.RenameGeneric: requires that the source's value has room for one more reference; without it, after some 2^31 of them, the server stops when the source entry is deleted, which is not modelled.
- Keyspace.Keyspace.MoveGeneric: requires the same.
- Histogram.NoOverflow: rounding of doubles is not modelled; sums are exact reals and integers.
- LruClock.LoadedObject.Record: what a write past the array does to the memory behind it.
- RdbLoad.LoadPacked: without deep validation a last field without a value is kept out of the content; what later commands and a conversion make of it belongs to `t_hash.c`, which is not part of this model. That intset entries are sorted is not checked.
- The probabilistic increment of the frequency counter, and switching the policy with a filled pool.
- Pool.EvictionPool.Insert: the byte copy into a slot's buffer is an assignment of the text.
- ConfigSet.Server.ConfigSet: module settings, redaction of arguments and the odd-argument check; what an option accepts and what an apply function does are parameters.
- ConfigRewrite.RewriteConfig: the emissions of each option are a parameter; reading, replacing and renaming the file on disk are not modelled.
- RewriteTwice.RewriteTwiceIsOnce: requires that every emitted line parses back as a line of its option.
- Numeric settings: parsing of memory sizes, percentages and octal numbers belongs to functions that are not shown.
- Java services, build files and dashboards.
