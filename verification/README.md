# A verified model of the zoned key-value store simulation

The repository simulates a log-structured key-value store on a zoned (ZNS) device. Records of a key and a
value are packed into 4096-byte pages; pages are appended at the write pointer of a zone; an update
invalidates the page of its key and rewrites what is left of it; garbage collection repacks the live records
of the queued zones into other zones and resets them. The page for a record list goes to a zone chosen by key
ages, zone mean lifetimes and empty rates. Beside the store stand a random trace generator and, in the bundled
`libzbd`, zone reporting and the dump and restore of a zoned device under open and active zone limits.

The project proves that

* over every well-formed trace, and at every prefix of it, the records reached through `key_index` together
  with the unflushed ADD buffer are the map that replaying the trace gives, page splits and collections in the
  middle of an update included (`RunRefines`, `EveryPrefix`, `RequestWorkload`);
* the trace generator only emits well-formed traces, so the whole program has this property (`Simulate`);
* the page codec is a round trip, repacking is optimal, a collection reclaims all garbage and fails exactly
  when there is no room for it, zone after zone, and the eager aging loop counts pages;
* a zone report does not depend on how the device cuts its answer into chunks;
* a restore never needs more open or active zones than the target has, and dump then restore is a round trip
  under an exact condition on the dump and the target.

## How it is built

The store is modelled twice. `StoreModel` and `StoreRun` describe each operation as a function on a value of
type `Store` (the arrays of the simulation, the fill of each zone, the records of each block); None stands for
a run that aborts because no zone can be written. `Simulation.ZnsSimulation` is the class with the arrays
themselves and the loops over them, on a byte-level device (`Device.ZonedDevice`); each of its methods is
proved to take the abstract state `State()` exactly where the function takes it. Properties are lemmas about
the functions. `Inv(c, st, drain, flight)` is the store invariant: `drain` is the zone being collected (-1:
none) and `flight` the set of keys whose records are only in memory at that moment. `Contents` is the abstract
map from keys to value sizes.

| file | content |
|---|---|
| Codec.dfy | records, pages, `data2page` and the parse loops |
| Packing.dfy | the flush rule, its soundness and optimality; what an update leaves of a page |
| Layout.dfy | block, zone and offset arithmetic |
| Placement.dfy | the scans that choose a zone |
| StoreModel.dfy | the store's operations as functions |
| StoreInvariant.dfy | the invariant, the abstract map, and a page write |
| Collection.dfy | placing pages and collecting zones keep both |
| StoreRun.dfy | detection, inserts, updates, traces; the main refinement |
| Wastefulness.dfy | when detection queues a zone, from its blocks alone |
| ZoneChoice.dfy | the zone chosen for a page, and what the page leaves there |
| ZoneMeans.dfy | what the mean lifetime of a zone means in every reachable state |
| AddBuffer.dfy | what the unflushed ADD buffer holds |
| Space.dfy | when pages, collections and traces find room, and what a collection gives back |
| SmallZone.dfy | a trace that fails in a collection for lack of room |
| Lifetimes.dfy | lifetimes as ages; how many pages an update writes |
| Device.dfy, LoopSteps.dfy, ZnsSimulation.dfy | the imperative program and its proof against the functions |
| Probing.dfy, Workload.dfy | the trace generator: its probing loops and the traces it emits |
| EndToEnd.dfy | the whole program |
| ZoneReport.dfy | `zbd_report_zones`, `zbd_list_zones`, the range of `zbd_zones_operation` |
| TargetDevice.dfy, ZoneRestore.dfy | a device with zone limits; dump and restore |

## Model

Functions that only compute have no row: the rows name the lemmas and methods that say what they compute.

| member | source | states |
|---|---|---|
| Codec.IntBytes | zns_simulation.cc:128-133 | four little-endian bytes from which the integer is read back |
| Codec.Data2Page | zns_simulation.cc:122-142 | the page holds exactly the given records at their offsets, whatever the payload bytes are; all bytes past the last record are 0, so the stop test holds there |
| Codec.PageBytes | zns_simulation.cc:127-136 | each record starts just past the one before, with the little-endian words 4, key and value size |
| Codec.ParseStep | zns_simulation.cc:488-491 | at the offset of each record the parse loop goes on and reads that record; just past the last one, and only there, it stops, inside the page |
| Codec.DecodeRecovers | zns_simulation.cc:404-442 | round trip: from any record on, parsing the page gives the remaining records |
| Codec.PageDeterminesRecords | zns_simulation.cc:122-142 | one page never stands for two record lists |
| Codec.RecordCountBound | parameter.h:7 | a page never holds more than 256 records, the size of the arrays of the parse loops |
| Packing.PackSound | zns_simulation.cc:523-532 | the flush rule keeps all records in order and writes only nonempty pages of at most 4096 bytes |
| Packing.PackOnePage | zns_simulation.cc:430-441 | records that fit into one page are not split |
| Packing.PackStaysAhead | zns_simulation.cc:488-533 | any other split needs at least as many pages as the rule has left, even with earlier records still to place |
| Packing.PackIsOptimal | zns_simulation.cc:488-533 | no order-preserving split into pages that fit uses fewer pages |
| Packing.ChangedSplit | zns_simulation.cc:424-441 | an update keeps the other records in order and changes or drops only the record of its key |
| Packing.UpdateWritesAtMostThree | zns_simulation.cc:401-442 | a page of distinct keys is rewritten as at most three pages |
| Packing.DeleteWritesAtMostOne | zns_simulation.cc:401-442 | a delete writes one page, or none if the key was alone on its page |
| Packing.ThreePagesReached | zns_simulation.cc:430-435 | three pages happen: values of 2028, 4 and 2028 bytes, the middle one grown to 2048 |
| Placement.FirstOkFinds | zns_simulation.cc:288-293 | the first scan finds the lowest eligible zone, or there is none |
| Placement.ArgMaxFinds | zns_simulation.cc:296-303 | the empty-rate scan finds the lowest zone of the greatest positive rate, or there is none |
| Placement.ArgMinFinds | zns_simulation.cc:306-314 | one nearest-lifetime scan finds the nearest zone, the lowest among equals, or there is none |
| Placement.CandidatesAreNearest | zns_simulation.cc:305-316 | after n rounds the candidates are exactly the min(n, eligible) eligible zones nearest in lifetime, ties to the lower index, and the zone assigned last is the farthest of them |
| StoreInvariant.InitialInv | zns_simulation.cc:26-60 | the initial state meets the invariant and stands for the empty map |
| StoreInvariant.WriteBlocks | zns_simulation.cc:69-99 | a page write keeps: EMPTY exactly at or past the write pointer, a lifetime exactly when VALID |
| StoreInvariant.WriteMeans | zns_simulation.cc:249-258 | a page write keeps all zone means in 0..1000 |
| StoreInvariant.ZoneMeanBound | zns_simulation.cc:249-258 | the mean lifetime of a zone lies in 0..1000 |
| StoreInvariant.WriteAges | zns_simulation.cc:241-244 | one aging step keeps every lifetime equal to the clamped age |
| StoreInvariant.WritePagesIndexed | zns_simulation.cc:245-247 | keys of VALID pages stay indexed to their page when a page of keys in flight is written |
| StoreInvariant.WriteIndexLive | zns_simulation.cc:245-247 | every indexed key not in flight still points to a VALID page that holds it |
| StoreInvariant.WriteContents | zns_simulation.cc:237-259 | the abstract map gains exactly the pairs of the page |
| ZoneMeans.WriteMean | zns_simulation.cc:249-258 | after a page write the zone's mean times the number of its VALID blocks is the sum of their lifetimes, summed over the set in any order |
| ZoneMeans.WriteMeanBetween | zns_simulation.cc:249-258 | so it lies between the least and the greatest of them, and is the page's own lifetime if no other block of the zone is VALID |
| ZoneMeans.ReachableMeans | zns_simulation.cc:249-258 | in every reachable state the mean of a zone with pages is the one its last page write left, although blocks have become INVALID since; that of an empty zone is 0, or 1000 if nothing was ever written to it |
| Collection.PlaceInv | zns_simulation.cc:280-328 | placing a page keeps the invariant, adds its pairs to the map and leaves queued zones untouched |
| Collection.PlaceAllInv | zns_simulation.cc:523-532 | so does placing any list of pages with distinct keys |
| Collection.ZoneRecordsOk | zns_simulation.cc:472-533 | the records read from a zone are valid and have distinct keys across all its pages |
| Collection.ZonePairsAreIndexed | zns_simulation.cc:472-533 | they are exactly the pairs whose keys, if not in flight, are indexed into the zone |
| Collection.BeginDrain | zns_simulation.cc:472-481 | collecting a zone starts by taking its pairs out of the map into flight; the invariant holds meanwhile |
| Collection.EndDrain | zns_simulation.cc:534-540 | resetting the drained zone keeps the invariant and the map |
| Collection.CollectZoneInv | zns_simulation.cc:472-543 | collecting a zone keeps invariant and map, repoints every key away from the zone, takes it from the queue and leaves the other queued zones untouched |
| Collection.CollectFromInv | zns_simulation.cc:472-543 | so for all queued zones from any index on, with any keys in flight |
| Collection.CollectInv | zns_simulation.cc:447-545 | a collection leaves the map unchanged and no zone queued |
| StoreRun.DetectOutcome | zns_simulation.cc:261-278 | the wasteful zones join the queue, lowest first; either all of them do and fewer than `gl` are queued then, or a collection starts as soon as exactly `gl` are |
| StoreRun.DetectInv | zns_simulation.cc:261-278 | detection, with the collection it may start, keeps invariant, map and queue bound |
| Wastefulness.VarianceIsPairSum | zns_simulation.cc:210-226 | the variance of a zone times n^2, for its n positive lifetimes, is the sum of the squared differences of all pairs of them; there is none exactly if n is 0 |
| Wastefulness.WastefulExactly | zns_simulation.cc:266-267 | the test of detection, from the blocks alone: not queued, less than `se` of the capacity free, and more than `sg` of the blocks INVALID or that pair sum above `sl` n^2 |
| Wastefulness.DetectionQueues | zns_simulation.cc:261-278 | detection queues exactly the zones that meet the test, up to the one with which `gl` are queued; then, and only then, it starts a collection |
| StoreRun.InsertInv | zns_simulation.cc:280-329 | a page written outside a collection adds its pairs, whatever collection it sets off |
| StoreRun.InsertAllInv | zns_simulation.cc:430-435 | so do several pages, with collections in between while the later records are only in memory |
| StoreRun.InvalidateInv | zns_simulation.cc:390-399 | dropping a page puts exactly its remaining keys into flight |
| StoreRun.InvalidateContents | zns_simulation.cc:390-428 | the rest of the map and the records to be rewritten make up the updated map |
| StoreRun.UpdateInv | zns_simulation.cc:382-445 | an update or delete changes the map at its key only |
| StoreRun.FlushInv | zns_simulation.cc:190-194 | writing the ADD buffer adds exactly its pairs |
| StoreRun.StepInv | zns_simulation.cc:163-207 | one turn of the loop does to the stored pairs what the operation does to the map |
| AddBuffer.PackOneMore | zns_simulation.cc:523-532 | packing one more record puts it on the last page if it fits there, and on a new page otherwise |
| AddBuffer.BufferIsLastPage | zns_simulation.cc:188-206 | the unflushed ADD buffer is always the last page of the optimal packing of the records added since the last update or delete |
| StoreRun.PrefixOk | workload.cc:33-81 | every prefix of a well-formed trace is well formed |
| StoreRun.RunRefines | zns_simulation.cc:144-208 | main refinement: after every well-formed trace the stored pairs are the map the trace stands for, and the invariant holds |
| Space.PlaceSucceeds | zns_simulation.cc:286-293 | a page finds a zone if and only if some zone is neither queued nor FULL |
| ZoneChoice.PlacementIsAsDesigned | zns_simulation.cc:280-324 | while fewer than `sz` of the zones have a mean more than 1 off 1000, the zone is the lowest with the greatest free share among those neither queued nor FULL; afterwards it is one of the `gl` of them whose means are nearest to the page lifetime, namely the lowest with the greatest positive empty rate last computed, or the farthest if none is positive |
| ZoneChoice.SparseIs | zns_simulation.cc:286-294 | the test between the two compares the number of zones whose mean is below 999 or above 1001 with `sz` times the zones |
| ZoneChoice.FirstPlacement | zns_simulation.cc:286-304 | with `sz` > 0 the very first page goes to zone 0 |
| ZoneChoice.PageWritten | zns_simulation.cc:326-328 | the page is at the old write pointer of that zone, VALID, with the page lifetime of before the aging; its keys point to it, all others keep their block, and other zones keep their mean |
| ZoneChoice.RatesAfterPage | zns_simulation.cc:294-295 | the empty rates are renewed before a page is placed while few zones have a recorded mean, and not at all afterwards |
| ZoneChoice.RatesRenewed | zns_simulation.cc:263 | detection works with the free share of each zone at that moment; initially it is 1 |
| ZoneChoice.ReportRenews | zns_simulation.cc:166-175 | the progress report renews the rates at every 40000th operation and changes nothing else |
| Space.PlaceAllSucceeds | zns_simulation.cc:326-327 | a list of pages is placed if and only if there are as many free blocks; each page takes one |
| Space.CollectZoneSucceeds | zns_simulation.cc:472-543 | a zone is collected if and only if the pages it moves find free blocks; then it gives back its whole capacity |
| Space.CollectSucceeds | zns_simulation.cc:472-543 | a collection succeeds if and only if, from the free blocks, each queued zone in turn can take what it moves and give back its capacity |
| Space.CollectHasRoom | zns_simulation.cc:472-543 | that is so if the free blocks cover the VALID blocks of the lowest queued zone and no queued zone is larger than an earlier one (for instance all equal) |
| SmallZone.RoomNeedsFallingCapacities | zns_simulation.cc:472-543 | without the condition on capacities it fails: a well-formed trace of four operations whose last one starts a collection that finds room for its first zone but not for its second |
| Space.InsertSucceeds | zns_simulation.cc:280-329 | a page write succeeds if and only if a block is free and, where the wasteful zones then fill the queue to `gl`, the collection of that queue has room |
| Space.InsertAllSucceeds | zns_simulation.cc:430-441 | the pages of an update are written if and only if each in turn has that room |
| Space.RunSucceeds | zns_simulation.cc:163-207 | a trace runs to its end if and only if each operation, in the state that the ones before it leave, has room |
| Space.MovesAtMostValid | zns_simulation.cc:488-533 | the pages written for a zone never exceed the VALID pages read from it |
| Space.ValidWithinCapacity | zns_simulation.cc:87-92 | the VALID blocks of a zone never exceed its capacity |
| Space.CollectZoneReclaims | zns_simulation.cc:472-543 | collecting a zone frees exactly its INVALID blocks and the pages that repacking saves |
| Space.CollectReclaims | zns_simulation.cc:472-543 | a collection frees at least the INVALID blocks of all queued zones |
| Lifetimes.PageLifetimeIsLeastAge | zns_simulation.cc:228-235 | the page lifetime is the least clamped age of its keys |
| Lifetimes.PlaceTicks | zns_simulation.cc:241-244 | keys are aged once for each page that is not an ADD page, and for no other |
| Lifetimes.CollectFromTicks | zns_simulation.cc:472-543 | a collection ages the keys by exactly the sum of the pages that its zones move, which is fixed when it starts |
| Lifetimes.InsertTicks | zns_simulation.cc:280-329 | an insert ages them by its own page, unless it is an ADD page, and the collection it starts |
| Lifetimes.InsertAllTicks | zns_simulation.cc:404-441 | an update ages them by its pages and the collections in between |
| Lifetimes.StampSince | zns_simulation.cc:424-428 | the age of a key restarts at its updates and deletes in the trace and nowhere else; from there it counts exactly the pages other than ADD pages written since |
| Lifetimes.LifetimeIsAge | zns_simulation.cc:237-247 | in every reachable state a lifetime is min(1000, w), where w sums, over the operations from the key's last update or delete on, the pages of updates and deletes and those moved by collections; 1000 if there was none |
| Lifetimes.UpdateWriteCount | zns_simulation.cc:401-442 | an update writes at most three pages and a delete at most one, none above 4096 bytes, and together they hold the old page with its key changed |
| Device.ZonedDevice.Cond | zns_controller.cc:72-79 | EMPTY, IMP_OPEN or FULL as the write pointer says |
| Device.ZonedDevice.ZoneEmptyRate | zns_controller.cc:134-138 | the share of the zone's capacity that is not written |
| Device.ZonedDevice.WritePointerAddress | zns_controller.cc:54-61 | the write pointer of a zone with space addresses the next page of that zone, within its capacity |
| Device.ZonedDevice.PWrite | zns_simulation.cc:94-95 | a page write at the write pointer of a zone with space succeeds, stores the page there and advances that zone only; a write that succeeds is recorded, one that fails changes nothing |
| Device.ZonedDevice.PRead | zns_simulation.cc:393-394 | a read gives back the page last written at its offset, whatever was written elsewhere and whichever zones were reset since |
| Device.LastWrittenStays | zns_simulation.cc:94-95 | a page stays the one last written at its offset until that offset is written again |
| Device.ZonedDevice.ResetZone | zns_controller.cc:124-127 | a reset empties that zone only |
| Simulation.ZnsSimulation.Initialize | zns_simulation.cc:26-60 | sets up the initial state |
| Simulation.ZnsSimulation.GetZoneEmptyRate | zns_simulation.cc:112-115 | recomputes the empty rates and nothing else |
| Simulation.ZnsSimulation.ZoneGarbageRate | zns_simulation.cc:101-110 | the share of INVALID blocks of the zone |
| Simulation.ZnsSimulation.LifetimeVariance | zns_simulation.cc:210-226 | the variance of the zone's positive block lifetimes; none if there are none |
| Simulation.ZnsSimulation.GetPageLifetime | zns_simulation.cc:228-235 | the least lifetime of the page's keys |
| Simulation.ZnsSimulation.WriteBlock | zns_simulation.cc:69-99 | succeeds exactly if the zone has space; the block returned is the one at the write pointer and then holds the page |
| Simulation.ZnsSimulation.RefreshLifetime | zns_simulation.cc:237-259 | marks the block VALID, ages the keys unless adding, indexes the page's keys and renews the zone mean; nothing else changes |
| Simulation.ZnsSimulation.NearestZones | zns_simulation.cc:305-316 | computes the candidates of `gl` rounds |
| Simulation.ZnsSimulation.SelectZone | zns_simulation.cc:286-324 | the zone is that of the model; the rates are renewed only while few zones have a lifetime |
| Simulation.ZnsSimulation.PlacePage | zns_simulation.cc:280-328 | placing a page, or failing, is that of the model |
| Simulation.ZnsSimulation.MyInsert | zns_simulation.cc:280-329 | places the page and, outside a collection only, tests for one |
| Simulation.ZnsSimulation.MyGcDetect | zns_simulation.cc:261-278 | detection is that of the model; it is never entered during a collection |
| Simulation.ZnsSimulation.MyGarbageCollection | zns_simulation.cc:447-545 | a collection is that of the model; it never nests |
| Simulation.ZnsSimulation.MovePage | zns_simulation.cc:488-533 | parsing one page from its bytes and moving its records continues the repacking of the zone; queued zones stay untouched |
| Simulation.ZnsSimulation.MoveZone | zns_simulation.cc:473-533 | the scan over a zone places exactly the pages that packing its records gives |
| Simulation.ZnsSimulation.ResetQueued | zns_simulation.cc:534-540 | clears queue entry, device zone, mean and the zone's blocks, and nothing else |
| Simulation.ZnsSimulation.RewritePage | zns_simulation.cc:404-444 | the parse loop of an update places exactly the pages that packing the changed records gives |
| Simulation.ZnsSimulation.MyUpdateDelete | zns_simulation.cc:382-445 | an update or delete is that of the model |
| Simulation.ZnsSimulation.FlushBuffer | zns_simulation.cc:165-194 | the report and the flush of the ADD buffer are those of the model |
| Simulation.ZnsSimulation.Request | zns_simulation.cc:163-207 | one turn of the loop is that of the model |
| Simulation.ZnsSimulation.RequestWorkload | zns_simulation.cc:144-208 | over a whole well-formed trace the arrays and the device end up holding what the trace stands for |
| Workload.HotKeysInRange | workload.cc:42-55 | the hot keys of all phases lie below `MAX_KEY` if and only if the hot range is small enough for the last phase |
| Probing.HotVisits | workload.cc:55 | from a hot key the hot probe visits exactly the hot keys congruent to it modulo gcd(`center_shift` + 1, `hot_data`) |
| Probing.HotProbeEnds | workload.cc:55 | so it ends if and only if a present hot key is congruent to the drawn one |
| Probing.HotProbeSkipsKeys | workload.cc:55 | in phase 1 of the default workload: if and only if a present hot key has the parity of the drawn one |
| Probing.FreeProbeEnds | workload.cc:46 | the probe for a free key ends if and only if some key is free |
| Probing.ColdStep | workload.cc:65-68 | the cold probe stays among the keys past the hot range; it moves by `hot_data` + 1 of them, and by one where they wrap around |
| Probing.VisitsSoon | workload.cc:45-68 | whatever a probe ever looks at, it looks at within `MAX_KEY` steps |
| Probing.PatienceSuffices | workload.cc:45-68 | with that many steps allowed, a bounded loop finds a key if and only if the original loop ends |
| Workload.WorkloadCreator.Emit | workload.cc:36-38 | appends one operation; the bitmap keeps marking exactly the present keys |
| Workload.WorkloadCreator.DrawFree | workload.cc:34-35 | the first absent key among those drawn, or all draws were of present keys |
| Workload.WorkloadCreator.ProbeFree | workload.cc:45-46 | the first absent key on the way; with `MAX_KEY` steps allowed it is found if and only if a key is absent |
| Workload.WorkloadCreator.ProbeHot | workload.cc:54-55 | the first present key on the way; with `MAX_KEY` steps allowed it is found if and only if a present hot key is congruent to the drawn one |
| Workload.WorkloadCreator.ProbeCold | workload.cc:62-68 | the first present key on the way; with `MAX_KEY` steps allowed it is found if and only if the original loop ends |
| Workload.WorkloadCreator.Operation | workload.cc:43-79 | appends the operation that the draws determine: ADD, hot MODIFY, or, one time in ten, DELETE and else MODIFY of a cold key, by the two rates; the key is the first one that the probe from the drawn start finds, the size the drawn multiple of 4 |
| Workload.ExtremeRates | workload.cc:44-53 | update rate 1 means no ADD, below 1/100 nothing else; a hot data rate below 1/100 means no DELETE |
| Workload.WorkloadCreator.Preload | workload.cc:33-40 | appends ADD operations only, a tenth of the hot range, rounded up |
| Workload.WorkloadCreator.Create | workload.cc:24-84 | for all draws every prefix of the trace is well formed; after the ADDs of the preload each operation is the one its draws determine, phase after phase; with update rate 1 none of them is an ADD; a complete trace has all its operations |
| ZoneReport.MaskAligns | libzbd-2.0.3/lib/zbd.c:557-566 | masking an address bit by bit gives the start of its zone, for a zone size that is a power of two |
| ZoneReport.CoverIsSmallest | libzbd-2.0.3/lib/zbd.c:557-566 | the zones between the two rounded ends are exactly those that share a byte with the range |
| ZoneReport.WholeDevice | libzbd-2.0.3/lib/zbd.c:558-564 | length 0 stands for all zones up to the end of the device |
| ZoneReport.SectorRange | libzbd-2.0.3/lib/zbd.c:557-570 | the sectors computed are the ends of that cover, clipped to the device |
| ZoneReport.ScanChunk | libzbd-2.0.3/lib/zbd.c:603-616 | one chunk extends the filtered zones in order, up to the limit and the end of the range, and writes nothing past them |
| ZoneReport.ReportsZone | libzbd-2.0.3/lib/zbd.c:461-513 | which conditions and flags each option reports, an unknown one none; descriptors are those of the device in bytes, the capacity being the length where none is reported |
| ZoneReport.ReportedExactly | libzbd-2.0.3/lib/zbd.c:520-626 | a report lists exactly the zones of the cover that its option reports, each once, in order, and describes them faithfully |
| ZoneReport.ZbdReportZones | libzbd-2.0.3/lib/zbd.c:520-626 | for any chunks the loop ends with the first `nr_zones` zones of the cover that pass the filter; without an array with their number |
| ZoneReport.ZbdListZones | libzbd-2.0.3/lib/zbd.c:631-671 | allocates exactly as many entries as it fills, with all zones that pass |
| ZoneReport.OperationRange | libzbd-2.0.3/lib/zbd.c:710-750 | the sectors passed to the device are exactly those of the cover; none past the device |
| ZoneReport.OperationOnOneZone | libzbd-2.0.3/tools/cli/zbd_dump.c:639-651 | an operation on the start and length of a zone reaches that zone and no other |
| TargetDevice.CountsUpdate | libzbd-2.0.3/include/libzbd/zbd.h:503-505 | how the open and active counts follow one zone's condition |
| TargetDevice.Target.SetCond | libzbd-2.0.3/include/libzbd/zbd.h:186-192 | a condition changes exactly if the limits allow it |
| TargetDevice.Target.Reset | libzbd-2.0.3/include/libzbd/zbd.h:433-436 | a reset empties one sequential zone |
| TargetDevice.Target.Open | libzbd-2.0.3/include/libzbd/zbd.h:450-453 | an explicit open succeeds exactly within the limits |
| TargetDevice.Target.Close | libzbd-2.0.3/include/libzbd/zbd.h:467-470 | a close leaves an open zone CLOSED, or EMPTY without data |
| TargetDevice.Target.PWrite | libzbd-2.0.3/tools/cli/zbd_dump.c:610-614 | a write succeeds exactly in a conventional zone, or at the write pointer with a zone resource to spare; it stores the bytes and moves that zone only |
| ZoneRestore.SelectedOnce | libzbd-2.0.3/tools/cli/zbd_dump.c:732-782 | pass 2 takes the conventional and FULL zones, 3 the CLOSED, 4 the EXP_OPEN and 5 the IMP_OPEN ones; each zone is taken by at most one pass, and by none exactly if it was dumped as EMPTY |
| ZoneRestore.DominatedCounts | libzbd-2.0.3/tools/cli/zbd_dump.c:504-508 | zones that are open or active in one device only if so in another are no more there |
| ZoneRestore.CopyChunk | libzbd-2.0.3/tools/cli/zbd_dump.c:597-617 | a chunk of a sequential zone is written exactly at its write pointer |
| ZoneRestore.RestoreZoneData | libzbd-2.0.3/tools/cli/zbd_dump.c:584-620 | copies, in any number of chunks, exactly the capacity of a conventional or FULL zone and what lies below the write pointer of any other, and nothing else |
| ZoneRestore.RestoreOneZone | libzbd-2.0.3/tools/cli/zbd_dump.c:622-662 | an empty zone with resources to spare ends up with the dumped data, write pointer and condition, except that a CLOSED zone without data fails and leaves it alone and an IMP_OPEN one without data leaves it EMPTY; without resources to spare every zone that would not stay EMPTY fails |
| ZoneRestore.ProgressStep | libzbd-2.0.3/tools/cli/zbd_dump.c:732-782 | restoring one zone keeps what holds of all zones between two steps of the passes |
| ZoneRestore.NeverAhead | libzbd-2.0.3/tools/cli/zbd_dump.c:707-782 | at every step a target zone is open or active only if it is so in the dump |
| ZoneRestore.SpareZone | libzbd-2.0.3/tools/cli/zbd_dump.c:707-782 | at every zone's turn the target has an open and an active zone to spare |
| ZoneRestore.RestoreInIndexOrder | libzbd-2.0.3/tools/cli/zbd_dump.c:707-711 | a restore in a single pass in index order succeeds if and only if no zone is CLOSED without data, no CLOSED or FULL one comes when the open zones before it fill the open limit, and no FULL one when the active zones before it fill the active limit |
| ZoneRestore.IndexOrderFails | libzbd-2.0.3/tools/cli/zbd_dump.c:707-711 | so with one open zone allowed it fails on IMP_OPEN, FULL, although the dump is within the limits and the five passes restore it |
| ZoneRestore.ResetPass | libzbd-2.0.3/tools/cli/zbd_dump.c:713-730 | pass 1 resets the sequential zones of the range not dumped as EMPTY, and no others |
| ZoneRestore.RestorePass | libzbd-2.0.3/tools/cli/zbd_dump.c:732-782 | each later pass restores its zones and readies the next pass; only pass 3 can fail, at the first CLOSED zone without data |
| ZoneRestore.LoadCheck | libzbd-2.0.3/tools/cli/zbd_dump.c:473-526 | accepts exactly the dumps whose zones agree with the target and whose open and active counts fit its limits |
| ZoneRestore.OutcomeOf | libzbd-2.0.3/tools/cli/zbd_dump.c:713-782 | what is left of each zone, also when the restore stops: outside the range or dumped as EMPTY, as before; the first CLOSED zone without data, later CLOSED zones and then all open zones, EMPTY; IMP_OPEN without data, EMPTY; all others as dumped |
| ZoneRestore.RangeMatchesExactly | libzbd-2.0.3/tools/cli/zbd_dump.c:713-782 | the range ends up as dumped if and only if none of its zones is CLOSED or IMP_OPEN without data and its zones dumped as EMPTY were empty |
| ZoneRestore.ZbdRestore | libzbd-2.0.3/tools/cli/zbd_dump.c:664-802 | a rejected dump leaves the target alone; otherwise, if the zones not restored are not active, the restore succeeds if and only if no zone of the range is CLOSED without data, and both statements above hold of its result |
| ZoneRestore.ClosedWithoutDataStops | libzbd-2.0.3/tools/cli/zbd_dump.c:639-648 | a dump on which it fails: CLOSED without data, then EXP_OPEN with data; both zones are left EMPTY |
| ZoneRestore.DumpOneZone | libzbd-2.0.3/tools/cli/zbd_dump.c:150-190 | copies exactly that to its address in the file |
| ZoneRestore.DumpZoneData | libzbd-2.0.3/tools/cli/zbd_dump.c:192-267 | the file is as large as the device and holds the data of all zones of the range |
| ZoneRestore.DumpThenRestore | libzbd-2.0.3/tools/cli/zbd_dump.c:335-377 | round trip: it succeeds if and only if no zone of the range is CLOSED without data, and then the zones end up with the source's conditions, write pointers and data, for conventional and FULL zones their whole capacity and for others all below the write pointer, except for zones IMP_OPEN without data and zones EMPTY on the source only |
| EndToEnd.EveryPrefix | zns_simulation.cc:163-207 | a run passes through every prefix of its trace and holds at each what that prefix stands for |
| EndToEnd.ReachableStates | zns_simulation.cc:144-208 | in every reachable state: EMPTY exactly past the write pointer, a lifetime exactly when VALID, keys of VALID pages distinct and indexed to them, indexed keys held by VALID pages, fewer than `gl` zones queued |
| EndToEnd.Simulate | main.cc:11-43 | the generated trace is well formed, and a simulation of it that succeeds ends up holding the trace's map |

## Left out

Places where the code departs from its evident intent; the intent is modelled:

- Candidate flags: `can_zone` is never cleared (zns_simulation.cc:283); here no zone is a candidate at first.
- Scan for VALID blocks: it has no bound (zns_simulation.cc:475, 493-496); here it stops at the end of the zone, also if the zone has no VALID block.
- Deleting the only record of a page: the code walks the padding and writes an empty page (zns_simulation.cc:405-411); here no page is written.
- Stop test of the parse loops: the code reads the marker before it tests the address (zns_simulation.cc:406-408, 489-491), and the collector does not test a freshly read page (508-512); here the address is tested first, on every page.
- SelectZone: without an eligible zone the code uses an unset variable or fails an assertion (zns_simulation.cc:281, 327); here the run ends without a result.
- LifetimeVariance: a zone without positive lifetimes has no variance (the code divides by zero, zns_simulation.cc:218); it does not count as above the threshold.
- End of input: the code processes the last line twice and never flushes the last ADD buffer (zns_simulation.cc:163-164); here the trace is a sequence and the unflushed buffer is part of the result.

Parts of the store and the trace generator that are not modelled:

- Floating point and machine integers: rates, means and thresholds are reals; offsets and products are mathematical integers.
- Payload bytes: the code copies whatever memory follows the size (zns_simulation.cc:134); here they are arbitrary, and a value is its size.
- Local arrays `key` and `value_size`: sequences whose bound of 256 is a lemma; `zone_conds` and `garbage_rate` are computed where they are used.
- Create: does not model endless probing, because the original's loops need not end (HotProbeEnds); each has a bound on its steps, and generation ends early when it is reached. A bound of `MAX_KEY` stops no probe that would have ended.
- Simulation output, timing, the sequential workload constructor, the commented-out placement variants, and `compare.cc`: they would only add easy members.

Parts of `libzbd` that are not modelled:

- READONLY and OFFLINE zones in dump and restore: a dump has none, though the load check treats those of the target.
- ZbdRestore: does not compare the write pointer of a FULL zone, because a device leaves it undefined.
- Close: closing an EMPTY zone fails, and an open zone without data is left EMPTY; devices differ in both, and one that keeps such a zone CLOSED is not modelled.
- Implicit closing: a real device may close an implicitly open zone to make room; the model's device never does, so that success here does not depend on it.
- Short reads and writes, restore counters, fsync, paths, header fields other than sizes and zone descriptors, option parsing and `zbd_dump_report_zones`.
- Device answers with no zone, bad descriptors, null arguments and lack of memory in `zbd_report_zones` and `zbd_list_zones`; which operation an ioctl carries out in `zbd_zones_operation`.
- Device opening, sysfs access, the graphical tools and the viewer.
