# ALVS: model and proofs

ALVS is a hardware-accelerated LVS load balancer. Its control plane builds lookup tables; its data plane
schedules, tracks, ages and replicates connections. This project models the parts where state, loops and
arithmetic interact, and proves what they keep over whole runs.

| file | models | main theorem |
|---|---|---|
| `Fib.dfy` | the route table, a priority TCAM rewritten slot by slot | `Fib.Replay`: longest-prefix match after any run of route events, and between any two slot writes the table answers for some prefix of the run, moving only forward |
| `IndexPool.dfy` | the circular queue of free indices | `IndexPool.Replay`, `IndexPool.NoDoubleHandout` |
| `Overload.dfy` | lock-free admission to a server | `Overload.NeverOverAdmitted` for every interleaving, `Overload.HysteresisSurvivesIff` |
| `Weights.dfy`, `Buckets.dfy` | weight reduction and the three bucket fills | `Buckets.GreedyIsLevelOrder`, `Buckets.WrrFair`, `Buckets.ShShare` |
| `Sched.dfy` | publication of slots and their use by the data plane | `Sched.SchedInfo.Recalculate`, `Sched.Scheduler.ScheduleSh`, `Sched.Scheduler.ScheduleRr` |
| `Service.dfy` | the requests that change a service's servers | `Service.Run`, and two failures: `Service.ServiceDb.ModifyService` with its exact condition, `Service.ModifyExactly` |
| `Conn.dfy`, `ConnTable.dfy` | connection hash, info table, index allocator and counters | `ConnTable.Run`: bijection of the tables and conservation of the counters over any run |
| `Dispatch.dfy` | scheduling and creation together | `Dispatch.NewConnection`, `Dispatch.NewConnectionRr` |
| `Aging.dfy` | aging scans with wrapping iteration numbers | `Aging.IdleRule`, `Aging.TimerIsExactIff`, `Aging.ResetCondemnsIff` |
| `Lifetime.dfy` | one connection within a run of the tables | `Lifetime.Live`: in any run a connection is deleted when, and only when, the rules of `Aging` say so |
| `SyncWire.dfy`, `SyncMaster.dfy`, `SyncBackup.dfy` | state synchronisation: format, packing, parsing | `SyncMaster.SendEvent`, `SyncBackup.Backup` |
| `SyncRoundTrip.dfy`, `SyncRecord.dfy`, `Mirror.dfy` | master and backup together | `SyncRoundTrip.Replicate`, `SyncRecord.Idempotent`, `Mirror.MirrorEvent` |

`dafny verify dfyconfig.toml` checks the project.

## How the system is modelled

- The TCAM is an array of optional (key, mask, result) entries of which the lowest matching index wins. The
  internal database is a map, and each ordered `SELECT` a snapshot of it. Every TCAM write is recorded in a
  ghost history, so that statements about the table between two writes can be made.
- Admission is modelled twice: as sequential operations, and as the atomic accesses of any number of threads
  in any order. `Overload.AloneIsSequential` connects the two.
- Packets, scans of single entries and control-plane requests are atomic steps. What the hardware decides,
  a free connection index and room in the hash, comes with each step.
- `ezdp_mod` is assumed to stay below its modulus where it picks slots, and to be the remainder where it
  computes iteration marks. The laws about which slot is picked when the number of slots is no power of two
  assume either reading of its shift argument: the remainder of the value, or of its lower 16 bits, and with
  a shift of 16 that of its upper bits. `ezdp_hash` has an 8-bit result. The IPv4 checksum is an unknown function of the
  length. The buffer size is any number that lets the source's own length counters work (150 to 256).
- The ids of timer events start over after a number of iterations. The control plane configures 60
  (src/cp/infrastructure.c, lines 661 to 663: 60 iterations of events in 960 seconds); that an id restarts at
  the end of this period is a property of the timer hardware and is assumed. The statements about aging take
  the number as a parameter where they can.
- Synchronisation messages are byte strings in network byte order. Loading a frame buffer back puts its
  bytes at the start of the frame memory. The synchronisation `flags` constants are those of linux/ip_vs.h,
  which the source includes but does not contain.
- An address is 32 bits, most significant first; conversions of byte order (`bswap`) are not represented.

## Where the code does not do what it is meant to do

Each of these is proved, with the exact condition under which the code does meet the intention, except where
the entry says that only one direction is proved.

- Hysteresis. A creation that went over the threshold may raise OVERLOAD after the last connection is gone.
  For every limit there is such an interleaving, so the invariant survives interference iff there is no
  limit (`Overload.HysteresisSurvivesIff`). From such a state no run of any threads is ever admitted a
  connection again, unless the server has a low mark and a limit above one (`Overload.IdleOverloadRecovers`).
- Slot count. `alvs_db_modify_server` and `alvs_db_delete_server` publish the new number of slots but do not
  store it, and `alvs_db_modify_service` publishes the stored one. It publishes the right number iff the
  algorithm changes or the stored number happens to be right (`Service.ServiceDb.ModifyService`,
  `Service.StaleCount`). With a wrong number that is a power of two the data plane's retries are of no use: a pick
  succeeds iff the counter selects a filled slot at once (`Sched.SameCountPicksIff`).
- Change of weight. The old weight is kept in 8 bits, so a change from a weight of 256 or more to its
  remainder modulo 256 goes unnoticed. Under round robin the slots are then right iff the server keeps a
  weight; under weighted round robin and source hashing, if the reduced weights fit the bucket before and
  after, iff it also is the only server in use (`Service.ModifyExactly`). Where they do not fit, only one
  direction is proved: the slots are right unless the change is hidden (`Service.ServiceDb.ModifyServer`).
- Reset. A packet with RST closes its connection for good iff the server is available and the entry is not
  yet marked for deletion; otherwise a later packet revives it (`Aging.ResetCondemnsIff`).
- Sync header. The master never writes the `reserved` byte of the sync header, and the backup insists on
  zero: a frame is processed iff the frame memory happened to hold zero there and the sync ids agree
  (`SyncRoundTrip.FrameRoundTrip`).
- Totals on the backup. A record that creates a bound connection counts it as active or inactive but not in
  the total, and a creation that fails takes one from the total that was never added. So total = active +
  inactive is kept iff the record needs no new entry, or its server is unknown and there is room for the entry
  or no other server was looked up (`SyncRecord.TotalsKept`).
- Counts on the backup. A record keeps the active and inactive counters right iff it has no effect, updates a
  bound entry with a flag that agrees with the state stored in 8 bits, updates an unbound entry without binding
  it, or creates an entry that is unbound or stored in the state it is counted by, without replacing an
  unbound entry whose address is the index of a server (`SyncRecord.CountsKept`).
- Repeated records. Processing a record twice is processing it once iff it creates no entry, or finds room and
  has an INACTIVE flag that agrees with its state, or finds no room either time and there is no server to take
  a place from (`SyncRecord.Idempotent`).
- Marks on the backup. An update does not clear a mark for deletion, so a mirrored connection outlives the
  backup's next scan iff its entry is new or was not marked (`SyncRecord.NextScanKeepsIff`).

## Model

| member | source | states |
|---|---|---|
| `Fib.MatchIsCover` | src/cp/nw_db.c:312-324 | the key and shifted mask written to the TCAM match exactly the addresses whose leading bits are the route's, for every length 0 to 32 |
| `Fib.LpmUnique` | src/dp/nw_routing.h:124-169 | with canonical prefixes longest-prefix match determines the answer for an address |
| `Fib.SortedImageIsLpm` | src/dp/nw_routing.h:124-169 | lowest-index match on a table sorted by prefix length is longest-prefix match over the database |
| `Fib.SpreadKeepsLookup` | src/cp/nw_db.c:453-487 | a table in the middle of an upward shift answers every lookup as before the shift |
| `Fib.ClosingIsClosed` | src/cp/nw_db.c:537-571 | after the first downward copy every lookup already answers as after the deletion |
| `Fib.SelectOrdered` | src/cp/nw_db.c:425-428 | the rows selected, each once, in ascending slot order |
| `Fib.FibDb.MoveUp` | src/cp/nw_db.c:414-491 | frees the slot in front of all shorter routes; database and TCAM move together; no lookup changes at any write |
| `Fib.FibDb.MoveDown` | src/cp/nw_db.c:504-574 | closes the gap of a deleted route; every table written answers as if it were already gone |
| `Fib.FibDb.Add` | src/cp/nw_db.c:624-696 | refuses a known route or a full table without effect; otherwise adds exactly that route and keeps slots contiguous, sorted and equal to the database; lookups change with the last write only |
| `Fib.FibDb.Delete` | src/cp/nw_db.c:708-771 | removes exactly that route and keeps the table's invariant; lookups change with the first write only |
| `Fib.FibDb.Modify` | src/cp/nw_db.c:783-831 | replaces a known route's result in place with one write |
| `Fib.StepRealises` | src/cp/nw_db.c:584-612 | what the database stores for a route acts as the route asks, also when a modification keeps a stale next hop |
| `Fib.Handle` | src/cp/nw_db.c:624-831 | of the tables one event writes, those before one switch point answer as before the event, the others as after it |
| `Fib.Replay` | src/cp/nw_db.c:414-831 | after any run of route events from empty every address is routed by its longest matching route in force; every table in between answers for a prefix of the run, never going back |
| `IndexPool.Pool.constructor` | src/cp/index_pool.h:70-91 | a new pool has all indices free, in ascending order |
| `IndexPool.Pool.Rewind` | src/cp/index_pool.h:45-60 | frees all indices, in ascending order, from any state |
| `IndexPool.Pool.Alloc` | src/cp/index_pool.h:117-131 | hands out the head of the queue and fails iff it is empty |
| `IndexPool.Pool.Release` | src/cp/index_pool.h:141-164 | appends an allocated index to the queue; out-of-range and double releases change nothing |
| `IndexPool.EmptyIffAllAllocated` | src/cp/index_pool.h:119-122 | the queue is empty iff every index is allocated |
| `IndexPool.NoDoubleHandout` | src/cp/index_pool.h:117-164 | in any run an index handed out twice was released, or the pool rewound, in between |
| `IndexPool.Replay` | src/cp/index_pool.h:45-164 | the circular buffer hands out exactly what the first-in first-out queue does, in every run |
| `Overload.HysteresisSwitch` | src/dp/alvs_server.h:91-150 | under the invariant all branches collapse to a two-state switch, and both operations keep the invariant |
| `Overload.ServeKeepsHysteresis` | src/dp/alvs_server.h:80-216 | in every sequential run a full server is overloaded and an overloaded one has not dropped below its low mark |
| `Overload.ServeInNumbers` | src/dp/alvs_server.h:94-215 | in every sequential run: at most the limit; at the limit overloaded; overloaded at least the low mark or, without one, three quarters of the limit |
| `Overload.NextInNumbers` | src/dp/alvs_server.h:94-215 | what each open and close does to counter and flag at the end of any run, in those numbers |
| `Overload.ServerLoad.OnCreateConn` | src/dp/alvs_server.h:80-162 | the counter, flag and answer of the code are those of the sequential law; also in numbers, for any thresholds and any earlier state |
| `Overload.ServerLoad.OnDeleteConn` | src/dp/alvs_server.h:172-216 | one less, and OVERLOAD stays iff it was up and the counter has not dropped below the low mark or, without one, three quarters of the limit |
| `Overload.ActKeepsSafe` | src/dp/alvs_server.h:80-216 | every atomic step of every thread keeps counter = admitted + refusals not yet undone, and admitted within the limit |
| `Overload.NeverOverAdmitted` | src/dp/alvs_server.h:80-216 | the same after every interleaving of any number of creating and deleting threads |
| `Overload.AloneIsSequential` | src/dp/alvs_server.h:80-216 | the atomic steps of one thread without interference are the sequential operations |
| `Overload.RaceLosesHysteresis` | src/dp/alvs_server.h:120-131 | for every limit an interleaving that leaves an empty server overloaded with no thread under way |
| `Overload.HysteresisSurvivesIff` | src/dp/alvs_server.h:80-216 | all states at rest of all interleavings keep the hysteresis iff there is no limit |
| `Overload.IdleOverloadRecovers` | src/dp/alvs_server.h:80-216 | after any run that leaves the server idle but overloaded, some further run of any threads is admitted iff there is no limit, or a low mark and a limit above one |
| `Overload.LockedForGood` | src/dp/alvs_server.h:94-148 | otherwise every further interleaving keeps the flag up and admits nothing |
| `Weights.Gcd` | src/cp/alvs_db.c:1298-1307 | the result divides both numbers and every common divisor divides it |
| `Weights.ReduceWeights` | src/cp/alvs_db.c:1317-1336 | every weight, divided in place, times the divisor of all is the old weight, also with the early exit and the second pass starting at the last node |
| `Weights.ReducedIsCoprime` | src/cp/alvs_db.c:1317-1336 | the reduced weights have no common divisor left and stand in the old ratios |
| `Buckets.GetMaxWeightServer` | src/cp/alvs_db.c:1348-1363 | the first server of greatest weight, none iff all are zero |
| `Buckets.GreedyIsLevelOrder` | src/cp/alvs_db.c:1398-1414 | every run of the greedy rule is a prefix of the level-order schedule, and all of it once the weights are used up |
| `Buckets.WrrFill` | src/cp/alvs_db.c:1398-1414 | the bucket holds the first 256 items of the level-order schedule and then nothing |
| `Buckets.WrrFair` | src/cp/alvs_db.c:1398-1414 | in every prefix a heavier server has no fewer slots than a lighter one, and equal ones differ by at most one |
| `Buckets.WrrExact` | src/cp/alvs_db.c:1398-1414 | weights that fit the bucket are given exactly |
| `Buckets.ShFill` | src/cp/alvs_db.c:1425-1439 | slot k holds item k modulo W of the list of servers repeated by weight, W being the sum of weights |
| `Buckets.ShShare` | src/cp/alvs_db.c:1425-1439 | a server of weight w gets between (256 / W) w and (256 / W) w + w slots |
| `Buckets.RrFill` | src/cp/alvs_db.c:1376-1385 | the servers in list order, once each, as far as the bucket reaches |
| `Buckets.RrOnce` | src/cp/alvs_db.c:1376-1385 | up to 256 servers have exactly one slot each |
| `Sched.SchedInfo.FillBucket` | src/cp/alvs_db.c:1475-1497 | the bucket holds what the algorithm prescribes for the reduced weights; unknown algorithms are refused iff there are servers |
| `Sched.SchedInfo.Publish` | src/cp/alvs_db.c:1499-1532 | the service's block holds exactly the bucket's servers as a prefix, their number is returned, other blocks are untouched |
| `Sched.SchedInfo.Recalculate` | src/cp/alvs_db.c:1451-1539 | publishes the schedule prescribed for the active servers of non-zero weight, or changes nothing |
| `Sched.BlocksDisjoint` | src/cp/alvs_db.c:1503 | no slot belongs to two services |
| `Sched.OthersStayPublished` | src/cp/alvs_db.c:1499-1532 | a publication leaves what other services have published |
| `Sched.MaskIsModulo` | src/dp/alvs_sched.h:247-249 | masking with n - 1 is the remainder modulo n for every n with a single bit |
| `Sched.RrIndexInRange` | src/dp/alvs_sched.h:247-256 | both forms of the index stay below the number of slots, for every counter value |
| `Sched.RrAlwaysFindsServer` | src/dp/alvs_sched.h:245-257 | after a publication every counter value selects a filled slot of the service's own block, holding an eligible server |
| `Sched.RrWalks` | src/dp/alvs_sched.h:241-249 | with a power of two of slots the 32-bit counter walks them cyclically, also across its wrap-around |
| `Sched.RrIndexIsModulo` | src/dp/alvs_sched.h:245-256 | for every number of slots the first 65536 counter values select slot counter mod number, by either reading of the hardware remainder |
| `Sched.RrStep` | src/dp/alvs_sched.h:245-256 | within any block of 65536 counter values the next one selects the next slot, cyclically |
| `Sched.RrReachesAll` | src/dp/alvs_sched.h:241-257 | as many consecutive picks as there are slots reach every slot exactly once |
| `Sched.WrrSharesByWeight` | src/cp/alvs_db.c:1398-1414 | if the reduced weights fit, each server has exactly weight / divisor slots |
| `Sched.ShBlockIsFull` | src/cp/alvs_db.c:1425-1439 | a published source-hash schedule leaves no slot of the block empty |
| `Sched.RefusalIsStable` | src/dp/alvs_server.h:91-150 | a refusal leaves the counter alone and is repeated when asked again |
| `Sched.Scheduler.GetServerInfo` | src/dp/alvs_sched.h:135-171 | the outcome of a probe and its effect on the server's load |
| `Sched.Scheduler.ScheduleSh` | src/dp/alvs_sched.h:181-224 | on any block picks the first server that accepts, cyclically from the hashed slot, if all before it refuse, and otherwise none; exactly the picked server is counted once, in every case |
| `Sched.ReachesEverySlot` | src/dp/alvs_sched.h:201-207 | the walk begins at the hashed slot and comes to every slot of the block |
| `Sched.FailsIfAllRefuse` | src/dp/alvs_sched.h:201-213 | on a full block it fails only if all 256 refuse |
| `Sched.Scheduler.ScheduleRr` | src/dp/alvs_sched.h:233-289 | the counter advances by one, also across 32 bits; the pick is the server the probe sequence ends at, if it accepts, and with an up-to-date count of any size that of slot counter mod count; exactly that server is counted, in every case |
| `Sched.OneRetrySuffices` | src/dp/alvs_sched.h:245-271 | whatever count was read before, with the published one at hand the second probe at the latest is of a filled slot |
| `Sched.SameCountPicksIff` | src/dp/alvs_sched.h:245-271 | with a count that stays the same and is a power of two, right or wrong, a filled slot is reached iff the counter selects one at once |
| `Sched.RrSlotWhenKnown` | src/dp/alvs_sched.h:245-257 | with an up-to-date count the pick is the slot the counter selects |
| `Service.ServiceDb.AddServer` | src/cp/alvs_db.c:2342-2564 | refused at 256 active servers, if active already, or without an index; otherwise adds or reactivates the server, and slots and both counts agree |
| `Service.ServiceDb.ModifyServer` | src/cp/alvs_db.c:2578-2712 | changes the weight of an active server; the slots follow unless the change is hidden by the 8-bit comparison; the stored count is not brought up to date |
| `Service.ServiceDb.DeleteServer` | src/cp/alvs_db.c:2725-2841 | deactivates an active server and republishes if it had a weight; the stored count is not brought up to date |
| `Service.ServiceDb.ModifyService` | src/cp/alvs_db.c:2090-2164 | the data plane is told the right number of slots iff the algorithm changes or the stored number is right |
| `Service.Handle` | src/cp/alvs_db.c:2090-2841 | each request with a weight below 256 keeps the slots right; each keeps the data plane's count right unless it changes the service while the two counts differ |
| `Service.Run` | src/cp/alvs_db.c:2090-2841 | over any run of requests at most 256 servers are active; with weights below 256 the slots are those prescribed for the present servers; the data plane knows how many slots were last published if no change of the service follows a change of a server |
| `Service.RrEachOnce` | src/cp/alvs_db.c:2394-2400 | under the limit of 256 active servers round robin holds each eligible server exactly once |
| `Service.StaleCount` | src/cp/alvs_db.c:2797-2815 | deleting a server of any round-robin service and then changing the service leaves the published count one too high |
| `Service.ModifyExactly` | src/cp/alvs_db.c:2653-2696 | after a change of weight the slots are right iff it is not hidden, or under round robin leaves a weight, or under the other algorithms, reduced weights fitting, leaves a weight to the only server in use |
| `Service.HiddenExact` | src/cp/alvs_db.c:2676 | the same for the slots alone, of any published schedule that is not recalculated |
| `Service.ScheduleDetermines` | src/cp/alvs_db.c:1398-1439 | a weighted or source-hash schedule of two or more servers that holds all reduced weights determines them |
| `Buckets.ShDetermines` | src/cp/alvs_db.c:1425-1439 | the same for source hashing, by where each server begins |
| `Weights.ReducedUnique` | src/cp/alvs_db.c:1317-1336 | weights have only one reduction |
| `Conn.NeverReopens` | src/dp/alvs_conn.h:540-635 | no run of packets reopens a closing connection or touches a reset one |
| `Conn.LinkedWith` | src/dp/alvs_conn.h:85-152 | inserting at a free index under a new key keeps hash, info table and allocator in bijection |
| `Conn.LinkedWithout` | src/dp/alvs_conn.h:291-326 | so does removing an entry together with its key and index |
| `Conn.BalancedWith` | src/dp/alvs_conn.h:154-162 | counting a new entry by its state keeps the counters equal to the number of entries |
| `Conn.BalancedWithout` | src/dp/alvs_conn.h:316-321 | so does uncounting a removed one |
| `Conn.BalancedUpdate` | src/dp/alvs_conn.h:200-210 | and moving one between the counts when its state changes |
| `ConnTable.ConnDb.CreateNewEntry` | src/dp/alvs_conn.h:77-172 | succeeds iff there are an index and room in the hash; otherwise all tables are as before and the place is given back |
| `ConnTable.ConnDb.UpdateState` | src/dp/alvs_conn.h:182-228 | a FIN moves an established entry to CLOSE_WAIT and from active to inactive; an entry closing already or marked for deletion is left alone |
| `ConnTable.ConnDb.MarkToDelete` | src/dp/alvs_conn.h:238-282 | marks an entry once; a reset also closes it and moves its count |
| `ConnTable.ConnDb.Refresh` | src/dp/alvs_conn.h:357-390 | marks an entry active and not to be deleted, and changes no counter |
| `ConnTable.ConnDb.AgeOut` | src/dp/alvs_conn.h:447-482 | marks an entry idle with the mark of the iteration |
| `ConnTable.ConnDb.DeleteConn` | src/dp/alvs_conn.h:291-349 | removes one connection from all tables, uncounts it by its state and gives its place back |
| `ConnTable.ConnDb.DataPath` | src/dp/alvs_conn.h:540-635 | a packet changes only its own connection: FIN and RST close it and move one from active to inactive on its server, RST also dooms it, an unavailable server dooms it, other packets refresh it and move nothing |
| `ConnTable.ConnDb.ScheduleNew` | src/dp/alvs_service.h:72-155 | ignores the packet if the service has no slots; retries if the connection exists by now; otherwise creates it on the first server that grants a place, closed at once after FIN or RST and doomed after RST, and counts it by its state; every failure leaves the tables and gives the place back |
| `ConnTable.ConnDb.Ask` | src/dp/alvs_service.h:113-136 | the first server asked that grants a place has exactly that place reserved; without one nothing changes |
| `ConnTable.ConnDb.Scan` | src/dp/alvs_aging.h:80-124 | deletes the entry at one index if it is marked for deletion or idle with its mark (modulo 60 or 1) come up, marks it idle if it is active, and else leaves it alone |
| `ConnTable.ConnDb.HandleAgingEvent` | src/dp/alvs_aging.h:46-133 | scans exactly the 128 indices of the event's id and returns those found active, in order; totals and OVERLOAD flags are those of the deletions made, one after the other |
| `ConnTable.Perform` | src/dp/alvs_conn.h:77-635 | every packet, aging event and change of availability acts on each entry by itself and adds at most a fresh one |
| `ConnTable.Run` | src/dp/alvs_conn.h:77-635 | after any run of packets, aging events and changes of availability: an index is allocated iff an entry is there iff one key leads to it; active counts the established entries, inactive the others, total is their sum and within the limit (sampled by verification/testing/e2e_infra.py, line 510); a reset entry is marked for deletion |
| `Dispatch.AskedAsScheduled` | src/dp/alvs_sched.h:181-224 | the server that grants the place is the one source hashing picks |
| `Dispatch.NewConnection` | src/dp/alvs_service.h:72-155 | a new connection of a source-hashed service is bound to the first accepting server from its hashed slot on, or nothing changes, whatever the block holds |
| `Dispatch.NewConnectionRr` | src/dp/alvs_service.h:72-155 | on a round-robin service it is bound to the server the pick ends at, if that accepts and there is room; the counter advances iff a pick is made |
| `Aging.ScannedOncePerIteration` | src/dp/alvs_aging.h:51-79 | in every iteration, counted without end, exactly one event scans an index, whatever the period after which ids start over |
| `Aging.StaysUntil` | src/dp/alvs_aging.h:80-124 | an entry marked idle and left alone stays as it is while its mark does not come up |
| `Aging.DeletionRule` | src/dp/alvs_aging.h:46-126 | for every period of the timer and whatever packets come, a scan deletes a connection iff it finds it marked for deletion, or its idle mark comes up for the first time with no packet since |
| `Aging.MarkReturns` | src/dp/alvs_utils.h:49-61 | with a period of 60, 120, 180 or 240 iterations a mark comes up for the first time after exactly the iterations of the state |
| `Aging.IdleRule` | src/dp/alvs_aging.h:46-126 | with such a period a scan deletes a connection iff it finds it marked for deletion, or it was marked idle exactly 60 iterations ago (1 if closing) with no packet since |
| `Aging.TimerIsExactIff` | src/dp/alvs_aging.h:51 | the idle rule holds for all connections iff the period is 60, 120, 180 or 240 iterations |
| `Aging.ConfiguredTimeout` | src/cp/infrastructure.c:661-663 | the idle rule for every new connection with the timer as configured |
| `Lifetime.SamePackets` | src/dp/alvs_aging.h:80-124 | what has become of a connection depends on the packets so far only |
| `Lifetime.Live` | src/dp/alvs_aging.h:46-133 | in any run of packets of all connections, aging events in order and changes of availability, a connection's entry is what those rules make of its own packets, and it goes in the scan, and only in the scan, in which they delete it |
| `Aging.CondemnedIffReset` | src/dp/alvs_conn.h:564-571 | the next scan deletes an entry whatever packets still come iff it is marked reset |
| `Aging.ResetCondemnsIff` | src/dp/alvs_conn.h:256-264 | a RST has that effect iff the server is available and the entry not yet marked for deletion |
| `SyncWire.HeaderRoundTrip` | src/dp/alvs_defs.h:194-212 | decoding inverts encoding of the sync header |
| `SyncWire.ConnRoundTrip` | src/dp/alvs_defs.h:215-249 | decoding inverts encoding of a record, its 4-bit and 12-bit fields included |
| `SyncWire.ConnRoundTripBack` | src/dp/alvs_defs.h:215-249 | every 36 bytes are the encoding of what they decode to |
| `SyncWire.ConnLayout` | src/dp/alvs_defs.h:215-249 | where each field of a record stands, most significant byte first |
| `SyncWire.HeaderLayout` | src/dp/alvs_defs.h:194-212 | where each field of the sync header stands |
| `SyncBackup.Gather` | src/dp/alvs_state_sync_backup.h:342-366 | reads the next bytes across buffers, using the tail, and fails iff too few are left in all of them |
| `SyncBackup.Backup` | src/dp/alvs_state_sync_backup.h:269-388 | for every split into buffers, empty ones included, effect and outcome are those of parsing the concatenated bytes |
| `SyncBackup.FirstBytesDecide` | src/dp/alvs_state_sync_backup.h:298-337 | a message that is too short, of another sync id, of a version other than 1 or with reserved bytes that are not zero has no effect; otherwise its fifth byte counts the records |
| `SyncMaster.PatchedPrologue` | src/dp/alvs_state_sync_master.h:366-377 | correcting the length fields in place gives the headers of a message of that many records and moves nothing else |
| `SyncMaster.LengthsMatch` | src/dp/alvs_state_sync_master.h:53-65 | IPv4 length, UDP length, sync size and record count of a frame, read at their places, say what is there |
| `SyncMaster.FieldsMatch` | src/dp/alvs_state_sync_master.h:74-161 | addresses, ports, protocol, hop limit, sync id and version of a frame, read at their places; at most 5 buffers, none overfull |
| `SyncMaster.CountersFit` | src/dp/alvs_state_sync_master.h:396-445 | a buffer holds at most 7 records, a frame at most 35, and the 8-bit length does not wrap |
| `SyncMaster.SyncMaster.First` | src/dp/alvs_state_sync_master.h:215-250 | starts a frame with all headers and one record around the unwritten reserved byte |
| `SyncMaster.SyncMaster.AddBuffer` | src/dp/alvs_state_sync_master.h:292-323 | closes the buffer with its used bytes, without the headroom, and starts an empty one |
| `SyncMaster.SyncMaster.SendSingle` | src/dp/alvs_state_sync_master.h:259-279 | sends a well-formed frame of exactly one record |
| `SyncMaster.SyncMaster.SendAggr` | src/dp/alvs_state_sync_master.h:333-382 | sends a well-formed frame of exactly the pending records |
| `SyncMaster.SyncMaster.Aggr` | src/dp/alvs_state_sync_master.h:396-445 | takes exactly one more record; no counter wraps |
| `SyncMaster.SendEvent` | src/dp/alvs_aging.h:59-129 | the frames of an event are well-formed, their records concatenate to the connections found active, and every frame but the last is full |
| `SyncRoundTrip.ParsesRecords` | src/dp/alvs_state_sync_backup.h:337-379 | parsing encoded records processes exactly them, in order |
| `SyncRoundTrip.RunStops` | src/dp/alvs_state_sync_backup.h:368-379 | records are processed up to the first whose code is negative, which ends the message; a positive code skips that record only |
| `SyncRoundTrip.FrameRoundTrip` | src/dp/alvs_state_sync_backup.h:323-388 | a frame of the master makes the backup process exactly its records iff the sync ids agree and the reserved byte is zero; otherwise it has no effect |
| `SyncRoundTrip.Replicate` | src/dp/alvs_state_sync_backup.h:269-388 | however an event's records were packed, the backup ends as if it had processed them one after the other |
| `SyncRecord.BackupDb.DeleteWithoutLock` | src/dp/alvs_conn.h:291-326 | the tables and counters after a deletion, for bound and unbound entries |
| `SyncRecord.BackupDb.ProcessConn` | src/dp/alvs_state_sync_backup.h:54-259 | the new tables, counters and return code for every record and state, with or without room for a new entry |
| `SyncRecord.ProcessKeepsLinked` | src/dp/alvs_state_sync_backup.h:54-259 | every record keeps the tables in bijection |
| `SyncRecord.CountsKept` | src/dp/alvs_state_sync_backup.h:116-255 | exactly which records, from any tables, keep the active and inactive counters equal to the number of bound entries in each state |
| `SyncRecord.CreatedMeans` | src/dp/alvs_state_sync_backup.h:87-98 | key, server, state, marks and flags of the entry a record creates, field by field |
| `SyncRecord.UpdatedMeans` | src/dp/alvs_state_sync_backup.h:184-208 | the same for the entry a record updates; no other entry changes |
| `SyncRecord.UnknownRecords` | src/dp/alvs_state_sync_backup.h:72-85 | an unknown version or type gives the message up, an unknown protocol skips the record, neither has an effect |
| `SyncRecord.BrokenTables` | src/dp/alvs_state_sync_backup.h:121-137 | tables that do not agree make the record be skipped without effect |
| `SyncRecord.StaleRecords` | src/dp/alvs_state_sync_backup.h:146-167 | an inactive record of a connection on another server has no effect |
| `SyncRecord.Idempotent` | src/dp/alvs_state_sync_backup.h:54-259 | a record processed twice gives the tables, counters and code of processing it once iff it creates no entry, or finds room and its flag agrees with its state, or finds none either time and there is no server to take a place from |
| `SyncRecord.TotalsKept` | src/dp/alvs_state_sync_backup.h:233-255 | exactly which records, creations that fail included, keep total = active + inactive |
| `SyncRecord.MoveWithoutRoom` | src/dp/alvs_conn.h:91-98 | a record that moves a connection and finds no room takes two places from the totals |
| `SyncRecord.RecordIsGood` | src/dp/alvs_state_sync_master.h:172-204 | every field of the record of an entry: its connection, its server's address and port, state, flags and timeout in seconds; it is never refused |
| `SyncRecord.ProcessMirrors` | src/dp/alvs_state_sync_backup.h:116-255 | the backup then has the connection as recorded iff the record creates it or the server is the same |
| `SyncRecord.NextScanKeepsIff` | src/dp/alvs_state_sync_backup.h:196-208 | a mirrored connection outlives the next scan iff its entry is new or was not marked for deletion |
| `Mirror.OthersStay` | src/dp/alvs_state_sync_backup.h:54-259 | processing a record leaves every other connection |
| `Mirror.FoldMirrors` | src/dp/alvs_state_sync_backup.h:337-379 | after all records of distinct connections the backup has every one not marked inactive |
| `Mirror.EventMirrors` | src/dp/alvs_aging.h:92-108 | after the records of an event the backup has every connection found established and in use, under its key, established, on a server of the same address and port |
| `Mirror.FoldAccurate` | src/dp/alvs_state_sync_backup.h:171-255 | records of a master, in any number, keep the backup's active and inactive counters right if it knows their servers |
| `Mirror.MirrorEvent` | src/dp/alvs_aging.h:46-133 | one aging event and the delivery of its frames: the backup has every connection the event found established and in use, established, on a server of the same address and port; if none was marked for deletion none of them is, and if it knows the servers its counters stay right |

## Left out

- Failures of SQLite, of writes to the NPS tables and of frame operations, and the error paths behind them.
- `nw_db_add_fib_entry` without reordering: no caller uses it, and it would not keep the order.
- Route destinations wider than 32 bits and the unknown result type of `nw_fib_processing`, which the control plane never writes.
- ConnTable.ConnDb.CreateNewEntry: bound connections only; the conservation laws are about locally scheduled connections, since those created by synchronisation break them as `SyncRecord.TotalsKept` says.
- ConnTable.ConnDb.ScheduleNew: the servers asked are a parameter; `Dispatch` derives them for each algorithm.
- SyncRecord.FailToCreate: the server looked up last by the thread is a parameter; before any lookup a failed creation is taken to lower no total.
- Service.ModifyExactly: for weighted round robin and source hashing with reduced weights that do not fit the bucket, when a hidden change leaves the slots right is open, because the schedule is then cut off and may coincide by chance.
- Binding of unbound connections by later packets (`alvs_conn_bind`), and their data path.
- Locks. Packets and entry scans are atomic steps; a deletion by aging does not look the entry up again under its lock, and one path of `alvs_conn_bind` returns with the lock held.
- Changes of thresholds while connections exist, and thresholds above 16 bits.
- Service-level statistics, traffic counters and the sums printed from them.
- Removal of deactivated servers from the internal database, deletion of services, and restarts.
- Aging events while the master is off, in which the buffer state of an earlier event is not reset.
- A failing interface lookup for the Ethernet header, which leaves old bytes in the frame.
- Netlink and generic-netlink parsing, daemon bookkeeping, interfaces and ARP, logging, start-up, and all scripts.
