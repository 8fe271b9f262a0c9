# Verified model of Mycorrizal's cache and cluster layer

Mycorrizal keeps a leaderless, replicated, in-memory cache inside a Go process. This project
models the parts of it that hold difficult state and proves what they keep.

| files | what they model |
|---|---|
| `geo_grid.dfy`, `geo_cover.dfy`, `geo_store.dfy` | the geo buckets: geohash cells as an integer grid, the flood fill that covers a box, the multi-precision index and its queries |
| `lru_spec.dfy`, `lru_list.dfy` | the LRU bucket: its meaning as a recency-ordered sequence, and the doubly linked list with a hash map that implements it |
| `rendezvous.dfy`, `quorum.dfy`, `routing.dfy` | which nodes replicate a key, quorum writes, composite keys and the caches of routing answers |
| `cluster.dfy`, `effects.dfy`, `provenance.dfy`, `placement.dfy`, `rebalancer.dfy` | replication as a step machine, what its steps send and leave, where stored copies and values come from, where the rebalancers put a key, and the rebalancer cycle |
| `resting.dfy`, `ttl_worker.dfy`, `two_nodes.dfy` | when the replicas keep a value, when a deleted key stays away, when the ttl worker removes no live copy, and concrete runs in which each fails |
| `codec.dfy` | the frames of the QUIC streams: encoders, the incremental reader, decoders |
| `request_reply.dfy`, `registry.dfy` | matching replies to requests by correlation id, and the registry of connections with its dials and retries |
| `common.dfy` | result types and facts about lists and sets |

`dafny verify dfyconfig.toml` checks everything.

## Conventions and assumptions

* Objects whose methods update fields are classes (`GeoStore`, `GeoCache`, `Bucket`,
  `LocalCache`, `RoutingCache`, `Stream` and the decode buffers). Each method is proved against
  a function of the old state, and the laws are proved about those functions. What runs on
  several nodes or in several goroutines at once is a step machine: one step is one critical
  section or one delivered message, and the laws hold for every run.
* Geo coordinates are real numbers, scaled so that each axis of the world is [0, 2^32). A cell
  is a right shift of the integer part. Query boxes may have any bounds, also inverted ones;
  their centre must be in the world. The geohash library is not part of this model: of its
  neighbour function only this is assumed, that at a grid cell it returns grid cells of the
  same precision and among them all adjacent ones. `TorusIsNeighbourFunction` shows that the
  assumption can be met.
* The hash behind the scores is uninterpreted. As the code sorts by score alone, no two nodes
  may give one key the same score. All nodes share one view of the membership.
* Clock readings are parameters. All nodes share one clock.
* Byte strings are sequences of numbers below 256, and a length that does not fit its 16- or
  32-bit field is cut to its low bits, as the Go conversions do.

## Where the code differs from what is meant or said

* Eviction (internal/mycel/local.go:61-79) moves the tail but leaves the new tail linked to the
  evicted node. `LocalCache.Set` models the meant step, which ends the list at the new tail.
  `LocalCache.SetLiteral` models the code as it is: it leaves a well-formed list if and only if
  nothing had to be evicted, and then does what `Set` does. `LiteralEvictionBreaks` is a
  concrete case. A bucket of capacity zero, which nothing rejects, evicts on every set and so
  fails in the same way; `Set` asks for a capacity of at least one.
* internal/mycel/ds.go:35 says that a ttl change moves a key to the front. The code leaves it
  where it is: the key is in front afterwards if and only if it was before
  (`TtlChangeInFront`). `TtlChangeStaysBehind` is a run in which it is not.
* internal/mycel/ds.go:30 says that an entry without a ttl gets the default ttl. In a regular
  bucket it never expires: the deadline is the documented one if and only if a ttl was given or
  the bucket has no default (`LocalCache.Set`). `DefaultTtlIgnored` is a set that fails.
* internal/nodosum/quic.go:366 says that EOF means a graceful close. A frame of any type that is
  cut reads as EOF as well if and only if the cut is at a field boundary (`CutFrameError`).
* The limit of four retries (internal/nodosum/memberlist.go:75-86) holds for the failures that
  are counted between two resets (`RetriesBounded`). A retry is scheduled only after the counter
  is unlocked. Between two resets the limit holds, for the number of retries and for their
  delays, if and only if no failure below the limit was pending at the first of them
  (`LimitHoldsIff`); each pending one can add its retry (`ScheduledBetweenResets`,
  `BoundIsReached`), as in `FifthRetryPossible`.
* Sets carry no version, so an old set that arrives late overwrites a newer one that all
  replicas have (`OldMessageOverwrites`). While the membership rests, the replicas keep a value
  if and only if those that have the key have it, every set on its way to one brings it, and no
  running cycle of one has still to send another (`ValueKeptIff`). `QuorumValueSurvives` says
  when a quorum write keeps its value while nodes join and leave.
* Deletes leave no trace, so a replica that missed one brings the key back
  (`DeletedKeyReturns`). While the membership rests, a key stays away from its replicas if and
  only if none has it, none has still to send it and no set of it is on its way to one
  (`DeletedStaysAwayIff`).
* The ttl worker does not drop its own copy but deletes the key at every replica
  (internal/mycel/task.go:37-41), also where the copy has a later deadline, because every replica
  counts a ttl from when the set reaches it (`WorkerRemovesLiveCopy`). It removes no live copy if
  and only if nothing of the key can be live at a replica again (`NoLiveRemovedIff`): all
  replicas' copies have expired, and no set, ttl change or running cycle will renew one.
* The rebalancer drops the copy of a node that is no replica without asking whether anyone
  else has one (internal/mycel/rebalancer.go:161-169). `KeySurvives` says how much churn a key
  survives all the same, `QuorumWriteSurvives` what that means for a quorum write, and
  `EnoughChangesLoseKey` that as many changes as there are holders can lose a key, for every
  replica count and every number of holders.

## Model

| member | source | states |
|---|---|---|
| GeoGrid.EncodeInGrid | internal/mycel/geo_local.go:37 | every position in the world is encoded to a cell of the grid, at every precision |
| GeoGrid.EncodeBrackets | internal/mycel/geo_local.go:37 | a cell in numbers: at precision p latitude keeps floor(5p/2) bits and longitude the rest of 5p, and the position lies between the edges that this gives |
| GeoGrid.GridCellsAreEncoded | internal/mycel/geo_local.go:37 | a cell belongs to the grid if and only if some position in the world is encoded to it |
| GeoGrid.ShiftBounds | internal/mycel/geo_local.go:37 | dropping k low bits is division by 2^k: the slot's two edges enclose the coordinate |
| GeoGrid.CellsNest | internal/mycel/geo_local.go:51 | positions that share a fine cell share every coarser cell, which is what lets the code skip the removal when the finest cell is unchanged |
| GeoGrid.InsideMeets | internal/mycel/geo_local.go:266-268 | the cell of a position inside a box passes the overlap test of the flood fill, at the borders too |
| GeoGrid.MeetsIffOverlaps | internal/mycel/geo_local.go:266-272 | for a box that is not inverted a cell passes the overlap test if and only if some point of the closed cell lies between the four bounds |
| GeoGrid.MeetingSlotsConvex | internal/mycel/geo_local.go:266-272 | on one axis the slots that pass the overlap test are an interval that contains the slot of the centre, even when the bounds are inverted |
| GeoGrid.TorusIsNeighbourFunction | internal/mycel/geo_local.go:276 | a grid whose edges wrap around satisfies the one assumption made on the neighbour function |
| GeoCover.StepStaysInside | internal/mycel/geo_local.go:274-281 | from every overlapping cell but the seed a neighbour step leads nearer to the seed without leaving the grid or the box |
| GeoCover.ClosedSetCovers | internal/mycel/geo_local.go:261-282 | a set that holds the seed, and with each overlapping member all its neighbours, holds every overlapping cell of the grid |
| GeoCover.EnqueueUnseen | internal/mycel/geo_local.go:276-281 | expanding a cell enqueues exactly the neighbours that were never enqueued, each once |
| GeoCover.CoveringCells | internal/mycel/geo_local.go:250-285 | the flood fill ends and returns exactly the grid cells that overlap the box, for every box whose centre is in the world |
| GeoStore.TierAfterDelete | internal/mycel/geo_local.go:105-114 | removing a user from the cell of their position leaves a tier exact and without empty cells |
| GeoStore.TierAfterInsert | internal/mycel/geo_local.go:65-72 | inserting is enough to keep a tier exact when the user is absent or already in that cell |
| GeoStore.StepKeepsConsistent | internal/mycel/geo_local.go:51-91 | a set (also one that is rolled back) and a delete keep every tier exact, and change the points as a plain map would |
| GeoStore.RunStaysConsistent | internal/mycel/geo_local.go:13-127 | after every run a user is in a cell at a precision if and only if their point encodes to it, no cell is empty, and the points are those of a plain map after the same operations |
| GeoStore.IndexDeterminedByPoints | internal/mycel/geo.go:52-62 | consistent stores with the same points have the same index: it carries no history |
| GeoStore.CoveringFindsAll | internal/mycel/geo_local.go:150-180 | the covering cells hold every user that a full scan would report |
| GeoStore.RunLookupIsScan | internal/mycel/geo_local.go:132-184 | after every run, for every box, time and indexed precision, the filtered lookup equals a full scan of the points |
| GeoStore.LastOperationDecides | internal/mycel/geo_local.go:13-184 | after every run a query lists a user if and only if the last operation on them was a set that found its LRU bucket, the position is in the box, and the deadline, of the ttl or else of the bucket's default, has not passed |
| GeoStore.NeverSetNeverListed | internal/mycel/geo_local.go:13-184 | a user of no operation has no point |
| GeoStore.SetPoints | internal/mycel/geo_local.go:23-63 | a set leaves the other points alone and the user at the given latitude and longitude, with the deadline now + ttl, or now + default for ttl 0 and a positive default, or none |
| GeoStore.ReceivedTtl | internal/mycel/geo_remote.go:144-158 | a replicated entry keeps its absolute deadline on every peer, whatever the peer's default ttl, but for the time between the peer's two clock readings; it is dropped exactly when it expired on the way |
| GeoStore.SortAscendingSorts | internal/mycel/geo.go:114-117 | the precisions are kept in ascending order, none lost and none added |
| GeoStore.GeoStore.constructor | internal/mycel/geo.go:119-129 | a new store has an empty tier for each precision, no points, and satisfies the index invariant |
| GeoStore.GeoStore.MaxConfigured | internal/mycel/geo.go:66-68 | the last precision is the largest that was configured |
| GeoStore.GeoStore.HasPrecision | internal/mycel/geo.go:71-78 | true exactly for a configured precision |
| GeoStore.GeoStore.SetLocation | internal/mycel/geo_local.go:13-94 | the loops over the tiers compute the set step, with the roll back and the error when there is no LRU bucket, and keep the invariant; a successful set stores the given position and the deadline of the ttl or else of the default |
| GeoStore.GeoStore.DeleteLocation | internal/mycel/geo_local.go:104-116 | the delete step, likewise; a missing user changes nothing |
| GeoStore.GeoStore.Collect | internal/mycel/geo_local.go:155-180 | the loops over cells and users list exactly once each user of the cells whose point has no deadline before now and lies between the four bounds |
| GeoStore.GeoStore.BoundingBox | internal/mycel/geo_local.go:132-184 | lists, without duplicates, an entry if and only if it is a user's point, it has no deadline before now, and it lies between the four bounds, borders included; an unindexed precision is an error |
| GeoStore.GeoStore.RadiusQuery | internal/mycel/geo_local.go:189-245 | lists, without duplicates, an entry if and only if it is a user's point without a deadline before now, within the half-sides of the derived box in latitude and longitude, and within the radius by the distance function |
| GeoStore.BoxAround | internal/mycel/geo_local.go:302-305 | a point is in the derived box if and only if it is within the first half-side in latitude and the second in longitude |
| GeoStore.GeoCache.CreateStore | internal/mycel/geo.go:104-131 | an empty list of precisions is an error, a bucket that has a store keeps it, any other bucket gets an empty one and no other store changes |
| GeoStore.GeoCache.SetLocation | internal/mycel/geo_local.go:14-17 | a bucket without a store is an error; a set changes no other bucket, and in its own what the set of the store does |
| GeoStore.GeoCache.DeleteLocation | internal/mycel/geo_local.go:98-127 | a bucket without a store is an error; otherwise the caller gets the answer of the LRU bucket, errors included, the geo index has dropped the user either way, and no other bucket changes |
| GeoStore.GeoCache.BoundingBox | internal/mycel/geo_local.go:135-143 | the query's two errors, in the order the code checks them, and else exactly the points of that bucket that have no deadline before now and lie between the four bounds |
| LruSpec.RunKeepsBounds | internal/mycel/local.go:61 | in every run keys stay distinct and the bucket never exceeds its capacity |
| LruSpec.ExpiredExact | internal/mycel/task.go:26-37 | the walk of the ttl worker reports exactly the keys whose deadline has passed |
| LruSpec.ResidentNeverStale | internal/mycel/local.go:26-110 | in every run each resident item has the value and deadline that a plain map has after the same operations |
| LruSpec.SetKeepsDominance | internal/mycel/local.go:49-79 | when two buckets of different capacity set the same key, the smaller stays a subsequence of the larger, evictions included |
| LruSpec.LargerHoldsMore | internal/mycel/local.go:7-110 | for every run, deletes and ttl changes included, a larger capacity holds every key a smaller one holds, with the same value and deadline |
| LruSpec.ResidentIffRecent | internal/mycel/local.go:7-110 | in every run, with misses, deletes and ttl changes, a key is resident if and only if it was used and not deleted since, and at no time since its last use were as many other keys as the capacity used later and not deleted |
| LruSpec.ResidentWithoutDeletes | internal/mycel/local.go:7-82 | in a run without deletes a key is resident if and only if fewer other keys than the capacity were used since its last use |
| LruSpec.TtlChangeInFront | internal/mycel/local.go:100-110 | after a ttl change of a resident key it is in front if and only if it was before |
| LruSpec.TtlChangeStaysBehind | internal/mycel/local.go:100-110 | a run of two sets and a ttl change after which the key is still behind the other |
| LruList.Bucket.Push | internal/mycel/ds.go:274-317 | a listed node moves to the front and a new one is linked in front; the links mirror each other and head, tail and length agree |
| LruList.Bucket.Delete | internal/mycel/ds.go:321-373 | removes the node with the key, wherever it stands, or reports that there is none; the list stays well formed |
| LruList.Bucket.EvictTail | internal/mycel/local.go:61-79 | the meant eviction: the last node goes and the list ends at its predecessor |
| LruList.Bucket.EvictTailLiteral | internal/mycel/local.go:61-79 | the eviction as written: the new tail still points at the evicted node, or the head does when there is no new tail |
| LruList.TailMustEnd | internal/mycel/local.go:67-70 | such a tail, or such a head, belongs to no well-formed list |
| LruList.LocalCache.Lookup | internal/mycel/ds.go:377-393 | the map finds a key exactly when the list has it, and finds the node at its position |
| LruList.LocalCache.Get | internal/mycel/local.go:7-24 | refines the get on the sequence: a hit moves the key to the front and returns its value, a miss changes nothing |
| LruList.LocalCache.Set | internal/mycel/local.go:26-82 | refines the set on the sequence, with the meant eviction, and keeps list and map in step; the front item has the key, the value, and the deadline now + ttl or none for ttl 0, which is the documented one if and only if a ttl was given or the bucket has no default ttl |
| LruList.DefaultTtlIgnored | internal/mycel/local.go:32-36 | a set without a ttl in a bucket with a default ttl leaves an item without a deadline |
| LruList.LocalCache.SetLiteral | internal/mycel/local.go:26-82 | the set as written leaves a well-formed list if and only if nothing had to be evicted, and then refines the sequence |
| LruList.LiteralEvictionBreaks | internal/mycel/local.go:61-79 | a concrete case in which no well-formed list is left |
| LruList.LocalCache.Delete | internal/mycel/local.go:84-98 | refines the delete on the sequence and reports a missing key |
| LruList.LocalCache.SetTtl | internal/mycel/local.go:100-110 | refines the ttl change on the sequence: the deadline changes, the order does not |
| LruList.LocalCache.ExpiredKeys | internal/mycel/task.go:21-39 | the walk collects the expired keys, front first |
| Rendezvous.GetReplicas | internal/mycel/ds.go:201-219 | lists every member once with its score, best first |
| Rendezvous.PositionIsRank | internal/mycel/ds.go:214-216 | position i of the list holds the member that exactly i members outscore |
| Rendezvous.RankedListUnique | internal/mycel/ds.go:201-219 | the list does not depend on the order in which the members are enumerated |
| Rendezvous.GetReplicaNodes | internal/mycel/cache.go:185-192 | the slice is exactly the set of members that fewer than N members outscore |
| Rendezvous.TopSize | internal/mycel/cache.go:187-191 | there are min(N, cluster size) replicas |
| Rendezvous.RankFollowsScore | internal/mycel/ds.go:214-216 | two members rank by their scores whoever else is a member, so survivors keep their order |
| Rendezvous.JoinMovesAtMostOne | internal/mycel/cache.go:185-192 | a join adds only the joiner and displaces at most one replica, exactly one if the joiner gets in at full size |
| Rendezvous.LeaveMovesAtMostOne | internal/mycel/cache.go:185-192 | a leave keeps every remaining replica and promotes at most one node |
| Quorum.SetReplicated | internal/mycel/cache.go:196-233 | succeeds if and only if more than half of the replicas answered with success, in whatever order, and else says how many did or that there are no replicas; a success means that more than half store the value, and other nodes are untouched |
| Quorum.MajorityIsLeast | internal/mycel/cache.go:227 | the threshold is the least number, between one and all, such that any two sets of that many replicas share one |
| Quorum.HalvesMeetIff | internal/mycel/cache.go:227 | any two sets of q replicas share one if and only if q is more than half |
| Quorum.SameReplicasMeet | internal/mycel/cache.go:227 | under one membership any two quorums of a key share a node |
| Quorum.QuorumsAcrossJoin | internal/mycel/cache.go:185-233 | across a join the quorums of a key are sure to share a node if and only if N is even, or there were fewer than N nodes, or the joiner is no replica |
| Quorum.QuorumsAcrossLeave | internal/mycel/cache.go:185-233 | the same condition for a leave |
| Cluster.BestHolderStays | internal/mycel/rebalancer.go:144-156 | the best original holder that neither joined nor left stays in the top N while fewer nodes changed than held the key |
| Cluster.ReplicaKeepsKey | internal/mycel/rebalancer.go:161-192 | no step but a delete or an eviction takes a key from a node that is its replica and stays a member |
| Effects.MembersAfter | internal/mycel/mycel.go:112-116 | over every run a node is a member exactly after its join and until it leaves |
| Effects.OperationSends | internal/mycel/cache.go:196-312 | a client's set sends its value and ttl to every replica and nobody else, a ttl change the new ttl, and a delete, by a client or a ttl worker, the delete; no store changes before they arrive |
| Effects.ArrivalLeaves | internal/mycel/local.go:26-110 | a set that arrives leaves its value with the deadline now + ttl, or none for ttl 0, a delete leaves nothing, a ttl change leaves the value that is there with the deadline now + ttl; no other copy changes |
| Effects.TtlChangeArrives | internal/mycel/cache.go:282-312 | a client's ttl change can arrive at each replica at any later time, and then the deadline is the time of arrival plus the ttl |
| Effects.EvictionRemoves | internal/mycel/local.go:61-79 | an eviction removes one copy at one node |
| Effects.CollectedIffExpired | internal/mycel/task.go:21-33 | after its walk a ttl worker has a key on its list if and only if its node has a copy of it with a deadline before now |
| Effects.DeletedIsOffList | internal/mycel/task.go:36-41 | the worker takes the keys off its list one by one |
| Cluster.HeldKeySurvives | internal/mycel/rebalancer.go:117-193 | a key held by some of its replicas survives every run in which fewer nodes join or leave than held it and no delete or eviction removes it: one original holder stays a replica and a holder throughout |
| Cluster.QuorumWriteSurvives | internal/mycel/cache.go:227-232 | a write that reached a quorum keeps its key while at most half as many nodes as it has replicas join or leave |
| Cluster.KeySurvives | internal/mycel/rebalancer.go:117-193 | the case of a key held by all its replicas: it survives fewer than N joins and leaves, in a cluster that has at least N nodes or keeps one of those it had |
| Cluster.EnoughChangesLoseKey | internal/mycel/rebalancer.go:161-169 | for every N and every number h of holders up to N, a run from an empty cluster leads to a key held by exactly h of its replicas, and h further joins with the holders' cycles then lose it, with no delete, eviction or crash |
| Provenance.ProcessJustified | internal/mycel/rebalancer.go:171-192 | what a rebalancer passes on is as old and expires as late as what it has; an expiring copy is never sent with ttl 0 |
| Provenance.StoredCopiesWereAskedFor | internal/mycel/cache.go:196-317 | over every run with every failure, a stored value was set for that key by a client, a copy without a deadline goes back to a set without one, and a copy expires no earlier than a client asked |
| Provenance.HistoryIsClients | internal/mycel/cache.go:196-312 | the history that these laws refer to holds the sets and ttl changes of clients, with their times, and nothing else |
| Provenance.ListedWasTimed | internal/mycel/task.go:21-41 | a key is on a ttl worker's list only if some client set it with a ttl or changed its ttl, and the deadline it asked for has passed |
| Provenance.UntimedNeverDeleted | internal/mycel/task.go:21-41 | a key that was only ever set without a ttl is never deleted by a ttl worker |
| Provenance.HeldValueSurvives | internal/mycel/rebalancer.go:117-193 | the holder that HeldKeySurvives finds has one and the same value throughout, when at the start no copy and no running cycle has another value, no client sets another and no earlier set of another arrives; running cycles count with what has not expired |
| Provenance.QuorumValueSurvives | internal/mycel/cache.go:227-232 | likewise for a value that reached a quorum, while at most half as many nodes as it has replicas join or leave |
| Provenance.DeadlineAfterHops | internal/mycel/rebalancer.go:172-180 | after any chain of rebalance hops the deadline is the original one plus the delays of the hops |
| Provenance.HopsArriveIffUnexpired | internal/mycel/rebalancer.go:174-178 | a chain is cut short exactly by a hop that is sent when the copy has expired |
| Rebalancer.RebalanceCycle | internal/mycel/rebalancer.go:103-194 | with any steps of other nodes, clients and the network before each key, the loop ends in a state that a run of the machine leads to, in which the node ran one whole cycle over its snapshot and did nothing else of its own |
| Rebalancer.ProcessOne | internal/mycel/rebalancer.go:134-192 | one key of the cycle, with its loops over the members and the replicas, is one step of the machine: dropped by a node that is no replica, skipped when expired, else sent to the other replicas with the time that remains |
| Placement.HeldKeyProcessed | internal/mycel/rebalancer.go:117-134 | a node that runs a cycle, among any other steps, deals with every key it held at the start of it |
| Placement.StepStaysFit | internal/mycel/rebalancer.go:134-192 | while the membership rests, every step keeps the replicas agreed on the value of a key, with no copy that expires before a given time; deadlines may differ |
| Placement.RoundPlacesKey | internal/mycel/rebalancer.go:75-212 | while the membership rests, if the replicas that hold a key agree on its value and one of them and all members that are no replicas run a cycle, in any interleaving, with this replica's sends of that cycle arriving, however late, then exactly the top N hold the key, with that value and no deadline before a given time; deadlines may differ, and of other messages only those of clients, of ttl workers and of earlier cycles are assumed to do no harm |
| Placement.RoundLosesOrphan | internal/mycel/rebalancer.go:161-169 | if no replica holds the key or is about to send it and no earlier set of it arrives, every member that runs a cycle is without it afterwards |
| Resting.StepStaysSafe | internal/mycel/rebalancer.go:134-192 | every step of a resting cluster keeps it safe: allowed values at the replicas, in the sets on their way to them, and in what their cycles have still to send |
| Resting.AllowedValuesIff | internal/mycel/rebalancer.go:171-192 | in all runs in which the membership rests and clients set only allowed values the replicas have allowed values only, if and only if the state is safe |
| Resting.ValueKeptIff | internal/mycel/cache.go:196-233 | the case of one value: the exact condition under which the replicas keep it |
| Resting.OldMessageOverwrites | internal/mycel/cache.go:205-214 | a run from an empty cluster of two replicas in which a set that one of them did not answer in time arrives after a newer one and replaces it |
| Resting.DeletedStaysAwayIff | internal/mycel/rebalancer.go:182-192 | the case of no value: the exact condition under which a deleted key does not come back to a replica |
| Resting.DeletedKeyReturns | internal/mycel/rebalancer.go:182-192 | a run from an empty cluster in which a replica that missed a delete sends the key back |
| TtlWorker.StepStaysSpent | internal/mycel/rebalancer.go:171-192 | no step makes a copy live again at a replica once all have expired and nothing that renews one is on its way |
| TtlWorker.NoLiveRemovedIff | internal/mycel/task.go:15-41 | with a key on a worker's list, no delete removes a live copy in any run in which the membership rests and no client touches the key, if and only if nothing of the key can be live at a replica again |
| TtlWorker.WorkerRemovesLiveCopy | internal/mycel/task.go:37-41 | a run from an empty cluster in which one node's worker deletes the other replica's live copy |
| Routing.RoutingKeyInjective | internal/mycel/cache.go:319-323 | different pairs of bucket and key have different routing keys, whatever characters they hold |
| Routing.RoutingKeyLayout | internal/mycel/cache.go:319-323 | a routing key is the length of the bucket name in decimal digits, a colon, the bucket name and the key |
| Routing.PlainKeysInjectiveIffPrefixFree | internal/mycel/local.go:8 | plain concatenation tells all pairs apart if and only if no bucket name is a prefix of another |
| Routing.RoutingCache.GetPrimaryNode | internal/mycel/cache.go:120-139 | cached or not, the answer is the best-scoring present member |
| Routing.RoutingCache.IsLocal | internal/mycel/cache.go:143-170 | cached or not, the answer is whether this node is among the present top N |
| Routing.RoutingCache.ChangeMembers | internal/mycel/mycel.go:112-116 | a membership change with its invalidation leaves no stale answer |
| Routing.RoutingCache.ForgetPrimary | internal/mycel/local.go:92-95 | the delete under the plain key keeps every remaining answer right |
| Codec.Field16Exact | internal/nodosum/quic.go:83-94 | a field with a 16-bit length is read back exactly when it was written within its bound |
| Codec.Field32Exact | internal/nodosum/quic.go:408-419 | the same for a 32-bit length |
| Codec.DataInNumbers | internal/nodosum/quic.go:140-151 | a DATA frame is the byte 2, the length in four bytes, high byte first, and the payload |
| Codec.RequestInNumbers | internal/nodosum/quic.go:170-185 | a REQUEST frame is the byte 3, the correlation id after two bytes of length and the payload after four |
| Codec.ResponseInNumbers | internal/nodosum/quic.go:254-275 | a RESPONSE frame is the byte 4, then the correlation id and the error after two bytes of length each and the payload after four |
| Codec.InitInNumbers | internal/nodosum/quic.go:44-65 | the init frame is the byte 1 and three names after two bytes of length each |
| Codec.OtherTypesIgnored | internal/nodosum/quic.go:484-485 | the reader takes a frame of any other type as its type byte alone, and the read loop ignores it |
| Codec.DecodeRequestExact | internal/nodosum/quic.go:197-232 | the request decoder accepts exactly the encodings of requests within bounds, followed by anything, and gives back that request |
| Codec.DecodeResponseExact | internal/nodosum/quic.go:287-340 | the same for responses |
| Codec.BodyRead | internal/nodosum/quic.go:424-480 | what the frame reader hands over for a request or response always decodes, to what was read |
| Codec.MessageExact | internal/nodosum/quic.go:391-486 | reading and decoding gives back a frame, and leaves what follows it, if and only if the bytes begin with its encoding and its lengths fit |
| Codec.CutFrameBreaks | internal/nodosum/quic.go:391-486 | every strict prefix of a frame is an error |
| Codec.CutFrameError | internal/nodosum/quic.go:391-486 | which error it is, for a frame of any type: EOF if and only if the cut is at a field boundary, else an unexpected EOF |
| Codec.StreamRoundTrip | internal/nodosum/quic.go:391-486 | any sequence of frames within bounds is read back as exactly that sequence, then a clean end |
| Codec.CutStreamKeepsWholeFrames | internal/nodosum/quic.go:391-486 | a stream that is cut anywhere is read back as exactly the frames that were complete, and then EOF if and only if the cut is at a field boundary of the next one |
| Codec.OpenedStreamRoundTrip | internal/nodosum/conn.go:176-205 | a stream that opens with an init frame is accepted under its three names and then read back exactly |
| Codec.EncodeStreamInit | internal/nodosum/quic.go:44-65 | the appends build the init frame |
| Codec.EncodeDataFrame | internal/nodosum/quic.go:140-151 | the appends build the DATA frame |
| Codec.EncodeRequestFrame | internal/nodosum/quic.go:170-185 | the appends build the REQUEST frame |
| Codec.EncodeResponseFrame | internal/nodosum/quic.go:254-275 | the appends build the RESPONSE frame, with an empty error as with any other |
| Codec.Stream.ReadFrame | internal/nodosum/quic.go:391-486 | the incremental reader consumes exactly one frame, or fails with nothing left unread |
| Codec.Stream.DecodeStreamInit | internal/nodosum/quic.go:83-126 | reads the three names of an init frame, or fails as the first short read does |
| Codec.RequestBuffer.DecodeFrom | internal/nodosum/quic.go:197-232 | the decoder with offsets succeeds on every byte string exactly when the request parses |
| Codec.ResponseBuffer.DecodeFrom | internal/nodosum/quic.go:287-340 | likewise; an empty error leaves the buffer's old error, so only a fresh buffer is sure to hold what was sent |
| RequestReply.StepKeepsInv | internal/nodosum/application.go:120-163 | every step keeps requests, replies, reply slots and outcomes traceable to their call |
| RequestReply.ReturnedPayloadIsOwn | internal/nodosum/application.go:150-157 | in every interleaving a returned payload is what a handler at the call's target made of the call's own payload |
| RequestReply.PendingExact | internal/nodosum/application.go:128-140 | the pending map holds exactly the calls that have not returned |
| RequestReply.FirstReplyStays | internal/nodosum/conn.go:272-284 | a call takes the first reply that reaches its slot; no later one replaces it |
| RequestReply.DeliverFillsSlot | internal/nodosum/conn.go:272-287 | a reply fills the empty slot of a waiting call, and any other reply changes nothing |
| RequestReply.ReplyIsReturned | internal/nodosum/application.go:150-157 | a call that takes a reply returns its payload if and only if the reply has no error, and else that error |
| RequestReply.CallReturnsFirstReply | internal/nodosum/application.go:150-157 | over every interleaving that reply is the first one delivered for the call while it waited |
| RequestReply.OtherOutcomes | internal/nodosum/application.go:146-161 | a failed send, a timeout and a cancellation end the call with that outcome |
| RequestReply.CallCanBeAnswered | internal/nodosum/conn.go:212-258 | from every state of every run a new call can be sent, handled and answered, and then returns what the handler gave back, or its error |
| RequestReply.CallCanBeRejected | internal/nodosum/conn.go:226-237 | a call whose target has no handler can be answered, and then returns the error that says so |
| RequestReply.OutcomeIsFinal | internal/nodosum/application.go:135-140 | a call returns once; later replies do not change its outcome |
| RequestReply.OthersUntouched | internal/nodosum/conn.go:272-287 | no step for one call changes another call or its reply slot |
| Registry.StepKeepsRegistry | internal/nodosum/memberlist.go:25-110 | every step keeps the registry free of this node, its entries under their own peers and not closed by this node, and each dialed connection either registered or closed |
| Registry.RegistryNeverListsSelf | internal/nodosum/conn.go:73-98 | the same over every interleaving |
| Registry.IncomingRegistered | internal/nodosum/conn.go:65-98 | an incoming connection without a name or from this node is closed, one of an unregistered peer is registered, a second one is served only; no other connection changes |
| Registry.PeerIsClosed | internal/nodosum/conn.go:157-169 | a leave, an update and a dead connection close the peer's registered connection, forget it, and change no other |
| Registry.ExitUnregisters | internal/nodosum/conn.go:101-110 | a handler that registered its connection takes it out when it exits |
| Registry.DialsBeginAndEnd | internal/nodosum/memberlist.go:34-66 | a join begins one dial unless the peer is this node or is registered, and each dial ends once |
| Registry.NoDialLeaks | internal/nodosum/memberlist.go:92-106 | at every moment of every run a dialed connection is left open by this node if and only if it is the registered one of its peer |
| Registry.DialRegisteredOrClosed | internal/nodosum/memberlist.go:92-106 | a completed dial is registered, or closed as a duplicate, and never both |
| Registry.CleanupIsOwn | internal/nodosum/conn.go:101-110 | a handler that exits removes at most its own connection |
| Registry.RetriesBounded | internal/nodosum/memberlist.go:63-88 | the failures counted between two resets of a peer's counter lead to at most four retries over all dials, with delays that sum to at most 3000 ms, and to exactly that once four were counted and all are decided |
| Registry.TimersAreRetries | internal/nodosum/memberlist.go:75-83 | each scheduled retry is a timer until it fires, and every timer is one |
| Registry.ResetsAreCaused | internal/nodosum/memberlist.go:41-173 | a leave, an update, a registered dial and a join of a registered peer each bring one reset of the peer's counter, and nothing else does |
| Registry.ScheduledBetweenResets | internal/nodosum/memberlist.go:74-86 | in the epoch that a reset begins at most four retries are scheduled, and one more for each failure below the limit that was undecided at the reset, with delays of at most 3000 ms and theirs |
| Registry.BoundIsReached | internal/nodosum/memberlist.go:63-88 | every run that ends with a reset goes on, without another, to exactly that many retries with exactly those delays |
| Registry.LimitHoldsIff | internal/nodosum/memberlist.go:74-86 | after a reset every continuation up to the next one keeps to four retries and 3000 ms if and only if no failure below the limit was undecided at the reset |
| Registry.FifthRetryPossible | internal/nodosum/memberlist.go:63-88 | a join whose dial fails, a leave and the reset that follows it come before the retry is decided; then five can be scheduled until the next reset |
| Registry.GetConnectedNodes | internal/nodosum/quic.go:488-501 | lists each registered peer once and never this node |

## Left out

- QUIC, TLS, certificates, memberlist gossip, worker pools, metrics, logging, configuration and the command line: input, output and library plumbing.
- gob encoding, the hash, the distance formula and the trigonometry of the radius box: scores, distance and half-sides are parameters. That the radius box contains the whole circle is not claimed.
- Rounding of floating-point coordinates, and positions outside the world: coordinates are exact reals inside it.
- Geo replication between nodes: broadcasts run in goroutines of their own and carry no version, so the code gives no order to rely on.
- The link between a geo entry and its LRU node: evictions remove only the LRU node, so the code keeps no relation between the two. A geo set sees the LRU bucket only as its default ttl or its absence, a geo delete only as the bucket's answer.
- Several LRU buckets in one node map: the heap model has one bucket. `PlainKeysInjectiveIffPrefixFree` says when several can share the map.
- `LocalCache.Get` on expired values: `getLocal` does not test expiry, so nothing is claimed about it.
- A remote delete of a missing key: the remote error arrives as text and counts as a failure, so deletes are modelled by their effect on the stores only.
- The search of a reply's request over several applications: correlation ids are unique over all of them, so the model has one pending map.
- The clean-up of the stream map: the deferred function takes a lock that it never releases (internal/nodosum/conn.go:291-296). Only the dispatch of frames is modelled.
- Routing caches under membership changes that fire no hook: change and invalidation are one step.
- Locking inside one LRU or geo operation: each operation is atomic.
- Connections that the peer or the network closed: in the registry "closed" means closed by this node.
- Rebalancer.RebalanceCycle: takes its snapshot of all keys at once, because keys carry no bucket here; the code takes one of each bucket when it reaches it. A shutdown in the middle of a cycle is not modelled either.
- Rebalancer.ProcessOne: finds the replicas, reads the clock and hands over the sends in one step, so that no membership change falls in between; when each send arrives is open.
- Placement.RoundPlacesKey: joins, leaves and evictions of the key are excluded, because they move the replicas or remove what the round places; Cluster.HeldKeySurvives covers joins and leaves.
- Cluster, request and registry steps as methods of objects: they interleave across goroutines and nodes, so they are functions on values; the model does not capture how the Go maps are updated in place within one critical section.
- Cluster.HeldKeySurvives: deletes and evictions of the key are excluded, because the code promises nothing about a key that they remove.
- LruList.Bucket.EvictTail: states the meant eviction, because the step as written leaves no list; LruList.Bucket.EvictTailLiteral states what the code does.
- LruList.LocalCache.Set: states the set with the meant eviction and asks for a capacity of one, because at capacity zero, and with the eviction as written, no list is left; LruList.LocalCache.SetLiteral covers the code's set for every capacity.
