# P2P-DPRD in Dafny

P2P-DPRD is a gossip protocol. Every node keeps two bounded tables of node records: random nodes
(capacity 2N) and important nodes (capacity M+K, growing up to 10000). It exchanges parts of them
over UDP and sends local subscribers the candidates: the important nodes whose coordination range
meets its own. This project models the protocol, its tables and both of its codecs, and proves
what they keep, lose and promise over whole runs.

`dafny verify dfyconfig.toml` checks everything.

## How it is built

The code that works in place is modelled in place. `NodeTable` (node.c), `Daemon` (protocol.c, the
main loop, io.c), `Subscribers` (subscribe.c), `Ieee754`, `Bytes` (upack.c), `Wire`, `LocalWire`
(serialize.c) and `PythonWire` (python/p2pdprd_types.py) hold methods over arrays and fields with
the loops of the source. Their contracts tie the new state to specifications on values, and the
theorems are about those:

- `Sorting`, `Dedup`, `TableSpec`, `Merging`, `Outcomes`, `Freshness`: the table algebra. The
  library sort is *some* sorted permutation, so every result holds for any order of ties, and
  `Outcomes` says exactly what an update may keep or lose over all of these orders.
- `Geometry`: distance and utility over exact reals.
- `Steps`, `HostLaws`: what one node may do on a received collection, a local request and the
  periodic cleanup, and what each of these keeps. `Daemon.Peer` is proved to do only that, which
  also shows that these steps have an outcome in every state.
- `Network`, `RandomMessages`, `Provenance`, `FreshRuns`, `CachedUtility`, `Discovery`, `Delivery`,
  `Datagrams`: any number of nodes, a bag of datagrams that may be lost, duplicated, reordered and
  handed to any node, and theorems about all finite runs.
- `Visible`, `Updates`, `Schedule`, `Subscriptions`: what a peer, a client or an operator sees over
  whole runs, stated without the functions that compute it: through fields of configurations,
  records and packets, and with limits and message types as plain numbers.
- `TwoCodecs`: the C and the Python codec against each other.

## Where the code and its documentation disagree

The model follows the code. Where that breaks a promise of the documentation, the condition under
which the promise is kept is stated as well.

- *Deduplication keeps the most recent record* (node.h:264). The swap is called on record addresses
  cast to `Node**` (node.c:288), so only the first machine word, the ID, moves, and the data of the
  other record survives. `Dedup.Swap` has both behaviours, `WordSwap` (the code) and `RecordSwap`
  (the documentation). Provenance, ID sets, counts, table invariants, delivery and discovery are
  proved for both. Freshness holds for the documented swap. For the code it fails, and the exact
  condition under which it holds is given at each level: the deduplication
  (`CodedDedupIsFreshIff`, `CodedDedupAdvancesIff`), one update (`RandomAdvancesIff`,
  `ImportantAdvancesIff`), one message (`ReceiveAdvancesIff`) and a datagram in a run
  (`DeliveryAdvancesIff`, `SafeStepsAdvance`). `OvertakenRunGoesBack` is a run of the code in which
  a table goes back, `CodedForgetsCandidate` an update that loses a node whose newest record is a
  candidate.
- The message of random nodes leaves out the last table entry (protocol.c:269-274), although the
  comment above says it copies the contents; that is so only of an empty table
  (`MessageCopiesTableIff`). As the expiry sorts by ID, the request of a cleanup never names the
  smallest ID of the table (`CleanupsOmitSmallest`), and the reply to a request not the last entry
  (`RepliesOmitLast`).
- `removeExcessNodes` returns the capacity above the floor (node.c:334-337). The contract of
  `RemoveExcessNodes` says when that is the documented number of removed nodes.
- With ten entries or more and fewer than ten candidates a peer is drawn from the first nine, where
  the comment says ten (node.c:379). Only the nine of the code are modelled.
- Utilities are filled in on the incoming collection only (protocol.c:229). After a move the cached
  ones in the table are those of a place the node has left (`CachedUtilityOrigin`,
  `StaleAfterMove`, `LeftOutAfterMove`). `MoveKeepsCurrentIff` says which local requests leave them
  right, `MessageRefreshesIff` which messages are sure to refresh them.
- `dec754` reads minus zero and every subnormal pattern as another number (`DecodeAgreesIff`), and
  `enc754` writes them as another pattern (`EncodeAgreesIff`); the Python side does not, so the two
  codecs part there (`ReadAlikeIff`, `PositionArrivesIff`).

## Assumptions

- IDs on the wire and the own ID are not 0, the mark of a deleted record. A configuration is sound
  if 2N and M+K fit 16 bits and one more record fits in front of a full table (M < 65535).
- The clock stays below 2^32, `time_t` is wider than 32 bits, and one step reads the clock once.
- Received datagrams hold at least one record and as many bytes as their header announces.
- `rand()` is an arbitrary choice in its range. Any node may receive any datagram in flight.
- Utility is computed over exact reals. Of sine, cosine, root and arc sine only the laws in
  `MathLib.Lawful` are used, and where the geometry itself is the subject also
  `MathLib.Differences` and `MathLib.Arcs`.
- Doubles are zero or normal where a codec theorem says so. The arithmetic of the codec is exact on
  every finite double, except that decoding a subnormal pattern rounds once, in its last halving;
  `Dec754` leaves that rounding out and `RoundedDecodeAgreesIff` shows that it makes no difference
  to the agreement with the standard. `|` of disjoint bit fields is written `+`.
- Python values have the width of their fields. A Python float stands by its binary64 pattern, an
  address by its four bytes.

## Model

| member | source | states |
|---|---|---|
| Sorting.SortDropsDeleted | src/node.c:242-253 | After a sort by ID the deleted records (ID 0) lie at the bottom, so cutting the table at the number of live records leaves exactly these, in order |
| Sorting.SortPrefix | src/node.c:218-253 | In-place selection sort standing for the library sort: afterwards the first n slots are some sorted permutation of what they held and the other slots are untouched; nothing is promised about ties |
| Sorting.SortExists | src/node.c:218-253 | Every collection has a sorted permutation for each of the three orders, so the relational sort is never empty |
| NodeTable.NodeCollection.constructor | src/node.c:50-60 | A new collection is empty with the requested version, type and capacity |
| NodeTable.NodeCollection.Grow | src/node.c:70-80 | Growing keeps the records and adds exactly the requested capacity, or nothing when the limit of 10000 would be passed |
| NodeTable.NodeCollection.SortBy | src/node.c:218-253 | The table becomes some sorted permutation of itself |
| NodeTable.NodeCollection.Append | src/node.c:255-267 | The table gains, in order, the records of the other one that do not carry the ignored ID, until it is full; an ignored ID of 0 ignores nothing |
| NodeTable.NodeCollection.NullOut | src/node.c:125-128 | Only the ID of that one record becomes 0 |
| NodeTable.NodeCollection.SwapPointers | src/node.c:132-136 | As coded the two IDs trade places and all other fields stay; as documented the two records do |
| NodeTable.NodeCollection.CompareNeighbours | src/node.c:277-292 | Of two neighbours with one ID the strictly older upper one is nulled, otherwise the lower one is nulled and swapped up; different IDs are left alone |
| NodeTable.NodeCollection.ScanDuplicates | src/node.c:273-294 | The live records after the scan are the survivors of the ID runs, and the new count is their number |
| NodeTable.NodeCollection.RemoveDuplicateNodes | src/node.c:270-300 | Sort, scan and second sort yield a possible deduplication of the former contents, for either swap |
| NodeTable.NodeCollection.NullExpired | src/node.c:310-320 | Exactly the records not newer than the cutoff are nulled, and they are counted |
| NodeTable.NodeCollection.RemoveExpiredNodes | src/node.c:307-326 | Exactly the records newer than now minus the age limit are left, in ID order; the return value is how many went |
| NodeTable.NodeCollection.RemoveExcessNodes | src/node.c:329-344 | The first floor records are kept in order; the return value is capacity minus floor, which is the documented number of removed nodes if and only if nothing is cut or the table was full |
| NodeTable.NodeCollection.CalculateUtility | src/node.c:421-428 | Every record gets its utility with respect to the given node and changes in nothing else |
| NodeTable.NodeCollection.CountCandidateNodes | src/node.c:399-409 | The number of records with utility at least 1 |
| NodeTable.NodeCollection.GetCandidateNodes | src/node.c:347-361 | A fresh collection of exactly the records with utility at least 1, in table order |
| NodeTable.NodeCollection.Draw | src/node.c:384-393 | At most 100 arbitrary draws from the range; no result only if the node itself was drawn |
| NodeTable.NodeCollection.GetRandomPeerNode | src/node.c:450-472 | A record of the table other than the node itself; none only if the table is empty or holds the node itself |
| NodeTable.NodeCollection.GetRandomImportantNode | src/node.c:363-396 | The same, drawn from the whole table below ten entries, from the first nine with fewer than ten candidates, from the first as many as there are candidates otherwise |
| TableSpec.ScanStep | src/node.c:274-294 | One step of the scan keeps the split of the survivors into those already behind it and those of the live rest |
| TableSpec.SortedSurvivors | src/node.c:295-299 | The second sort and the new count leave exactly the survivors of the scan |
| TableSpec.SortedAfterExpiry | src/node.c:321-323 | Sorting by ID and lowering the count by the number nulled leaves a sorting of exactly the unexpired records |
| Dedup.SurvivorsMeetSpec | src/node.c:270-300 | On an ID-sorted table of groups of any size the scan leaves each ID once, each survivor being an input record, and with the documented swap the newest of its group |
| Dedup.DedupMeetsSpec | src/node.h:257-266 | Every deduplication, whatever the tie order, meets the independent description: one input record per ID, ordered by ID, and with the documented swap the most recent |
| Dedup.SpecIsReached | src/node.c:270-300 | Conversely every outcome the description allows is reached by some order in which the sort may leave ties |
| Dedup.DedupExactly | src/node.c:270-300 | Deduplication realises exactly the described outcomes, for both swaps |
| Dedup.DedupCount | src/node.c:273-299 | The new count equals the number of distinct IDs |
| Dedup.AnyoneSurvives | src/node.c:284-289 | As coded, any record of a group can be the one that survives |
| Dedup.CodedDedupIsFreshIff | src/node.h:264-266 | The documented promise, keep the most recent record, holds of the code for every tie order if and only if no two input records with one ID differ in timestamp |
| Dedup.CodedDedupLosesNews | src/node.c:284-289 | A concrete pair for which the code keeps the older record |
| Merging.TakeIsTop | src/node.c:329-344 | Sorting and cutting keeps as many records as the limit allows, none dropped ranking above one kept |
| Merging.TopIsTake | src/node.c:329-344 | Conversely any such best part is reached by some sorting |
| Merging.RandomMergeClosedForm | src/protocol.c:192-205 | The random-table update is exactly: deduplicate the table followed by as much of the foreign part of the message as fits, keep the N newest in non-increasing timestamp order, nothing dropped being newer than anything kept; both directions |
| Merging.RandomMergeKeeps | src/protocol.c:192-205 | At most N records remain, distinct, from the table or the message, none with the own ID |
| Merging.ImportantMergeMeaning | src/protocol.c:206-248 | The important-table update deduplicates the merge to as many records as it has IDs, decides the capacity by the candidates among them, and keeps the most useful up to capacity minus K |
| Merging.ImportantMergeKeeps | src/protocol.c:229-241 | K slots stay free, the capacity grows by K or not at all, and the result is in non-increasing utility order |
| Merging.CandidatesKept | src/protocol.c:234-241 | When the candidates fit below the cut, the cut drops none of them, however ties are ordered |
| Merging.NoLostCandidate | src/protocol.c:229-241 | No node with utility at least 1 is dropped from the deduplicated merge unless growth would pass 10000; if the table grows nothing at all is dropped; if growth is refused exactly capacity minus K nodes are kept and none dropped has higher utility |
| Outcomes.RandomKeepsIff | src/protocol.c:192-205 | With either swap, a record may be in the random table after an update if and only if it may survive the deduplication and fewer than N IDs outrank it by timestamp in any case |
| Outcomes.ImportantKeepsIff | src/protocol.c:229-241 | With either swap, a record may be in the important table after an update if and only if it may survive the deduplication and either fewer than capacity minus K IDs outrank it by utility in any case, or the table may grow with it inside |
| Outcomes.ImportantSecuresIff | src/protocol.c:229-241 | With either swap, an ID is in the important table after an update in any case if and only if it is in the merge and no record that may represent it may fall below a cut that need not grow |
| Dedup.PoolDecides | src/node.c:270-300 | With either swap deduplication keeps some one contender of each ID, and any: as coded every record contends, as documented the newest of its ID |
| Dedup.ChoiceReached | src/node.c:284-289 | As coded, every choice of one record per ID is an outcome of the deduplication |
| Freshness.RandomAdvancesIff | src/protocol.c:192-205 | With either swap, an update of the random table is sure not to move an entry back in time if and only if every stale record that may survive the deduplication is outranked by N IDs in any case |
| Freshness.ImportantAdvancesIff | src/protocol.c:206-248 | With either swap, an update of the important table is sure not to move an entry back in time if and only if no stale record that may survive the deduplication may stay above the cut |
| Freshness.DocumentedMergesAdvance | src/node.h:257-266 | With the documented swap, an ID that stays in a table through an update never goes back in time |
| Freshness.CutMaySaveFreshness | src/protocol.c:201-204 | The deduplication alone does not decide: a merge whose stale record may survive it, but never the cut |
| Freshness.CodedDedupAdvancesIff | src/node.c:284-289 | As coded, the deduplication step alone, before sort and cut, is sure not to move an entry back in time if and only if nothing in the merge is older than the entry for the same ID |
| Merging.TopKForPeer | src/protocol.c:288-304 | At most K records are picked for a peer, distinct, all from the table, none withheld having higher utility for the peer than one sent; all go if there are at most K |
| Merging.PeerCandidatesSent | src/protocol.c:299-304 | Every known candidate of the peer is sent whenever there are at most K of them |
| Geometry.ChordIsDistanceInSpace | src/utilities.c:149-158 | The expression under the root is the squared straight-line distance between the two points of the unit sphere |
| Geometry.DistanceIsGreatCircle | src/utilities.c:149-158 | With sine and arc sine inverse to each other up to a right angle, the distance is exactly the length of the shorter great-circle arc between the two places in degrees, on a sphere of radius 6371008.7714 metres |
| Geometry.ChordSymmetric | src/utilities.c:149-158 | The chord does not depend on the order of the two points |
| Geometry.AsinArgumentInRange | src/utilities.c:157 | The squared chord is at most 4, so the arc sine is asked for an argument in [0, 1] and the distance is not negative |
| Geometry.ZeroDistanceIff | src/node.c:445-448 | The distance is zero exactly for two nodes at the same point of the sphere, whose utility then is the largest double |
| Geometry.CandidateIffInRange | src/node.c:441-449 | The utility is at least 1 exactly when the distance is at most the sum of the two coordination ranges |
| Geometry.CandidacyIsMutual | src/node.c:441-449 | Utility and candidacy are symmetric |
| Updates.UtilityIsRatio | src/node.c:441-449 | The utility is the square of the sum of the ranges over the square of the great-circle distance, and the largest double if that is zero |
| Updates.SomeDistance | src/utilities.c:149-158 | Any two nodes have a great-circle distance, so that law says something of every pair |
| Ieee754.DblMaxIsLargest | src/node.c:448 | The value for distance zero is a double, and no double is larger |
| Geometry.SameUtilityIff | src/node.c:441-449 | Two places have the same utility for a node if and only if range sums and distances are in proportion, or both distances are zero, or one is and the other ratio equals the largest double |
| Subscribers.SubscriberList.constructor | src/subscribe.c:54-60 | A new list is empty with the given capacity |
| Subscribers.SubscriberList.AddSub | src/subscribe.c:70-105 | 1 and the subscriber appended, -1 and no change if an equal one is there, 0 and no change when full |
| Subscribers.SubscriberList.RemoveSub | src/subscribe.c:107-134 | The last entry with that path goes and the order of the rest stays; 1 if there was one, else 0 |
| Subscribers.SubscriberList.ShiftDown | src/subscribe.c:120-124 | Everything above the removed slot moves down by one |
| Subscribers.ListRefinesSet | src/subscribe.c:70-134 | Over any trace of SUB and UNSUB requests the list is a bounded insertion-ordered set: distinct paths, at most 25 |
| Subscribers.MembershipByLastRequest | src/io.c:280-310 | A path is a member exactly if some SUB for it found room and no UNSUB for it came later |
| Subscribers.AddThenRemoveRestores | src/io.c:280-310 | After any trace, an accepted SUB followed by its UNSUB restores the list |
| Daemon.Peer.constructor | src/p2p-dprd.c:77-81 | A node starts with two empty tables of capacity 2N and M+K and no subscribers |
| Daemon.Peer.UpdateRandomNodes | src/protocol.c:192-205 | The random table goes through one random-table update as characterised by RandomMergeClosedForm |
| Daemon.Peer.UpdateImportantNodes | src/protocol.c:206-248 | The incoming collection is scored for the own position, and the important table goes through one important-table update with it |
| Daemon.Peer.Resize | src/protocol.c:234-241 | The capacity grows by K exactly if there are more candidates than capacity minus K and the limit allows it; then the table is cut to the new capacity minus K |
| Daemon.Peer.SendRandomNodes | src/protocol.c:259-285 | The message is the own record followed by all but the last entry of the table, which stays as it was |
| Daemon.Peer.SendImportantNodes | src/protocol.c:288-330 | The message is the own record followed by the entries selected for the peer; the table stays as it was |
| Daemon.Peer.ReceiveFromPeer | src/protocol.c:139-181 | Each of the four message kinds leads to the described reply and updates, replies first; any other kind changes nothing |
| Daemon.Peer.HandleRequest | src/io.c:257-319 | Each local request changes exactly position, range or subscriber list; an undefined type fails and changes nothing |
| Daemon.Peer.CleanTables | src/protocol.c:54-64 | Both tables keep exactly the unexpired records, the important one ordered by utility |
| Daemon.Peer.Timeout | src/protocol.c:41-83 | Expiry of both tables, then the request to a random peer or the bootstrap, then the request to an important peer |
| Daemon.Peer.SendBootstrap | src/protocol.c:87-107 | The own record alone goes to the configured first peer as a RND_REQ |
| Daemon.Peer.SendCandidateNodes | src/io.c:199-250 | The list is the own record with the candidates appended, and it goes to every subscriber in order |
| Daemon.Peer.Deliver | src/p2p-dprd.c:190-199 | A list is built exactly when there are subscribers, and goes to all of them |
| Daemon.Peer.Cleanup | src/p2p-dprd.c:184-205 | Timeout, then delivery, then the new cleanup time |
| Daemon.Peer.Turn | src/p2p-dprd.c:124-206 | One turn of the main loop is at most one event followed by the cleanup exactly if more than the timeout has passed since the last one; each part is the corresponding step of the network model |
| HostLaws.ExpiryKeepsTheNew | src/node.c:307-326 | Expiry keeps exactly the records newer than the cutoff in both tables and the table invariant with them |
| HostLaws.ReceiveKeeps | src/protocol.c:109-191 | Any received collection of live records keeps the table invariant, the configuration and the capacity, which may only grow |
| HostLaws.RepliesShaped | src/protocol.c:153-178 | Replies start with the record the node makes about itself at that time, hold distinct IDs and at most max(1,N) or K+1 records |
| HostLaws.CleanupKeeps | src/protocol.c:41-83 | The cleanup keeps the table invariant, and its requests have the promised shape and receivers |
| HostLaws.RequestsFindPeers | src/protocol.c:66-82 | Bootstrap is sent exactly when the random table is empty after expiry, an important request exactly when the important table is not empty, and a chosen peer is an entry of the table and never the node itself |
| HostLaws.ImportantPeerIsCandidate | src/node.c:376-382 | With at least ten candidates the important peer is one of them |
| HostLaws.CandidatePrefix | src/node.c:347-361 | In a table sorted by utility the candidates are its first countCandidateNodes entries |
| HostLaws.DeliveredList | src/p2p-dprd.c:184-205 | Each list is the own record followed by exactly the unexpired important nodes with utility at least 1, in non-increasing utility order with distinct IDs, which are the first countCandidateNodes entries of the table |
| HostLaws.HandledInv | src/io.c:257-319 | A local request keeps the table invariant, both tables and everything in the configuration but position and range |
| Network.RunInvariant | src/protocol.c:41-330 | In every run with any number of nodes, loss, duplication and reordering: both tables of every node hold distinct live IDs and never its own, at most N and at most capacity minus K records, the capacity is M+K+jK and at most max(M+K, 10000); every datagram in flight has a record with the ID of its sender first, distinct IDs and a bounded length |
| Network.RunAdvances | src/node.c:70-80 | Along every run no capacity shrinks, the clock never goes back, and nothing in a configuration but position and range changes |
| Network.CleanupContactsPeers | src/protocol.c:66-82 | In every run each cleanup contacts peers as in RequestsFindPeers |
| Schedule.CleanupsAreSpaced | src/p2p-dprd.c:184-205 | In every run two cleanups of one node are more than its timeout apart |
| Schedule.NewcomersWait | src/p2p-dprd.c:121 | In every run a node that joins does not clean up before its timeout has passed |
| Schedule.StartersWait | src/p2p-dprd.c:121 | Nor does one that is there from the start |
| Schedule.NextCleanupIff | src/p2p-dprd.c:184 | In every run a node that has last cleaned up, or joined, at some time may clean up later if and only if more than its timeout has passed |
| Schedule.AnyPeerInRun | src/node.c:363-396 | In every run a node that may clean up may ask any entry left in its random table, and any eligible one left in its important table |
| Visible.RecordsDescribeNodes | src/node.c:87-117 | In every run every record in a table or in flight tells, field by field, the ID, latitude, longitude, range, address and RADAC address its node had at an earlier world, at which it answered a request or cleaned up |
| Visible.RepliesDescribeSender | src/protocol.c:153-178 | In every run every reply starts with a record that tells, field by field, the present configuration of the node that replies |
| Visible.CleanupsDescribeSender | src/protocol.c:66-107 | In every run every request of a cleanup, and every list it delivers, starts with such a record; the list has version 1 and type 4 |
| Visible.AnswersGoBack | src/protocol.c:153-178 | In every run a message of type 1 is answered by one of type 0, type 3 by type 2, no other by any, and the answer goes to the address and port in the first record of the request |
| Visible.CleanupsAsk | src/protocol.c:66-107 | In every run the requests of a cleanup go to the address and port of an entry of the random table, or of the configured first peer if that is empty, and of an eligible entry of the important table unless that is empty |
| Visible.EligibleIff | src/node.c:372-382 | Eligible is any entry while there are fewer than ten; otherwise any candidate if the tenth is one, and one of the first nine if not |
| Updates.MessagesUpdate | src/protocol.c:144-178 | In every run a message of type 0 or 1 leaves in the random table the min(N, d) newest of the d IDs among the old entries and the first foreign records that fit 2N slots, and merges that table into the important one; type 2 or 3 merges its own records; the important table keeps the most useful, one per ID, and grows by K within 10000 exactly if its candidates ask for it |
| Updates.NewcomersAreEmpty | src/p2p-dprd.c:77-81 | In every run a node starts with empty tables, no subscribers and room for M + K important nodes |
| Updates.AnswersHold | src/protocol.c:259-330 | In every run a random answer holds all entries but the last in order, and an important one K entries, or all if there are not more, none left out being more useful to the requester |
| Updates.RequestsHold | src/protocol.c:259-330 | In every run the same holds for the requests of a cleanup and the tables it leaves |
| RandomMessages.MessageNamesIff | src/protocol.c:269-274 | A random message names an entry of the table if and only if it is not the last one |
| RandomMessages.MessageCopiesTableIff | src/protocol.c:250-274 | The documented copy of the whole table is made if and only if the table is empty |
| RandomMessages.CleanupsOmitSmallest | src/protocol.c:54-70 | In every run the random request of a cleanup names an entry left in the random table if and only if that has an entry with a smaller ID |
| RandomMessages.RepliesOmitLast | src/protocol.c:153-155 | In every run the reply to a random request names an entry of the random table if and only if it is not the last one |
| Provenance.EveryRecordOriginates | src/node.c:107-117 | In every run every record in any table or in flight equals, up to the cached utility, one that the node with that ID published about itself earlier; holds for the code and for the documented swap |
| Provenance.OriginFacts | src/node.c:107-117 | Hence a node with that ID exists and no timestamp exceeds the clock |
| Provenance.DatagramsAreSigned | src/protocol.c:259-330 | In every run every datagram in flight starts with a record that its own sender, not just a node with that ID, published about itself earlier |
| Provenance.SilentNodesAgeOut | src/protocol.c:41-83 | If node p last published at time T, then after any cleanup at time T + maxAge or later neither table of that node holds p, and no request and no subscriber list of that cleanup names p anywhere, unless the node cleaning up is p itself, which is then named on top only |
| FreshRuns.ReceiveAdvancesIff | src/protocol.c:139-181 | With either swap, receiving a message is sure not to move any entry of either table back in time if and only if the message is safe for the tables: no stale record may stay above a cut |
| FreshRuns.NothingStaleIsSafe | src/protocol.c:139-181 | A message with nothing older than the tables know is safe for the code, too |
| FreshRuns.NoneArrivesIsSafe | src/protocol.c:147-150 | A sharper check on a random message, in terms of the update of the random table alone |
| FreshRuns.RoomyMessageSafeIff | src/protocol.c:147-150 | For the code that check is exact while the important table has room for N more records above the cut |
| FreshRuns.DeliveryAdvancesIff | src/node.c:284-289 | In every world a run can reach, with either swap, handing over a datagram is sure not to move an entry back if and only if it is safe for the tables of the receiver |
| FreshRuns.SafeStepsAdvance | src/node.c:270-300 | In every run, with either swap, no step but the receipt of an unsafe datagram moves an entry of any table back in time |
| FreshRuns.OvertakenRunGoesBack | src/node.c:284-289 | The code has, for any two nodes, a run of six steps in which an entry goes back in time: of two bootstrap messages the later overtakes the earlier |
| FreshRuns.TablesNeverGetOlder | src/node.h:257-266 | With the documented swap, in every run an ID that stays in a table never goes back in time |
| CachedUtility.CachedUtilityOrigin | src/protocol.c:218-232 | In every run, whatever moves its node makes, each entry's cached utility is the one for a position and range the node had at some time in the run |
| CachedUtility.CachedUtilityAgrees | src/protocol.c:218-232 | Hence in every run in which a node receives no SET_POSITION, SET_COORDINATION_RANGE or SET_POS_AND_RANGE, each entry's cached utility equals a fresh computation |
| CachedUtility.MoveKeepsCurrentIff | src/io.c:257-279 | A local request leaves the cached utilities right if and only if for every entry the sum of the two ranges changes in proportion to the distance, with the zero distances apart |
| CachedUtility.RangeKeepsCurrentIff | src/io.c:267-272 | A SET_COORDINATION_RANGE leaves them right if and only if it changes nothing or every entry is at the node's own place |
| CachedUtility.MessageRefreshesIff | src/protocol.c:229-241 | With either swap, a message of important nodes is sure to leave the important table free of stale utilities if and only if no old entry with a stale one may both survive the deduplication and stay above the cut |
| CachedUtility.RandomTableRefreshed | src/protocol.c:147-150 | A message of random nodes refreshes every utility of the random table |
| CachedUtility.MovedOutOfRange | src/protocol.c:229 | An entry that a move leaves out of range still counts as a candidate |
| CachedUtility.StaleAfterMove | src/protocol.c:229 | A node and a SET_POSITION after which an entry cached as a candidate is out of range and still listed |
| CachedUtility.LeftOutAfterMove | src/protocol.c:229 | A node and a SET_POSITION after which an entry in range is left out of the lists because of its stale utility |
| Discovery.ReceiverLearnsIff | src/protocol.c:206-248 | After receiving important nodes an ID is in the table in any case if and only if it is in the merge and no contender for it may fall below the cut |
| Discovery.ReceiverLearns | src/protocol.c:206-248 | Every ID among the foreign records that fit the free slots and can only be won by a candidate is in the table afterwards, unless there are more possible candidates than capacity minus K and the limit forbids growth |
| Discovery.KForeignNodesFit | src/protocol.c:239-241 | Of a message with at most K foreign nodes every foreign ID is among the records that fit |
| Discovery.AlwaysSentIff | src/protocol.c:288-304 | An entry is sent to a peer in any case if and only if there are at most K entries or fewer than K others are at least as useful to the peer |
| Discovery.FewCandidatesAreSent | src/protocol.c:299-304 | With at most K candidates of the peer every one of them is sent in any case |
| Discovery.AnswerNamesIff | src/protocol.c:288-330 | A message of important nodes is sure to name an ID if and only if it is the sender's or that of an entry sent in any case |
| Discovery.OneExchangeDiscovers | src/protocol.c:171-178 | After an IMP_REQ and its IMP_NOREQ reply, received at any later time, every ID the replier had to offer, other than the requester's own, that fits the free slots and can only be won by a candidate of the requester is in the requester's important table, under the same growth condition; for both swaps |
| Discovery.CodedForgetsCandidate | src/node.c:284-289 | An input on which the code may lose an ID whose newest record is a candidate, and the documented swap never does |
| Delivery.SubscribersGetTheCandidates | src/p2p-dprd.c:184-205 | In every run each delivered list is the own record followed by exactly the unexpired candidates, as in DeliveredList |
| Delivery.SubscribersGetTheNodesNearby | src/p2p-dprd.c:184-205 | For a node that stands still each delivered list is the own record followed by exactly the unexpired important nodes whose great-circle distance is at most the sum of the two coordination ranges |
| Delivery.CachedUtilityIsRatio | src/protocol.c:218-232 | For a node that stands still the utility cached with an entry is that ratio for its great-circle distance |
| Subscriptions.CleanupDelivers | src/p2p-dprd.c:190-199 | In every run a cleanup delivers a list if and only if the node has subscribers, and to all of them in order |
| Subscriptions.SubscribedIffEntitled | src/io.c:280-310 | In every run the subscribers of a node are exactly the paths for which some SUB found room among 25 and no UNSUB came later |
| Subscriptions.ServedIffEntitled | src/p2p-dprd.c:190-199 | In every run a path receives the list of a cleanup if and only if some SUB for it found room and no UNSUB for it came later |
| Subscriptions.SubscribersBounded | src/subscribe.h:46 | In every run a node has at most 25 subscribers, and none twice |
| Delivery.DeliveredWereInRange | src/p2p-dprd.c:184-205 | For any node, whatever is delivered was in range of some place the node has been |
| Ieee754.NormalFormUnique | src/upack/upack.c:56-60 | A positive number has one mantissa in [1, 2) and one exponent |
| Ieee754.Normalize | src/upack/upack.c:56-59 | Both normalising loops end for every positive number and yield its normal form |
| Ieee754.HalfIsLost | src/upack/upack.c:62-63 | The extra half in the scale factor never changes the truncated significand |
| Ieee754.Enc754 | src/upack/upack.c:44-70 | For zero and every normal number, either sign, the result is its binary64 interchange pattern; for any other finite double it is the three fields of its normal form joined in 64 bits |
| Ieee754.EncodeAgreesIff | src/upack/upack.c:44-70 | From a finite double enc754 makes the pattern of that double if and only if it is plus zero or normal |
| Ieee754.Scale | src/upack/upack.c:91-92 | The two loops end and multiply by the power of two |
| Ieee754.Dec754 | src/upack/upack.c:75-98 | The result is the signed magnitude of the three fields, the exponent being subtracted without sign and reinterpreted; the zero pattern gives 0 |
| Ieee754.DecodeEncode | src/upack/upack.c:44-98 | Decoding undoes encoding on zero and all normal numbers |
| Ieee754.EncodeDecode | src/upack/upack.c:44-98 | Encoding undoes decoding on their patterns: every biased exponent 1..2046, every significand, both signs |
| Ieee754.CanonicalIff | src/upack/upack.c:75-98 | Those patterns are exactly 0 and the ones with biased exponent 1..2046 |
| Ieee754.DecodeAgreesIff | src/upack/upack.c:75-98 | On finite patterns dec754 gives the value of section 3.4 of IEEE Std 754-2008 if and only if the pattern is plus zero or normal |
| Ieee754.LastHalving | src/upack/upack.c:91-92 | What dec754 computes exactly and with rounding differ at most on subnormal patterns, where they are half of n smallest units and that half rounded to nearest, ties to even |
| Ieee754.RoundedDecodeAgreesIff | src/upack/upack.c:91-92 | The same with the last halving of a subnormal pattern rounded to nearest, ties to even, as the hardware does |
| Bytes.BigEndianRoundTrip | src/upack/upack.c:115-168 | A value that fits is recovered from its bytes |
| Bytes.FromBigEndianRoundTrip | src/upack/upack.c:115-168 | Bytes are recovered from the value they denote |
| Bytes.BigEndianAt | src/upack/upack.c:149-154 | Each byte is the value shifted right and cut to eight bits |
| Bytes.Pack16 | src/upack/upack.c:115-118 | Two bytes, most significant first, after an unchanged prefix |
| Bytes.Pack32 | src/upack/upack.c:131-134 | Four bytes, most significant first, after an unchanged prefix |
| Bytes.Pack64 | src/upack/upack.c:149-154 | Eight bytes, most significant first, after an unchanged prefix |
| Bytes.UnpackU16 | src/upack/upack.c:123-126 | The number two bytes denote |
| Bytes.UnpackU32 | src/upack/upack.c:139-144 | The number four bytes denote |
| Bytes.UnpackU64 | src/upack/upack.c:159-168 | The number eight bytes denote |
| Wire.Pack | src/serialize.c:49-84 | The buffer holds exactly the described bytes, 5 + 38 per record |
| Wire.Unpack | src/serialize.c:86-115 | The described collection is read, record by record; nothing for an empty buffer; cached utilities stay undefined |
| Wire.PackNode | src/serialize.c:67-76 | One record is written after an unchanged prefix |
| Wire.UnpackNode | src/serialize.c:103-111 | Nine fields are set, the cached utility is not |
| Wire.UnpackPack | src/serialize.c:49-115 | Unpacking what was packed restores version, type, count and all nine fields of every record in order; the length is 5 + 38 * count |
| Wire.PackUnpack | src/serialize.c:49-115 | Packing what was unpacked gives back every well-sized buffer whose coordinates are zero or normal doubles |
| LocalWire.Unpack | src/serialize.c:117-157 | The local request in the buffer by its type byte; nothing for an empty buffer and the deprecated type |
| LocalWire.PathRecoveredIff | src/serialize.c:138-144 | A path in a datagram arrives intact exactly when it holds no NUL and has at most 511 bytes |
| PythonWire.StructUnpackPack | python/p2pdprd_types.py:275-285 | struct.unpack undoes struct.pack for any of the formats |
| PythonWire.StructPackUnpack | python/p2pdprd_types.py:275-285 | struct.pack undoes struct.unpack on any buffer of the right size |
| PythonWire.IpRoundTrip | python/p2pdprd_types.py:288-294 | The two address conversions are mutual inverses |
| PythonWire.DottedNumber | python/p2pdprd_types.py:288-290 | a.b.c.d is converted to the number with these bytes, the first one the most significant |
| PythonWire.Pack | python/p2pdprd_types.py:193-201 | The header followed by the nodes in order |
| PythonWire.PackedForm | python/p2pdprd_types.py:193-201 | Packing raises exactly for more than 65535 nodes; otherwise the layout is big-endian with a five-byte header |
| PythonWire.FromBytes | python/p2pdprd_types.py:204-237 | Reading raises exactly for buffers shorter than their header announces; otherwise the collection is read node by node |
| PythonWire.PythonUnpackPack | python/p2pdprd_types.py:193-237 | Reading what was packed gives the collection back, whatever its floats |
| PythonWire.PythonPackUnpack | python/p2pdprd_types.py:193-237 | Packing what was read gives back the bytes up to the last announced node |
| TwoCodecs.PackedAlike | src/serialize.c:49-84 | For equal collections with zero or normal doubles NodeCollection_pack and the Python pack yield identical bytes |
| TwoCodecs.PythonReadsPacked | python/p2pdprd_types.py:204-237 | Python reads the same collection from whatever the C side packs |
| TwoCodecs.ReadAlikeIff | src/serialize.c:86-115 | From a well-sized buffer of finite doubles both sides read the same collection if and only if all doubles are plus zero or normal |
| TwoCodecs.PositionArrivesIff | python/p2pdprd_types.py:119-120 | A Python SET_POSITION with finite floats is recovered by LocalRequest_unpack exactly when both are plus zero or normal |
| TwoCodecs.RangeArrives | python/p2pdprd_types.py:122-123 | A Python SET_COORDINATION_RANGE is refused outside 16 bits and recovered otherwise |
| TwoCodecs.PathArrivesIff | python/p2pdprd_types.py:128-132 | A Python SUB or UNSUB is recovered exactly when its path is free of NULs and has at most 511 bytes |
| TwoCodecs.ZeroByteSetsPosition | src/serialize.c:127-130 | A zero byte and two normal doubles, as Python sends them, set latitude and longitude and nothing else |
| TwoCodecs.OneByteSetsRange | src/serialize.c:131-133 | A one and two bytes set the coordination range and nothing else |
| TwoCodecs.ThreeAndFourSubscribe | src/serialize.c:138-145 | A three and a path subscribe it if there is room among 25, a four withdraws it; nothing else changes |
| TwoCodecs.OtherBytesDoNothing | src/serialize.c:134-148 | A two, and any byte above four, changes nothing |
| TwoCodecs.SubscribeThenUnsubscribe | src/io.c:280-310 | A new Python subscription followed by its withdrawal leaves the whole node as it was |
| Datagrams.DatagramsArriveIntact | src/io.h:60 | In every run with zero or normal coordinates, N <= 862 and K <= 861 at the sender, each datagram in flight is at most 32761 bytes, fits the 32768-byte receive buffer and unpacks to exactly the collection sent, on the Python side too |
| Datagrams.DatagramsAreLaidOut | src/serialize.c:49-84 | In every run each such datagram has version 1, type and count in five bytes and then every field of every record at its place, big-endian, doubles by their standard patterns |
| Datagrams.ThirdByteDecides | src/protocol.c:144-178 | In every run a datagram whose third byte is 1 is answered by one whose third byte is 0, 3 by 2, and nothing else by anything |

## Left out

- Sockets, `select`, signals, logging, printing, host-IP lookup, `htonll`, string formatting: input and output. Sending appends to a bag of datagrams, receiving takes from it.
- Configuration files and defaults: N, M, K, age limit, timeout, ID and position are parameters.
- malloc, free and the destroy functions: memory management. Uninitialised slots hold arbitrary records.
- Failed `sendto` calls and the terminations they cause.
- Malformed datagrams: `NodeCollection_unpack` does not compare the announced count with the size, and the receive step reads the first record of an empty collection. Both are assumed away.
- NaN, infinities, rounding of sine, cosine and arc sine, and overflow of the utility to infinity.
- Quality of randomness: the draws of `Draw` are arbitrary, so none of its 100 tries need differ.
- `SubscriberList_addSub` with a null subscriber: callers never pass one.
- `inet_aton` and `inet_ntoa`: the text form of addresses.
- `IPCMessage.from_bytes`: these messages are only ever sent to the daemon, which does not use it.
- Twisted glue in python/p2pdprd.py, OpenWrt scripts, Makefiles and example configurations.
- FreshRuns.TablesNeverGetOlder: stated for the documented swap only, because it is false of the code (`OvertakenRunGoesBack`); `DeliveryAdvancesIff` and `SafeStepsAdvance` give the exact condition.
- FreshRuns.ReceiveAdvancesIff: for random messages the condition on the important table speaks of the possible outcomes of the first of the two updates; `NoneArrivesIsSafe` is a check on the message, which `RoomyMessageSafeIff` shows to be exact while N more records fit above the cut.
- Discovery.OneExchangeDiscovers: as coded any record with the ID may win, so all of them have to be candidates, as documented only the newest; `ReceiverLearnsIff` has the exact condition.
- Network.RunInvariant: a received collection is assumed to come from the modelled nodes, not from arbitrary bytes on the network.
- NodeTable.NodeCollection.ScanDuplicates: assumes no record with ID 0, the mark of a deleted one, which the code would count as a node.
- NodeTable.NodeCollection.RemoveDuplicateNodes: assumes no record with ID 0, as above.
- NodeTable.NodeCollection.RemoveExpiredNodes: assumes no record with ID 0, as above.
- Daemon.Peer.UpdateRandomNodes: assumes no record with ID 0, as above.
- Daemon.Peer.UpdateImportantNodes: assumes no record with ID 0, as above.
- Daemon.Peer.ReceiveFromPeer: assumes a collection that is not empty and has no record with ID 0; the code reads the first record of any.
- Daemon.Peer.Turn: assumes the same of what it receives.
- Wire.Pack: covers zero and normal coordinates; what `enc754` makes of other finite doubles is stated by `Ieee754.Enc754`.
- Wire.PackNode: covers zero and normal coordinates, as above.
- Wire.Unpack: assumes a buffer as long as its header announces, because the code reads on without checking.
