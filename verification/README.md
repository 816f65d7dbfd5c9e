# Cefore: the tables and parsers under the forwarding plane

Cefore is a forwarding daemon for content-centric networks. This project models the tables and
stream parsers its forwarding plane stands on, and proves what they keep over every run.

| file | what it models |
|---|---|
| `OpenTable.dfy`, `HashTable.dfy` | the open-addressing hash table: linear probing, tombstones, the wrap-around clean-up on removal, and removal by index without it. `OpenTable` gives the effect of each operation on the slots and shows that it is a finite map; `HashTable` is the mutable table, whose loops compute exactly those effects |
| `PrimeSize.dfy` | the loop that raises a table size to a prime |
| `ChainTable.dfy` | the chained hash table of the PIT and of the content records: linked lists of cells, relinked in place |
| `PitSweep.dfy` | the clean-up pass over the PIT and the PIT of applications, deleting from the chains it walks |
| `PitEntry.dfy` | ageing the down-faces of one PIT entry, by splicing linked lists |
| `FibSearch.dfy`, `FibRoutes.dfy` | longest-prefix search, route add and delete, face clean-up |
| `FaceTable.dfy` | the face allocator for local faces, whose ids point at slots of the socket table |
| `Framing.dfy` | packet reassembly from arbitrary fragments |
| `CsmgrFrames.dfy`, `CsmgrUpload.dfy` | the resynchronising frame splitter, the layout of upload requests and their batching into writes |
| `Bitmap.dfy`, `CobSizes.dfy`, `StatTable.dfy`, `StatSalvage.dfy` | the content-store statistics: growable bitmaps, inferred chunk sizes, counters, record indexes and the resumable enumeration |
| `CobBuffer.dfy` | the direct-mapped working buffer of content objects |
| `RuleConditions.dfy`, `RuleEngine.dfy` | the packet rule engine |
| `Bytes.dfy`, `Constants.dfy`, `Counting.dfy` | shared vocabulary and constants, and the pigeonhole principle |

## Main results

- **Open-addressing table.** Over every run of stores, removals with clean-up and removals by index
  the slots represent a finite map, lookups agree with it, and no stored key ever moves
  (`OpenTable.RunRefines`, `OpenTable.SlotStays`). The one exception is exact: storing a key that
  sits in its home slot makes a second entry, and the slots then represent no map
  (`OpenTable.HomeClash`, `HashTable.OpenHash.ItemSet`).
- **PIT.** A clean-up pass examines exactly the stored entries, each once, although it deletes from
  the chains it walks and may start anywhere; afterwards a key is found exactly if it was before and
  its entry has not dropped (`PitSweep.Sweeper.Sweep`, `PitSweep.Daemon.Cleanup`). Ageing an entry
  is a stable partition of its linked down-faces (`PitEntry.Entry.Clean`).
- **FIB.** The search is longest-prefix match (`FibSearch.EntrySearch`). No run of route operations
  leaves an entry with a repeated or without any face. Adding and deleting a route change exactly
  the type bits of one face (`FibRoutes.Fib.RouteAdd`, `FibRoutes.Fib.RouteDel`). A clean-up pass
  visits each entry once and takes exactly its first closed face (`FibRoutes.Fib.FaceidCleanup`), so
  after as many passes as any entry has closed faces exactly the open ones are left
  (`FibRoutes.PassesEnd`).
- **Faces.** Every open face names its own socket and every socket its own face; an allocation fails
  exactly when every id that is not reserved is in use (`FaceTable.Faces.LookupLocalFaceid`).
- **Framing.** However a stream of packets is cut, the packets handed on are the stream's packets in
  order (`Framing.Receiver.ReceiveAll` with `Framing.ParseFlat`). Splitting what the batching writer
  wrote recovers every request (`CsmgrUpload.BatchesSplit`), every field of which is read back from
  its place (`CsmgrUpload.EncodeLayout`, `CsmgrUpload.EncodeTail`), and csmgrd accepts every request whose
  name and payload were read out of its message and whose name starts with a name segment
  (`CsmgrUpload.ReadOutAccepted`).
- **Statistics.** Counters, bitmaps, totals and indexes agree over every run
  (`StatTable.StatTable.CobUpdate`, `StatTable.StatTable.CobRemove`,
  `StatTable.StatTable.CacheCapacityUpdate`). The content size is exact for chunks of whatever sizes
  when removals give the sizes their chunks were cached with (`StatTable.PlayGiven`), and on a
  content of equal chunks also when they give none (`StatTable.PlayExact`); when one step goes wrong
  is exact too (`StatTable.StepExact`). Repeated enumeration returns each matching record once
  (`StatSalvage.Salvager.Salvage` with `StatSalvage.SalvageAll`), and the unsigned downward scan
  stops (`Bitmap.Extremes`).
- **Sizing.** The table size is the least prime not below the request (`PrimeSize.TableSize`).
- **Buffer and rules.** A buffer hit is the last accepted object of exactly that name
  (`CobBuffer.CobBuffer.Lookup`), and while a name stays resident the numbers its versions stand for
  never go backwards (`CobBuffer.CobBuffer.LineGrows`); evaluation returns the action of the highest-priority,
  earliest-added rule that applies (`RuleEngine.Context.Evaluate`).

## What the code does that a reader may not expect

- `cef_hash_tbl_item_set` does not compare the home slot: a second store of a key that is there
  makes a duplicate, and lookups go on returning the old element (`OpenTable.StoredTwice`).
- An insertion can be refused although the table has a free slot: the home slot, when it is a
  tombstone (`OpenTable.FreeHomeRefused`). `cef_fib_route_add` ignores that refusal and answers
  success although the route is lost (`FibRoutes.Fib.RouteAdd`, `FibRoutes.Fib.SlotRefused`). It
  takes a FIB_SIZE that is a prime, or 1: any other size leaves the table more slots than entries,
  and then no route is ever lost (`FibRoutes.Fib.constructor`, `FibRoutes.Fib.SlotLeft`).
- Deleting a route of one type drops the face although it still has a route of an earlier type
  (`FibRoutes.DeleteDrops`, `FibRoutes.DeleteExample`).
- Closing a face that is not open closes whichever open face has its socket in the slot the closed
  face still points to, slot 0 after an initialisation (`FaceTable.Faces.Close`,
  `FaceTable.CloseOther`).
- Deleting the record of a content that still has chunks leaves the table's chunk counter too high
  (`StatTable.StatTable.InfoDelete`, `StatTable.DeletedWithChunk`); the removal of chunks never does
  that.
- A removal that is given no size takes off the wrong one when chunks before the final one differ in
  size (`CobSizes.MiddleSmaller`).
- A rule that asks for a source node id never matches (`RuleConditions.SourceInEvaluation`).

## Assumptions

- The digest behind every hash is an arbitrary function of the key.
- `cef_pit_entry_free` and `csmgrd_stat_content_info_delete` are not part of this model. They are taken to
  remove exactly that entry from the chained table, and to behave as `csmgr_stat_content_info_delete`.
- Clocks, descriptors, closed faces and callback results are parameters. Memory allocation succeeds.
- Counters and table sizes are unbounded integers; 16-bit lengths and the 32-bit scan index are
  written out where they wrap.

## Model

| member | source | states |
|---|---|---|
| `OpenTable.FindMeets` | src/lib/cef_hash.c:251-293 | the slots a probe passed are neither empty nor the key's; with nothing met and no tombstone seen, every other slot is live |
| `OpenTable.FindArc` | src/lib/cef_hash.c:251-293 | the same for the whole arc of slots between the home slot and where the probe stopped |
| `OpenTable.LookupFinds` | src/lib/cef_hash.c:476-522 | in a table that represents a map, a lookup finds exactly the stored keys, each in its own slot |
| `OpenTable.TargetFits` | src/lib/cef_hash.c:223-305 | an insertion writes over the key's own entry or over a dead slot reachable without crossing an empty one, and is refused exactly when there is no room |
| `OpenTable.FirstTomb` | src/lib/cef_hash.c:251-293 | a probe that meets neither an empty slot nor the key reports the first tombstone on its way |
| `OpenTable.TombReused` | src/lib/cef_hash.c:223-305 | an insertion reuses a tombstone only when no slot is empty and no other slot has the key, and then the first one behind the home slot, never the home slot itself |
| `OpenTable.InsertUpdates` | src/lib/cef_hash.c:223-305 | storing a key that is not in its home slot is the map update, moves no entry, and keeps tombstones from preceding empty slots |
| `OpenTable.HomeClash` | src/lib/cef_hash.c:242-265 | storing a key over itself in its home slot leaves slots that represent no map at all |
| `OpenTable.StoredTwice` | src/lib/cef_hash.c:242-265 | a concrete run of two stores that leaves one key in two slots, the lookup returning the older element |
| `OpenTable.TombThenLive` | src/lib/cef_hash.c:725-746 | the slots after two stores and a removal by index: a tombstone in front of a live slot |
| `OpenTable.NoRoomSize` | src/lib/cef_hash.c:296-304 | no room means that at most one slot of the table is not live |
| `OpenTable.FreeHomeRefused` | src/lib/cef_hash.c:242-304 | a concrete state, reached by two stores and a removal by index, in which an insertion is refused although its tombstoned home slot is free |
| `OpenTable.ModifyUpdates` | src/lib/cef_hash.c:260-265 | overwriting the element of a stored key is the map update and leaves every slot number as it was |
| `OpenTable.BuryKeeps` | src/lib/cef_hash.c:738-745 | turning a stored key's slot into a tombstone removes exactly that key from the map |
| `OpenTable.EmptyKeeps` | src/lib/cef_hash.c:671-679 | emptying a tombstone in front of an empty slot leaves every stored key findable |
| `OpenTable.SweepKeeps` | src/lib/cef_hash.c:680-696 | the backward loop frees only tombstones, keeps every stored key findable, and moves the one place where a tombstone may precede an empty slot to the end of its range |
| `OpenTable.LowKeeps` | src/lib/cef_hash.c:670-687 | the same for the removed slot and the tombstones before it, down to the front |
| `OpenTable.TidiedKeeps` | src/lib/cef_hash.c:668-698 | the whole clean-up, across the wrap to the table end, changes tombstones into empty slots only, keeps every key findable, and leaves no tombstone in front of an empty slot |
| `OpenTable.RemoveUpdates` | src/lib/cef_hash.c:594-700 | removal drops exactly its key from the map, every other key stays in its slot, and a tidy table stays tidy |
| `OpenTable.ApplyRefines` | src/lib/cef_hash.c:223-305 | each table operation is the map operation it stands for, and moves no key |
| `OpenTable.RunRefines` | src/lib/cef_hash.c:223-305 | over every run of stores, app stores, removals and removals by index from the empty table, the slots represent the expected map and lookups return exactly its bindings; without removals by index no tombstone ever precedes an empty slot |
| `OpenTable.ApplyStays` | src/lib/cef_hash.c:594-746 | no operation other than its removal moves a stored key |
| `OpenTable.SlotStays` | src/lib/cef_hash.c:223-305 | over every run the slot number an insertion returned names its key until the key is removed |
| `HashTable.OpenHash.constructor` | src/lib/cef_hash.c:124-147 | a new table is the empty map |
| `HashTable.OpenHash.Probe` | src/lib/cef_hash.c:251-294 | the two probing loops meet what a cyclic probe meets |
| `HashTable.OpenHash.Locate` | src/lib/cef_hash.c:490-521 | home slot, then the loops: the slot of a key |
| `HashTable.OpenHash.ItemGet` | src/lib/cef_hash.c:476-522 | returns the map's binding, and nothing for a key that is too long |
| `HashTable.OpenHash.Place` | src/lib/cef_hash.c:240-305 | which slot an insertion writes, and whether it counts a new entry |
| `HashTable.OpenHash.ItemSet` | src/lib/cef_hash.c:223-305 | the map update whenever the key is not in its home slot, refused exactly for length or want of room; on a key in its home slot the result represents no map |
| `HashTable.OpenHash.ItemSetForApp` | src/lib/cef_hash.c:308-403 | the map update for absent keys; refused exactly for length, a key that is present, or want of room |
| `HashTable.OpenHash.Compact` | src/lib/cef_hash.c:668-698 | the clean-up loops compute the tidied slots |
| `HashTable.OpenHash.Erase` | src/lib/cef_hash.c:604-699 | finding, burying and cleaning up compute the removal, and the count drops by one if the key was there |
| `HashTable.OpenHash.ItemRemove` | src/lib/cef_hash.c:594-700 | the map loses exactly the key and its element is returned; only that slot and tombstones change |
| `HashTable.OpenHash.ItemRemoveFromIndex` | src/lib/cef_hash.c:725-746 | the map loses exactly the key of that slot, which becomes a tombstone; a dead slot changes nothing |
| `HashTable.OpenHash.Modify` | src/lib/cef_fib.c:947-962 | writing through the pointer a lookup returned is the map update and changes one slot |
| `HashTable.OpenHash.ItemCheckFromIndex` | src/lib/cef_hash.c:703-722 | the first live slot from an index on, or none |
| `PrimeSize.LargerPrime` | src/lib/cef_hash.c:105-122 | above every number there is a prime, so the sizing loop can end |
| `PrimeSize.HasDivisor` | src/lib/cef_hash.c:109-116 | the inner loop decides primality |
| `PrimeSize.TableSize` | src/lib/cef_hash.c:105-122 | the sizing loop ends with the least prime not below a request of at least 2, and keeps a smaller request |
| `ChainTable.WithoutLooks` | src/lib/cef_hash.c:1199-1221 | unlinking a cell hides exactly its key |
| `ChainTable.StoredLooks` | src/lib/cef_hash.c:1117-1141 | storing in a chain gives exactly that key the element |
| `ChainTable.StoreInUpdates` | src/lib/cef_hash.c:1087-1143 | storing changes the lookup of exactly one key and the number of cells by one if it was new |
| `ChainTable.DropFromUpdates` | src/lib/cef_hash.c:1177-1225 | removing changes the lookup of exactly one key and the number of cells by one if it was there |
| `ChainTable.ChainTable.Walk` | src/lib/cef_hash.c:1166-1172 | the walk along the linked chain returns the node of the key, or none |
| `ChainTable.ChainTable.Fetch` | src/lib/cef_hash.c:1160-1174 | returns what is stored under the key |
| `ChainTable.ChainTable.NodeOnce` | src/lib/cef_hash.c:1121-1140 | no node is in two places of the table |
| `ChainTable.ChainTable.Rewrite` | src/lib/cef_hash.c:1121-1126 | writing one node changes one cell of one chain |
| `ChainTable.ChainTable.Push` | src/lib/cef_hash.c:1127-1141 | a new node becomes the front of its chain; every other chain stays |
| `ChainTable.ChainTable.CutFirst` | src/lib/cef_hash.c:1201-1207 | making the head point to the second node drops the first cell |
| `ChainTable.ChainTable.CutNext` | src/lib/cef_hash.c:1211-1218 | pointing a node past its successor drops exactly that cell |
| `ChainTable.ChainTable.FindBefore` | src/lib/cef_hash.c:1208-1220 | the loop stops before the node of the key, or at the end if there is none |
| `ChainTable.ChainTable.Store` | src/lib/cef_hash.c:1100-1143 | writes the element in place in the node of the key, or links a new node at the front; the chains then hold exactly the updated cells |
| `ChainTable.ChainTable.Unlink` | src/lib/cef_hash.c:1193-1224 | takes the node of the key out of its chain, at the head or further on; the chains then hold exactly the remaining cells, and the removed element is returned |
| `ChainTable.ChainTable.ItemGet` | src/lib/cef_hash.c:1146-1174 | returns what is stored under the key, and nothing for a key that is too long |
| `ChainTable.ChainTable.ItemSet` | src/lib/cef_hash.c:1087-1143 | exactly that key changes; the count follows |
| `ChainTable.ChainTable.ItemRemove` | src/lib/cef_hash.c:1177-1225 | exactly that key goes and its element is returned; the count follows |
| `ChainTable.ChainTable.Count` | src/lib/cef_hash.c:1266-1271 | the loop counts the cells of a chain |
| `ChainTable.ChainTable.ElemGet` | src/lib/cef_hash.c:1250-1290 | the first non-empty bucket from an index on, cyclically, and how many cells it has |
| `ChainTable.ChainTable.ItemGetFromIndex` | src/lib/cef_hash.c:1307-1337 | the element at a position of a chain; nothing behind its end, for an index past the table, or when the chain begins with an empty key |
| `ChainTable.ChainTable.Clear` | src/lib/cef_csmgr_stat.c:847-849 | every chain is empty and the count is zero |
| `PitSweep.SweepWhole` | src/cefnetd/cef_netd.c:6931-6983 | examining a chain while deleting from it examines every cell once, in order, and leaves exactly the survivors |
| `PitSweep.NextUnvisited` | src/lib/cef_hash.c:1250-1290 | as long as an unvisited bucket is not empty, the next bucket found is unvisited and skips none |
| `PitSweep.AllVisited` | src/cefnetd/cef_netd.c:6910-6926 | once as many cells have been visited as the table held, all other buckets are empty |
| `PitSweep.RoundEnds` | src/cefnetd/cef_netd.c:6911-6925 | a round that visited every entry leaves the cursor just behind the last bucket of the sweep order that held one, or at its start if the table was empty |
| `PitSweep.PassSwept` | src/cefnetd/cef_netd.c:6911-6976 | such a round examined every stored entry once and left exactly those that have not dropped |
| `PitSweep.ProgressEnd` | src/cefnetd/cef_netd.c:6910-6984 | a finished sweep has left every bucket with exactly its survivors |
| `PitSweep.SurvivorsAll` | src/cefnetd/cef_netd.c:6969-6982 | the survivors of a chain are exactly its entries that have not dropped, and repeat no key |
| `PitSweep.SweptLookup` | src/cefnetd/cef_netd.c:6969-6982 | after a pass a key is found exactly if it was before and its entry has not dropped |
| `PitSweep.SweepOrder` | src/cefnetd/cef_netd.c:6910-6926 | a sweep order from any start holds exactly the stored entries, each once |
| `PitSweep.Sweeper.Examine` | src/cefnetd/cef_netd.c:6932-6983 | one entry is examined; it is deleted exactly if it has dropped, and the position advances exactly if not |
| `PitSweep.Sweeper.SweepBucket` | src/cefnetd/cef_netd.c:6931-6983 | every entry the bucket held is examined once, in order, and the survivors stay |
| `PitSweep.Sweeper.NextToVisit` | src/cefnetd/cef_netd.c:6913-6926 | the cursor leads to the next unvisited non-empty bucket of the sweep |
| `PitSweep.Sweeper.Visit` | src/cefnetd/cef_netd.c:6921-6983 | visiting it extends the examined part of the sweep by exactly its entries |
| `PitSweep.Sweeper.Round` | src/cefnetd/cef_netd.c:6901-6984 | the outer loop terminates with at least as many entries examined as the table held |
| `PitSweep.Sweeper.Sweep` | src/cefnetd/cef_netd.c:6901-6984 | one pass over one table: the entries examined are exactly the stored ones, each once, in one cyclic sweep from the saved cursor, which is left behind the last bucket that held an entry; a key is found afterwards exactly if it was before and its entry has not dropped |
| `PitSweep.Daemon.Cleanup` | src/cefnetd/cef_netd.c:6886-7051 | before the set time nothing changes; otherwise such a pass over the PIT and over the PIT of applications, and the next time is set |
| `PitEntry.SplitKeeps` | src/cefnetd/cef_netd.c:6852-6875 | splitting by expiry keeps every down-face exactly as often as it was there, each on its side |
| `PitEntry.SplitAppend` | src/cefnetd/cef_netd.c:6852-6875 | the split treats every down-face on its own and keeps the order on both sides |
| `PitEntry.Entry.Tail` | src/cefnetd/cef_netd.c:6818-6821 | the walk ends at the last face to clean |
| `PitEntry.Entry.Move` | src/cefnetd/cef_netd.c:6855-6863 | one splice takes a node out of the one list and puts it at the end of the other, and both stay proper lists without shared nodes |
| `PitEntry.Entry.MoveAll` | src/cefnetd/cef_netd.c:6818-6835 | relinking node by node appends the whole active list to the faces to clean |
| `PitEntry.Entry.MoveExpired` | src/cefnetd/cef_netd.c:6849-6875 | the walk that splices under itself leaves the unexpired faces in order and appends the expired ones in order; the count stays the length of the active list |
| `PitEntry.Entry.Clean` | src/cefnetd/cef_netd.c:6801-6881 | ageing loses and duplicates no down-face: all move past the advertised lifetime, exactly the expired ones when a clean-up is due, none otherwise |
| `Framing.StreamHead` | src/cefnetd/cef_netd.c:3061-3204 | a non-empty stream begins with a packet or with part of one |
| `Framing.ParseFlat` | src/cefnetd/cef_netd.c:3252-3282 | parsing a concatenation of packets and part of another returns the packets in order and the part |
| `Framing.ParseSplit` | src/cefnetd/cef_netd.c:3238-3283 | cutting a stream anywhere, and putting the first piece's tail in front of the second, parses the same |
| `Framing.StreamTail` | src/cefnetd/cef_netd.c:3252-3282 | what is left of a stream after its complete packets is a stream |
| `Framing.UnfinishedFits` | src/cefnetd/cef_netd.c:3240-3244 | a stream without a complete packet is shorter than the buffer |
| `Framing.TakeIn` | src/cefnetd/cef_netd.c:3238-3283 | taking in a chunk and draining it leaves the rest of the stream to be taken in |
| `Framing.Receiver.constructor` | src/cefnetd/cef_netd.c:3235-3236 | an empty buffer and nothing handed on |
| `Framing.Receiver.HeadSeek` | src/cefnetd/cef_netd.c:3049-3207 | on a buffer that begins with a packet, or begins one, the answer is exactly whether all of it is there, and its lengths |
| `Framing.Receiver.Shift` | src/cefnetd/cef_netd.c:3277-3281 | the first bytes go and the others move to the front |
| `Framing.Receiver.Append` | src/cefnetd/cef_netd.c:3247-3250 | the chunk follows what the buffer held |
| `Framing.Receiver.Drain` | src/cefnetd/cef_netd.c:3252-3282 | every complete packet at the front is handed on, in order; only the unfinished tail stays, and it leaves room |
| `Framing.Receiver.Receive` | src/cefnetd/cef_netd.c:3212-3286 | one chunk of any size hands on the complete packets and keeps the tail; the outer loop always makes progress |
| `Framing.Receiver.ReceiveAll` | src/cefnetd/cef_netd.c:3212-3286 | however a stream is cut into chunks, the packets handed on are exactly its complete packets in order |
| `CsmgrFrames.Resync` | src/lib/cef_csmgr.c:1517-1533 | skipping ends at an acceptable header or with too few bytes for one |
| `CsmgrFrames.Get` | src/lib/cef_csmgr.c:1491-1558 | the reader terminates on every buffer, also when it recurses on as many bytes after zeroing the version; a frame takes its header and body off the buffer |
| `CsmgrFrames.FrameGet` | src/lib/cef_csmgr.c:1491-1558 | the in-place reader returns the frame and leaves the rest at the front of the buffer |
| `CsmgrFrames.TakeFrame` | src/lib/cef_csmgr.c:1546-1557 | the frame at the front is copied out and the bytes behind it move to the front |
| `CsmgrFrames.SkipInvalid` | src/lib/cef_csmgr.c:1517-1527 | the loop over invalid bytes stops where skipping does |
| `CsmgrFrames.GetFrame` | src/lib/cef_csmgr.c:1534-1557 | a well-formed frame is returned whole, and exactly what follows it is left |
| `CsmgrFrames.SplitFrames` | src/lib/cef_csmgr.c:1491-1558 | on whole frames followed by part of one, repeated calls return the frames in order and leave the part |
| `CsmgrFrames.GetSkips` | src/lib/cef_csmgr.c:1512-1533 | whatever stands in front of the first acceptable header that announces a body is skipped, also an acceptable header that announces none |
| `CsmgrFrames.GetStep` | src/lib/cef_csmgr.c:1512-1545 | where no such header begins the reader goes on with the next byte, and drops everything when too few bytes for a header would be left |
| `CsmgrFrames.GetNothing` | src/lib/cef_csmgr.c:1512-1545 | a buffer without such a header gives no frame, and is emptied if it has five bytes or more |
| `CsmgrFrames.GetUsable` | src/lib/cef_csmgr.c:1534-1558 | at such a header the frame is taken if all of it is there, and otherwise everything is kept |
| `CsmgrUpload.TwoBytes` | src/lib/cef_csmgr.c:1335-1338 | a 16-bit field written most significant byte first is read back |
| `CsmgrUpload.BigEndianValue` | src/lib/cef_csmgr.c:1361-1374 | a field of any width written most significant byte first is read back, for every number that fits it |
| `CsmgrUpload.FixedLayout` | src/lib/cef_csmgr.c:1361-1397 | chunk number, cache time and expiry are read back from the fixed fields in this order, and the address follows |
| `CsmgrUpload.EncodeSlices` | src/lib/cef_csmgr.c:1328-1407 | where each part of a request lies |
| `CsmgrUpload.EncodeLayout` | src/lib/cef_csmgr.c:1326-1407 | a request is a well-formed frame of the upload type, and its payload length, message, name and magic are read back from their places |
| `CsmgrUpload.EncodeTail` | src/lib/cef_csmgr.c:1359-1405 | right behind the name come the chunk number in 4 bytes, the cache time in 8, the expiry in 8 and the address in 4, each read back from there, and the magic ends the request |
| `CsmgrUpload.PutAccepted` | src/csmgrd/csmgrd/csmgrd.c:3838-3914 | csmgrd accepts a request exactly when its payload and its name are no longer than its message and the two bytes where the name is announced are a name segment type, for names of every length |
| `CsmgrUpload.ReadOutAccepted` | src/csmgrd/csmgrd/csmgrd.c:3838-3914 | a request whose name and payload were read out of its message is accepted, if the name starts with a name segment |
| `CsmgrUpload.EncodeAllFrames` | src/lib/cef_csmgr.c:1326-1407 | every request put is a well-formed frame |
| `CsmgrUpload.FramesOfGroup` | src/lib/cef_csmgr.c:1409-1424 | every write holds whole frames |
| `CsmgrUpload.BatchesSplit` | src/lib/cef_csmgr.c:1409-1424 | the bytes written and those pending split into exactly the requests put, in order, and no write cuts a request |
| `CsmgrUpload.Uploader.constructor` | src/lib/cef_csmgr.c:352-358 | nothing written and nothing pending |
| `CsmgrUpload.Uploader.Send` | src/lib/cef_csmgr.c:1410-1414 | one write of all that is pending |
| `CsmgrUpload.Uploader.Enqueue` | src/lib/cef_csmgr.c:1416-1417 | the request is pending behind the others |
| `CsmgrUpload.Uploader.ItemPut` | src/lib/cef_csmgr.c:1326-1427 | the writes and the buffer together always hold exactly the requests put; what waits is written before a request that would fill the buffer and not otherwise; a last chunk is written at once; a request without a chunk number is not sent |
| `CsmgrUpload.Uploader.ItemPush` | src/lib/cef_csmgr.c:1433-1444 | one more write exactly when something is pending |
| `FibSearch.SegmentAt` | src/lib/cef_fib.c:163-172 | each segment lies right behind the ones before it |
| `FibSearch.PeelLast` | src/lib/cef_fib.c:161-173 | the walk over the segments stops at the start of the last one, so the length strictly decreases |
| `FibSearch.Longest` | src/lib/cef_fib.c:143-174 | the longest non-empty whole-segment prefix in the FIB: it is there, and no longer one is |
| `FibSearch.EntrySearch` | src/lib/cef_fib.c:130-177 | the search returns the entry of the longest non-empty whole-segment prefix in the FIB, or the default route if there is none |
| `FibRoutes.ListsKept` | src/lib/cef_fib.c:610-676 | adding leaves a face list that is not empty and repeats no face; deleting leaves such a list or an empty one |
| `FibRoutes.AddedGains` | src/lib/cef_fib.c:610-650 | after a route is added its face has, bit by bit, its earlier type bits and those of the route, in its old place, or comes last with those of the route; no other face changes |
| `FibRoutes.DeletedWithdraws` | src/lib/cef_fib.c:653-676 | after a route is deleted its face has, bit by bit, the type bits that are not of the route, or goes if they are less than the type deleted; no other face changes |
| `FibRoutes.LaterSurvives` | src/lib/cef_fib.c:610-676 | deleting a route of an earlier type right after adding one of a later type leaves the face there with the later type |
| `FibRoutes.DeleteDrops` | src/lib/cef_fib.c:660-672 | deleting a route of one type drops the face exactly when it has no route of a later type |
| `FibRoutes.DeleteExample` | src/lib/cef_fib.c:660-672 | deleting the route of type 2 of a face that also has one of type 1 empties the list |
| `FibRoutes.AddThenDelete` | src/lib/cef_fib.c:610-676 | deleting the route just added restores the list exactly when the face was not listed, or had no route of that type and has one of a later type |
| `FibRoutes.CleanedSound` | src/lib/cef_fib.c:394-405 | a clean-up visit leaves a list without repeats |
| `FibRoutes.CleanedEmpty` | src/lib/cef_fib.c:394-419 | a visit empties a list only if its single face is closed, and drops no open face |
| `FibRoutes.CleanedFirst` | src/lib/cef_fib.c:394-405 | a visit removes exactly the first closed face; without a closed face the list stays |
| `FibRoutes.CleanedCount` | src/lib/cef_fib.c:394-405 | a visit lowers the number of closed faces by one if there is one, and keeps the open faces in order |
| `FibRoutes.VisitsCount` | src/lib/cef_fib.c:394-405 | any number of visits lowers it by that number, to no less than zero, and keeps the open faces in order |
| `FibRoutes.PassesEnd` | src/lib/cef_fib.c:380-421 | after as many passes as any entry has closed faces every entry holds exactly its open faces, in order, and the entries without one are gone |
| `FibRoutes.LiveSkip` | src/lib/cef_hash.c:703-722 | skipping dead slots skips no entry |
| `FibRoutes.LiveFromAll` | src/lib/cef_hash.c:703-722 | the slots a scan visits are exactly the live ones, in strictly increasing order |
| `FibRoutes.VisitedContents` | src/lib/cef_fib.c:389-421 | visiting every slot cleans every entry of the FIB as a map, and drops those left without faces |
| `FibRoutes.SetFace` | src/lib/cef_fib.c:610-650 | the loop finds a listed face and merges the type, or appends the face |
| `FibRoutes.RemoveFace` | src/lib/cef_fib.c:653-676 | the loop clears the type of a listed face and drops the face if nothing of at least that value is left |
| `FibRoutes.DropClosed` | src/lib/cef_fib.c:394-405 | the loop drops the first closed face and no other |
| `FibRoutes.Fib.constructor` | src/lib/cef_hash.c:97-147 | an empty FIB, whose table has more slots than its capacity unless that is a prime or 1 |
| `FibRoutes.Fib.SlotLeft` | src/lib/cef_fib.c:946-956 | a FIB that is not full and has more slots than its capacity has a slot for every name |
| `FibRoutes.Fib.SlotRefused` | src/lib/cef_fib.c:946-956 | a FIB of capacity 2 with one entry and a tombstone has no slot for a name whose home is the tombstone |
| `FibRoutes.Fib.RouteAdd` | src/lib/cef_fib.c:909-968 | after answer 1 with a slot for the name, the face is listed under it and has bit by bit its earlier type and the one added, and nothing else in the FIB changed; a full FIB refuses a new entry; with more slots than capacity no route is lost; otherwise an entry is lost exactly when the table has no slot for it, although the answer is 1 |
| `FibRoutes.Fib.RouteDel` | src/lib/cef_fib.c:973-1074 | the face loses the bits of the type, and goes if what is left is less than the type, the entry with its last face; nothing else in the FIB changes; an unknown name is refused |
| `FibRoutes.Fib.VisitSlot` | src/lib/cef_fib.c:393-417 | one visit changes one slot: its list is cleaned, and an entry left empty is removed |
| `FibRoutes.Fib.VisitAll` | src/lib/cef_fib.c:389-421 | the scan visits the live slots in order although it removes slots while it runs, and cleans each |
| `FibRoutes.Fib.FaceidCleanup` | src/lib/cef_fib.c:380-421 | the pass visits the slot of every entry exactly once, in increasing order; every entry loses exactly its first closed face, so its number of closed faces drops by one if it was positive and its open faces stay in order; the entries without faces go |
| `FaceTable.NameFits` | src/lib/cef_face.c:433 | a socket name is "app-face-" and digits that write the descriptor; names of different descriptors differ and fit a table key |
| `FaceTable.DigitsValue` | src/lib/cef_face.c:433 | the digits of a descriptor are decimal digits that write its number, without a leading zero |
| `FaceTable.AgreeOpen` | src/lib/cef_face.c:467-469 | opening a face on a free slot keeps the two tables in agreement and opens exactly that face |
| `FaceTable.AgreeClose` | src/lib/cef_face.c:488-507 | closing keeps the two tables in agreement and closes exactly the face whose socket was in the slot; that is the face asked for if it was open |
| `FaceTable.CloseOnly` | src/lib/cef_face.c:488-507 | closing resets the closed face and empties its slot to a tombstone, and changes no other slot and no face but the owner of the socket |
| `FaceTable.CloseOther` | src/lib/cef_face.c:488-507 | a concrete state in which closing a face that is not open closes another one |
| `FaceTable.RoomLeft` | src/lib/cef_face.c:456-463 | the socket table always has room for one more local face |
| `FaceTable.Faces.constructor` | src/lib/cef_face.c:245-250 | no face is open |
| `FaceTable.Faces.UnusedFaceid` | src/lib/cef_face.c:2071-2096 | the first unused id from where the last search stopped, else from the first that is not reserved; -1 only if all of those are in use |
| `FaceTable.Faces.SocketFacts` | src/lib/cef_face.c:436-446 | a socket in the table belongs to an open face with its descriptor |
| `FaceTable.Faces.FaceFacts` | src/lib/cef_face.c:467-468 | an open face finds its own socket in the table |
| `FaceTable.Faces.OpenDistinct` | src/lib/cef_face.c:436-446 | no descriptor is open on two faces |
| `FaceTable.Faces.Register` | src/lib/cef_face.c:454-469 | storing the socket succeeds and opens exactly that face, as a local one |
| `FaceTable.Faces.LookupLocalFaceid` | src/lib/cef_face.c:424-478 | the descriptor's open face if there is one, else a face that was not open; it fails exactly when every id that is not reserved is in use |
| `FaceTable.Faces.Close` | src/lib/cef_face.c:483-510 | closes exactly the face when it is open; otherwise whatever face has its socket in the slot the face still points to |
| `Bitmap.PutChunks` | src/lib/cef_csmgr_stat.c:684-689 | setting or clearing a bit changes exactly that chunk |
| `Bitmap.GrownSize` | src/lib/cef_csmgr_stat.c:627-634 | the grown map is a whole number of steps of 1000 words, and has between one and two steps more than the word number |
| `Bitmap.GrownChunks` | src/lib/cef_csmgr_stat.c:635-643 | growing a map changes no chunk |
| `Bitmap.LowBit` | src/lib/cef_csmgr_stat.c:336-343 | the lowest set bit of a word |
| `Bitmap.HighBit` | src/lib/cef_csmgr_stat.c:349-356 | the highest set bit of a word |
| `Bitmap.Extremes` | src/lib/cef_csmgr_stat.c:334-360 | the smallest and the largest chunk cached; the downward loop on an unsigned index stops before it wraps because some bit is set |
| `CobSizes.NoteSize` | src/lib/cef_csmgr_stat.c:649-665 | the steps of an update leave the largest size so far, and the last smaller size with its chunk, or a higher chunk |
| `CobSizes.InferredRight` | src/lib/cef_csmgr_stat.c:731-737 | for a regular content the size inferred for a cached chunk is its size, whatever came and went before |
| `CobSizes.MiddleSmaller` | src/lib/cef_csmgr_stat.c:649-737 | it is not for a content whose second chunk of three is smaller: the third is then taken for the size of the second |
| `CobSizes.UpdateKnows` | src/lib/cef_csmgr_stat.c:649-689 | an update with the true size keeps what the record knows right |
| `CobSizes.RemoveKnows` | src/lib/cef_csmgr_stat.c:731-748 | a removal that gives the true size or none takes off the true size and keeps it right |
| `StatTable.TotalStore` | src/lib/cef_csmgr_stat.c:684-688 | storing a record changes the total by the difference of the counters |
| `StatTable.TotalDrop` | src/lib/cef_csmgr_stat.c:949-1015 | deleting a record changes the total by its counter |
| `StatTable.CachedCounts` | src/lib/cef_csmgr_stat.c:624-689 | after an update the counter is the number of bits set, which are the old ones and the chunk, also when the map grew |
| `StatTable.RemovedCounts` | src/lib/cef_csmgr_stat.c:743-748 | after a removal the counter is the number of bits set, which are the old ones without the chunk |
| `StatTable.CachedCameIn` | src/lib/cef_csmgr_stat.c:624-689 | an update sets the bit of the chunk and no other, adds its size exactly if the bit was clear, and notes the largest size and the last smaller one |
| `StatTable.RemovedWentOut` | src/lib/cef_csmgr_stat.c:731-748 | a removal clears that bit, and if it was set takes off the size given, or without one that of the last chunk for the last chunk and the largest for any other |
| `StatTable.CachedKnows` | src/lib/cef_csmgr_stat.c:649-689 | an update with the true size keeps the content size the exact sum over the bits set |
| `StatTable.RemovedKnows` | src/lib/cef_csmgr_stat.c:731-748 | a removal that gives the true size or none keeps the content size the exact sum over the bits set |
| `StatTable.StepExact` | src/lib/cef_csmgr_stat.c:649-754 | for chunks of any sizes: a step keeps bitmap, counter and content size what the cached chunks make them, except exactly when it removes one of several cached chunks and takes off another size than the chunk was cached with |
| `StatTable.PlayGiven` | src/lib/cef_csmgr_stat.c:649-754 | for every order of insertions of chunks of whatever sizes, and removals that give the sizes their chunks were cached with, the bitmap holds exactly the cached chunks, the counter counts them and the content size is the exact sum of their sizes |
| `StatTable.StepKnows` | src/lib/cef_csmgr_stat.c:649-754 | on a content of equal chunks with a shorter final one, a step with the true size, or a removal without one, takes off the size the chunk has |
| `StatTable.PlayExact` | src/lib/cef_csmgr_stat.c:649-754 | so on such a content the same holds for every order of insertions with true sizes and removals that give the true size or none |
| `StatTable.IndexesDistinct` | src/lib/cef_csmgr_stat.c:1471-1477 | two records never have the same index |
| `StatTable.IndexedStore` | src/lib/cef_csmgr_stat.c:1471-1477 | storing under a free index, or a record's own, keeps the index flags and the records in agreement |
| `StatTable.IndexedDrop` | src/lib/cef_csmgr_stat.c:975-1008 | deleting a record gives back exactly its index |
| `StatTable.StoreKeeps` | src/lib/cef_csmgr_stat.c:1428-1515 | storing a record keeps counters, bitmaps, indexes and totals in agreement |
| `StatTable.DropKeeps` | src/lib/cef_csmgr_stat.c:949-1015 | deleting a record keeps them in agreement |
| `StatTable.FreeExists` | src/lib/cef_csmgr_stat.c:1450-1477 | while not all indexes are in use, one is free |
| `StatTable.StatTable.constructor` | src/lib/cef_csmgr_stat.c:154-183 | no records, and all counters zero |
| `StatTable.StatTable.TakeIndex` | src/lib/cef_csmgr_stat.c:1471-1477 | the loop marks the lowest index that was not in use, and no other |
| `StatTable.StatTable.Create` | src/lib/cef_csmgr_stat.c:1453-1481 | a new record without chunks under a free index; every other record stays |
| `StatTable.StatTable.Write` | src/lib/cef_csmgr_stat.c:684-689 | exactly one record changes, and the total follows its counter |
| `StatTable.StatTable.ContentLookup` | src/lib/cef_csmgr_stat.c:1428-1515 | the record of a name, created empty under a fresh index exactly if there is none, the name is not empty and the table not full; whether it was created is told, and the content counter is left to the caller |
| `StatTable.StatTable.CountedLookup` | src/lib/cef_csmgr_stat.c:905-912 | a record that was created is counted, so the content counter stays the number of records |
| `StatTable.StatTable.CobUpdate` | src/lib/cef_csmgr_stat.c:598-703 | exactly that record changes: the bit is set and no other, the counters of record and table grow by one and the content size by the size exactly if the bit was clear, and the sizes are noted; the content counter grows exactly if the record is new |
| `StatTable.StatTable.CobRemove` | src/lib/cef_csmgr_stat.c:708-758 | exactly that record changes, and goes with its last chunk: the bit is cleared and no other, and exactly if it was set the counters of record and table drop by one and the content size by the size given, or by the inferred one if none is |
| `StatTable.StatTable.InfoInit` | src/lib/cef_csmgr_stat.c:890-915 | the record of the name; one without chunks and sizes is created and counted exactly if there was none, the name is not empty and the table not full; all counters stay right |
| `StatTable.StatTable.InfoDelete` | src/lib/cef_csmgr_stat.c:949-1015 | the record goes and its index is free again; the table's chunk counter stays the sum exactly when the record had no chunks |
| `StatTable.DeletedWithChunk` | src/lib/cef_csmgr_stat.c:949-1015 | after one cached chunk and the deletion of its record, no record is left and the table still counts one chunk |
| `StatTable.StatTable.InfoGet` | src/lib/cef_csmgr_stat.c:304-366 | the smallest and largest cached chunk of a content that has chunks and has not expired |
| `StatTable.StatTable.ReleaseChain` | src/lib/cef_csmgr_stat.c:836-845 | after the walk along a chain, every flag still set belongs to a record behind it |
| `StatTable.StatTable.ReleaseAll` | src/lib/cef_csmgr_stat.c:835-846 | after giving back the index of every chained record no flag is set |
| `StatTable.StatTable.CacheCapacityUpdate` | src/lib/cef_csmgr_stat.c:823-857 | no records and all counters zero |
| `StatSalvage.InChainAll` | src/lib/cef_csmgr_stat.c:1571-1595 | a chain contributes exactly its matching records, none twice |
| `StatSalvage.InBucketsAll` | src/lib/cef_csmgr_stat.c:1567-1598 | what the calls enumerate is exactly the stored records whose names start with the prefix, none twice |
| `StatSalvage.SalvageAll` | src/lib/cef_csmgr_stat.c:1567-1598 | the whole enumeration holds a stored record exactly if the name given is a prefix of its name, and holds it once |
| `StatSalvage.RemainingSteps` | src/lib/cef_csmgr_stat.c:1567-1598 | behind a saved position come the rest of its bucket and then the later buckets |
| `StatSalvage.Salvager.Walk` | src/lib/cef_csmgr_stat.c:1568-1595 | one chain: the first match behind the saved position, with the position moved behind it |
| `StatSalvage.Salvager.Next` | src/lib/cef_csmgr_stat.c:1548-1599 | one call returns the first of the remaining records and moves behind it, or nothing when none remains |
| `StatSalvage.Salvager.Salvage` | src/lib/cef_csmgr_stat.c:1548-1599 | calling until nothing is returned yields every matching record once, in table order |
| `CobBuffer.CompareOrders` | src/lib/cef_csmgr.c:2551-2573 | a version and none are inconsistent; of two versions of one length the one that stands for the larger big-endian number is the newer, and only equal bytes are the same |
| `CobBuffer.LessValue` | src/lib/cef_csmgr.c:2562-2572 | on versions of one length the byte comparison orders the big-endian numbers they stand for |
| `CobBuffer.CobBuffer.constructor` | src/lib/cef_hash.c:124-147 | an empty buffer |
| `CobBuffer.CobBuffer.GetPrg` | src/lib/cef_hash.c:435-460 | a hit is the last object accepted for exactly this name |
| `CobBuffer.CobBuffer.SetPrg` | src/lib/cef_hash.c:406-433 | the object is resident; only a name of the same slot is evicted |
| `CobBuffer.CobBuffer.Insert` | src/lib/cef_csmgr.c:1014-1190 | an object is accepted exactly when it is in time and the resident one of its name has a version of the same length that stands for no larger number; then it replaces whatever shares its slot |
| `CobBuffer.CobBuffer.Lookup` | src/lib/cef_csmgr.c:910-1008 | a hit is the message of the last object accepted for exactly this name, unexpired, in the requested version, whatever was evicted in between |
| `CobBuffer.CobBuffer.LineGrows` | src/lib/cef_csmgr.c:1062-1086 | while a name stays resident the numbers its versions stand for never go backwards |
| `RuleConditions.SourceInEvaluation` | packet_level_fib_control.c:173-178 | in evaluation a source condition holds exactly when it names no node id and no other face |
| `RuleConditions.NamePatternMatch` | packet_level_fib_control.c:222-255 | the loop decides equality, prefix or occurrence of the pattern |
| `RuleConditions.HourWindow` | packet_level_fib_control.c:293-303 | counted round the clock, a schedule holds from its start hour up to, not including, its end hour |
| `RuleConditions.BitTest` | packet_level_fib_control.c:285-290 | the shifted bit tests whether the weekday is in the mask |
| `RuleConditions.TimeCheck` | packet_level_fib_control.c:261-312 | the answer is yes always; within the period of microseconds, ends included; on a listed weekday, or any if none is listed, and within the hours, which may run past midnight; or when the second divides; no otherwise |
| `RuleConditions.SourceCheck` | packet_level_fib_control.c:318-340 | the answer is yes exactly when the face is the one named, or none is, and the node id is the one named, or none is |
| `RuleConditions.ChunkCheck` | packet_level_fib_control.c:346-363 | the answer is yes exactly within the range, without an upper bound if the maximum is zero; without a chunk number exactly if both bounds are zero |
| `RuleConditions.Check` | packet_level_fib_control.c:156-191 | all conditions the rule names hold |
| `RuleEngine.InsertedSorted` | packet_level_fib_control.c:91-102 | insertion keeps the list sorted by priority |
| `RuleEngine.InsertedOfPriority` | packet_level_fib_control.c:91-102 | among rules of its priority the new one comes last, and no other priority changes |
| `RuleEngine.BuiltStable` | packet_level_fib_control.c:79-113 | the list is the rules ever added in stable order: sorted by priority, ties as they came |
| `RuleEngine.InsertedAt` | packet_level_fib_control.c:90-102 | the position the loop stops at is where the rule goes |
| `RuleEngine.InsertedMatch` | packet_level_fib_control.c:148-208 | a new rule wins over the first match exactly when it applies and has a higher priority |
| `RuleEngine.FirstMatchBest` | packet_level_fib_control.c:148-208 | the first match in the list is the best of the rules ever added |
| `RuleEngine.BestWins` | packet_level_fib_control.c:148-211 | the best rule applies, and every other that applies has lower priority, or equal and was added later |
| `RuleEngine.Context.constructor` | packet_level_fib_control.c:20-33 | no rules and all counters zero |
| `RuleEngine.Context.Link` | packet_level_fib_control.c:90-102 | the pointer updates make the linked list the list with the rule inserted |
| `RuleEngine.Context.RuleAdd` | packet_level_fib_control.c:79-113 | the rule is added in stable priority order; a null rule is refused; the sum of the match counters stays the number of processed packets plus what rules brought along |
| `RuleEngine.Context.FirstRule` | packet_level_fib_control.c:148-208 | the walk stops at the first rule that applies |
| `RuleEngine.Context.BestIsFirst` | packet_level_fib_control.c:148-208 | that is the highest-priority, earliest-added enabled rule whose conditions hold |
| `RuleEngine.Context.Evaluate` | packet_level_fib_control.c:123-212 | the action of that rule, else the default; only its counter moves, and the sum of the counters stays the number of processed packets, at most the total |

## Left out

- HashTable.OpenHash.ItemSet: keys of length zero, which the code cannot tell from empty slots, are excluded; so are the option byte of the app table and its prefix lookup (`cef_hash_tbl_item_get_for_app`), which is not a map lookup.
- HashTable.OpenHash.ItemRemoveFromIndex: the index one past the last slot is excluded, because the code reads behind the table there.
- PrimeSize.TableSize: overflow of the 32-bit counters for requests near the top of their range, and the cap at the largest 32-bit size.
- ChainTable.ChainTable.Clear: the memory of the cells is not freed, and the digest of a key is not stored in its cell.
- PitSweep.Daemon.Cleanup: every entry lock is taken to succeed, and no entry has an empty key, behind which the code examines nothing; the notification of transport plug-ins is left out.
- PitEntry.Entry.Clean: which face receives a held Interest Return is not modelled; the lifetime of a down-face is fixed, because ageing only reads it.
- Framing.Receiver.HeadSeek: nothing is stated about buffers that do not begin with a packet or part of one, where the code resynchronises; packets carry one top-level TLV, because the code reads the header of a later one before all its bytes have arrived.
- CsmgrUpload.Encode: requests whose total length does not fit the 16-bit length field, or whose chunk number and times do not fit 4 and 8 bytes, are excluded; how the sender's address is found is not modelled.
- CsmgrUpload.Uploader.ItemPut: the checks of cache time, expiry and access mode before a request is built are left out.
- FibRoutes.Fib.constructor: a FIB_SIZE of 0 is excluded, because the code then divides by the table size of 0.
- FibRoutes.Fib.RouteAdd: face lists are values in the slots of the table; the linked list behind an entry, its metrics and transmit counters are not captured. Creating the face of a route and translating its URI are parameters.
- FibRoutes.Fib.RouteDel: closing a face that no entry uses any more is not modelled, and `default_route`, which the code does not reset here, is a given value in the search.
- FaceTable.Faces.LookupLocalFaceid: descriptors are positive, because the allocator takes a face with descriptor 0 for unused; runs contain local faces only, without listeners, peers and half-closed faces. Slot numbers fit the 16-bit index field, as they do for the sizes in use.
- Bitmap.Extremes: a 64-bit word is the sequence of its bits; the shifting mask is an index.
- StatTable.StatTable.InfoGet: expiry and pending timers are one flag; the fields for expiry, versions, keys and access counts of a record are left out, as are the functions for publishers and `csmgr_stat_cob_verify_ucinc`, which bypass the bitmap.
- StatTable.PlayExact: removals without a size from a content whose chunks before the final one differ in size are outside its claim, because the code infers a wrong size there (`CobSizes.MiddleSmaller`).
- StatSalvage.Salvager.Next: the buckets are read as sequences of cells; nothing is stated about a call after one that returned nothing, which walks the last bucket from its beginning again; names shorter than the prefix are not matched, where the code compares behind their end.
- CobBuffer.CobBuffer.Insert: versions have one length, because the code compares different lengths by reading behind the shorter; an object without a version flag has an empty version. The name is the only key; access counting and the local-cache variant are left out.
- RuleEngine.Context.Evaluate: the readings of the clock are arbitrary, one a rule; an interval condition has a positive interval, because the code divides by it. The missing context, for which the code forwards, is left out.
- RuleEngine.Context.RuleAdd: a rule that is already in the list is excluded, because linking it again would tie the list into a ring.
- Sockets, threads, configuration, logging, status printing and key files are input and output only.
- The forwarding decisions above these tables, and `cef_face_down` with its half-closed faces.
