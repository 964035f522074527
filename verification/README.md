# fsfuse, modelled and proved in Dafny

fsfuse mounts the files that FS2 peers share.  This project models its stateful parts and proves what they
promise.  `dafny verify dfyconfig.toml` checks all of it.

| file | what it models |
|---|---|
| `Wrappers.dfy` | `Option`, and facts about sequences that several modules use |
| `BinaryHeap.dfy` | the priority queue of chunks: what it means on sequences, and the array that grows and is sifted in place |
| `ReadRequests.dfy` | how a read() is clamped, 32-bit cast included, and which reads the downloader accepts |
| `DownloadSchedule.dfy` | what surrounds the downloader: reads that arrive, how waits go, what the peer sends |
| `DownloadLedger.dfy` | chunks, answers, and an account of where every chunk is at every moment |
| `Downloader.dfy` | the download thread: waiting, fetching, slicing buffers into chunks, seeking, failing, ending |
| `HashTableSpec.dfy` | the resizing chained table on the contents of its buckets, against a map |
| `HashTable.dfy` | the same table with its linked chains, and its iterator |
| `DirentryTree.dfy`, `DirentryCache.dfy` | the cache of directory entries: an index by path and a tree that must agree |
| `DirentryState.dfy`, `DirentrySession.dfy` | that cache as a value, what each call makes of it, and whole runs |
| `DirentryIndex.dfy` | the index of the cache in the resizing table |
| `RwLock.dfy` | the reader/writer lock as a step protocol over a condition variable |
| `TailQueue.dfy` | the TAILQ macros on the heap, with back-pointers to pointers |
| `Indexnodes.dfy` | the known indexnodes: lists, reference counts, adverts, expiry |
| `Decimals.dfy`, `DottedVersion.dfy` | strtol and atoll; the comparison of dotted versions |
| `FilelistParser.dfy` | listings: elements to events, events to directory entries |
| `Alarms.dfy` | many alarms over one timer |
| `InodeMap.dfy` | inodes to entries, lookups and forgets |

Each part has two layers.  Functions and lemmas on values say what an operation means and prove the laws about it;
classes with the fields of the C structures carry the C code, and their methods' contracts tie the new state to
those functions or to the laws directly.  What the program cannot control (the scheduler, the peer, the clock,
who reads what and when) is arbitrary: given in advance as a schedule, as an argument, or chosen at the time.

## Findings

Where a promise is not kept by the code, the model keeps the code and says exactly when the promise holds.

- A read is turned into a well-formed chunk if and only if it starts at the end of the file, or starts inside it and
  either ends inside it or still reaches its end after the cast to 32 bits (`ReadRequests.AcceptedExactly`).
- When the wait for a chunk times out, the heap is tried once more and what that pops is thrown away, its read never
  answered.  That happens exactly when the wait found the heap empty, nothing came of the wake-ups up to a time-out, and
  a read was queued before the mutex was had again (`DownloadSchedule.LateExactly`); as many chunks are lost as there
  are such waits, and otherwise every chunk is queued, in hand or answered (`Downloader.DownloadMain`).
- The download thread ends in order exactly when a fetch failed with a chunk in hand, which answers every read with the
  error, or no chunk is left.  In every other case it aborts and the reads still queued stay without an answer
  (`Downloader.FinishThread`): `Downloaders.LastReadIsNotAnswered` is a run where one comes after the last wait.
- The lock's fast path belongs to the last thread that took the lock, which may have given it back since.  From any
  state in which counters and holders agree, a step can lead to a writer that is not alone if and only if it is on
  that path (`RwLocks.ExclusionIsLostExactly`): at once for a writer, and for a reader once the others have left.
- Deleting the last entry of a one-bucket table leaves a table of no buckets; a table filled and emptied five times
  gets there (`HashTableSpec.ShrinksToNothingExactly`, `FivePairsEmptyTheTable`).  A deletion from a one-bucket table
  that leaves entries, but fewer than the minimum load, divides by zero, and nothing else does
  (`HashTableSpec.NoRoomExactly`); with a minimum of 2 and a maximum of 4 ten operations get there
  (`LargeMinimumRunsOut`).  A user that, like the directory cache, keeps one key in the table for good is safe from both
  if the minimum is at most 1 (`KeptIsLegal`, `DirentryIndexes.IndexIsTable`).
- An iteration is complete if and only if the first occupied bucket is not the last bucket, or nothing is occupied
  (`HashTableSpec.IteratedIsComplete`).  With duplicate keys a resize changes which entry is found (`ResizeReversesChains`).
- Adding a listing of new paths leaves index and tree in disagreement exactly when the entry already has children
  (`DirentryCache.AddList`).  Listing the same paths again that way fails an assertion in a debug build, and in a release
  build puts each path in the table twice, where the two take turns in being found (`ResizeReversesChains`).
- Replacing children keeps every parent link right exactly when no new child inherits a subtree
  (`DirentryCache.AddChildren`).  In every run a climb from an entry finds its way exactly if the entries from the one
  at which it ends down to it came into the cache in that order, none of them having been replaced since the one below it
  came (`DirentryStates.ClimbRightExactly`); elsewhere it follows a link to an entry that has left the cache.
- Getting the list of indexnodes turns the master list round, so consecutive gets alternate (`OrderAlternates`).
- An advert of another protocol changes nothing, but its string is freed by the parser of it
  (src/indexnodes/indexnodes.c:119) and again by the caller (:167) (`Indexnodes.NewIndexnodeEvent`).
- The listing parser never clears its fields: an entry is free of the one before it exactly when its anchor gives all
  seven attributes (`FilelistParsers.NothingStaleExactly`).  Nor does it look for the end of the listing: anchors after
  it are called back for too, so that the callbacks are those of the listing exactly when no anchor follows it
  (`FilelistParsers.OnlyTheListingExactly`).
- The version check accepts every string, because its two halves are joined with "or"
  (`DottedVersions.CheckVersionAcceptsAll`); a component with a leading zero is read as octal, which is its own number
  exactly when that is below 8 (`LeadingZeroIsOctal`).
- An alarm whose expiry is the very moment at which the timer is set turns the timer off instead
  (`Alarms.Multiplexer.ScheduleNext`).  The handler follows a null pointer exactly when the timer has outlived the list
  (`Alarms.Multiplexer.Signal`; `Alarms.TimerOutlivesItsAlarm` is a run to it).  An expiry counts as past before it is
  exactly if it has more than a million microseconds (`Alarms.EarlyExactly`).
- The root entry is made without a reference counter (src/nativefs/direntry.c:218-236), so that the start ends at the
  null pointer that the inode map follows for it (`InodeMap.DirentryInit`, `InodeMap.Add`).

## Model

| member | source | states |
|---|---|---|
| BinaryHeaps.SiftUpRestores | src/binary_heap.c:58-71 | sifting up repairs a heap whose one flaw is a node smaller than its parent |
| BinaryHeaps.SiftDownRestores | src/binary_heap.c:83-113 | sifting down repairs a heap whose one flaw is a node larger than its children |
| BinaryHeaps.AddedIsHeap | src/binary_heap.c:73-81 | adding keeps the heap order and adds exactly the new pair |
| BinaryHeaps.PoppedIsHeap | src/binary_heap.c:115-138 | popping keeps the heap order, removes exactly the root, and no key was less than the root's |
| BinaryHeaps.DrainIsSortedPermutation | src/binary_heap.c:115-138 | popping until empty gives a sorted permutation of what the heap held |
| BinaryHeaps.HeapSorts | src/binary_heap.c:73-138 | whatever is added to a new heap, in whatever order, drains as a sorted permutation of it |
| BinaryHeaps.RunKeepsHeap | src/binary_heap.c:73-138 | in every run of adds and pops the array is a heap, and what it holds plus what was popped is what was pushed |
| BinaryHeaps.PopReturnsMinimum | src/binary_heap.c:115-138 | after any run, a pop returns a node with the least key of all that are held |
| BinaryHeaps.GrowthIsAmortised | src/binary_heap.c:44-52 | over any run the array stays below twice the most ever held and realloc copies fewer than two slots per add |
| BinaryHeaps.BinaryHeap.EnsureSpace | src/binary_heap.c:44-52 | growing keeps the nodes; the capacity is at least what was asked for and doubles when it must |
| BinaryHeaps.BinaryHeap.MoveUp | src/binary_heap.c:58-71 | the swaps in place compute the sift that repairs the heap |
| BinaryHeaps.BinaryHeap.Add | src/binary_heap.c:73-81 | the array stays a heap and gains exactly the pair |
| BinaryHeaps.BinaryHeap.Peek | src/binary_heap.c:87-92 | the reads of the sift are of slots up to and including `used`, all allocated |
| BinaryHeaps.BinaryHeap.MoveDown | src/binary_heap.c:83-113 | reads only the live slots and the one behind them, since every read goes through `Peek`; that slot, read as a right child that is not live, still holds the node being sifted and is never swapped; the result is the sift over live nodes alone |
| BinaryHeaps.BinaryHeap.TryPop | src/binary_heap.c:115-138 | fails exactly on an empty heap; otherwise returns a least pair and the array stays a heap of the rest |
| ReadRequests.AcceptedExactly | src/fuse_methods/read.c:93-109 | which reads satisfy the downloader's asserts, as an if and only if on offset, size and length |
| ReadRequests.AcceptedIsClamped | src/fuse_methods/read.c:88-100 | an accepted read asks for exactly the bytes of its range that exist |
| ReadRequests.SmallRequestsAccepted | src/fuse_methods/read.c:93-100 | a read that starts within the file and ends below 2^32 is accepted |
| ReadRequests.RejectedExamples | src/fuse_methods/read.c:93-109 | a read past the end, and a read of 128 KiB over the end of a file a little over 4 GiB, trip the asserts |
| ReadRequests.Int32Exactly | src/downloader/downloader.c:171-176 | the heap's int key is the 32-bit number that differs from the offset by a multiple of 2^32, and the offset itself if and only if that is below 2^31 |
| DownloadLedger.ConservedArrived | src/downloader/downloader.c:152-182 | queueing a chunk keeps the account: every chunk ever added is in exactly one place |
| DownloadLedger.ConservedTaken | src/downloader/downloader.c:213-265 | popping a least pair takes a queued chunk in hand, none queued having a smaller key, and keeps the account |
| DownloadLedger.ConservedDropped | src/downloader/downloader.c:234-247 | throwing the chunk in hand away makes it the next of the lost and keeps the account of all others |
| DownloadLedger.ConservedReplied | src/downloader/downloader.c:558-563 | answering the chunk in hand correctly keeps the account and all earlier answers |
| DownloadLedger.EmptyIsSettled | src/downloader/downloader.c:380-430 | with nothing in hand, the heap is empty exactly when no chunk is outstanding |
| DownloadLedger.AnsweredOnce | src/downloader/downloader.c:483-530 | no chunk is signalled twice |
| DownloadLedger.SettledIsAnswered | src/downloader/downloader.c:380-430 | once nothing is outstanding every chunk has been answered, or is among the lost |
| DownloadLedger.NoneLost | src/downloader/downloader.c:213-265 | while none is lost, every chunk ever added is queued, in hand or answered |
| DownloadLedger.AnsweredSince | src/downloader/downloader.c:396-403 | where none is lost meanwhile, a chunk that was outstanding and is settled has been answered since, with the code of that stretch |
| DownloadLedger.FillBytes | src/downloader/downloader.c:469-480 | filling a chunk adds exactly those bytes to the sum over all chunks ever added |
| DownloadLedger.WaitedBytes | src/downloader/downloader.c:213-265 | no byte comes in while the thread waits |
| DownloadSchedule.LateExactly | src/downloader/downloader.c:234-247 | a wait throws a chunk away if and only if it found the heap empty, idled up to a time-out, and a read was queued before the mutex was had again |
| DownloadSchedule.InTimeExactly | src/downloader/downloader.c:233-247 | a wait brings a chunk if and only if there is one at the first look, or a read is queued before the mutex is had again after a wake-up that is no time-out, nothing having come of those before; every other wait times out |
| DownloadSchedule.AcceptingParts | src/fuse_methods/read.c:93-109 | of any reads exactly the accepted ones are queued, in order |
| DownloadSchedule.SumParts | src/downloader/downloader.c:350-371 | what a transfer sends is all that its buffers hold |
| DownloadSchedule.DeliversExactly | src/downloader/downloader.c:350-371 | a fetch delivers if and only if there is a peer and it would bring at least one byte when not cut short |
| DownloadSchedule.NeverLateIsNoLates | src/downloader/downloader.c:234-247 | if no read is queued between a time-out and the mutex, no wait throws anything away |
| Downloaders.LateTimeOutLosesARead | src/downloader/downloader.c:234-247 | a run in which a read is lost and nobody is answered |
| Downloaders.Downloader.ReadsArrive | src/fuse_methods/read.c:71-112 | each accepted read adds one chunk for it, in order, and nothing else changes |
| Downloaders.Downloader.TimedWait | src/downloader/downloader.c:233-240 | whether the wait times out, and whether its last look finds a chunk, follow from the heap and the wake-ups; a chunk that is there at the first look is taken at once |
| DownloadLedger.TotalGrows | src/downloader/downloader.c:347-375 | over any stretch of a run the work done, in bytes filled and reads answered, never falls, and rises if some chunk was worked on |
| DownloadLedger.ProgressBounded | src/downloader/downloader.c:347-375 | the work done is at most what was asked for, so only finitely many fetches can make progress |
| DownloadLedger.WorkByChunks | src/downloader/downloader.c:347-375 | the work asked for is, over the chunks, their sizes and one answer each, and the work done their bytes and answers |
| Downloaders.Downloader.ChunkAdd | src/downloader/downloader.c:152-205 | the chunk is queued under the key of its start and nothing else changes |
| Downloaders.Downloader.FsfuseRead | src/fuse_methods/read.c:71-112 | an accepted read becomes one new chunk for its clamped range |
| Downloaders.Downloader.PopChunk | src/downloader/downloader.c:234-240 | takes in hand a queued chunk whose key no queued chunk is below, and which no queued chunk starts before while all offsets are below 2^31; or finds the heap empty |
| Downloaders.Downloader.ChunkGetNext | src/downloader/downloader.c:213-265 | takes a queued chunk, as it was queued and with none queued for an earlier offset, exactly when one is found without a time-out, which is so whenever one is there at the first look; loses one exactly when the time-out is late; reads may arrive, and nothing else happens |
| Downloaders.Downloader.SignalRead | src/downloader/downloader.c:558-563 | the read behind the chunk is answered once: with its whole range of the file if rc is 0 |
| Downloaders.Downloader.Fill | src/downloader/downloader.c:464-480 | copying a part keeps the filled prefix equal to the file from the read's start, and moves start by the bytes used |
| Downloaders.Downloader.TakePart | src/downloader/downloader.c:460-517 | the chunk gains exactly the part, and is answered with success exactly when that completes it |
| Downloaders.Downloader.Pass | src/downloader/downloader.c:460-533 | one turn of the loop gives the chunk in hand the lesser of what is left of the buffer and what it has room for, answers its read exactly when that fills it, and then waits for the next chunk unless the buffer is at its end |
| Downloaders.Downloader.ConsumeLoop | src/downloader/downloader.c:456-546 | terminates; returns 0 exactly when every byte of the buffer was added to chunks, the chunk in hand then continuing where the buffer ends; else the next chunk starts elsewhere or none came in time; the first chunk gets what it has room for, and is answered if that is all it lacked |
| Downloaders.Downloader.BufConsumer | src/downloader/downloader.c:434-556 | chunks gain exactly the bytes consumed; on success those are the whole buffer, the offset moves by it, and the chunk in hand continues there |
| Downloaders.Downloader.Fetch | src/downloader/downloader.c:350-371 | for any buffers, early end or code: unless a seek or a failed wait cuts it short, which counts as success and only after the first chunk is done, all that is sent up to the end of the file goes into chunks, the offset moves by it, the chunk in hand continues there and the code is that of the transfer; the first chunk gets what it has room for, and is answered if that is all it lacked; without a peer nothing happens and the code is EBUSY, which is 16 |
| Downloaders.Downloader.ChunksEmpty | src/downloader/downloader.c:419-430 | every chunk that was outstanding is answered with the error and none is lost |
| Downloaders.Downloader.EndFailed | src/downloader/downloader.c:388-404 | a failure with a chunk in hand answers every read that had no answer, late arrivals included, with that error, and loses none |
| Downloaders.Downloader.EndIdle | src/downloader/downloader.c:380-387 | without an error the thread ends in order exactly if the heap is empty once the mutex is had |
| Downloaders.Downloader.FinishThread | src/downloader/downloader.c:378-416 | ends in order if and only if a fetch failed with a chunk in hand, or nothing was outstanding and nothing came since, which is when nothing is outstanding afterwards; then every read that had no answer has the error; else no answer is given; none is lost |
| Downloaders.Downloader.FetchTurn | src/downloader/downloader.c:311-375 | ends without a fetch or an answer exactly when a wait finds no chunk in time; else one fetch is made, from where the chunk in hand has got to or from the start of the foremost chunk that a wait brings, and it brings what `Fetch` does: exactly the bytes sent, with the code of the transfer, unless a seek or a failed wait cuts it short |
| Downloaders.Downloader.DownloadMain | src/downloader/downloader.c:270-417 | a run is a row of such turns, each from the state that the one before left, all but the last without error; every answer is right and no chunk has two; as many chunks are lost as time-outs were late, none if none can be; the fetches that bring a byte are no more than the work asked for; the thread ends exactly because the last wait brought no chunk or the last fetch failed with its own code, until when every answer is a success; it ends in order exactly when that failure left a chunk in hand or nothing is left, and then every read without an answer gets the error; else none does |
| Downloaders.LastReadIsNotAnswered | src/downloader/downloader.c:378-404 | a run that aborts with a read unanswered, which came after the last wait |
| HashTableSpec.FindAgrees | scrap/hash_table.c:117-135 | find answers as the map does that the table represents |
| HashTableSpec.AddKeepsMap | scrap/hash_table.c:101-115 | adding an absent key is a map update, with or without the doubling, and count stays right |
| HashTableSpec.HashIsSum | scrap/hash_table.c:349-360 | the hash is 5381 times 33 to the length, plus each character times 33 to the number of those after it, modulo 2^32; the bucket is that modulo the size |
| HashTableSpec.AddDoublesExactly | scrap/hash_table.c:101-115 | an addition doubles the table if and only if it brings the entries above the maximum load times the size |
| HashTableSpec.DelHalvesExactly | scrap/hash_table.c:178-189 | a deletion halves the table if and only if it removes an entry and brings them below the minimum load times the size |
| HashTableSpec.DelKeepsMap | scrap/hash_table.c:137-199 | deleting is removal from the map, with or without the halving, and reports whether the key was there, for every deletion that leaves its entries a bucket |
| HashTableSpec.ResizedPermutes | scrap/hash_table.c:218-250 | a resize loses, invents and duplicates no entry |
| HashTableSpec.ResizedRepresents | scrap/hash_table.c:218-250 | a resize puts every entry in the bucket of its hash and keeps the map |
| HashTableSpec.CountIsSize | scrap/hash_table.c:206-209 | a list of the entries of a map, each key once, is as long as the map is large |
| HashTableSpec.RunIsMap | scrap/hash_table.c:65-199 | after every run of inserts of absent keys and of deletions that leave entries a bucket, the table is the map that the same run gives, its count the map's size |
| HashTableSpec.KeptIsLegal | scrap/hash_table.c:87-250 | while one key stays in the table and the minimum load is at most 1, no run of inserts of absent keys and deletions empties the table or divides by zero, and the table is the map of the run |
| HashTableSpec.AddKeepsLoad | scrap/hash_table.c:101-115 | one doubling is enough to keep the load within the maximum, if size times maximum is at least 1 |
| HashTableSpec.DelKeepsLoad | scrap/hash_table.c:178-189 | one halving keeps the load within the maximum, if the minimum is at most half of it |
| HashTableSpec.ShrinksToNothingExactly | scrap/hash_table.c:182-188 | a deletion leaves an empty table of no bucket if and only if it takes the only entry of a one-bucket table |
| HashTableSpec.NoRoomExactly | scrap/hash_table.c:182-188 | a deletion leaves entries and no bucket for them, so that the source divides by zero, if and only if it is from a one-bucket table of two entries or more and leaves fewer than the minimum load |
| HashTableSpec.LargeMinimumRunsOut | scrap/hash_table.c:87-115 | with a minimum load of 2 and a maximum of 4, six insertions and four deletions lead a new table there |
| HashTableSpec.FivePairsEmptyTheTable | scrap/hash_table.c:182-188 | filling and emptying a new table five times makes it unusable |
| HashTableSpec.ResizeReversesChains | scrap/hash_table.c:228-244 | with duplicate keys, find gives the oldest entry after a resize where it gave the newest before |
| HashTableSpec.IteratedIsComplete | scrap/hash_table.c:283-344 | an iteration sees every entry once in bucket order if and only if the last bucket is not the only occupied one |
| HashTables.HashTable.Find | scrap/hash_table.c:117-135 | walking the chain finds what the specification finds |
| HashTables.HashTable.Unlink | scrap/hash_table.c:137-175 | relinking removes the first node of the key and no other, and keeps all chains |
| HashTables.HashTable.Resize | scrap/hash_table.c:218-250 | the new chains are those of the specification's resize |
| HashTables.HashTable.Add | scrap/hash_table.c:87-115 | the linked table refines the specification's add |
| HashTables.HashTable.Del | scrap/hash_table.c:137-199 | the linked table refines the specification's deletion and its return code |
| HashTables.Iterator.FindFirst | scrap/hash_table.c:323-344 | starts at the first occupied bucket, or at the end where that bucket is the last |
| HashTables.Iterator.Next | scrap/hash_table.c:283-314 | each step takes exactly the current entry off what remains to be seen |
| HashTables.Enumerate | scrap/hash_table.c:255-344 | a whole iteration terminates and yields what the specification says |
| DirentryTrees.ReplaceNodes | scrap/direntry_cache.c:119-204 | giving a node other children changes the tree's nodes by exactly what comes in and what goes out |
| DirentryTrees.RegrownNodes | scrap/direntry_cache.c:157-167 | the new children bring themselves and, once each, the subtrees of the old children of their paths |
| DirentryTrees.DroppedOrCarried | scrap/direntry_cache.c:157-192 | every entry of the old subtrees is either dropped or carried over |
| DirentryCaches.AgreesKeys | scrap/direntry_cache.c:86-117 | an index that agrees with a set of nodes has exactly their paths as keys, and no two nodes share a path |
| DirentryCaches.RemovedBelow | scrap/direntry_cache.c:315-320 | cutting what is below a node from the tree and its paths from the index leaves the two in agreement |
| DirentryCaches.AddedUnder | scrap/direntry_cache.c:132-140 | after a listing is added index and tree agree if and only if the parent had no children |
| DirentryCaches.RegrownUnder | scrap/direntry_cache.c:157-200 | after children are replaced index and tree agree, and the nodes are the old ones less the dropped plus the new |
| DirentryCaches.RegrownParented | scrap/direntry_cache.c:157-200 | after children are replaced all parent links are right if and only if nothing was inherited |
| DirentryCaches.WayUpAfter | scrap/direntry_cache.c:157-200 | after children are replaced, the parent links from an entry retrace its way up to any other entry of it if and only if none from there down, itself excepted, is a new child |
| DirentryCaches.ChainIsChain | scrap/direntry_cache.c:284-306 | there is a way of child links from the root to every node, which a climb retraces |
| DirentryCaches.DirnameOf | src/utils.c:59-80 | the parent of a path is what stands before its last slash, the root if that is nothing, and empty for a path without one |
| DirentryCaches.DirentryCache.DelTree | scrap/direntry_cache.c:330-346 | removes from the index exactly the paths of the subtree |
| DirentryCaches.DirentryCache.DelDescendants | scrap/direntry_cache.c:349-362 | removes from the index exactly the paths strictly below the node, whose children count as not looked for |
| DirentryCaches.DirentryCache.Climb | scrap/direntry_cache.c:292-306 | ends after finitely many steps at the nearest ancestor that is the root, or is neither past its time-out nor gone from its peer, if the links up to there are right; further up none is looked at |
| DirentryCaches.DirentryCache.NotifyStale | scrap/direntry_cache.c:284-325 | removes exactly the strict descendants of that ancestor from index and tree, marks it valid, and touches no other entry |
| DirentryCaches.DirentryCache.Get | scrap/direntry_cache.c:207-257 | a hit is the entry of the path, exactly if it is the root or the time-out has not passed since it was last valid; NOENT exactly on a miss below a parent, named by what stands before the last slash, whose children were looked for, with nothing changed; an expired entry is gone afterwards, with all below the ancestor at which the climb from it ends, and nothing else |
| DirentryCaches.DirentryCache.AddList | scrap/direntry_cache.c:119-142 | the listing becomes the children; index and tree agree afterwards if and only if there were none before |
| DirentryCaches.DirentryCache.AddChildren | scrap/direntry_cache.c:144-204 | the listing replaces the children, subtrees pass to namesakes, the rest goes; index and tree agree, and parent links do exactly when nothing was inherited |
| DirentryStates.StepOrdered | scrap/direntry_cache.c:119-325 | whatever the call, a parent link is right afterwards if and only if the entry above came into the cache before the entry below |
| DirentryStates.RightExactly | scrap/direntry_cache.c:284-306 | the links from an entry up to any other on its way are right if and only if the entries from there down came in order |
| DirentryStates.ClimbEndsOnce | scrap/direntry_cache.c:292-306 | there is exactly one entry at which a climb is to end |
| DirentryStates.ClimbRightExactly | scrap/direntry_cache.c:284-306 | a climb finds its way if and only if the entries from the one at which it ends down came in order |
| DirentryStates.RunClimbsRightExactly | scrap/direntry_cache.c:119-325 | so it is in every state of every run |
| DirentrySessions.CanClimb | scrap/direntry_cache.c:284-306 | searching the tree downwards tells how a climb would fare: that it ends, goes astray, or has still to go on |
| DirentrySessions.MayServe | scrap/direntry_cache.c:119-325 | decides exactly which calls keep index and tree in step and find their way |
| DirentrySessions.Serve | scrap/direntry_cache.c:119-325 | each call has its effect: a first listing puts leaves under the entry, a further one replaces the children with what they inherit, news of a stale entry and a lookup of an expired one cut all below the ancestor the climb ends at, and any other lookup answers and changes nothing; index, parents, times, flags and the operations on the table follow |
| DirentrySessions.Session | scrap/direntry_cache.c:45-325 | from the root entry on, any calls lead from state to state by exactly those effects, index and tree agreeing in each; in each a climb finds its way if and only if the entries from where it ends down came in order |
| DirentryIndexes.DelOpsAllDo | scrap/direntry_cache.c:330-362 | the deletions that a subtree's removal makes, children before parents, take exactly its paths from the index and never the root's |
| DirentryIndexes.DiscardOpsDo | scrap/direntry_cache.c:169-192 | so do those that replacing children makes, of the old children and of what has no successor |
| DirentryIndexes.AddOpsDo | scrap/direntry_cache.c:86-117 | the insertions of a listing are of absent keys and add exactly its entries |
| DirentryIndexes.StepOps | scrap/direntry_cache.c:119-362 | all that a call asks of the table, in the order it asks, is insertions of absent keys and deletions of others than the root's, and the index changes by just those |
| DirentryIndexes.IndexIsTable | scrap/direntry_cache.c:54-62 | in every run of the cache, all that it asks of its table from the new one on is legal, and the table never runs out of buckets and holds exactly the index, if its minimum load is at most 1 |
| RwLocks.StepKeepsInv | src/locks.c:58-161 | every step keeps: no writer beside readers or another writer, readers sleep only under a writer, and beside a free lock somebody is awake |
| RwLocks.RunKeepsInv | src/locks.c:58-161 | so it is in every run, whatever clients do |
| RwLocks.NoLostWakeup | src/locks.c:66-157 | whenever somebody waits beside a free lock, a woken thread can run and will take it |
| RwLocks.OnlyWritersAtLastReaderExit | src/locks.c:95-101 | only writers can be asleep when the last reader leaves, so that one signal is enough |
| RwLocks.AccurateIsExclusive | src/locks.c:58-161 | counters that count the holders mean that a writer is alone |
| RwLocks.AccurateUnlessFastPath | src/locks.c:60-64 | a disciplined step keeps counters and holders in line if and only if it does not take the fast path |
| RwLocks.FastWriteBreaksExclusion | src/locks.c:115-119 | a disciplined write lock keeps exclusion if and only if it is not handed out on the fast path |
| RwLocks.ClientExclusion | src/locks.c:58-161 | in every disciplined run without the fast path a writer is alone |
| RwLocks.FastReadLosesExclusion | src/locks.c:60-64 | from every state where counters and holders agree, a reader let in on the fast path can end up beside a writer by disciplined steps off that path |
| RwLocks.ExclusionIsLostExactly | src/locks.c:58-161 | from every such state a disciplined step can lead to a writer that is not alone, with no further use of the fast path, if and only if it is on that path |
| RwLocks.DisciplinedRunLosesExclusion | src/locks.c:60-64 | a whole disciplined run that ends with a reader and a writer at once |
| RwLocks.NestedLockIsReleasedOnce | src/locks.c:60-101 | a lock taken twice by its holder is released by one unlock |
| RwLocks.RwLock.RLock | src/locks.c:58-80 | the call is one step of the protocol: it waits exactly if a writer writes and the caller was not the last to lock; else there is one reader more, unless the caller was, and the caller is now the last |
| RwLocks.RwLock.RUnlock | src/locks.c:82-111 | the call is one step of the protocol: it fails, with nothing changed, exactly if nobody reads; else there is one reader fewer, and the last one wakes one sleeper, if there is any |
| RwLocks.RwLock.WLock | src/locks.c:113-135 | the call is one step of the protocol: it waits exactly if somebody reads or writes and the caller was not the last to lock; else there is one writer more, unless the caller was, and the caller is now the last |
| RwLocks.RwLock.WUnlock | src/locks.c:137-161 | the call is one step of the protocol: it fails, with nothing changed, exactly if nobody writes; else the lock is free of writers and every sleeper is woken |
| TailQueues.LastIsLast | src/3rdparty/queue.h:577-578 | TAILQ_LAST, through two reinterpreted pointers, is the last element |
| TailQueues.PrevIsPrevious | src/3rdparty/queue.h:579-580 | TAILQ_PREV is the element before, or nothing for the first |
| TailQueues.InsertHead | src/3rdparty/queue.h:491-500 | keeps the queue well formed with the element in front |
| TailQueues.InsertTail | src/3rdparty/queue.h:502-508 | keeps the queue well formed with the element at the end |
| TailQueues.InsertAfter | src/3rdparty/queue.h:510-519 | keeps the queue well formed with the element behind the given one |
| TailQueues.InsertBefore | src/3rdparty/queue.h:521-527 | the same before the given one, without being told the head |
| TailQueues.Remove | src/3rdparty/queue.h:529-539 | keeps the queue well formed without the element, whose own links stay readable |
| TailQueues.Concat | src/3rdparty/queue.h:561-568 | the first queue gets all elements in order, the second is empty and usable |
| TailQueues.Foreach | src/3rdparty/queue.h:541-544 | visits the sequence in order and ends |
| TailQueues.ForeachReverse | src/3rdparty/queue.h:551-554 | visits the sequence backwards and ends |
| TailQueues.RemoveAll | src/3rdparty/queue.h:546-549 | the safe loop may remove every element it visits |
| IndexnodeListFacts.LiveIsSublist | src/indexnodes/indexnodes_list.c:94-105 | the live nodes are those at certain positions of the list, in its order |
| IndexnodeListFacts.PositionsAreLive | src/indexnodes/indexnode.c:176-184 | those positions increase and are exactly those of the nodes still valid |
| IndexnodeListFacts.PositionsAreInTime | src/indexnodes/indexnode.c:176-184 | a node is still valid if and only if it is asked about less than the time-out after it was last seen |
| IndexnodeListFacts.OrderAlternates | src/indexnodes/indexnodes.c:88-100 | three gets with no change between them give one order, its reverse, and the first order again |
| IndexnodeLists.Indexnode.Copy | src/indexnodes/indexnode.c:106-117 | one reference more |
| IndexnodeLists.Indexnode.Delete | src/indexnodes/indexnode.c:119-145 | one reference fewer, and freed exactly when none is left |
| IndexnodeLists.ListFind | src/indexnodes/indexnodes_list.c:52-71 | finds a node of that id if there is one, and takes exactly one reference to it |
| IndexnodeLists.ListCopy | src/indexnodes/indexnodes_list.c:73-86 | the copy is the list the other way round and holds a reference for each occurrence |
| IndexnodeLists.RemoveExpired | src/indexnodes/indexnodes_list.c:88-111 | the new list is the live nodes the other way round; the old list's references are given up, those of live nodes first taken over |
| IndexnodeLists.ListDelete | src/indexnodes/indexnodes_list.c:113-125 | gives back one reference for each occurrence, and frees a node exactly when it was the last |
| KnownIndexnodes.Indexnodes.IndexnodesGet | src/indexnodes/indexnodes.c:88-100 | returns the live nodes in the order the master list had; the master list is their reverse; all counts balance |
| KnownIndexnodes.ProtocolVersionIs | src/indexnodes/indexnodes.c:103-122 | the version is the word after "fs2protocol-", white space around it left out, and a string without that prefix is of another protocol |
| KnownIndexnodes.Indexnodes.NewIndexnodeEvent | src/indexnodes/indexnodes.c:124-174 | an advert marks the known node of its id, or adds one at the head whatever its version, so that ids stay unique; no other count or time changes; the string of another protocol is freed twice |
| KnownIndexnodes.Indexnodes.IndexnodesListDelete | src/indexnodes/indexnodes_list.c:113-125 | a caller's list gives its references back and the counts of all others stand |
| KnownIndexnodes.Indexnodes.Delete | src/indexnodes/indexnodes.c:73-82 | the master list's references go; what callers hold stays |
| KnownIndexnodes.ValidIsSound | src/indexnodes/indexnodes.c:58-174 | the invariant means that ids are unique, each counter is the number of references in the master list, in the lists lent out and besides, and a node is freed exactly at zero |
| KnownIndexnodes.LiveByIsLive | src/indexnodes/indexnodes_list.c:94-105 | the live nodes follow from when each was last seen |
| KnownIndexnodes.Serve | src/indexnodes/indexnodes.c:88-174 | each call has its effect: a get lends the live nodes in order and leaves them turned round, an advert adds a node at the head or marks the one of its id, a list or a reference goes when given back and a reference comes when taken; nothing else changes; and every counter is then what that state says it has to be |
| KnownIndexnodes.Session | src/indexnodes/indexnodes.c:58-174 | any calls lead from state to state by exactly those effects, ids unique in each; after the end of the manager every node there has been is freed |
| KnownIndexnodes.CloseDown | src/indexnodes/indexnodes.c:73-82 | once callers have given everything back, closing frees every node there ever was |
| FilelistParsers.AttrsInAnchor | src/parser/parser_filelist.c:95-126 | the attribute events of an anchor apply its attributes in order |
| FilelistParsers.ReportsAll | src/parser/parser_filelist.c:81-138 | past the listing's div, any forest is reported anchor by anchor in document order, at any depth, text and other elements ignored |
| FilelistParsers.ApplyAllIsLast | src/parser/parser_filelist.c:97-121 | each field ends as the last value given to its key, or as it was |
| FilelistParsers.NothingStaleExactly | src/parser/parser_filelist.c:95-138 | an entry does not depend on earlier entries if and only if its anchor gives all seven attributes |
| FilelistParsers.KeysByName | src/fs2_constants.c:4-12 | which attribute each name of the format is, and that no other name is one |
| FilelistParsers.RoundTrip | src/parser/parser_filelist.c:61-143 | a listing of described entries, wherever it is in the document, in any attribute order, calls back with exactly those entries in order, sizes and link counts included |
| FilelistParsers.DocumentReports | src/parser/parser_filelist.c:61-143 | on any document the machine reports the anchors in and after its first listing, in document order |
| FilelistParsers.DocumentRoundTrip | src/parser/parser_filelist.c:61-143 | if those anchors describe entries, the callbacks are exactly the entries in order |
| FilelistParsers.OnlyTheListingExactly | src/parser/parser_filelist.c:67-80 | on any document the callbacks begin with those of the first listing, one more is made for each anchor after it, and they are those of the listing if and only if none follows |
| FilelistParsers.Parse | src/parser/parser_filelist.c:30-143 | parsing a whole document with a new parser makes exactly those callbacks |
| FilelistParsers.PageRoundTrip | src/parser/parser_filelist.c:61-143 | a page written with the names of the format, in a div of id "fs2-filelist", is read back field by field for any entries whose numbers fit |
| FilelistParsers.ParsePage | src/parser/parser_filelist.c:30-143 | parsing such a page calls back with exactly those fields |
| FilelistParsers.IdOfIsLast | src/parser/parser_xml.c:57-76 | the id of a tag is that of its last id attribute |
| FilelistParsers.SpanIsBlank | src/parser/parser_xml.c:119-142 | the white space counted is the longest run of blanks, tabs, carriage returns and line feeds |
| FilelistParsers.ParserFilelist.FilelistXmlCb | src/parser/parser_filelist.c:61-143 | the callback is one step of the state machine |
| FilelistParsers.ParserXml.OnStartElementNs | src/parser/parser_xml.c:43-101 | the two loops raise the tag with its last id and then the other attributes in order |
| FilelistParsers.ParserXml.OnEndElementNs | src/parser/parser_xml.c:103-117 | raises the end of the tag |
| FilelistParsers.ParserXml.OnCharacters | src/parser/parser_xml.c:119-142 | raises the text unless the white space that begins at it is exactly as long |
| FilelistParsers.ParserXml.Replay | src/parser/parser_xml.c:43-142 | the SAX calls for a piece of document run the machine over its events |
| Decimals.AtollDecimal | src/parser/parser_filelist.c:110-117 | a decimal number reads back as itself if and only if it fits 64 bits, else as the largest that does |
| Decimals.AtollSigned | src/parser/parser_filelist.c:110-117 | white space and a sign in front of a number are read as such, and what follows it is left |
| Decimals.SaturatedIsNearest | src/parser/parser_filelist.c:110-117 | what does not fit 64 bits becomes the nearest number that does |
| Decimals.DecimalByDigits | src/parser/parser_filelist.c:110-117 | numbers are written in the digits 0 to 9, the last one last |
| Decimals.StrtolDecimal | src/utils.c:168-169 | a decimal number followed by no digit and no x reads back, and the rest is left |
| Decimals.StrtolSigned | src/utils.c:168-169 | so they are with white space and a sign in front |
| Decimals.StrtolNone | src/utils.c:168-169 | where no number begins nothing is read and nothing skipped |
| Decimals.StrtolHex | src/utils.c:168-169 | after 0x the digits of base 16 are read |
| Decimals.HexDigits | src/utils.c:168-169 | those are 0 to 9 and a to f, in either case, in that order |
| Decimals.StrtolOctal | src/utils.c:168-169 | after a leading zero the digits up to the first that is not octal are read in base 8 |
| Decimals.OctalIsDecimalExactly | src/utils.c:168-169 | the same digits mean the same in base 8 and base 10 if and only if they come to less than 8 |
| DottedVersions.CompareDottedVersion | src/utils.c:162-179 | the loop ends on all strings and computes the comparison |
| DottedVersions.ComparedIsOrder | src/utils.c:162-179 | on well-formed versions it is the lexicographic order of components padded with zeros |
| DottedVersions.OrderByFirst | src/utils.c:171-177 | the version is the earlier one if and only if at the first component that differs it has the smaller number |
| DottedVersions.AsIntExactly | src/utils.c:168-169 | the int is the 32-bit number that differs from the long by a multiple of 2^32 |
| DottedVersions.OrderAntisymmetric | src/utils.c:171-172 | swapping the versions negates the result |
| DottedVersions.OrderTransitive | src/utils.c:171-174 | the order is transitive, equality included |
| DottedVersions.OrderZeros | src/utils.c:174-177 | two versions are equal exactly when they differ only in zeros at the end |
| DottedVersions.CheckVersionAcceptsAll | src/indexnodes/indexnode.c:57-61 | every string passes the check |
| DottedVersions.LeadingZeroIsOctal | src/utils.c:168-169 | a component with a leading zero is compared by its octal value, which is its own if and only if that is below 8; an 8 or 9 ends it |
| Alarms.TimerSubAdd | scrap/alarms_old.c:183-188 | the delay put back onto the time gives the expiry, and is zero exactly when the two are equal |
| Alarms.TimersInMicros | scrap/alarms_old.c:85-88 | in microseconds the sum is the sum and the difference the difference, and times in normal form compare as their microseconds do |
| Alarms.TimerAddIsNormal | scrap/alarms_old.c:85-88 | the one carry is enough exactly below two million microseconds, and an alarm never expires before it was made |
| Alarms.EarlyExactly | scrap/alarms_old.c:176-180 | a time is taken for past before it is if and only if it has more than a million microseconds |
| Alarms.InsertedAt | scrap/alarms_old.c:98-123 | an alarm goes behind all of its own expiry and disturbs the order of no other |
| Alarms.StableSortedIsStable | scrap/alarms_old.c:98-123 | scheduling in turn gives a sorted permutation that is first in, first out among equals |
| Alarms.InsertedBehind | scrap/alarms_old.c:98-123 | a new alarm never belongs before one that has fired |
| Alarms.Multiplexer.Enlist | scrap/alarms_old.c:98-123 | the alarm takes its place in the list, in front exactly if the list was empty or it expires before all |
| Alarms.Multiplexer.AlarmSchedule | scrap/alarms_old.c:71-127 | the alarm expires its delay after the call; fired and pending alarms together stay the stable order of all that was scheduled; scheduling in front fires what is overdue and sets the timer |
| Alarms.Multiplexer.Signal | scrap/alarms_old.c:129-152 | the handler follows a null pointer if and only if the timer has outlived the list; otherwise it fires what is due |
| Alarms.Multiplexer.SigalrmH | scrap/alarms_old.c:129-152 | fires a first part of the list, nothing before its time, leaving nothing overdue |
| Alarms.Multiplexer.ScheduleNext | scrap/alarms_old.c:157-194 | the mutual recursion ends having fired all that is overdue; the timer is set for the first alarm left unless the clock reads its very expiry |
| Alarms.TimerOutlivesItsAlarm | scrap/alarms_old.c:71-194 | a run of two alarms and one signal that follows the null pointer |
| InodeMaps.GrowthSuffices | src/nativefs/inode_map.c:34-39 | one growth step makes room if and only if the inode is less than a step past the end |
| InodeMaps.InodeMap.Add | src/nativefs/inode_map.c:30-44 | the entry is in its slot with one reference more and no other slot changes, if it has a counter; else the null pointer is followed |
| InodeMaps.InodeMap.DirentryInit | src/nativefs/direntry.c:59-69 | the start does not get past the root, which has no counter, and the map stays empty |
| InodeMaps.InodeMap.AddRoot | src/nativefs/direntry.c:218-245 | a root entry gets into the map if and only if it has a counter |
| InodeMaps.InodeMap.AddNext | src/nativefs/direntry.c:198-216 | inodes are consecutive, so there is always room, and entry i stays in slot i, with one reference more than its listing had |
| InodeMaps.InodeMap.Get | src/nativefs/inode_map.c:46-62 | gives the entry of that inode with one reference more, or nothing for one not issued |
| InodeMaps.InodeMap.GetChildByName | src/nativefs/direntry.c:414-459 | a lookup adds one reference to the first child of that name and none elsewhere, found or not |
| InodeMaps.InodeMap.Forget | src/fuse_methods/forget.c:40-52 | drops exactly so many references, and frees exactly at zero |
| InodeMaps.InodeMap.Serve | src/fuse_methods/lookup.c:20-55 | a lookup answers with the first child of the name and is outstanding once more, a forget takes off as many as it says, and every count follows |
| InodeMaps.InodeMap.LookUpAndForget | src/fuse_methods/forget.c:40-52 | n lookups that find an entry and a forget of n leave the outstanding lookups as they were before |
| InodeMaps.InodeMap.Session | src/fuse_methods/forget.c:40-52 | after any lookups and forgets each entry's count is what it was and one more for each lookup outstanding, and nothing has been freed |

## Left out

- libcurl, libxml2, FUSE replies and pthreads are foreign code: a peer is a byte sequence sent in arbitrary buffers, a parser a sequence of SAX calls, a reply an entry in a log, a wait an arbitrary choice.
- The peer is taken to serve the open-ended range `N-` as section 14.35.1 of RFC 2616 says; a server that ignores the range and sends the file from its start is not modelled.
- Errors of pthread_cond_timedwait other than a time-out, on which the source asserts.
- Failure of malloc, calloc and realloc, and the wrap-around of 32-bit reference counters and table counts.
- Reads that arrive after the download thread has deleted itself, and reads that trip the downloader's asserts, which end the process.
- HashTableSpec.Hash: strings are taken as characters below 128, because the C code adds a signed char.
- HashTableSpec.DelKeepsMap: excludes the deletion that leaves entries and no bucket, where the source divides by zero; NoRoomExactly says which that is.
- HashTableSpec.ShrinksToNothingExactly: takes a calloc of no bytes to give a pointer, as NoRoomExactly and FivePairsEmptyTheTable do; where it gives NULL, hash_table_resize returns early and the table keeps its one bucket.
- HashTableSpec.RunIsMap: keys are inserted only while absent, as the cache does, and a table without buckets is not used again.
- DirentryCaches.DirentryCache.NotifyStale: needs right parent links from the entry up to where the climb ends, which the source follows; ClimbRightExactly says which climbs have them in every run, and CanClimb decides it.
- DirentryCaches.DirentryCache.Climb: needs the same of the entry it starts from.
- DirentryCaches.DirentryCache.Get: needs the same for an expired entry.
- DirentryCaches.DirentryCache.AddList: covers a parent found in the cache, the fetch of a parent that is not (path_get_direntry) being no part of this model, and new entries of distinct paths that are not in the index, as the debug build asserts.
- DirentryCaches.DirentryCache.AddChildren: needs new entries of distinct paths with no children of their own, none of them elsewhere in the cache, as the debug build asserts.
- The cache's sibling list is a sequence, its nested locking and reference counts are not modelled, and one call sees one reading of the clock; whether a listing can be fetched is an arbitrary set of entries.
- DirentrySessions.Session: a first listing is of a directory that is in the cache, not expired and without children, the entries of every listing are new ones, and calls whose climb would go astray are not made; what the source does then is undefined.
- KnownIndexnodes.Indexnodes.IndexnodesGet: calls do not overlap; the source replaces the list under a read lock, so that concurrent gets are outside the model.
- KnownIndexnodes.Indexnodes.NewIndexnodeEvent: needs a non-empty id and a version that is not blank, on which the source asserts.
- Alarms.Multiplexer.AlarmSchedule: needs at most a million microseconds, beyond which the expiry can be one that EarlyExactly is about; callbacks do not schedule, and signals arrive between calls.
- InodeMaps.InodeMap.GetChildByName: the children are loaded; fetching a listing, and the lifetime of entries across getattr, read and release, are not modelled.
- InodeMaps.InodeMap.Session: the children of every entry are loaded and in the map, and nothing is forgotten that was not looked up.
- InodeMaps.InodeMap.Add: follows the definition in inode_map.c, which takes the inode beside the entry; the header declares it without.
- FilelistParsers.DocumentRoundTrip: anchors are not nested, and what is inside an anchor has none of the seven attributes.
- FilelistParsers.RoundTrip: link counts are unbounded integers above zero where the source stores an unsigned long; a negative attribute is kept negative.
- Peer selection (peerstats.c, listing_list.c), statfs and the statistics parser are filters and sums over the same kinds of lists.
- HTTP, URIs, sockets, listener threads, configuration, tracing and the FUSE methods that only refuse.
