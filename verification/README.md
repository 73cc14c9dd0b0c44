# Verified model of the NTFS driver for UEFI

A Dafny model of the algorithms in this NTFS driver, which carries ntfs-3g and fuse-lite, with proofs of what they are for.
`dafny verify dfyconfig.toml` checks everything.

| file | models |
|---|---|
| ByteRangeLocks.dfy | the byte-range locks of an inode: one list shared by all owners, against the table of POSIX record locks |
| NodeTable.dfy | the inode-name table: two chained hash tables, lookup and reference counts, against what the kernel knows of the inodes |
| Requests.dfy | requests and interrupts of a session, as a state machine whose steps are the stretches of code under a lock, in any interleaving |
| RequestLists.dfy | the links of the request lists, kept with that state machine through every step |
| LruPool.dfy, HashIndex.dfy, LruCache.dfy | the LRU caches: entries, hash index and cache, against the sequence of cached items |
| AttrIO.dfy | reading and writing attributes over fragmented, sparse and partly initialised runs, against a flat array |
| HoleSplit.dfy | splitting a hole of a compressed attribute in its runlist |
| MftRecord.dfy, MftEdit.dfy | the attribute records of an MFT record, searched and edited as bytes, against a sequence of records |
| Bitmap.dfy | setting runs of bits through an 8 KiB window, and counting free bits |
| Calendar.dfy | conversion between EFI_TIME (section 8.3 of the UEFI Specification) and NTFS time (FILETIME, section 2.3.3 of [MS-DTYP]) |
| SidMapping.dfy | packing uids and gids into SIDs (section 2.4.2 of [MS-DTYP]) and back |
| PosixAcl.dfy | POSIX access control lists: validation, sorting and inheritance |
| Common.dfy | options, bytes and sequences of pointers, for the others |

Lists that the code links with pointers are sequences where only their order matters (locks, hash chains of the node table);
for the request lists and the caches the pointer updates themselves are modelled and related to the sequences.
The memory of nodes and requests is a map from pointers, so that following a pointer is an obligation that its target has not
been freed. Branches in which the code aborts, or logs an inconsistency, set a flag or give an outcome that is proved not to occur,
or to occur exactly under a stated condition.

Where the code does not do what its documentation or its purpose suggests, the exact condition is proved:

- `ntfs_attr_find` with a null name, which a passage of its comment describes as a search for the unnamed attribute, compares no names and
  can stop where insertion breaks the order (MftRecord.AnyNameKeepsTypeName; a record: MftEdit.AnyNameMisplaces).
- An implicit uid whose low 30 bits are zero reads back as 0 (SidMapping.UnpackPack; a uid: SidMapping.LostUid).
- Dates from day 2^19 on, in the year 3036, do not survive a round trip (Calendar.DateRoundTrip; a date: Calendar.TooLate).
- A lock range with an explicit length that reaches the largest offset comes back with length zero (ByteRangeLocks.FlockRoundTrip; a
  range: ByteRangeLocks.LastByteAlone).
- `locks_insert` does not test for conflicts; it breaks mutual exclusion exactly when there is one (ByteRangeLocks.ExclusionStep; two
  locks: ByteRangeLocks.OneByteTwoOwners).
- `ntfs_bitmap_set_bits_in_run` keeps byte positions and byte counts in an `int` (Bitmap.BitmapAttr.SetBitsInRun; runs: Bitmap.PastInt,
  Bitmap.LongRun, Bitmap.PastTwo32, Bitmap.Hangs). Bitmaps of volumes with at most 2^32 clusters are shorter than that.
- `split_compressed_hole` returns a run inside the compression block exactly when the block ends within the hole, its result is the
  number of data clusters under an exact condition too, and in the branch at attrib.c:1582-1586 it counts one unused element too many
  (HoleSplit.SplitCompressedHole, HoleSplit.PartIsData; a runlist: HoleSplit.OddHole). Holes that end with a compression block, as
  NTFS lays out compressed attributes, meet both conditions; runlists come from the volume and are not checked for it.
- The defaults of a directory without a mask give named users and groups their permissions whatever the mode of the new file
  (PosixAcl.GrantsWithinMode; an entry: PosixAcl.NamedWithoutMask).

## Model

| member | source | states |
|---|---|---|
| `ByteRangeLocks.InodeLocks.constructor` | Library/libfuse-lite/fuse.c:2481-2485 | A new inode has no locks: the table is empty for every owner and offset. |
| `ByteRangeLocks.InodeLocks.LocksInsert` | Library/libfuse-lite/fuse.c:2481-2552 | For every list that is sorted and disjoint per owner: the table of (owner, offset) to lock type changes exactly on the requester's range; order, disjointness and canonical form are kept; ENOLCK exactly when the two nodes cannot be allocated and the request is not the release of everything; at most two nodes more (one for an unlock); every lock afterwards is a part of an old one with its process id, or carries type, owner and process id of the request. |
| `ByteRangeLocks.Scan` | Library/libfuse-lite/fuse.c:2498-2541 | The loop over the shared list: done, or what is left of the requester's locks lies ahead; one node at most is used for a split, whatever the owners in between. |
| `ByteRangeLocks.Cut` | Library/libfuse-lite/fuse.c:2517-2532 | The four cases of an overlapping lock of another type leave exactly its parts outside the request; only the split uses the spare node; the scan stops exactly when the upper end is left. |
| `ByteRangeLocks.RemainsMeaning` | Library/libfuse-lite/fuse.c:2517-2531 | What is left of a cut lock means what the lock meant, outside the request. |
| `ByteRangeLocks.StepMerge` | Library/libfuse-lite/fuse.c:2504-2515 | Absorbing a touching or overlapping lock of the same type changes the table nowhere. |
| `ByteRangeLocks.StepCut` | Library/libfuse-lite/fuse.c:2516-2532 | Cutting a lock keeps the invariant of the scan. |
| `ByteRangeLocks.PartsReplaced` | Library/libfuse-lite/fuse.c:2516-2539 | Deleting, cutting or splitting a lock leaves parts of old locks only. |
| `ByteRangeLocks.FinishContained` | Library/libfuse-lite/fuse.c:2509-2510 | A request inside one lock of its type is an update without a change. |
| `ByteRangeLocks.FinishInsert` | Library/libfuse-lite/fuse.c:2542-2546 | Inserting where the scan stopped gives the requested table, sorted, and canonical if the list was. |
| `ByteRangeLocks.CanonicalFormUnique` | Library/libfuse-lite/fuse.c:2481-2552 | The table determines the canonical list of each owner, whatever the history and the interleaving of owners. |
| `ByteRangeLocks.LocksConflict` | Library/libfuse-lite/fuse.c:2455-2466 | For a request of any type, a lock is returned exactly when some byte of the request is held by another owner and one of the two types is a write lock; it is the first such lock of the list. |
| `ByteRangeLocks.BlockedMeaning` | Library/libfuse-lite/fuse.c:2455-2466 | For read and write locks this is a conflict in the sense of mutual exclusion; a request to unlock has none. |
| `ByteRangeLocks.ExclusionStep` | Library/libfuse-lite/fuse.c:2455-2552 | An update keeps mutual exclusion if and only if no conflict is found; so an insertion without that test breaks it exactly when there is a conflict. |
| `ByteRangeLocks.OneByteTwoOwners` | Library/libfuse-lite/fuse.c:2481-2552 | Two owners that write-lock byte 0: the insertion of the second is an update that breaks mutual exclusion. |
| `ByteRangeLocks.MutualExclusion` | Library/libfuse-lite/fuse.c:2455-2552 | Over every run in which each lock is granted only without a conflict, no byte is write-locked by one owner while another holds it. |
| `ByteRangeLocks.LastRequestWins` | Library/libfuse-lite/fuse.c:2481-2552 | After any run, what an owner holds at a byte is the type of the last request it made there. |
| `ByteRangeLocks.FlockToLock` | Library/libfuse-lite/fuse.c:2554-2561 | Kernel ranges that fit give locks in range. |
| `ByteRangeLocks.LockToFlock` | Library/libfuse-lite/fuse.c:2563-2569 | Converting a lock to the kernel's form and back gives the lock. |
| `ByteRangeLocks.FlockMeaning` | Library/libfuse-lite/fuse.c:2554-2569 | The lock has the type and process id of the kernel's request and covers, for its owner alone, exactly the bytes of its range, to the largest offset if the length is zero. |
| `ByteRangeLocks.FlockRoundTrip` | Library/libfuse-lite/fuse.c:2554-2569 | The other way round is the identity if and only if the length is zero or the range does not reach the largest offset. |
| `ByteRangeLocks.LastByteAlone` | Library/libfuse-lite/fuse.c:2554-2569 | The range of the last byte alone, of length one, comes back with length zero. |
| `NodeTable.Unlink` | Library/libfuse-lite/fuse.c:285-295 | Walking a chain unlinks the node if it is there, and tells whether it was; the table then holds exactly the other nodes. |
| `NodeTable.TablePush` | Library/libfuse-lite/fuse.c:297-302 | Linking a node at the head of its chain keeps every node once, in its chain. |
| `NodeTable.NameHash` | Library/libfuse-lite/fuse.c:304-314 | The loop computes the 32-bit polynomial hash plus the parent number, modulo the table size. |
| `NodeTable.GetNodeNocheck` | Library/libfuse-lite/fuse.c:256-266 | The node with the number, or none exactly if there is none. |
| `NodeTable.LookupNode` | Library/libfuse-lite/fuse.c:385-396 | The node with that parent number and name, or none exactly if there is none; every pointer followed is live. |
| `NodeTable.UnrefNode` | Library/libfuse-lite/fuse.c:355-372 | One reference less; with the last one the node is taken off its chain and freed, and then has no name. |
| `NodeTable.UnhashName` | Library/libfuse-lite/fuse.c:318-338 | Only the directory entry of the node goes, and the counts stay right, although the parent may be freed; neither abort nor assertion is reached. |
| `NodeTable.LastChild` | Library/libfuse-lite/fuse.c:318-338 | A node with one reference that has a named child has no other child, no lookup and no name, so freeing it does not cascade. |
| `NodeTable.HashName` | Library/libfuse-lite/fuse.c:340-353 | The node becomes the child of the node with the given number, which is found. |
| `NodeTable.NextId` | Library/libfuse-lite/fuse.c:374-383 | Terminates, as long as not all numbers are in use, with the first number after the last one given, counting through generations, that is neither 0 nor 0xffffffff nor in use. |
| `NodeTable.PairRepeats` | Library/libfuse-lite/fuse.c:374-383 | With a generation of 32 bits, two numbers have the same pair of generation and number if and only if a multiple of 2^64 numbers lies between them. |
| `NodeTable.FindNode` | Library/libfuse-lite/fuse.c:398-426 | Either the node of the entry gets one more lookup, or a new node with a new number appears with that entry and one lookup; nothing else changes. |
| `NodeTable.ForgetNode` | Library/libfuse-lite/fuse.c:563-577 | The root is left alone; otherwise the lookups are taken, and with the last one the inode goes from the kernel's view; the node itself is still in memory afterwards if and only if lookups are left or other nodes are named below it. |
| `NodeTable.RemoveNode` | Library/libfuse-lite/fuse.c:579-588 | Exactly the entry of the name goes, if there is one. |
| `NodeTable.RenameNode` | Library/libfuse-lite/fuse.c:590-624 | The node of the old entry gets the new one, and the node that had it loses it; hiding behind an existing entry is refused with EBUSY and changes nothing. |
| `NodeTable.RenamedMeaning` | Library/libfuse-lite/fuse.c:590-624 | After a rename the node has the new entry, is hidden if it was or is to be, and is otherwise the same; the node that had the entry has none; no other node has changed. |
| `NodeTable.ChangeMeaning` | Library/libfuse-lite/fuse.c:398-588 | What finding, forgetting and removing change of an inode, field by field, and that they change no other. |
| `NodeTable.CountMeaning` | Library/libfuse-lite/fuse.c:340-372 | In every state between calls: refctr is one for lookups plus the number of named children, and a node exists only with a lookup or a named child. |
| `NodeTable.Fuse.constructor` | Library/libfuse-lite/fuse.c:3129-3172 | The initial table holds the root alone and satisfies the invariant. |
| `NodeTable.Fuse.Find` | Library/libfuse-lite/fuse.c:398-426 | As FindNode, on the object; the invariant is kept. |
| `NodeTable.Fuse.Forget` | Library/libfuse-lite/fuse.c:563-577 | As ForgetNode, on the object, with the fate of the node; the invariant is kept. |
| `NodeTable.Fuse.Remove` | Library/libfuse-lite/fuse.c:579-588 | As RemoveNode, on the object; the invariant is kept. |
| `NodeTable.Fuse.Rename` | Library/libfuse-lite/fuse.c:590-624 | As RenameNode, on the object; the invariant is kept. |
| `Requests.StepOk` | Library/libfuse-lite/fuse_lowlevel.c:153-169 | Every enabled step of every thread keeps the invariant and touches no request that has been freed. |
| `Requests.NoFault` | Library/libfuse-lite/fuse_lowlevel.c:956-981 | In every interleaving from the start: no step touches freed memory, and ctr is one if the request is listed plus the number of interrupters that hold it. |
| `Requests.LastUser` | Library/libfuse-lite/fuse_lowlevel.c:163-168 | A request is destroyed only by the last one that may use it: its own thread when no interrupter holds it, or the only interrupter when it is off the list. |
| `Requests.GoneForGood` | Library/libfuse-lite/fuse_lowlevel.c:147-151 | What has been destroyed is never in memory again, so it is destroyed once. |
| `Requests.NoLeak` | Library/libfuse-lite/fuse_lowlevel.c:153-169 | A request in memory is listed, held, or about to be destroyed by its thread. |
| `Requests.InterruptAccounted` | Library/libfuse-lite/fuse_lowlevel.c:956-1028 | Pending interrupts have different targets, none of them a listed request; one that is not pending is on its way to the request it names, about to be refused, delivered to a request that has been marked, merged with one for the same target, or refused. |
| `Requests.FateStep` | Library/libfuse-lite/fuse_lowlevel.c:991-1028 | How the fate of an interrupt can change in a step; delivered, merged and refused are final. |
| `Requests.SignalNotLost` | Library/libfuse-lite/fuse_lowlevel.c:1212-1222 | When its lock is free, the interrupt function of a marked request has been called, whichever came first. |
| `Requests.NoDeadlock` | Library/libfuse-lite/fuse_lowlevel.c:956-981 | The locks of the requests do not deadlock: some thread can always go on. (The session lock is taken and released within a step, so that no thread waits for a request while it holds it.) |
| `Requests.ArrivalMeaning` | Library/libfuse-lite/fuse_lowlevel.c:1009-1028 | An arriving request is new with count one and no function, and is marked exactly if an interrupt waits for it, which goes from the list; if there is none, the interrupt that has waited longest is refused; all other requests, interrupts and threads stay. |
| `Requests.ArriveOk` | Library/libfuse-lite/fuse_lowlevel.c:1327-1336 | The arrival of a request keeps the invariant and touches no freed memory. |
| `Requests.InterruptOk` | Library/libfuse-lite/fuse_lowlevel.c:991-1007 | The arrival of an interrupt, found listed, merged or put on the list, keeps the invariant and touches no freed memory. |
| `Requests.InterruptListed` | Library/libfuse-lite/fuse_lowlevel.c:961-977 | An interrupt that names a listed request is counted in by exactly that request, is held by its thread, and changes nothing else. |
| `Requests.InterruptUnlisted` | Library/libfuse-lite/fuse_lowlevel.c:982-1006 | One that names none is merged with the pending interrupt for the same target if there is one, and otherwise becomes pending, behind the others; nothing else changes. |
| `Requests.InterruptDelivered` | Library/libfuse-lite/fuse_lowlevel.c:961-979 | What its thread then does to the request: marks it, calls its function if it has one, counts itself out and destroys it exactly if it was the last; the interrupt is delivered to it. |
| `Requests.FuncMeaning` | Library/libfuse-lite/fuse_lowlevel.c:153-162 | Setting the interrupt function sets it, and calls it exactly if the request is marked already; the reply clears it. |
| `Requests.NoFuncAfterReply` | Library/libfuse-lite/fuse_lowlevel.c:153-162 | In every interleaving, a request has an interrupt function only while its thread works on it, never from the reply on. |
| `Requests.FinishOk` | Library/libfuse-lite/fuse_lowlevel.c:163-168 | The end of a reply keeps the invariant: a request that goes has no user. |
| `Requests.DropOk` | Library/libfuse-lite/fuse_lowlevel.c:974-979 | The end of an interrupt keeps the invariant: a request that goes has no other user. |
| `RequestLists.Walk` | Library/libfuse-lite/fuse_lowlevel.c:956-981 | The walk from the head along next follows live links and ends at the first member with the wanted number, or at the head if there is none. |
| `RequestLists.InitedRing` | Library/libfuse-lite/fuse_lowlevel.c:124-128 | A request linked to itself is a ring of its own. |
| `RequestLists.AddedRing` | Library/libfuse-lite/fuse_lowlevel.c:138-145 | Linking in front of the head appends to the ring; no other links change. |
| `RequestLists.DeletedRing` | Library/libfuse-lite/fuse_lowlevel.c:130-136 | Unlinking a member leaves the ring of the others in order; no other links change. |
| `RequestLists.OtherRing` | Library/libfuse-lite/fuse_lowlevel.c:124-145 | Lists with other members are not affected by linking and unlinking. |
| `RequestLists.SelfUnlink` | Library/libfuse-lite/fuse_lowlevel.c:130-136 | Unlinking a request that is on no list changes nothing. |
| `RequestLists.CheckedRings` | Library/libfuse-lite/fuse_lowlevel.c:1009-1028 | check_interrupt takes exactly the matching interrupt, or the first one, off its ring, and leaves one that is refused linked to itself. |
| `RequestLists.LinkStepOk` | Library/libfuse-lite/fuse_lowlevel.c:124-169 | The stores of every step follow only links of requests in memory, and keep the links those of the two lists of the state. |
| `RequestLists.MemoryStep` | Library/libfuse-lite/fuse_lowlevel.c:124-169 | Every step keeps the links exactly those of the list heads and of the requests that are in memory. |
| `RequestLists.ListsAreRings` | Library/libfuse-lite/fuse_lowlevel.c:124-1028 | In every interleaving from the start, the two lists of the state machine are rings of the links, exactly what is in memory has links, and no step that can come next follows a link of freed memory. |
| `LruPool.ToHead` | Library/libntfs-3g/cache.c:182-199 | The pointer updates of a fetch move exactly that entry to the head of the list. |
| `LruPool.FreeToHead` | Library/libntfs-3g/cache.c:259-268 | A free entry becomes the head, the rest of the free list staying in order. |
| `LruPool.LastToHead` | Library/libntfs-3g/cache.c:269-299 | The oldest entry is taken off the tail and becomes the head. |
| `LruPool.ToFree` | Library/libntfs-3g/cache.c:335-356 | The entry goes from its place in the list to the head of the free list. |
| `LruPool.Create` | Library/libntfs-3g/cache.c:502-521 | All entries of a new cache are free. |
| `LruPool.Partition` | Library/libntfs-3g/cache.c:147-445 | Every entry of the pool is either in use or free. |
| `HashIndex.Insert` | Library/libntfs-3g/cache.c:63-97 | The first free link goes to the head of the chain; hashing is dropped exactly for a hash out of range or when no link is free. |
| `HashIndex.Drop` | Library/libntfs-3g/cache.c:103-138 | The first link of the entry goes from its chain to the free list; hashing is dropped only for a hash out of range or a chain without such a link. |
| `HashIndex.CreateIndex` | Library/libntfs-3g/cache.c:523-543 | All links of a new index are free and all chains empty. |
| `HashIndex.LinkPartition` | Library/libntfs-3g/cache.c:63-138 | Every link is either on one of the chains or free. |
| `LruCache.SearchSequentially` | Library/libntfs-3g/cache.c:166-176 | The walk along the list finds the first item that compares equal. |
| `LruCache.SearchHashed` | Library/libntfs-3g/cache.c:156-165 | The walk along the hash chain finds the same entry as the walk along the list. |
| `LruCache.DropIndex` | Library/libntfs-3g/cache.c:103-138 | For an entry in use its link is found, so hashing is not dropped. |
| `LruCache.InsertIndex` | Library/libntfs-3g/cache.c:63-97 | For a new entry a link is free, so hashing is not dropped. |
| `LruCache.FetchCache` | Library/libntfs-3g/cache.c:147-205 | The item found becomes the most recent, the others keeping their order; nothing else changes. |
| `LruCache.EnterCache` | Library/libntfs-3g/cache.c:212-328 | An item that is there is not moved; a new one becomes the first, with all the items behind it as long as an entry is free, which is while there are fewer items than entries, and all but the oldest when none is. |
| `LruCache.RemoveEntry` | Library/libntfs-3g/cache.c:432-445 | Exactly that item goes, and entry and link become free. |
| `LruCache.InvalidateSequentially` | Library/libntfs-3g/cache.c:407-427 | Exactly the selected items go, for any selection, and their number is returned. |
| `LruCache.InvalidateHashed` | Library/libntfs-3g/cache.c:384-406 | Exactly the item that compares equal goes, if there is one. |
| `LruCache.KeptMatch` | Library/libntfs-3g/cache.c:374-430 | Removing by hash and removing by walking the list leave the same items. |
| `LruCache.KeptAppend` | Library/libntfs-3g/cache.c:407-427 | What is kept of the items is what is kept of their parts, in order. |
| `LruCache.KeptMembers` | Library/libntfs-3g/cache.c:407-427 | Kept are exactly those that are not selected. |
| `LruCache.InvalidatedMeaning` | Library/libntfs-3g/cache.c:384-430 | Exactly the item that is the same goes, and none that is the same is left. |
| `LruCache.Pools` | Library/libntfs-3g/cache.c:63-445 | Entries and links are each in use or free, with as many free links as free entries. |
| `LruCache.CacheHeader.constructor` | Library/libntfs-3g/cache.c:472-547 | A new cache is empty and satisfies the invariant. |
| `LruCache.CacheHeader.Fetch` | Library/libntfs-3g/cache.c:147-205 | As FetchCache, on the object; hashing stays on. |
| `LruCache.CacheHeader.Enter` | Library/libntfs-3g/cache.c:212-328 | On the object: present items stay; a new one becomes the first, and the oldest goes exactly when there were as many items as entries; hashing stays on and the number of entries is kept. |
| `LruCache.CacheHeader.Invalidate` | Library/libntfs-3g/cache.c:374-430 | The item equal to the given one goes, with or without hashing; the count is one if there was one and else zero, and none is left. |
| `LruCache.CacheHeader.InvalidateWhere` | Library/libntfs-3g/cache.c:407-427 | Exactly the selected items go; the index is kept up to date. |
| `LruCache.CacheHeader.Remove` | Library/libntfs-3g/cache.c:432-445 | Exactly that entry goes. |
| `AttrIO.FindVcn` | Library/libntfs-3g/attrib.c:875-931 | The run that holds the cluster, or EINVAL for a negative one and ENOENT past the end. |
| `AttrIO.Gather` | Library/libntfs-3g/attrib.c:1061-1138 | From the run of the position on: zeros for holes, device bytes elsewhere; terminates and meets no empty or unmapped run. |
| `AttrIO.ByteMeaning` | Library/libntfs-3g/attrib.c:1061-1138 | Byte x of the attribute, said of the runlist: as far into the clusters of its run on the device as it is into the run; zero in a hole and past the initialized size. |
| `AttrIO.Pread` | Library/libntfs-3g/attrib.c:936-1144 | The flat view: clipped at the data size and nowhere before, zero past the initialized size and in holes, cluster bytes elsewhere; all of it if the clusters are on the device, a correct beginning of it otherwise. |
| `AttrIO.AddrHit` | Library/libntfs-3g/attrib.c:2112-2238 | With disjoint clusters, a write inside one run reaches exactly the attribute bytes that it means to. |
| `AttrIO.RlPwrite` | Library/libntfs-3g/runlist.c:1190-1262 | Scattering over runs writes exactly the given attribute bytes, passing over holes; no other byte of the device changes. |
| `AttrIO.FillZero` | Library/libntfs-3g/attrib.c:1187-1246 | Exactly the given range becomes zero; no other byte of the device changes. |
| `AttrIO.WriteRun` | Library/libntfs-3g/attrib.c:2159-2216 | One write of the loop writes exactly its part; at the end of the initialized data the rest of the cluster becomes zero as well; no other byte of the device changes. |
| `AttrIO.RoundUpMeaning` | Library/libntfs-3g/attrib.c:2170-2216 | That rest ends with the first multiple of the cluster size. |
| `AttrIO.Scatter` | Library/libntfs-3g/attrib.c:2112-2238 | The loop writes exactly the given bytes, and pads once at most; no other byte of the device changes. |
| `AttrIO.FlatAfterWrite` | Library/libntfs-3g/attrib.c:1936-2039 | Zeroed gap, written bytes and padding together are a replacement of the written bytes in the flat view. |
| `AttrIO.Pwrite` | Library/libntfs-3g/attrib.c:1936-2238 | A write within the data size and without holes replaces exactly its bytes of the flat view, and the initialized size grows to its end; on the whole device only bytes of the attribute change, from the position or the old initialized size on to the end of the write, or of its cluster where the write ends the initialized data, the rest of which is zero then. |
| `AttrIO.NtfsAttr.constructor` | Library/libntfs-3g/attrib.c:936-944 | An attribute with disjoint clusters on the device. |
| `AttrIO.NtfsAttr.Read` | Library/libntfs-3g/attrib.c:936-1144 | A read returns the slice of the flat array, clipped at its end. |
| `AttrIO.NtfsAttr.Write` | Library/libntfs-3g/attrib.c:1936-2238 | A write replaces a slice of the flat array that reads return, with the same bounds on what else changes on the device. |
| `HoleSplit.RlExtend` | Library/libntfs-3g/runlist.c:123-151 | The runlist with room for more elements. |
| `HoleSplit.ShiftUp` | Library/libntfs-3g/attrib.c:1504-1513 | The loop moves the elements behind the hole up, keeping their order. |
| `HoleSplit.SplitKeepsClusters` | Library/libntfs-3g/attrib.c:1453-1600 | Cutting a hole into parts changes neither the map from virtual to logical clusters nor the contiguity of the runs. |
| `HoleSplit.SplitInThree` | Library/libntfs-3g/attrib.c:1489-1523 | A hole around the block becomes three, the middle one being the block. |
| `HoleSplit.SplitInTwo` | Library/libntfs-3g/attrib.c:1524-1558 | A hole is cut in two. |
| `HoleSplit.SplitLast` | Library/libntfs-3g/attrib.c:1559-1594 | The last block of a hole is cut off, also in front of the end of the runlist. |
| `HoleSplit.PartIsData` | Library/libntfs-3g/attrib.c:1477-1484 | The number of clusters returned is that of the data clusters in the block if and only if the hole ends with a block, or the write is neither in the part of it beyond whole blocks nor in a block that starts with data. |
| `HoleSplit.SplitCompressedHole` | Library/libntfs-3g/attrib.c:1453-1600 | A hole not longer than a block is left alone. Else the hole is cut exactly at the ends of the compression block inside it, or a block from its end if the block does not end inside it; all other elements stay. In all branches the cluster map is kept, no run is empty, the runs stay contiguous and the returned run is a hole that contains the position; it lies within the compression block if and only if the block ends within the hole; update_from becomes the start of that run if it was not set or behind it. |
| `HoleSplit.OddHole` | Library/libntfs-3g/attrib.c:1453-1600 | A hole of 20 clusters with blocks of 16: the block of cluster 17 does not end within it, and for cluster 3 the number of data clusters is wrong. |
| `MftRecord.ParseUnique` | Library/libntfs-3g/attrib.c:2761-2881 | The bytes of the record determine the sequence of attribute records. |
| `MftRecord.CompareValue` | Library/libntfs-3g/attrib.c:2852-2875 | memcmp on the common length, then the lengths: the lexicographic order. |
| `MftRecord.FindIn` | Library/libntfs-3g/attrib.c:2761-2881 | Walks the chain to the first record that matches or is past; an intact chain is never reported corrupt. |
| `MftRecord.MatchMeaning` | Library/libntfs-3g/attrib.c:2789-2875 | A record matches if and only if the type, the name, if one is asked for, and the value, if one is given, are equal, or the type is AT_UNUSED. |
| `MftRecord.FoundIffThere` | Library/libntfs-3g/attrib.c:2761-2881 | In sorted records the search finds a matching attribute if and only if there is one, and the first. |
| `MftRecord.MissKeepsTypeName` | Library/libntfs-3g/attrib.c:2761-2881 | For all records sorted by type and name, in whatever order attributes of one type and name stand: on a miss, inserting where the search for a given name, or for an unnamed attribute, with or without a value, stopped keeps that order. |
| `MftRecord.AnyNameKeepsTypeName` | Library/libntfs-3g/attrib.c:2814-2875 | With a null name and a value: an attribute of the type inserted where the search stopped is in order if and only if none that it ran past, which are those in front of the first with a value not smaller, has a larger name, and none of the others a smaller one. |
| `MftRecord.UnnamedKeepsTypeName` | Library/libntfs-3g/attrib.c:2814-2875 | For an unnamed attribute that condition is that no named one is run past. |
| `MftRecord.AnyValueKeepsTypeName` | Library/libntfs-3g/attrib.c:2814-2850 | With neither name nor value, a miss also stops where insertion keeps the order. |
| `MftRecord.SortedByTypeName` | Library/libntfs-3g/attrib.c:2761-2881 | Records sorted by type, name and value are sorted by type and name. |
| `MftRecord.MissKeepsOrder` | Library/libntfs-3g/attrib.c:2761-2881 | If moreover attributes of one type and name are sorted by value, so they are after an insertion. |
| `MftRecord.AnyValueKeepsOrder` | Library/libntfs-3g/attrib.c:2814-2850 | The same with neither name nor value. |
| `MftRecord.AnyNameKeepsOrder` | Library/libntfs-3g/attrib.c:2814-2875 | The same with a null name: an unnamed attribute is in the order by type, name and value if and only if the search did not run past a named attribute of the type. |
| `MftRecord.AreaReplace` | Library/libntfs-3g/attrib.c:3733-3771 | Replacing the bytes of records replaces these records in the sequence and no others. |
| `MftEdit.StoredAttr` | Library/libntfs-3g/attrib.c:3850-3876 | The stores leave one well-formed record with the given type, name, flags, instance and value. |
| `MftEdit.HeaderExample` | Library/libntfs-3g/attrib.c:3850-3876 | The bytes of a concrete header. |
| `MftEdit.RecordLengthMeaning` | Library/libntfs-3g/attrib.c:3843-3848 | A record is a header of 24 bytes, the name and the value, each padded to the next multiple of eight. |
| `MftEdit.AnyNameMisplaces` | Library/libntfs-3g/attrib.c:2814-2875 | A concrete record in which the search with a null name puts an unnamed data attribute behind a named one. |
| `MftEdit.FileNamesInAnyOrder` | Library/libntfs-3g/attrib.c:2761-2881 | Two file names whose values are not in order are sorted by type and name. |
| `MftEdit.MftRec.constructor` | Library/libntfs-3g/mft.c:333-398 | A new record, for every record size with room for it and both header layouts, stands for the empty sequence of attributes, and is zero behind its end marker. |
| `MftEdit.LayoutMeaning` | Library/libntfs-3g/mft.c:343-388 | The attributes start at the first multiple of eight behind the header and an update sequence array of one entry and one for each 512 bytes. |
| `MftEdit.MftRec.MakeRoom` | Library/libntfs-3g/attrib.c:3733-3771 | Everything from the position on moves up by the rounded size and bytes_in_use grows by it; EINVAL and ENOSPC exactly as documented, without a change. No byte in front of the position or behind both ends changes. |
| `MftEdit.MftRec.InsertRecord` | Library/libntfs-3g/attrib.c:3838-3878 | Making room and filling it inserts exactly one record in front of record k. No byte in front of the position or behind both ends changes. |
| `MftEdit.MftRec.AddResident` | Library/libntfs-3g/attrib.c:3790-3897 | EEXIST exactly if the search matches, ENOSPC exactly if it does not fit, and then nothing changes; otherwise the new record is inserted where the search stopped, all others are unchanged, bytes_in_use matches the instance number advances modulo 65536, and records sorted by type and name stay so, unless the name was null and a named attribute was run past. No byte in front of the position or behind both ends changes. |
| `MftEdit.MftRec.RecordResize` | Library/libntfs-3g/attrib.c:4499-4547 | -1 exactly if the record would not fit; the special status exactly for an index root that grows into the last 120 bytes that were free; otherwise the bytes are moved and the length set. No byte in front of the record or behind both ends changes. |
| `MftEdit.ResizeMeaning` | Library/libntfs-3g/attrib.c:4514-4533 | The three answers of a resize, in sizes. |
| `MftEdit.Removed` | Library/libntfs-3g/attrib.c:4499-4547 | Resizing a record to zero takes exactly it out of the sequence. |
| `MftEdit.MftRec.Remove` | Library/libntfs-3g/attrib.c:4499-4547 | As Removed, on the object; it cannot fail. No byte in front of the position or behind both ends changes. |
| `MftEdit.AddThenRemove` | Library/libntfs-3g/attrib.c:3880-3888 | Resizing the added record to zero gives back the sequence of before. |
| `MftEdit.ValueStored` | Library/libntfs-3g/attrib.c:4563-4585 | The value is cut or grown with zeros; type, name, flags and instance stay. |
| `MftEdit.MftRec.ValueResize` | Library/libntfs-3g/attrib.c:4563-4585 | Refused exactly as RecordResize says of the rounded size, without a change; otherwise exactly the value of that record changes, to its beginning or to itself followed by zeros, and type, name, flags and instance stay. No byte in front of the record or behind both ends changes. |
| `Bitmap.ShiftedBit` | Library/libntfs-3g/bitmap.c:74-79 | Shifting the bit down and masking it is testing it. |
| `Bitmap.PutGet` | Library/libntfs-3g/bitmap.c:56-65 | Setting a bit sets that bit and no other. |
| `Bitmap.BitGetAndSet` | Library/libntfs-3g/bitmap.c:90-101 | The old bit is returned and the new one set, flipping only when they differ. |
| `Bitmap.FirstByte` | Library/libntfs-3g/bitmap.c:158-164 | The loop over a partial first byte; the count drops to -1 exactly when the run ends inside that byte. |
| `Bitmap.LastByte` | Library/libntfs-3g/bitmap.c:202-208 | The loop over a partial last byte. |
| `Bitmap.BitmapAttr.WriteWindow` | Library/libntfs-3g/bitmap.c:175-243 | One window, for any registers: what is stored and where, the registers afterwards, and whether the loop goes on, ends, fails, or stores outside of the buffer. |
| `Bitmap.BitmapAttr.WriteWindows` | Library/libntfs-3g/bitmap.c:171-244 | The window loop ends well exactly if its last window starts at a position that an int holds as not negative and that of the last byte is not mistaken; then the rest of the run is written. Otherwise it fails, stores outside of the buffer or does not end. |
| `Bitmap.BitmapAttr.SetBitsInRun` | Library/libntfs-3g/bitmap.c:115-255 | For every start and count: a run that ends before the last of the first 2^31 bytes is set, that is exactly its bits get the value. In general the call ends well if and only if all windows start in the lower half of the same 2^32 bytes, and the run does not both touch 2^31 bytes and end inside a byte; then exactly the bits of the run are set if it starts in the first 2^32 bytes, and otherwise the bytes of the result are put a multiple of 2^32 below. A run of less than 2^31 bytes that does not end well fails at the first window that starts in an upper half, those before it being written. |
| `Bitmap.DerailedRound` | Library/libntfs-3g/bitmap.c:221-243 | A loop whose int count of bytes is wrong never ends well: it fails, stores outside of the buffer, or stays where it is for ever. |
| `Bitmap.SetsRunMeaning` | Library/libntfs-3g/bitmap.c:115-255 | The runs that are set are those for which the call ends well and which start in the first 2^32 bytes. |
| `Bitmap.WrongPlace` | Library/libntfs-3g/bitmap.c:211-213 | When the result is put below its place, a run that was not set before is not set. |
| `Bitmap.PastInt` | Library/libntfs-3g/bitmap.c:211-213 | Eight bits from byte 2^31 on are not set; the eight in front of them are. |
| `Bitmap.LongRun` | Library/libntfs-3g/bitmap.c:176-187 | All but one of the first 2^34 bits cannot be set, although the last window starts in the first 2^31 bytes; all of them can. |
| `Bitmap.PastTwo32` | Library/libntfs-3g/bitmap.c:211-213 | Eight bits from byte 2^32 on: the call ends well and sets those of byte 0. |
| `Bitmap.Hangs` | Library/libntfs-3g/bitmap.c:231-243 | A run of 2^32 bytes and one window: the loop comes to a size of zero and stays there. |
| `Bitmap.RunSetUnique` | Library/libntfs-3g/bitmap.c:115-255 | Setting a run determines the bitmap. |
| `Bitmap.LutCounts` | Library/libntfs-3g/attrib.c:6857-6865 | The counting macros give the number of bits of a byte, for every byte. |
| `Bitmap.GetFreeBits` | Library/libntfs-3g/attrib.c:6875-6915 | The number of clear bits, for every length, words and remaining bytes together; an empty bitmap is an error. |
| `Bitmap.AllocateThenFree` | Library/libntfs-3g/bitmap.c:268-299 | Setting a run of n clear bits lowers the free count by n, and clearing it gives back the very bitmap. |
| `Calendar.EfiTime2NtfsTime` | NtfsDxe/Misc.c:297-349 | The loops over years and months compute the ticks of the Gregorian calendar. |
| `Calendar.DaysBeforeYearClosed` | NtfsDxe/Misc.c:312-316 | Counting leap years is the rule in divisions by 4, 100 and 400. |
| `Calendar.YearOfDay` | NtfsDxe/Misc.c:371-386 | The divisions by the lengths of 400, 100, 4 and 1 years find the year and the day in it. |
| `Calendar.MonthAndDay` | NtfsDxe/Misc.c:389-395 | The linear formula finds month and day. |
| `Calendar.NtfsTime2EfiTime` | NtfsDxe/Misc.c:351-404 | For every stamp, also a negative one: the valid date of its masked day number, the clock time of its masked seconds, and its nanoseconds. |
| `Calendar.DateRoundTrip` | NtfsDxe/Misc.c:297-404 | Date to ticks and back is the identity if and only if the day number is below 2^19 and the nanoseconds are a multiple of 100. |
| `Calendar.UnixEpoch` | NtfsDxe/Misc.c:297-349 | The stamp of the start of Unix time. |
| `Calendar.LeapDayStamp` | NtfsDxe/Misc.c:297-349 | The stamp of a moment of 29 February 2000. |
| `Calendar.TooLate` | NtfsDxe/Misc.c:297-404 | The first day of 3037 comes back as 20 July 1601. |
| `Calendar.TickRoundTrip` | NtfsDxe/Misc.c:297-404 | Ticks to date and back is the identity if and only if the stamp is not negative and below 2^19 days. |
| `Calendar.DayNumberInjective` | NtfsDxe/Misc.c:297-349 | A day number belongs to one date. |
| `Calendar.IsTimeUnique` | NtfsDxe/Misc.c:351-404 | What is promised of the conversion determines its result. |
| `Calendar.NtfsIsValidTime` | NtfsDxe/Misc.c:172-216 | Accepts exactly the valid times of the calendar from 1980 on. |
| `SidMapping.FindImplicit` | Library/libntfs-3g/acls.c:355-403 | The loop over the high bits reads the packed id back. |
| `SidMapping.PackNoWrap` | Library/libntfs-3g/acls.c:424-441 | With an accepted pattern the last sub-authority never wraps. |
| `SidMapping.PackMeaning` | Library/libntfs-3g/acls.c:424-441 | An implicit SID keeps the revision, authority and all but the last two sub-authorities of the pattern; the high two bits of the id are added to the one before the last, and the low thirty, doubled, and one for groups, to the last. |
| `SidMapping.UnpackPack` | Library/libntfs-3g/acls.c:355-441 | Packing an id and reading it back is the identity if and only if its low 30 bits are not all zero or it is a group; otherwise it reads as 0. |
| `SidMapping.UnpackMeaning` | Library/libntfs-3g/acls.c:355-403 | What is read of any SID that fits the pattern, also of aliases. |
| `SidMapping.LostUid` | Library/libntfs-3g/acls.c:355-441 | The smallest uid that is lost is 0x40000000: with a concrete pattern all smaller ones come back. |
| `SidMapping.PackUnpack` | Library/libntfs-3g/acls.c:355-441 | Reading a SID as an id and packing that gives the SID, with the last sub-authority less than 2^31 above the pattern. |
| `SidMapping.UsersAreNotGroups` | Library/libntfs-3g/acls.c:409-490 | No implicit user SID is an implicit group SID. |
| `SidMapping.PackInjective` | Library/libntfs-3g/acls.c:424-441 | Different ids have different implicit SIDs. |
| `SidMapping.FindSid` | Library/libntfs-3g/acls.c:409-490 | The SID of the first entry for the id, the administrators for root, or the implicit one. |
| `SidMapping.SidMeaning` | Library/libntfs-3g/acls.c:409-490 | Root is S-1-5-32-544; of another id the first entry that is for it or is the pattern tells the SID, and without one there is none. |
| `SidMapping.FindId` | Library/libntfs-3g/acls.c:497-536 | The id of the first entry for the SID, or the implicit one. |
| `SidMapping.IdMeaning` | Library/libntfs-3g/acls.c:497-536 | The first entry that has the SID or is the pattern tells the id, and without one it is 0. |
| `SidMapping.IdRoundTrip` | Library/libntfs-3g/acls.c:409-536 | An id gets back from its SID if and only if no earlier entry has that SID and, if it is implicit, its packing can be read. |
| `SidMapping.RootRoundTrip` | Library/libntfs-3g/acls.c:409-536 | Root gets back from its SID unless an entry maps that SID to another id. |
| `PosixAcl.CheckAce` | Library/libntfs-3g/acls.c:1004-1060 | The local tests of the loop decide whether the list stays well-formed. |
| `PosixAcl.PosixSecurity.constructor` | Library/libntfs-3g/acls.c:1364-1366 | An empty descriptor with room for entries. |
| `PosixAcl.PosixSecurity.ValidPosix` | Library/libntfs-3g/acls.c:962-1077 | Accepts a descriptor if and only if both lists are well-formed and the mode and tags agree with them. |
| `PosixAcl.PosixSecurity.PosixHeader` | Library/libntfs-3g/acls.c:1084-1118 | Computes mode and tags of the access list. |
| `PosixAcl.PosixSecurity.SortPosix` | Library/libntfs-3g/acls.c:1129-1192 | Terminates; each of the two lists is sorted and a permutation of itself, and nothing else moves. |
| `PosixAcl.BubblePass` | Library/libntfs-3g/acls.c:1146-1165 | One pass settles one more entry at the end, and does nothing exactly if all are in order. |
| `PosixAcl.ModeMeaning` | Library/libntfs-3g/acls.c:1084-1118 | The mode of a well-formed list is that of owner, mask or group, and other. |
| `PosixAcl.CopyInherited` | Library/libntfs-3g/acls.c:1372-1396 | The loop copies the defaults, restricted by the mode, the mask being known before the group. |
| `PosixAcl.AppendMissing` | Library/libntfs-3g/acls.c:1402-1434 | Exactly the standard entries that were missing are appended. |
| `PosixAcl.MissingBits` | Library/libntfs-3g/acls.c:1402-1434 | The appended entries are one for each standard tag that was missing, with exactly the bits of the mode that the umask leaves. |
| `PosixAcl.BuildInherited` | Library/libntfs-3g/acls.c:1345-1461 | For every valid parent descriptor with contiguous defaults, and every mode, mask and kind: the result exists and passes its own validity check; its access list is a permutation of the restricted defaults and the missing entries, and a directory keeps the defaults. Bit by bit, each class of its mode is what the default of the class, which for the group is the mask if there is one, and the requested mode both have, or, without such a default, the mode without the umask. |
| `PosixAcl.EntryBits` | Library/libntfs-3g/acls.c:1372-1434 | The same of each entry without a name; the owning group under a mask is as in the defaults. |
| `PosixAcl.NamedAces` | Library/libntfs-3g/acls.c:1372-1396 | The named entries are exactly those of the defaults. |
| `PosixAcl.ListsMeaning` | Library/libntfs-3g/acls.c:1357-1385 | Which entries of a descriptor are the access list and the defaults. |
| `PosixAcl.NeverWiderThanRequested` | Library/libntfs-3g/acls.c:1345-1461 | The mode of the result, which is that of owner, mask or group, and other, is not wider than the requested mode. |
| `PosixAcl.GrantsWithinMode` | Library/libntfs-3g/acls.c:1345-1461 | No entry of the result grants effectively, that is within the mask, more than the requested mode does to its class, if and only if the defaults have a mask or all their named entries are within the mode of the group. |
| `PosixAcl.NamedWithoutMask` | Library/libntfs-3g/acls.c:1372-1396 | A default entry for user 1000 without a mask is in the result, with all its permissions, whatever the mode. |

## Left out

- Driver binding, file handles, mounting, channels, sessions and option parsing: plumbing over calls outside this code.
- Compressed and encrypted attribute I/O, filling of holes, updates of mapping pairs and mapping of unmapped runlists: they rest on the cluster allocator and the compression code.
- The error and rollback paths of `ntfs_attr_pwrite_i`, read-only volumes, EINTR retries and short writes of the device.
- Memory exhaustion, except where `locks_insert` answers it; a cache has at least two entries and its allocations succeed.
- Translation between modes and NTFS access control entries.
- Enlarging an attribute, attribute lists, and whether an attribute type may be resident.
- The collation of names: any total order in which the empty name comes first stands for `ntfs_names_full_collate`.
- Requests that are answered before they are listed (EIO, EACCES and ENOSYS in `fuse_ll_process`): their thread alone uses them.
- Update in place of requests: the steps of Requests.dfy and the stores of RequestLists.dfy are functions from state to state, as arbitrary interleavings need them.
- The statistics of the caches, and the free function that a cache may have.
- The directory cache validity fields that one platform adds to nodes, and paths built from names.
- AttrIO.Pwrite: writes past the data size or into holes are not modelled, because they need the cluster allocator.
- AttrIO.NtfsAttr.Write: as AttrIO.Pwrite.
- MftEdit.MftRec.AddResident: the known sizes kept in the inode and the entry in an attribute list are not modelled.
- MftEdit.MftRec.ValueResize: requires a resident record whose value comes after its name, which every record made by this code has; a resize of another one would overwrite the name.
- NodeTable.NextId: the generation number is not cut to 32 bits; NodeTable.PairRepeats tells when the numbers that the kernel sees repeat.
- Requests.NoDeadlock: the session lock is not part of the state, because it is taken and released within a step; that no thread takes the lock of a request while it holds it is seen from the code alone.
- Calendar.EfiTime2NtfsTime: the 16-bit year and the 64-bit product are not cut, because they do not overflow for years below 30000.
- Bitmap.BitmapAttr.SetBitsInRun: requires the run to lie within the bitmap; a write past its end, which callers do not make, would enlarge the attribute.
- PosixAcl.PosixSecurity.PosixHeader: the file type bits of the mode are not modelled.
- PosixAcl.BuildInherited: requires the parent's default entries to follow its access entries directly, as every descriptor made by this code has them.
