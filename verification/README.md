# Avery: storage, memory and input, verified

A Dafny model of five components of the Avery kernel and proofs of what they are for:

1. **The FAT32 volume** (`kernel/fs/fat32.cpp`): FAT entries in mirrored tables, cluster
   chains, file handles, directories, long and short names, paths. The layers are bytes on
   the device → a map from cluster to 28-bit link and to cluster contents → disjoint chains
   → one byte sequence per file → one listing per directory → paths. Formats follow the
   Microsoft FAT32 File System Specification, version 1.03, sections "FAT Data Structure",
   "FAT32 FSInfo Sector Structure and Backup Boot Sector", "FAT Directory Structure" and
   "FAT Long Directory Entries".
2. **Page tables over the page allocator** (`kernel/core/memory/vmm.cpp`, `pmm.cpp`,
   `include/kernel/memory/physicalMemory.h`): a four-level radix tree (Intel SDM, Volume 3A,
   section 4.5) whose nodes come from a bitmap allocator, refining one flat map.
3. **The kernel heap** (`kernel/core/memory/heap.cpp`): a first-fit allocator whose headers
   lie as bytes inside the memory it hands out, grown page by page over 2.
4. **MMIO windows and rectangle copy** (`kernel/drivers/mmio.cpp`,
   `kernel/graphics/framebuffer.cpp`).
5. **The keyboard queue** (`kernel/drivers/input/keyboard.cpp`): one reader and an interrupt
   handler that may run between any two of its steps.

Each stateful component is a class with the source's fields (`FatVolume.Volume`,
`FatFiles.FileHandle`, `Pmm.PhysicalMemory`, `Vmm.AddressSpace`, `Mmio.MmioArea`,
`Mmio.Interface`, `Heap.KernelHeap`, `Framebuffer.Screen`, `Keyboard.Queue`); its methods are
proved against value-level functions and relations, and the laws are lemmas about those.

| file | content |
|---|---|
| `Arithmetic.dfy`, `Bits.dfy`, `Bytes.dfy` | quotients, words bit by bit, byte fields |
| `FatChains.dfy`, `FatContents.dfy` | chains as values, file contents, separation |
| `FatGeometry.dfy`, `FatVolume.dfy` | layout on the device, the mounted volume |
| `FatSlots.dfy`, `FatFiles.dfy`, `FatRuns.dfy`, `FatHandleLaws.dfy` | directory slots, file handles, runs of operations, what a flush means for the directory |
| `Options.dfy`, `FatNames.dfy`, `FatListing.dfy`, `FatDirectory.dfy`, `FatDirectoryLaws.dfy`, `FatPaths.dfy` | names, listings, directories, paths |
| `Pmm.dfy`, `Vmm.dfy`, `Mmio.dfy` | pages, page tables, device windows |
| `HeapBlocks.dfy`, `HeapImage.dfy`, `HeapMemory.dfy`, `HeapPages.dfy`, `Heap.dfy`, `HeapLaws.dfy` | block list, its bytes, header stores, pages behind the heap, allocator, runs |
| `Framebuffer.dfy`, `Keyboard.dfy` | pixels and copies, the keyboard queue |

## What the proofs found

Where the code does not meet the expected law, the model keeps the code and a lemma gives
the exact condition.

- A heap expansion that runs out of pages half way leaves its pages mapped behind the heap;
  from then on every expansion is refused, for ever (`HeapLaws.GetsStuckIff`, `GetsStuck`,
  `StuckForever`). One that still gets a page but not the table it needs halts the
  kernel (`Heap.KernelHeap.ExpandHeap`).
- The heap's free counter is the free byte count exactly when there are as many blocks as
  expansions, and wraps below zero when one header per expansion and the used bytes exceed
  the heap (`HeapLaws.FreeCounterExactIff`, `FreeCounterWrapsIff`, `FreeCounterWraps`).
- Freeing a chain that runs into a free cluster, as every cyclic chain does, leaves the free
  count one too high (`FatChains.FreeWalkExactIff`, `CyclicChainMiscounts`, `CircleCountsTwice`).
- A name that ends its base or extension in a space, or in a dot, is stored as another name;
  creating it puts two equal names into one directory exactly when some entry has that other
  name (`FatNames.ShortNameRoundTripIff`, `FatDirectoryLaws.CreateUniqueIff`,
  `CreateKeepsUnique`, `DotNameDuplicates`, `FatPaths.CreateNodeUniqueIff`). Exactly a name that
  starts with byte 0xE5 is stored and never listed (`FatDirectoryLaws.DeletedMarkNameIsLost`).
- Removal deletes the slots of a long name in the entry's own cluster only. What it leaves of
  one that reaches back into the cluster before becomes the name of the next entry created
  there, unless that is nothing or the same name (`FatDirectoryLaws.CutLongNameSticks`,
  `CutLongNameInput`), or the end of a long name stored there (`FatListing.LongNameIsListed`).
- A path with one component behind three or more slashes resolves, but its parent does not,
  so nothing can be created there (`FatPaths.ParentIsLostIff`, `TripleSlashIsLost`).
- A truncation that needs more clusters than are free fails; it leaves the file unrecorded in
  the directory exactly when the file was clean and empty and some cluster was free
  (`FatFiles.FileHandle.Truncate`, last three clauses; `TruncateLosesCluster`).
- Links to cluster numbers from 0x0FFFFFF7 on cannot be told from marks
  (`FatGeometry.LinkIsFaithfulIff`). Mapping flags with address bits change the frame
  (`Vmm.PteFrameIff`).
- A refused MMIO mapping keeps the pages before the one that stopped it mapped, and nothing
  unmaps them: none exactly when the first page of the window was mapped already
  (`Mmio.Interface.constructor`, `Scoped`, `RefusedLeavesPage`).
- The comment beside `keyboard.cpp:74` names scancode 86 for the key between left shift and
  Z; the table puts its characters under 89 and, shifted, 88 (`Keyboard.IsoKeyIsMisplaced`).
  The model follows the table.

## Model

| member | source | states |
|---|---|---|
| `FatChains.ChainIsAcyclic` | kernel/fs/fat32.cpp:521-551 | a chain that ends in an end mark visits no cluster twice |
| `FatChains.ChainIsUnique` | kernel/fs/fat32.cpp:521-588 | a first cluster determines its chain |
| `FatChains.ChainAppend` | kernel/fs/fat32.cpp:521-551 | linking a fresh end-marked cluster behind the last one gives a chain one longer |
| `FatChains.ChainCut` | kernel/fs/fat32.cpp:1462-1476 | an end mark written at a position leaves exactly the prefix up to it |
| `FatChains.CandidateIsFormula` | kernel/fs/fat32.cpp:444-450 | the search's i-th candidate is the modular formula of the code |
| `FatChains.SearchIsExhaustive` | kernel/fs/fat32.cpp:444-486 | the circular search from any hint meets every cluster, so it fails only when none is free |
| `FatChains.SearchFollowsHint` | kernel/fs/fat32.cpp:444-486 | the search takes the first free cluster from the hint on, going on from cluster 2 behind the last one; from cluster 2 when the hint is no cluster |
| `FatChains.FreeWalkReleasesChain` | kernel/fs/fat32.cpp:488-519 | on a well-formed chain the release frees exactly that chain, returns its length in clusters and keeps an exact free count exact |
| `FatChains.FreeWalkExactIff` | kernel/fs/fat32.cpp:488-519 | on every table whose links stay in it, cyclic ones included, an exact count stays exact if and only if different taken clusters lead from the first one to an end mark, the bad mark or 1; otherwise it ends one too high |
| `FatChains.CyclicChainMiscounts` | kernel/fs/fat32.cpp:488-519 | so every chain that runs into a circle leaves the count one too high |
| `FatChains.CircleCountsTwice` | kernel/fs/fat32.cpp:488-519 | two clusters linked in a circle: two are free afterwards and three are counted |
| `FatChains.LinkedIsFileStep` | kernel/fs/fat32.cpp:521-551 | extending a chain takes only a free cluster and touches no cluster outside the file |
| `FatChains.ReleaseIsFileStep` | kernel/fs/fat32.cpp:488-519 | releasing a chain touches no cluster outside it |
| `FatChains.FileStepTrans` | kernel/fs/fat32.cpp:1348-1484 | steps of one file compose: what the parts leave alone the whole leaves alone |
| `FatContents.ChainBytesCluster` | kernel/fs/fat32.cpp:1321-1342 | the k-th cluster of a chain holds bytes k·size to (k+1)·size of the file |
| `FatContents.ChainBytesUpdate` | kernel/fs/fat32.cpp:1377-1395 | rewriting part of one cluster of a chain rewrites exactly those bytes of the file |
| `FatContents.IndexIsQuotient` | kernel/fs/fat32.cpp:553-560 | position in the chain and in the cluster are offset / size and offset % size |
| `FatContents.LastIndexRoundsUp` | kernel/fs/fat32.cpp:1444-1460 | the clusters up to the one of byte n - 1 are n divided by the cluster size, rounded up, and hold at least n and less than n + a cluster bytes |
| `FatContents.WriteStepTrans` | kernel/fs/fat32.cpp:1372-1409 | two adjoining writes are one write: old bytes kept, new clusters zero outside the written window |
| `FatContents.OutsideUntouched` | kernel/fs/fat32.cpp:1348-1484 | a chain apart from the file a step is about stays a chain with the same bytes |
| `FatContents.OtherFileUntouched` | kernel/fs/fat32.cpp:1348-1484 | a step on one file changes neither the chain nor any byte of another |
| `FatContents.StepKeepsSeparation` | kernel/fs/fat32.cpp:435-588 | a step on one file keeps all chains well formed and pairwise disjoint, and every taken cluster owned |
| `FatContents.NothingLeaks` | kernel/fs/fat32.cpp:435-588 | after a step every cluster that is neither free nor bad is owned by a file |
| `FatRuns.StepKeepsSound` | kernel/fs/fat32.cpp:444-588 | every operation keeps files apart, conserves free plus owned clusters and keeps an exact free count exact |
| `FatRuns.RunKeepsSound` | kernel/fs/fat32.cpp:435-588 | the same over every run of allocate, extend, lookup, write, truncate, free and record |
| `FatRuns.RunSparesFile` | kernel/fs/fat32.cpp:435-588 | over every run, a file no event touches keeps its chain and every byte |
| `FatGeometry.MountedIsSound` | kernel/fs/fat32.cpp:305-344 | the layout mounting computes is sound, given its own checks and the stated assumptions, and no further cluster fits the volume |
| `FatGeometry.EntryAddressed` | kernel/fs/fat32.cpp:381-386 | the 32-bit sector and offset formulas address, without wrap-around, the four bytes at 512 · (reserved + table · table size) + 4 · cluster |
| `FatGeometry.EntriesApart` | kernel/fs/fat32.cpp:403-433 | entries of different clusters, or in different tables, share no byte |
| `FatGeometry.ClusterAddressed` | kernel/fs/fat32.cpp:361-379 | valid clusters map to sectors inside the device, without 32-bit wrap-around, one behind the other from the end of the last table on |
| `FatGeometry.ClustersApart` | kernel/fs/fat32.cpp:361-379 | different clusters share no byte |
| `FatGeometry.LinkIsFaithfulIff` | kernel/fs/fat32.cpp:403-433 | a link reads back as the same cluster number, and as no mark, if and only if it is below 0x0FFFFFF7 |
| `FatGeometry.MergedIsMask` | kernel/fs/fat32.cpp:414-419 | the merged word has the old top four bits and the new low 28 |
| `FatGeometry.PatchedMeaning` | kernel/fs/fat32.cpp:403-433 | after the update of all tables the volume's map changes in that one entry, no data changes, and tables that agreed still agree |
| `FatGeometry.PatchedEntries` | kernel/fs/fat32.cpp:403-433 | in every table the written entry holds the new 28 bits under its old top four, and every other entry is unchanged |
| `FatGeometry.ClusterWriteMeaning` | kernel/fs/fat32.cpp:373-379 | writing a cluster changes that cluster's contents and no entry of any table |
| `FatGeometry.RepresentsIsFunctional` | kernel/fs/fat32.cpp:361-401 | the bytes of the device determine the abstract volume |
| `FatVolume.Volume.ReadFatEntry` | kernel/fs/fat32.cpp:381-401 | returns the link of the abstract volume |
| `FatVolume.Volume.WriteFatEntry` | kernel/fs/fat32.cpp:403-433 | changes one link, masked to 28 bits, in all tables; tables that agreed at mount still agree, after this and every other operation |
| `FatVolume.Volume.ReadCluster` | kernel/fs/fat32.cpp:365-371 | returns the cluster's contents |
| `FatVolume.Volume.WriteCluster` | kernel/fs/fat32.cpp:373-379 | changes the contents of that cluster only |
| `FatVolume.Volume.AllocateCluster` | kernel/fs/fat32.cpp:444-486 | takes the first free cluster in circular order from the hint, end-marked, zeroed and counted, and moves the hint behind it; fails only when none is free |
| `FatVolume.Volume.FreeClusterChain` | kernel/fs/fat32.cpp:488-519 | terminates on every table whose links stay in it and does exactly the release walk |
| `FatVolume.Volume.ExtendClusterChain` | kernel/fs/fat32.cpp:521-551 | appends the first free cluster to the chain; failure changes nothing and means none is free |
| `FatVolume.Volume.GetClusterForOffset` | kernel/fs/fat32.cpp:553-588 | returns element offset / cluster size; allocating, success leaves length max(old, index + 1) and failure a grown chain with the old one as prefix |
| `FatVolume.Volume.UpdateDirectoryEntry` | kernel/fs/fat32.cpp:779-801 | rewrites the attributes, first cluster and size of one slot |
| `FatVolume.Volume.SyncFsInfo` | kernel/fs/fat32.cpp:941-954 | the hints stored are those mounting would read; no table or data changes |
| `FatVolume.ReadFsInfo` | kernel/fs/fat32.cpp:269-298 | reads the hints of the FSInfo sector, or none without it or its signatures |
| `FatVolume.FsInfoRoundTrip` | kernel/fs/fat32.cpp:269-298 | written hints are read back |
| `FatVolume.FsInfoLayout` | kernel/fs/fat32.cpp:941-954 | the stored sector has the three signatures and the two hints at bytes 0, 484, 508, 488 and 492 and keeps its reserved bytes |
| `FatSlots.SlotUpdatedReads` | kernel/fs/fat32.cpp:779-801 | a rewritten slot reads back the recorded attributes, first cluster and size, and every byte of no such field stays |
| `FatFiles.FileHandle.Read` | kernel/fs/fat32.cpp:1297-1346 | an open readable handle behind whose position the file still has bytes, by its size and by its chain, returns the bytes there, as many as asked for up to the end of either, and advances by as many; any other returns none |
| `FatFiles.FileHandle.Write` | kernel/fs/fat32.cpp:1348-1413 | puts exactly the first k bytes at offset, keeps every other old byte, zeroes the rest of new clusters, sets size to max(size, offset + k); k falls short only when no cluster is free |
| `FatFiles.WriteCompletesIff` | kernel/fs/fat32.cpp:1348-1413 | a write is complete if and only if its last byte fits the file's clusters and the free ones together |
| `FatFiles.FileHandle.Truncate` | kernel/fs/fat32.cpp:1424-1484 | succeeds if and only if n / cluster size, rounded up, clusters fit the old chain and the free clusters together; then exactly so many are left, holding at least n and less than n + a cluster bytes, the old bytes up to n unchanged and new ones zero; one chain is a prefix of the other; after a failure the directory records the file, or the next flush of a node that was dirty will, if and only if the node was dirty, had clusters, or none was free |
| `FatFiles.TruncateLosesCluster` | kernel/fs/fat32.cpp:1424-1484 | an input: an empty file on a volume with one free cluster, asked for two, keeps that cluster and its slot names none |
| `FatFiles.CutIsFileStep` | kernel/fs/fat32.cpp:1462-1476 | freeing the tail and end-marking the last kept cluster releases exactly the tail |
| `FatFiles.CutKeeps` | kernel/fs/fat32.cpp:1462-1476 | the kept clusters are a chain with its links and every entry outside the file stays |
| `FatFiles.CutBytes` | kernel/fs/fat32.cpp:1462-1476 | they hold the bytes they held |
| `FatFiles.FileHandle.Flush` | kernel/fs/fat32.cpp:1494-1516 | records a dirty node in its slot and clears the flag; anything else changes nothing |
| `FatFiles.FileHandle.Close` | kernel/fs/fat32.cpp:1518-1526 | flushes once and refuses everything afterwards |
| `FatFiles.OpenSlot` | kernel/fs/fat32.cpp:997-1003 | an opened file has the attributes, first cluster and size of its slot |
| `FatFiles.CloseReopenRead` | kernel/fs/fat32.cpp:1494-1526 | closing, opening the slot again and reading gives the first n of the bytes the handle had, up to its size |
| `FatHandleLaws.SlotUpdateIsStore` | kernel/fs/fat32.cpp:779-801 | rewriting the fields of a slot stores 32 bytes and no others |
| `FatHandleLaws.RewrittenRole` | kernel/fs/fat32.cpp:604-652 | the rewritten slot of an entry is that entry still, under its name, with what was recorded |
| `FatHandleLaws.UpdatedListing` | kernel/fs/fat32.cpp:779-801 | rewriting the slot of a listed entry changes exactly that entry of its directory's listing, to the attributes and first cluster recorded and the size, or 0 for a directory |
| `FatHandleLaws.RecordedListing` | kernel/fs/fat32.cpp:1494-1516 | the same for what flushing a handle leaves: the handle's attributes, first cluster and size modulo 2^32 |
| `FatHandleLaws.RecordedIsEvent` | kernel/fs/fat32.cpp:1494-1516 | what flushing a handle leaves is one event of a run, 32 bytes stored in the slot's cluster |
| `FatHandleLaws.CloseThenList` | kernel/fs/fat32.cpp:1494-1526 | listing the directory after closing a handle gives the listing from before, with exactly the file's entry showing what the handle knew |
| `FatNames.CompareNames` | kernel/fs/fat32.cpp:24-36 | equal exactly when they are as long and at every place have the same byte or a capital letter and its small one |
| `FatNames.MakeShortName` | kernel/fs/fat32.cpp:46-91 | accepts exactly names without "/", with at most one dot, base of 1 to 8 and extension of up to 3, and stores the base in capitals in the first eight bytes and the extension in the last three, padded with spaces |
| `FatNames.StorableIff` | kernel/fs/fat32.cpp:46-91 | exactly the names made of such parts are accepted, and their parts are unique |
| `FatNames.ShortNameToString` | kernel/fs/fat32.cpp:93-121 | decodes 11 bytes: trimmed, lowered, joined by a dot |
| `FatNames.ShortNameRoundTripIff` | kernel/fs/fat32.cpp:46-121 | an accepted name without NUL comes back, up to case, if and only if it is faithful |
| `FatNames.ShortNameInjective` | kernel/fs/fat32.cpp:46-121 | two faithful names are encoded alike if and only if they are equal up to case |
| `FatNames.DotWithoutExtensionIsLost` | kernel/fs/fat32.cpp:46-121 | "a." is an input that does not come back |
| `FatListing.ListingSplits` | kernel/fs/fat32.cpp:590-676 | a listing is what the slots before a place list, then what is listed from there with the long name collected so far |
| `FatListing.LongNameIsListed` | kernel/fs/fat32.cpp:590-676 | in the whole listing, a name laid out in reversed 13-unit slots names the entry behind them, followed by what an unfinished long name right before left over; it comes back whole if and only if nothing was left over |
| `FatListing.LongNameLaidOut` | include/fs/fat32.h:88-97 | every name of 1 to 255 bytes has such a layout, anywhere in a directory |
| `FatListing.PlacedListing` | kernel/fs/fat32.cpp:604-652 | a slot that takes a role at the first free place lists what that role lists there, under the long name left over before it, and changes nothing else |
| `FatListing.DeletedListing` | kernel/fs/fat32.cpp:604-652 | deleting an item and the slots without items before it takes exactly its entry out |
| `FatListing.ListedSlot` | kernel/fs/fat32.cpp:604-652 | the k-th entry of a listing comes from the slot whose index it carries, with its long name from the slots before |
| `FatListing.ListedIff` | kernel/fs/fat32.cpp:604-652 | listed are exactly the slots in use, no label and no long-name part, before which no slot was never used |
| `FatListing.ListedInOrder` | kernel/fs/fat32.cpp:604-652 | in the order of their slots |
| `FatListing.ListedIsRecorded` | kernel/fs/fat32.cpp:637-648 | each with the attributes in byte 11, the first cluster in bytes 26 and 27 below 20 and 21, and the size in bytes 28 to 31 of its slot |
| `FatListing.PlainNameListed` | kernel/fs/fat32.cpp:604-652 | and, without a long-name part right before it, under the name its first 11 bytes stand for |
| `FatListing.ItemReplaced` | kernel/fs/fat32.cpp:604-652 | another entry of the same name in a slot replaces that entry of the listing and no other |
| `FatDirectory.ReadDirectory` | kernel/fs/fat32.cpp:590-676 | lists, in slot order, an entry for exactly each slot that is in use, no label, no long-name part and behind no end mark, with the attributes, first cluster and size in the bytes of its slot, the long name laid out before it or its short name, and the cluster and offset of the slot |
| `FatDirectory.FindFreeDirectoryEntry` | kernel/fs/fat32.cpp:803-854 | finds the first slot never used or deleted; a full directory grows by one zeroed cluster |
| `FatDirectory.MakeDirectoryCluster` | kernel/fs/fat32.cpp:879-921 | a new directory's cluster holds "." and ".." and zeros |
| `FatDirectory.CreateDirectoryEntry` | kernel/fs/fat32.cpp:856-939 | stores one slot under the packed name: for a storable name exactly when as many clusters are free as a full directory and a new directory need; on failure at most the directory has grown |
| `FatDirectory.MarkEntryAndLongNameDeleted` | kernel/fs/fat32.cpp:195-210 | marks the slot and then, walking back, the long-name slots before it |
| `FatDirectory.MarkBackMarksRun` | kernel/fs/fat32.cpp:195-210 | the walk marks exactly the unbroken run of long-name slots right before the entry and changes no other byte |
| `FatDirectory.ClusterMarked` | kernel/fs/fat32.cpp:1133-1147 | writing the marked cluster back marks, in the whole directory, exactly that run of slots and changes no other byte |
| `FatDirectory.RemoveEntry` | kernel/fs/fat32.cpp:1102-1157 | refuses entries without a place, dot entries and directories with other entries, changing nothing; otherwise marks exactly the entry's slot and the long-name slots right before it in its cluster, and releases the file's chain |
| `FatDirectoryLaws.CreateInsertsOne` | kernel/fs/fat32.cpp:803-939 | creation inserts exactly one entry into the listing and changes no other, across clusters and when the directory grows; it is listed under its decoded name or under a left-over long name |
| `FatDirectoryLaws.CreateUniqueIff` | kernel/fs/fat32.cpp:1048-1073 | names stay distinct up to case if and only if no entry has the name the new one is listed under, or the new one is lost |
| `FatDirectoryLaws.CreateKeepsUnique` | kernel/fs/fat32.cpp:1048-1073 | behind the search for a namesake, names stay distinct if and only if the name is lost, or faithful with no long name left over before its slot, or listed under a name no entry has |
| `FatDirectoryLaws.DotNameDuplicates` | kernel/fs/fat32.cpp:1048-1073 | a directory that lists "a", in which creating "a." succeeds and puts a second "a" |
| `FatDirectoryLaws.DeletedMarkNameIsLost` | kernel/fs/fat32.cpp:856-939 | a creation leaves the listing as it was if and only if the name starts with byte 0xE5 |
| `FatDirectoryLaws.NewDirectoryListsDots` | kernel/fs/fat32.cpp:879-921 | a new directory lists exactly "." and "..", itself and its parent, and nothing stands behind its end mark |
| `FatDirectoryLaws.NewDirectoryIsRemovable` | kernel/fs/fat32.cpp:1116-1131 | a new directory is accepted for removal: it holds only dot entries and is read back as none |
| `FatDirectoryLaws.RemoveTakesOne` | kernel/fs/fat32.cpp:1102-1157 | on the volume the removal leaves, exactly one entry and its long name are gone from the listing, in every directory |
| `FatDirectoryLaws.CutLongNameSticks` | kernel/fs/fat32.cpp:195-210 | when a long name reaches back over the start of its entry's cluster, its first slots survive the removal; the next entry created there is listed under its own name if and only if they hold nothing, or just that name, and otherwise under what they hold |
| `FatDirectoryLaws.CutLongNameInput` | kernel/fs/fat32.cpp:195-210 | an input: "b" with a long name that starts in the cluster before is removed, "c" is created and listed as "x" |
| `FatDirectoryLaws.CreateThenRemoveRestores` | kernel/fs/fat32.cpp:856-1157 | creating and removing an entry restores the listing on the final volume and gives back every cluster but those a full directory grew by |
| `FatDirectoryLaws.CreateIsRun` | kernel/fs/fat32.cpp:856-939 | a creation is a run of volume operations that concern only the directory and the new file |
| `FatDirectoryLaws.CreateSparesOthers` | kernel/fs/fat32.cpp:856-939 | a creation keeps every other file's chain and bytes and accounts for every cluster |
| `FatDirectoryLaws.RemoveIsRun` | kernel/fs/fat32.cpp:1102-1157 | a removal is a run of two volume operations: one byte of the directory written, one file freed |
| `FatDirectoryLaws.RemoveSparesOthers` | kernel/fs/fat32.cpp:1102-1157 | a removal keeps every other file's chain and bytes, keeps all chains apart and accounts for every cluster |
| `FatPaths.SplitPath` | kernel/fs/fat32.cpp:678-700 | returns the components of a path |
| `FatPaths.PartsAround` | kernel/fs/fat32.cpp:678-700 | a "/" separates: the components of a path are those before it and then those behind it |
| `FatPaths.BasenameOf` | kernel/fs/fat32.cpp:144-160 | the part behind the last slash, trailing slashes ignored |
| `FatPaths.ParentOf` | kernel/fs/fat32.cpp:162-182 | the part before it |
| `FatPaths.PartsOfParent` | kernel/fs/fat32.cpp:144-182 | a path with a component is its parent's components followed by its base name |
| `FatPaths.FindEntry` | kernel/fs/fat32.cpp:702-753 | resolves a path directory by directory, each component by its first namesake up to case |
| `FatPaths.FindThroughParent` | kernel/fs/fat32.cpp:702-753 | a path names what its base name names in the directory its parent names |
| `FatPaths.ParentIsLostIff` | kernel/fs/fat32.cpp:162-182 | a path's parent names nothing, for its form alone, if and only if one component stands behind three or more slashes; the path itself is then looked up in the root directory |
| `FatPaths.TripleSlashIsLost` | kernel/fs/fat32.cpp:162-182 | an input: "///a" names what "a" names, its parent "//" nothing |
| `FatPaths.CreateNode` | kernel/fs/fat32.cpp:1048-1100 | createFile and createDirectory: succeeds if and only if the path names nothing, its parent a directory with clusters, the name can be stored and the clusters needed are free; every refusal exactly, and what a failure leaves |
| `FatPaths.CreateNodeUniqueIff` | kernel/fs/fat32.cpp:1048-1100 | after a creation by path the directory had no namesake; its names stay distinct if and only if the name is lost, or faithful with no long name left over before its slot, or listed under a name no entry has |
| `FatPaths.Remove` | kernel/fs/fat32.cpp:1102-1157 | removes what a path names; every refusal exactly, and a refusal changes nothing |
| `FatPaths.RemovedIsGone` | kernel/fs/fat32.cpp:1102-1157 | afterwards exactly that entry, its long name included, is missing from its directory, and the directory has no entry of that name if and only if no later one had it |
| `Pmm.BitUpdate` | include/kernel/memory/physicalMemory.h:80-90 | setting or clearing one bit changes that bit and no other |
| `Pmm.PhysicalMemory.constructor` | kernel/core/memory/pmm.cpp:18-91 | after init a page is free if and only if it is not page 0, lies wholly in a usable entry and is outside the bitmap |
| `Pmm.SizesFit` | kernel/core/memory/pmm.cpp:26-40 | the pages are the least number that covers every entry of the map, the bitmap has a bit for each and less than a page to spare |
| `Pmm.BitmapIsFirst` | kernel/core/memory/pmm.cpp:42-63 | the bitmap goes to the first page of the first usable entry with room for it |
| `Pmm.PhysicalMemory.MarkUsed` | kernel/core/memory/pmm.cpp:93-109 | marks the pages that exist and keeps the counters equal to the bits |
| `Pmm.PhysicalMemory.MarkFree` | kernel/core/memory/pmm.cpp:111-127 | the same for freeing |
| `Pmm.PhysicalMemory.AllocPage` | kernel/core/memory/pmm.cpp:129-155 | hands out the next free page in circular order from the hint; 0 only when none is free |
| `Pmm.PhysicalMemory.FreePage` | kernel/core/memory/pmm.cpp:157-172 | frees one page and lowers the hint to it |
| `Pmm.PhysicalMemory.AllocPages` | kernel/core/memory/pmm.cpp:174-209 | hands out the lowest run of that many free pages; 0 if and only if there is none |
| `Pmm.PhysicalMemory.FreePages` | kernel/core/memory/pmm.cpp:211-217 | frees the whole run |
| `Pmm.FreeThenAlloc` | kernel/core/memory/pmm.cpp:129-172 | freeing a page below the hint makes the next allocation return it |
| `Vmm.PteFrameIff` | kernel/core/memory/vmm.cpp:84-104 | the frame read back is the one mapped if and only if the flags bring no further address bit |
| `Vmm.PteFields` | kernel/core/memory/vmm.cpp:99 | an entry has the flags and the present bit below bit 12, the frame of the address or-ed with the flags' in bits 12 to 51 and the flags above, for every address and flags; it is writable exactly when the flags are |
| `Vmm.TableEntryNames` | kernel/core/memory/vmm.cpp:57 | an entry that names a table is its address, present and writable, and nothing else |
| `Vmm.IndicesAreDigits` | kernel/core/memory/vmm.cpp:62-82 | the four indices are the base-512 digits of address bits 12 to 47 |
| `Vmm.IndicesAreShifts` | kernel/core/memory/vmm.cpp:21-24 | they are the shifts and masks of the code on 64-bit words |
| `Vmm.DigitsInjective` | kernel/core/memory/vmm.cpp:62-82 | pages with the same indices are the same page |
| `Vmm.LeafWritten` | kernel/core/memory/vmm.cpp:84-122 | writing one last-level entry changes that page's translation and no other |
| `Vmm.TableLinked` | kernel/core/memory/vmm.cpp:42-60 | linking a fresh zeroed table keeps the tree and every translation |
| `Vmm.PresentIff` | kernel/core/memory/vmm.cpp:42-60 | an upper entry is present if and only if its index path has a table |
| `Vmm.MappedLacksNone` | kernel/core/memory/vmm.cpp:62-104 | a mapped page lacks no table, so mapping it again is refused and never halts |
| `Vmm.WritableIff` | kernel/core/memory/vmm.cpp:42-104 | writes reach a mapped page through all four levels if and only if its own entry is writable |
| `Vmm.AddressSpace.constructor` | kernel/core/memory/vmm.cpp:151-153 | a new address space maps nothing |
| `Vmm.AddressSpace.GetNextTable` | kernel/core/memory/vmm.cpp:42-60 | follows or creates one level, which takes one free page exactly when the table is missing; no translation changes |
| `Vmm.AddressSpace.GetPte` | kernel/core/memory/vmm.cpp:62-82 | reaches the one table the address's digits name; creating takes the missing tables and halts exactly when they outnumber the free pages; absent only when nothing is mapped |
| `Vmm.AddressSpace.MapPage` | kernel/core/memory/vmm.cpp:84-104 | refuses, changing nothing, if and only if an address is misaligned or the page mapped; halts if and only if the page lacks more tables than pages are free; success adds exactly one translation, whose entry holds the flags in its low 12 and top 12 bits and the frame of the address, writable along the whole walk if and only if the flags are; the pages taken are exactly the new tables |
| `Vmm.AddressSpace.UnmapPage` | kernel/core/memory/vmm.cpp:106-122 | success removes exactly one translation; failure none |
| `Vmm.AddressSpace.VirtToPhysical` | kernel/core/memory/vmm.cpp:124-135 | the mapped page plus the offset, 0 when unmapped; changes nothing |
| `Vmm.AddressSpace.MapRange` | kernel/core/memory/vmm.cpp:137-149 | maps consecutive pages up to the first that cannot be mapped, leaving exactly those before it, page i with the entry of a mapping to physical page i; refused there by a mapped page or misalignment, halted by tables beyond the free pages |
| `Mmio.Interface.constructor` | kernel/drivers/mmio.cpp:17-48 | gives a window if and only if none of its pages is mapped and the tables they lack are free; it reaches every byte of the device at the next free addresses and touches no other page; a refused one was stopped by a mapped page and leaves nothing behind if and only if that is the first; halts if and only if tables run out before a mapped page |
| `Mmio.WindowOutcome` | kernel/drivers/mmio.cpp:28-46 | which of the three ends a mapping comes to, decided by the pages mapped, the tables there and the pages free before it |
| `Mmio.PrefixKeeps` | kernel/drivers/mmio.cpp:40-45 | a mapping that stopped leaves the address space as it was if and only if it stopped at the first page |
| `Mmio.RefusedLeavesPage` | kernel/drivers/mmio.cpp:28-45 | an input: with only the second page of the area mapped, an interface over two pages fails and the first page stays mapped |
| `Mmio.Interface.Destroy` | kernel/drivers/mmio.cpp:50-57 | removes exactly the window's pages; every other live window keeps serving its device |
| `Mmio.MmioArea.MapWindow` | kernel/drivers/mmio.cpp:28-46 | mapping a window keeps each live window on its device, over every run of windows made and destroyed |
| `Mmio.MmioArea.UnmapWindow` | kernel/drivers/mmio.cpp:50-57 | so does unmapping one |
| `Mmio.LiveReaches` | kernel/drivers/mmio.cpp:17-57 | as long as a window is live, base + k translates to physical + k for every k below the size, through an entry that is present, writable, cache-disabled and global |
| `Mmio.WindowMapped` | kernel/drivers/mmio.cpp:17-48 | base + k translates to physical + k for every k below the size, with that access, for unaligned devices too |
| `Mmio.WindowsDisjoint` | kernel/drivers/mmio.cpp:15-24 | windows handed out at different times share no page |
| `Mmio.OthersServed` | kernel/drivers/mmio.cpp:17-57 | a step that changes pages of one window only, mapping or destroying it, leaves every other live window serving its device |
| `Mmio.WithoutRangePages` | kernel/drivers/mmio.cpp:50-57 | what is mapped after a destruction is what was mapped before, without the window |
| `Mmio.WindowUndone` | kernel/drivers/mmio.cpp:17-57 | removing the pages of a window that was mapped where nothing was restores the address space |
| `Mmio.Scoped` | kernel/drivers/mmio.cpp:17-57 | an interface made and destroyed leaves the live windows as they were, and the address space if and only if none of its pages was mapped, or the first one was |
| `HeapBlocks.TakenShape` | kernel/core/memory/heap.cpp:148-185 | taking a block keeps blocks tiling the heap with no two free neighbours, at the same address, cut to the request exactly when more than 64 bytes would be over |
| `HeapBlocks.ReleasedShape` | kernel/core/memory/heap.cpp:187-210 | so does giving one back |
| `HeapBlocks.ExtendedShape` | kernel/core/memory/heap.cpp:103-129 | so does growing, which moves the end |
| `HeapBlocks.ExtendedFits` | kernel/core/memory/heap.cpp:157-175 | after growing for a request some block fits it, so the second search cannot fail |
| `HeapBlocks.TakenMembers` | kernel/core/memory/heap.cpp:148-185 | taking a block adds exactly one used block |
| `HeapBlocks.ReleasedMembers` | kernel/core/memory/heap.cpp:187-210 | releasing removes exactly that used block |
| `HeapBlocks.ReleaseUndoesTake` | kernel/core/memory/heap.cpp:148-210 | giving back what was just taken restores the block list |
| `HeapBlocks.AllFreeIsOne` | kernel/core/memory/heap.cpp:187-210 | with everything given back one free block spans the heap |
| `HeapBlocks.SumsTile` | kernel/core/memory/heap.cpp:29-65 | headers, used and free payloads add up to the heap |
| `HeapBlocks.PayloadsDisjoint` | kernel/core/memory/heap.cpp:29-65 | no byte lies in two payloads, or in a payload and a header |
| `HeapImage.SplitListed` | kernel/core/memory/heap.cpp:29-50 | the header stores of a split turn the stored list into the split one and touch only headers |
| `HeapImage.MergeListed` | kernel/core/memory/heap.cpp:52-65 | so do those of a merge |
| `HeapImage.AppendListed` | kernel/core/memory/heap.cpp:103-126 | so do those of an expansion |
| `HeapImage.PayloadKept` | kernel/core/memory/heap.cpp:29-65 | header stores leave every byte of a listed payload |
| `HeapImage.LiveKept` | kernel/core/memory/heap.cpp:29-65 | operations that keep the used blocks keep the bytes behind every live pointer |
| `HeapImage.LiveApart` | kernel/core/memory/heap.cpp:148-185 | live pointers are 16-aligned, inside the heap, and reach no common byte |
| `HeapImage.HeaderRead` | include/kernel/memory.h:40-46 | a header is its five fields at their offsets |
| `Heap.KernelHeap.FindFreeBlock` | kernel/core/memory/heap.cpp:67-79 | the first free block that is large enough, 0 when there is none |
| `Heap.KernelHeap.SplitBlock` | kernel/core/memory/heap.cpp:29-50 | cuts the block when more than a header and 16 bytes remain; live payloads keep their bytes |
| `Heap.KernelHeap.MergeWithNext` | kernel/core/memory/heap.cpp:52-65 | swallows a free successor; live payloads keep their bytes |
| `HeapPages.MapHeapPage` | kernel/core/memory/heap.cpp:88-101 | takes a page, maps it behind the heap and gives it back when the page is mapped already; it succeeds, fails or halts exactly as free pages and missing tables decide; a page it maps is writable, and backed by a physical page that was free before, is used after, is no table and backs no other page of the heap |
| `HeapPages.MapHeapPages` | kernel/core/memory/heap.cpp:88-101 | page after page up to the first that cannot be had: exactly those are mapped, each to a physical page of its own that was free before the call, and exactly those and their tables are counted as taken |
| `Heap.KernelHeap.MapPages` | kernel/core/memory/heap.cpp:88-101 | the same for the pages at the end of the heap |
| `HeapPages.SupplyIff` | kernel/core/memory/heap.cpp:88-101 | n pages can be mapped if and only if they and the tables they lack are free |
| `HeapPages.HeapPte` | kernel/core/memory/heap.cpp:95 | the entry of a heap page names the page taken for it, writable |
| `Heap.CostInTable` | kernel/core/memory/heap.cpp:88-101 | under one last-level table n pages take n and the tables the first one lacks |
| `Heap.KernelHeap.ExpandHeap` | kernel/core/memory/heap.cpp:81-132 | succeeds exactly when the limit allows it, no page behind the heap is mapped and the pages and the tables they lack are free; halts exactly when a page is left but not its tables; maps pages of the heap only, each to a physical page of its own that was free; failure keeps blocks and payloads |
| `Heap.KernelHeap.Init` | kernel/core/memory/heap.cpp:134-146 | one free block over the first 16 pages, exactly when these and the tables the first one lacks are free; each is mapped to a physical page of its own |
| `Heap.KernelHeap.Allocate` | kernel/core/memory/heap.cpp:148-185 | a pointer not live before with at least the bytes asked for; every other live payload keeps its bytes; 0 leaves all as it was |
| `Heap.KernelHeap.Free` | kernel/core/memory/heap.cpp:187-210 | removes exactly one live pointer; every other payload keeps its bytes |
| `Heap.KernelHeap.Realloc` | kernel/core/memory/heap.cpp:212-238 | keeps a large enough block; otherwise moves every byte of the old payload to a fresh pointer and frees the old one; failure keeps the old pointer live |
| `HeapLaws.ServedIff` | kernel/core/memory/heap.cpp:148-185 | a request is served if and only if it is not empty and some block fits or the heap can grow, page tables counted |
| `HeapLaws.FirstFitIsLowest` | kernel/core/memory/heap.cpp:67-79 | no block before the one found fits |
| `HeapLaws.FreeUndoesAllocate` | kernel/core/memory/heap.cpp:148-210 | giving back what a request returned restores blocks and both counters, up to a growth of the heap |
| `HeapLaws.EmptyHeapIsOneBlock` | kernel/core/memory/heap.cpp:187-210 | no byte is in use if and only if one free block spans the heap |
| `HeapLaws.RunSound` | kernel/core/memory/heap.cpp:81-210 | over every run blocks tile the heap with no two free neighbours |
| `HeapLaws.RunConserves` | kernel/core/memory/heap.cpp:81-210 | over every run used + free + 48 · expansions equals the heap modulo 2^64, and used is the sum of used payloads |
| `HeapLaws.RunKeepsBlock` | kernel/core/memory/heap.cpp:148-210 | over every run a pointer not given back keeps its block |
| `HeapLaws.FreeCounterExactIff` | kernel/core/memory/heap.cpp:265-267 | the free counter is the free byte count if and only if there are as many blocks as expansions |
| `HeapLaws.FreeCounterWrapsIff` | kernel/core/memory/heap.cpp:265-267 | it has wrapped if and only if used bytes and a header per expansion exceed the heap |
| `HeapLaws.FreeCounterWraps` | kernel/core/memory/heap.cpp:128-208 | a run after which it reads 2^64 - 48 |
| `HeapLaws.GetsStuckIff` | kernel/core/memory/heap.cpp:88-101 | exactly when a request leaves pages mapped behind the heap: it must grow, may, and some but not enough pages for the growth and its tables are free |
| `HeapLaws.GetsStuck` | kernel/core/memory/heap.cpp:88-101 | an input: the first heap, asked for 65536 bytes with five pages free |
| `HeapLaws.StuckIsMapped` | kernel/core/memory/heap.cpp:88-101 | in the page tables: the page at the end of the heap is mapped |
| `HeapLaws.StuckForever` | kernel/core/memory/heap.cpp:88-101 | such a heap never grows again, over every run |
| `Framebuffer.ReduceUndoesExpand` | kernel/graphics/framebuffer.cpp:183-201 | stretching a channel to 8 bits and cutting it back is the identity, for every mask size from 0 to 8 |
| `Framebuffer.ExpandScales` | kernel/graphics/framebuffer.cpp:187-200 | a channel stretched to 8 bits is scaled to 255, rounded down; none stays none and full stays full |
| `Framebuffer.FieldIsQuotient` | kernel/graphics/framebuffer.cpp:94-97 | cutting a channel and taking its bits out of a word, as divisions |
| `Framebuffer.FieldsOfPack` | kernel/graphics/framebuffer.cpp:79-100 | each channel of a packed word is the cut channel of the colour |
| `Framebuffer.RepackShowsSame` | kernel/graphics/framebuffer.cpp:79-229 | a pixel read and written back shows the same colour |
| `Framebuffer.ReadBackIff` | kernel/graphics/framebuffer.cpp:79-229 | a colour is read back as written if and only if the format can show each channel |
| `Framebuffer.IndexInjective` | kernel/graphics/framebuffer.cpp:91-99 | different positions are different words |
| `Framebuffer.Screen.SetColor` | kernel/graphics/framebuffer.cpp:79-100 | writes one visible pixel, nothing off the screen or in other depths |
| `Framebuffer.Screen.GetColor` | kernel/graphics/framebuffer.cpp:183-229 | reads one visible pixel, black elsewhere |
| `Framebuffer.SourceUntouched` | kernel/graphics/framebuffer.cpp:263-332 | in the order the loops take, no source pixel is overwritten before it is read |
| `Framebuffer.Screen.CopyRect` | kernel/graphics/framebuffer.cpp:231-333 | equals a simultaneous copy of the pixels that lie on the screen on both sides, whatever the overlap; every other word is unchanged |
| `Keyboard.IsoKeyIsMisplaced` | kernel/drivers/input/keyboard.cpp:15-134 | from scancode 79 on, 89 types "<", 88 shifted types ">", and no other types anything |
| `Keyboard.FlagsOfHistory` | kernel/drivers/input/keyboard.cpp:189-214 | after any scancodes shift counts as held if and only if a shift key was pressed and none released since, extended keys aside; an extended key has begun if and only if 0xE0 came last |
| `Keyboard.RowsType` | kernel/drivers/input/keyboard.cpp:7-72 | what the rows of keys type, plain and with shift |
| `Keyboard.DropsIff` | kernel/drivers/input/keyboard.cpp:177-187 | a character is dropped if and only if 255 are pending |
| `Keyboard.EnqueuedInv` | kernel/drivers/input/keyboard.cpp:177-187 | storing a character overwrites none that is pending |
| `Keyboard.InterruptedInv` | kernel/drivers/input/keyboard.cpp:189-223 | an interrupt between any two reader steps keeps queue and registers consistent |
| `Keyboard.SteppedInv` | kernel/drivers/input/keyboard.cpp:225-237 | so does every step of the reader |
| `Keyboard.ReturnedInOrder` | kernel/drivers/input/keyboard.cpp:177-237 | under every interleaving the characters returned are, in order, a prefix of those accepted |
| `Keyboard.NothingIsLost` | kernel/drivers/input/keyboard.cpp:177-237 | the typed text is the accepted and the dropped characters merged, each in order; the reader gets the typed text from its beginning when none was dropped |
| `Keyboard.MergesAll` | kernel/drivers/input/keyboard.cpp:177-187 | such a merge has exactly the characters of both parts, as often |
| `Keyboard.GetsOldest` | kernel/drivers/input/keyboard.cpp:229-237 | a waiting reader returns the oldest pending character within seven of its own steps, however many interrupts come between |
| `Keyboard.HasCharIsExact` | kernel/drivers/input/keyboard.cpp:225-227 | hasChar answers whether a character is pending at its last load |
| `Keyboard.Queue.Enqueue` | kernel/drivers/input/keyboard.cpp:177-187 | the driver's store does the model's step |
| `Keyboard.Queue.Handler` | kernel/drivers/input/keyboard.cpp:189-223 | the driver's handler does the model's interrupt |
| `Keyboard.Queue.ReaderStep` | kernel/drivers/input/keyboard.cpp:225-237 | the driver's reader does the model's steps |

## Assumptions

- Transfers of the device succeed; the disk is an array of bytes addressed in 512-byte
  blocks. A volume satisfies `FatGeometry.Geometry.Sound`: each table covers
  `totalClusters + 2` entries, cluster numbers stay below 0x0FFFFFF7, the sums of the layout
  do not wrap 32 bits, and the FSInfo sector lies before the tables.
- Assertions of the code (`ASSERT`) are preconditions where they concern the caller, and a
  `halted` result where a page table cannot be had.
- Heap requests are at most 64 MiB, so that rounding does not wrap. Between its calls nothing
  else maps or unmaps one of the 64 MiB of pages the heap may grow to or gives back a physical
  page behind it; other free pages and page tables may change in any way.
- Addresses of the page tables are numbers without a 64-bit bound; device windows stay below
  the end of the address space, and devices below bit 52.
- The page bitmap is smaller than 2 GiB, so that the byte count of its first fill does not wrap.
- Pixel formats have three channels of at most 8 bits that share no bit of a 32-bit word.

## Left out

- Failing transfers: several updates write more than once and are not atomic.
- Two handles on one file, and removing or renaming a file while a handle is open: each open has its own size and first cluster.
- `rename`, `stat`, `openDirectory`, `unmount`: they would repeat the steps modelled for creating, removing and listing; a cross-directory rename of a directory also loses the cluster allocated for it.
- `validateBootSector` beyond the checks that the layout needs; a volume whose tables do not cover its clusters.
- Creation laws are for tidy directories, where nothing stands behind an end mark: every directory the driver makes is one, and creation and removal keep it so. The driver creates no long names.
- FatListing.LongNameIsListed: names of code units below 0x100; the reader keeps only the low byte of a unit.
- FatFiles.FileHandle.Read: a null buffer is not modelled.
- FatPaths.Remove: the chain of the entry is given and shares no cluster with its directory.
- FatPaths.FindEntry: directories are given by the ghost map from first cluster to chain; a table whose directory chains are cyclic is not modelled.
- Timestamps, logging and the VFS layer above the file system.
- Vmm.AddressSpace.MapPage: TLB invalidation, CR3 and the higher-half offset are not modelled; the kernel's boot-time tables with huge pages are out of scope, a space starts from a zeroed root.
- Pmm.PhysicalMemory.FreePage: the page must exist and be in use; the code's own assertion lets the page number equal the page count.
- Heap.KernelHeap.Free: takes live pointers or null; the magic number and the flag catch some other pointers, which are not modelled.
- Heap.KernelHeap.ExpandHeap: the bytes the heap manages are an array of their own; that they lie in the physical pages mapped behind it is not modelled.
- The order of two ghost-visible steps differs from the code without effect: the end of the heap moves before the merge, and the last block is found before the new header is written.
- Framebuffer.Screen.CopyRect: 64-bit wrap-around of the clipped sums is not modelled.
- `paintRectangle`, fonts, the console and its cursor: user interface.
- Keyboard: the port read and interrupt controller; the scancode is a parameter, and an interrupt runs to its end once started.
- ATA, PCI, interrupt tables, boot code, containers and driver registration: hardware, or only easy members.
