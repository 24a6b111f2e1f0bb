# Verification of the kernel's allocator, file system and console

A Dafny model of the parts of the kernel that keep the most intricate state, with proofs about
every step and about whole runs.

**The buddy allocator** (`src/kernel/kmalloc.asm`, `src/kernel/memory.c`). Physical memory is a list
of bytes, each a list of eight bits; registers are lists of 32 bits. The proof has three layers.
The packed bytes at the end of the arena *spell* a tree of node values (`BuddyLayout`, `BuddyBits`);
the tree is the *canonical* one of a set of marked nodes, the granted blocks and the reserved leaves
(`BuddyTree`, `BuddyOps`); and the marks say in leaf numbers and in addresses which memory is free
(`BuddySearch`, `BuddyBlocks`, `BuddyRuns`). `Kmalloc.Allocator` holds the routines themselves, in
the order of their register operations, over the bytes. Its invariant `Valid` is kept by every
routine; its ghost fields `tree`, `marks` and `reserved` name the two upper layers.

**The FAT32 chain engine** (`src/kernel/fat.c`, `src/kernel/floppy.c`). A disk is a list of bytes with
a geometry from the boot sector and a one-sector table cache (`FatLayout`, `FatDisk`). A file is the
two halves of its first cluster's number, a size and a cursor; its meaning is the bytes of its cluster
chain cut at its size (`FatChain`, `FatFile`). `FatGrow` says what a write in progress has done to the file
and which other bytes of the disk it may have touched,
`FatTables` what the operations do to the table over whole runs, and `FatWalk` where freeing ends on
any disk at all. `FatVolume.Volume` joins them: several files open on one disk, of which each operation
changes one, keeps the others byte for byte, and is one step of the runs of `FatTables`. `Floppy` turns
single-sector transfers into one array of bytes.

**Paths across mount points** (`src/kernel/vfs.c`). `VfsPath` splits and joins path strings, `VfsTree`
is the pool of mount nodes linked by child, sibling and parent, `Vfs.System` mounts, walks, opens
and traces. A driver is abstract: it keeps the names below its mount point, and its replies are an
arbitrary function of what it is asked, so that errors are covered.

**The ANSI console** (`src/kernel/console.c`). `ConsolePaper` defines the endless sheet of paper and the
window on it, `ConsoleCodes` the numbers and attributes in control sequences, `ConsoleMachine` the
console as a machine that takes bytes; `Console.Screen` is the code over its static state and screen
memory, each byte proved to be one step of the machine; `ConsoleEffects` says in plain numbers what
single bytes and sequences do to the cell and the cursor.

Facts about the code that the proofs brought out, each with the exact condition:

- kmalloc's root test is right exactly for requests from one byte to the whole arena; 0 bytes wrap to
  2^22 blocks and, like larger requests, pass it whatever is free (`Kmalloc.Allocator.RootTest`).
- A reservation that meets a granted block of more than one leaf frees the rest of that block; all
  marks stay exactly when it meets none (`Kmalloc.Allocator.Kmres`, `BuddyOps.SparesAll`).
- The loops of the file system start from the low half of a file's first cluster: they go through the
  file's own chain exactly when the number is below 0x10000 (`FatFile.LowHalfStart`,
  `FatFile.LowHalfFails`).
- A read asks for a negative number of bytes in a cluster that starts behind the size, and in the
  cluster of a cursor that is behind it; in all other cases it does not (`FatFile.ReadTrimmed`).
- A write to a file whose clusters end in a number below 2, as those of an empty file without a cluster
  do, in a bad cluster or in 0xFFFFFFFF is cut at their end and reports success all the same
  (`FatFile.File.Fwrite`, `FatFile.CutShort`).
- The search for a free cluster is bounded by sectors: exactly `Past()` numbers behind the last cluster
  pass, the sectors outside clusters counted in clusters, less two, and never fewer than four
  (`FatLayout.SearchBound`, `FatLayout.NumbersPast`); on a full disk such a number may be taken for a
  free cluster (`FatFile.FullSearchFails`).
- Capping a chain also clears "the cluster" 0x0FFFFFFF, three clusters before the data area in the last
  copy of the table (`FatLayout.AddressOfEndMark`); if the first two tables agree, they still do exactly
  when the entries whose copies lie there are free (`FatDisk.CappingCopies`).
- A write that runs out of clusters leaves its chain without an end mark exactly if there was a free
  cluster above the chain's last one (`FatFile.File.Fwrite`).
- memcpy over a destination inside its source copies the block exactly when the source repeats itself
  with that distance (`Memory.Ram.ForwardIsBlock`).
- Cylinder numbers are bytes, so the floppy disk starts again every 4718592 bytes, and a transfer that
  ends at the end of the disk reports a failure (`Floppy.Drive.Read`, `Floppy.Drive.Write`).
- Erasing the whole display leaves its last cell as it was (`ConsolePaper.ErasedAllButLast`).

Where comments and code differ, the model follows the code: `src/kernel/kmalloc.asm:603` has
full_buddify update the node itself, which it does not (616); `src/kernel/kmalloc.asm:803` stops the
area pass at the root, and the code (829-830) goes one level further, where only the first four bytes
of memory notice. In `src/kernel/console.c:236-241` the previous-line command tests the code of the
next-line command and is never reached, so it is not in the model.

## Model

| member | source | states |
|---|---|---|
| Words.ByteSwapBits | src/kernel/kmalloc.asm:744-755 | three rounds of shifting in the next low byte reverse the four bytes of the register |
| Words.SwappedBit | src/kernel/kmalloc.asm:744-755 | the swapped register is the memory's bits as one stream, most significant first |
| Words.ByteSwapInvolutive | src/kernel/kmalloc.asm:944-955 | swapping on load and again on store is the identity |
| Words.MaskTests | src/kernel/kmalloc.asm:458-462 | and-ing with the class mask is zero exactly when the node's bit is clear |
| Powers.UpIsShift | src/kernel/kmalloc.asm:250-251 | shifting a segment number right by d gives its ancestor d levels up |
| Memory.Ram.MemCpy | src/kernel/memory.c:3-13 | the forward byte loop, for every overlap: a destination inside the source gets the cells between the two starts over and over; in all other cases the block as if read at once |
| Memory.Ram.ForwardIsBlock | src/kernel/memory.c:3-13 | that is a block copy exactly when the destination does not start inside the source or the source repeats itself with the distance of the two |
| Memory.Ram.MemMove | src/kernel/memory.c:15-29 | a block copy for every overlap, and no cell outside the destination changes |
| BuddyTree.CanonicalUnique | src/kernel/kmalloc.asm:605-716 | the tree is a function of the set of marked nodes alone |
| BuddyTree.CanonBits | src/kernel/kmalloc.asm:650-716 | in a node not beneath a marked one, bit j is clear exactly when a free aligned run of 2^j leaves lies below |
| BuddyTree.MarkedHasNoRun | src/kernel/kmalloc.asm:477-492 | no run is free at or below a granted node |
| BuddyTree.ZeroIsFree | src/kernel/kmalloc.asm:253-263 | a node not beneath a mark reads zero exactly when all its leaves are free |
| BuddyOps.FullRebuilds | src/kernel/kmalloc.asm:603-643 | full_buddify recomputes every proper ancestor of the node from its final children and touches nothing else |
| BuddyOps.AreaRebuilds | src/kernel/kmalloc.asm:802-835 | the area pass recomputes every ancestor of the area and touches nothing else |
| BuddyOps.AreaIsEach | src/kernel/kmalloc.asm:802-835 | the area pass leaves the same bits as a full pass for every leaf in turn |
| BuddyOps.GrantKeeps | src/kernel/kmalloc.asm:479-502 | granting a wholly free node keeps the marks disjoint and the tree canonical |
| BuddyOps.ReleaseKeeps | src/kernel/kmalloc.asm:376-397 | clearing any leaf of a granted block and one full pass coalesce the block completely: the tree is the canonical one without it |
| BuddyOps.ReserveCanonical | src/kernel/kmalloc.asm:128-139 | marking any leaves of the tree and one area pass give the canonical tree of the marks that the area does not meet from below, with its leaves; the rest of a granted block that it meets is free |
| BuddyOps.SparesAll | src/kernel/kmalloc.asm:79-145 | every granted block stays granted exactly when no leaf of the area lies in a larger one |
| BuddySearch.DescendFindsLowest | src/kernel/kmalloc.asm:531-597 | the descent stops on the lowest free run of its class, whenever there is one |
| BuddySearch.BitGivesRun | src/kernel/kmalloc.asm:441-462 | a clear root bit means that a free run exists |
| BuddySearch.RunGivesBit | src/kernel/kmalloc.asm:441-462 | a free run means a clear root bit |
| BuddySearch.ClimbBits | src/kernel/kmalloc.asm:38-50 | above a leaf of a granted block every node reads zero up to the block's own node, which reads all ones |
| BuddySearch.OwnerUnique | src/kernel/kmalloc.asm:38-50 | a leaf lies in at most one marked node |
| BuddySearch.RunsDisjoint | src/kernel/kmalloc.asm:479-502 | distinct marked nodes own disjoint runs of leaves |
| BuddyLayout.NodesDisjoint | src/kernel/kmalloc.asm:1009-1050 | the bits of distinct nodes of any levels never overlap, packed as they are |
| BuddyLayout.TablesTotal | src/kernel/kmalloc.asm:1009-1050 | the exact size in bytes of all level tables together |
| BuddyLayout.TablesFit | src/kernel/kmalloc.asm:1134-1140 | for every tree of at least 8 leaves the tables fit the N/2 bytes set aside, and fill them exactly for 2^3, 2^4, 2^5, 2^6, 2^8, 2^9 and 2^10 leaves |
| BuddyLayout.PutHolds | src/kernel/kmalloc.asm:871-961 | get/put law: after storing a node's bits that node reads them and every other node of every level reads as before |
| BuddyBits.JoinWordBits | src/kernel/kmalloc.asm:685-699 | buddify's register arithmetic gives the value that the two children determine |
| BuddyBits.MakeAboveRoot | src/kernel/kmalloc.asm:650-714 | what the round above the root leaves in the first 32 bits of memory |
| BuddyBlocks.GrantedSize | src/kernel/kmalloc.asm:421-441 | the granted size s of a request for n bytes, 1024 times a power of two, has s >= n, and s < 2n whenever s is more than one block |
| BuddyBlocks.BlockCounts | src/kernel/kmalloc.asm:421-427 | blocks have 1024 bytes: whole ones are counted, and requests rounded up |
| BuddyBlocks.BlockPlace | src/kernel/kmalloc.asm:508-519 | a block of level e has 1024 * 2^e bytes and starts a multiple of that from the arena's start |
| BuddyBlocks.RequestInTree | src/kernel/kmalloc.asm:421-441 | the class computed for a 32-bit request lies in the tree exactly for requests from one byte to the whole tree; 0 bytes wrap |
| BuddyBlocks.ClassUnique | src/kernel/kmalloc.asm:429-437 | the doubling loop ends on the least power of two that is large enough |
| BuddyBlocks.SegmentOf | src/kernel/kmalloc.asm:27-33 | a byte belongs to a node's block exactly when its segment lies below the node |
| BuddyBlocks.BlocksDisjoint | src/kernel/kmalloc.asm:508-519 | the address ranges of distinct granted blocks are disjoint |
| BuddyBlocks.MovedApart | src/kernel/kmalloc.asm:295-310 | a block that krealloc moves to shares no byte with the old one |
| BuddyBlocks.GrowTest | src/kernel/kmalloc.asm:246-263 | after the release, the larger run around the block is free exactly when its node reads zero |
| Kmalloc.Allocator.GetTreeElement | src/kernel/kmalloc.asm:720-770 | delivers exactly the node's level+1 bits, right-aligned, for every level up to 24 and every position in the bytes |
| Kmalloc.Allocator.SetTreeElement | src/kernel/kmalloc.asm:871-961 | changes exactly the node's own bits in memory, to the low level+1 bits of the value |
| Kmalloc.Allocator.SetNode | src/kernel/kmalloc.asm:871-961 | seen from the tree one node changes; outside the control structure no byte does |
| Kmalloc.Allocator.GetNode | src/kernel/kmalloc.asm:720-770 | reads the node's value, and zero exactly when all its bits are clear |
| Kmalloc.Allocator.Buddify | src/kernel/kmalloc.asm:650-714 | gives one node the value its children determine; above the root, whose children are the root and the bits behind it, that node lies in the first bits of memory |
| Kmalloc.Allocator.FullBuddify | src/kernel/kmalloc.asm:603-643 | the loop performs the full pass |
| Kmalloc.Allocator.LevelBuddify | src/kernel/kmalloc.asm:773-799 | the loop performs one level of the area pass, at least one node, and above the root exactly that one |
| Kmalloc.Allocator.AreaFullBuddify | src/kernel/kmalloc.asm:802-835 | levels 0 to max end as after the area pass; the extra round above the root sets the first max+2 bits of memory to what the root and the bits behind it determine, and no other byte outside the control structure changes |
| Kmalloc.Allocator.AreaSetTreeElement | src/kernel/kmalloc.asm:838-866 | sets a range of nodes of one level |
| Kmalloc.Allocator.Allocate | src/kernel/kmalloc.asm:529-597 | the recursive search over the bytes is the descent over the tree |
| Kmalloc.Allocator.MeasureClass | src/kernel/kmalloc.asm:428-437 | the size class of a number of blocks |
| Kmalloc.Allocator.MeasureLevel | src/kernel/kmalloc.asm:38-50 | from any segment of a granted block the climb stops at the block's level |
| Kmalloc.Allocator.Kmsz | src/kernel/kmalloc.asm:21-75 | the size of the granted block, for a pointer to any byte of it |
| Kmalloc.Allocator.RootTest | src/kernel/kmalloc.asm:421-462 | for every 32-bit request: the test on the root's bits decides whether a free run of the request's class exists exactly when the request is from 1 to N*1024 bytes; for the others it passes |
| Kmalloc.Allocator.Kmalloc | src/kernel/kmalloc.asm:413-526 | returns 0 exactly when no free run of the request's class exists, changing nothing; else grants the lowest such run |
| Kmalloc.Allocator.Kfree | src/kernel/kmalloc.asm:368-404 | through any byte of a granted block: exactly that block is free again and the invariant holds |
| Kmalloc.Allocator.Krealloc | src/kernel/kmalloc.asm:150-357 | a class that fits changes nothing; else the block is granted again in place if the run around it is free, at the lowest free run otherwise, or stays released with result 0; for a pointer to any byte of the block, the bytes from there on, as many as the block has and as far as the control structure, lie in the result; every other byte of memory outside the control structure is as before, and all of them if it fails |
| Kmalloc.Allocator.Kmres | src/kernel/kmalloc.asm:79-145 | every leaf that meets the region, clamped to the arena, is reserved, and no other: an empty region stands for its first byte, and a region outside the arena for the nearest leaf; granted blocks of more than one leaf that it meets are given up, the invariant holds, and outside the control structure only the bits above the root change |
| Kmalloc.Allocator.InitializeTree | src/kernel/kmalloc.asm:982-1100 | from a cleared control structure: level tables in place, the leaves of the control structure and past the arena reserved, the invariant established |
| Kmalloc.Allocator.TreeSize | src/kernel/kmalloc.asm:1125-1132 | the number of leaves: the least power of two, at least two, not below the number of blocks |
| Kmalloc.Allocator.Kset | src/kernel/kmalloc.asm:1107-1146 | establishes the invariant for an arena of at least five blocks; outside the control structure only the bits above the root change |
| Kmalloc.Allocator.LiveBelowControl | src/kernel/kmalloc.asm:1053-1091 | no granted block meets the control structure |
| BuddyRuns.NodeMeaning | src/kernel/kmalloc.asm:415-716 | the invariant in leaf numbers: nodes strictly beneath a granted node read zero, and every other node's bit j is clear exactly when an aligned run of 2^j unowned leaves lies under it |
| BuddyRuns.GrantThenRelease | src/kernel/kmalloc.asm:370-526 | kmalloc then kfree, through any byte, is the identity on the tree |
| BuddyRuns.FreeingAllRestores | src/kernel/kmalloc.asm:370-404 | freeing all blocks in any order and through any bytes restores the tree that the reservations alone determine |
| BuddyRuns.SameStoredBits | src/kernel/kmalloc.asm:722-770 | equal trees are stored as equal bits, so the restoration is bit for bit |
| BuddyRuns.ReachableIsCanonical | src/kernel/kmalloc.asm:81-716 | after any sequence of reservations, grants and releases the tree is canonical, the marks disjoint and every reservation still held |
| BuddyRuns.StepKeeps | src/kernel/kmalloc.asm:81-716 | each operation keeps that invariant |
| BuddyRuns.GrantedAvoidsReserved | src/kernel/kmalloc.asm:81-145 | in every reachable state no granted block meets a reserved leaf |
| FatLayout.ClustersApart | src/kernel/fat.c:223-231 | distinct clusters occupy disjoint bytes |
| FatLayout.Places | src/kernel/fat.c:148-231 | where entries, tables and clusters lie, in bytes: 512 * reserved sectors + 4 * number, and so on |
| FatLayout.EntryMeans | src/kernel/fat.c:206-265 | what an entry says: free, bad, end or a link, with the marks in figures; above 28 bits everything but 0xFFFFFFFF is a link to the low 28 |
| FatLayout.AddressOfCluster | src/kernel/fat.c:223-231 | the 32-bit address arithmetic gives the place of every cluster of the disk |
| FatLayout.AddressOfEndMark | src/kernel/fat.c:339-350 | for the end mark it wraps to three clusters before the data area, behind the first table |
| FatLayout.SearchBound | src/kernel/fat.c:393-402 | exactly the numbers below clusters + Past() pass the bound of the free-cluster search |
| FatLayout.NumbersPast | src/kernel/fat.c:393-402 | how many numbers past the last cluster that are, in terms of reserved sectors, tables, unused sectors and cluster size; at least four |
| FatDisk.WordRoundTrip | src/kernel/fat.c:171-181 | an entry's four bytes read back as the value written |
| FatDisk.WordBytes | src/kernel/fat.c:148-169 | the word at an address has the byte there as its lowest, and the next three above it in their order |
| FatDisk.NotedBytes | src/kernel/fat.c:171-181 | an entry and its copy hold the value, lowest byte first, at the addresses in figures |
| FatDisk.EntryInSector | src/kernel/fat.c:154-160 | no table entry straddles a sector |
| FatDisk.Disk.ReadEntry | src/kernel/fat.c:148-169 | a cached read returns what the uncached read would, from a coherent cache, and leaves it coherent: the four bytes at 512 * reserved sectors + 4 * number, the lowest first |
| FatDisk.Disk.WriteEntry | src/kernel/fat.c:171-181 | for every number whose two words are on the disk: the disk is exactly as before but for those two words, each the value's four bytes, the lowest first; for a cluster's number one entry of the first table changes and no cluster does |
| FatDisk.CappingCopies | src/kernel/fat.c:339-412 | if the second table agrees with the first, clearing the end mark keeps them agreeing exactly when every entry whose copy is zeroed is free |
| FatDisk.Disk.ClearCluster | src/kernel/fat.c:339-350 | zeroes exactly the bytes of one cluster; given the end mark, exactly as many bytes from the address it wraps to, in no cluster and not in the first table |
| FatDisk.Disk.ReadData | src/kernel/fat.c:245-249 | delivers the bytes of a cluster |
| FatDisk.Disk.WriteData | src/kernel/fat.c:436-438 | splices bytes into one cluster and changes no other byte of the disk; table and other clusters are unchanged |
| FatChain.ChainUnique | src/kernel/fat.c:206-265 | a table determines the chain that starts at a cluster |
| FatChain.FlatSlice | src/kernel/fat.c:223-251 | the bytes of cluster i are the file's bytes from i times the cluster size on |
| FatChain.FlatSpliced | src/kernel/fat.c:415-441 | writing into cluster i splices the file's bytes there |
| FatGrow.GrownStep | src/kernel/fat.c:390-412 | linking the last cluster to a free one gives a chain one longer, still acyclic |
| FatGrow.WritingGrow | src/kernel/fat.c:390-412 | the file's bytes then end in one cleared cluster more, and nothing else on the disk changed |
| FatGrow.WritingPiece | src/kernel/fat.c:417-441 | each round of the loop puts the next bytes of the data at their place |
| FatGrow.FramedLink | src/kernel/fat.c:390-412 | linking and clearing a cluster changes only bytes in it, in the old last entry and in that entry's copy |
| FatGrow.FramedCap | src/kernel/fat.c:382-412 | closing the chain changes only its last entry, the copy of that and the bytes that clearing the end mark zeroes |
| FatGrow.MirroredNoted | src/kernel/fat.c:171-181 | writing an entry keeps equal tables equal |
| FatGrow.MirroredCap | src/kernel/fat.c:339-412 | clearing the end mark keeps them equal outside the bytes it zeroes |
| FatGrow.ClosesAnewIs | src/kernel/fat.c:380-388 | a write closes its chain anew exactly if it lengthened the chain or found another last entry than the end mark |
| FatGrow.TouchedMeans | src/kernel/fat.c:352-466 | a write never changes the reserved sectors; one that adds no cluster and finds the end mark changes bytes of the chain's clusters only, and keeps equal tables equal |
| FatFile.ReadPiece | src/kernel/fat.c:226-251 | each round of a read takes exactly the bytes between the cursor and the end of the request or of the file |
| FatFile.ReadTrimmed | src/kernel/fat.c:224-243 | a cluster's part of the file is a number of bytes exactly when the cluster does not start behind the size; then the trimmed count in the cluster of the cursor is one exactly when the cursor is not behind the size |
| FatFile.WritePiece | src/kernel/fat.c:417-441 | the same for a write, with whole clusters |
| FatFile.LowHalfStart | src/kernel/fat.c:183-270 | the clusters that a loop from the low half of the first cluster goes through are the file's own chain exactly when the number is below 0x10000, whatever else the table holds |
| FatFile.File.OwnChain | src/kernel/fat.c:183-270 | an open file's contents are those of the chain that its directory entry names exactly when the number is below 0x10000 |
| FatChain.VisitsUnique | src/kernel/fat.c:206-265 | a table determines the clusters that a loop goes through |
| FatChain.ChainVisited | src/kernel/fat.c:206-265 | a loop from the start of a well-formed chain goes through the chain |
| FatChain.VisitsDistinct | src/kernel/fat.c:206-265 | a loop that ends goes through no cluster twice |
| FatChain.StuckVisits | src/kernel/fat.c:366-456 | a write that can neither close nor lengthen its chain goes through the clusters that a read does |
| FatFile.LowHalfFails | src/kernel/fat.c:1063-1079 | a disk on which cluster 0x10005 is walked as cluster 5 and from cluster 0x10000 nothing is |
| FatFile.FullSearchFails | src/kernel/fat.c:391-402 | a full disk on which the search takes a number past the last cluster for a free one |
| FatFile.FindFree | src/kernel/fat.c:391-402 | the lowest free cluster from a given one on; it finds nothing exactly when there is none and no number past the last cluster looks free |
| FatFile.File.Fread | src/kernel/fat.c:183-270 | delivers the bytes of the clusters that the loop goes through, from the cursor to the end of the request, of the file or of those clusters, whatever ends them in the table, and advances the cursor by that much; for an open file, contents[cursor .. min(cursor+len, size)] |
| FatFile.File.OpenReadable | src/kernel/fat.c:206-265 | an open file is read through its chain and no other clusters |
| FatFile.File.Seek | src/kernel/fat.c:468-480 | the cursor from the start, from where it is or from the end, modulo 2^32 |
| FatFile.File.Extend | src/kernel/fat.c:378-413 | closes the chain when the data fits, else links and clears the lowest free cluster above, with the exact bytes of the disk after each; without a free cluster, and when the data fits a chain that ends in the end mark, nothing changes |
| FatFile.File.WriteChain | src/kernel/fat.c:366-456 | the loop: all the data are in the chain, which ends in the end mark and has no cluster too many; it fails exactly when the free clusters above the chain's last one do not suffice; bytes outside the chain's clusters change only in the entries linked or closed, their copies and, if the chain was closed anew, where the end mark is cleared; on clusters that end in a number below 2, a bad cluster or 0xFFFFFFFF the table stays and the data are cut at their end |
| FatFile.File.Fwrite | src/kernel/fat.c:352-466 | contents become old[..cursor] + data + the old tail behind cursor+len, a gap before a cursor behind the size holding what the chain held there and zeros behind it; size and cursor follow, the chain stays as long as the size needs and ends in the end mark, clusters and entries outside it are untouched; every other byte of the disk is as before, except in the entries linked or closed, their copies, and where the end mark is cleared exactly if the chain was closed anew, and equal tables stay equal but there; fails exactly when the free clusters above do not suffice, having linked all of them, and leaves a well-formed chain exactly if there was none; on clusters that can be neither closed nor lengthened it writes what they hold and reports success |
| FatFile.CutShort | src/kernel/fat.c:366-456 | such a write is cut short exactly if the data reach behind the clusters |
| FatFile.File.ClusterCount | src/kernel/fat.c:272-313 | the number of clusters that the loops go through, well-formed chain or not |
| FatFile.File.RemoveChain | src/kernel/fat.c:699-742 | ends for every disk on which the walk asks for words of the disk only, cycles and numbers past the last cluster included, with exactly the visited words freed; a walk inside the table keeps every cluster |
| FatFile.File.Truncate | src/kernel/fat.c:1159-1165 | opening for writing leaves an empty file with its first cluster only and frees the rest of its chain; the words of those entries and of their copies change and no other word of the disk |
| FatFile.Create | src/kernel/fat.c:1063-1079 | a new file has the lowest free cluster, cleared, as its whole chain, and the loops find it exactly if that is below 0x10000; only the entry, its copy and the cluster change; fails exactly when no cluster is free, changing nothing |
| FatFile.OtherFileKept | src/kernel/fat.c:352-466 | a write leaves chain and bytes of every file it shares no cluster with |
| FatFile.WriteThenRead | src/kernel/fat.c:183-466 | reading where data were written gives the data, reading elsewhere the old bytes |
| FatFile.CoversIsCeiling | src/kernel/fat.c:382-405 | the chain length is max(1, ceil(size / cluster size)) |
| FatTables.ClosedInside | src/kernel/fat.c:707-741 | freeing from any cluster stays inside a table whose links do, whatever shape they have |
| FatTables.FreeingShrinks | src/kernel/fat.c:726-727 | every round leaves one non-free entry fewer, so the loop ends |
| FatTables.CutRemovesChain | src/kernel/fat.c:699-742 | on a well-formed chain exactly its entries are freed |
| FatTables.StepKeeps | src/kernel/fat.c:352-466 | creating, extending, truncating and removing each keep the partition of the clusters |
| FatTables.RunKeeps | src/kernel/fat.c:352-1165 | over any run every usable cluster is free or in exactly one acyclic chain, and free plus chained clusters stay constant |
| FatTables.EachOnce | src/kernel/fat.c:352-1165 | free and chained clusters are disjoint and together all usable ones |
| FatWalk.StayingEnds | src/kernel/fat.c:707-741 | if every link on the disk leads to words on the disk, freeing ends from everywhere |
| FatWalk.InsideEnds | src/kernel/fat.c:707-741 | a walk inside the table ends, and frees in the table what the walk over the table frees |
| FatVolume.Volume.Write | src/kernel/fat.c:352-466 | one file is rewritten, every other open file keeps its bytes, and the table makes one step of the runs; on a full disk the others are kept too |
| FatVolume.Volume.Truncate | src/kernel/fat.c:1159-1165 | the same for opening for writing |
| FatVolume.Volume.Remove | src/kernel/fat.c:699-742 | the same for freeing a file's chain |
| FatVolume.Volume.Create | src/kernel/fat.c:1063-1079 | the same for a new, empty file object; without a free cluster nothing changes |
| FatVolume.Scratch | src/kernel/fat.c:352-1165 | over a run that creates two files, writes, truncates and removes the first, the second stays empty, every file open before keeps its bytes, and free plus chained clusters are as before |
| FatTables.RunConserves | src/kernel/fat.c:352-1165 | the end of any run is sound and has as many free plus chained clusters as its start |
| Floppy.LbaBijection | src/kernel/floppy.c:352-356 | the first 2880 sectors of each period of 9216 and the cylinders, heads and sectors of the disk correspond; no other sector is a place |
| Floppy.LbaOrder | src/kernel/floppy.c:352-356 | sector s of head h in cylinder c is number 36c + 18h + s - 1 |
| Floppy.Drive.ReadLba | src/kernel/floppy.c:358-362 | a transfer of one logical sector of the array |
| Floppy.Drive.WriteLba | src/kernel/floppy.c:364-368 | the same for writing |
| Floppy.Drive.Read | src/kernel/floppy.c:408-437 | for every address and size: the slice of the array in its period, as far as the disk goes; reports failure exactly when the slice reaches the end of the disk |
| Floppy.Drive.Write | src/kernel/floppy.c:439-474 | for every address and data: with preserve a splice of the array, as far as the disk goes; without, the rest of each sector touched holds what the buffer held, which is its first content or the sector before; other sectors stay; reports failure exactly when the data reach the end of the disk |
| Floppy.StaleMore | src/kernel/floppy.c:448-471 | each sector written without preserve leaves in the buffer, and takes from it, what the contract says |
| Floppy.Drive.FatRead | src/kernel/fatfs.c:15-17 | the file system's read function delivers the slice for every range on the disk, also where the drive reports a failure |
| Floppy.Drive.FatWrite | src/kernel/fatfs.c:19-21 | its write function splices the array |
| VfsPath.NameLengthIs | src/kernel/vfs.c:399-421 | a name ends at the next slash, at the end, or at the limit, and nowhere else |
| VfsPath.Cursor.Resolve | src/kernel/vfs.c:374-428 | delivers the names of a path one by one; a name of 255 characters or more ends there and leaves the error |
| VfsPath.TraceRoundTrip | src/kernel/vfs.c:315-428 | splitting a traced path gives back its names, and walking them from the root leads to it |
| VfsPath.DotsVanish | src/kernel/vfs.c:117-159 | "." may be left out of a path anywhere, and so may a name with the ".." behind it; at the root ".." stays |
| VfsTree.NameInjective | src/kernel/vfs.c:94-115 | a node of the tree is determined by its path |
| VfsTree.AddChild | src/kernel/vfs.c:457-463 | a first child keeps the tree's shape and every old node's path |
| VfsTree.AddSibling | src/kernel/vfs.c:465-471 | a sibling behind the last child does too |
| VfsTree.LongestDown | src/kernel/vfs.c:144-158 | a step to a name that is no mount point keeps the deepest mounted node |
| VfsTree.LongestUp | src/kernel/vfs.c:127-136 | a step back inside a driver keeps it |
| VfsTree.LongestUnique | src/kernel/vfs.c:117-159 | a path has only one deepest mounted node |
| Vfs.System.constructor | src/kernel/vfs.c:430-440 | the tree of the root alone, named and without a driver, and nothing asked |
| Vfs.System.FindChild | src/kernel/vfs.c:94-115 | finds the child of that name, or shows that there is none and ends at the last child |
| Vfs.System.MountStep | src/kernel/vfs.c:456-472 | goes to the child of that name, made if missing |
| Vfs.System.Mount | src/kernel/vfs.c:442-478 | the nodes on the way to the path exist, the last has the driver, all old nodes keep path and driver |
| Vfs.System.Update | src/kernel/vfs.c:48-68 | the reference's driver becomes its node's, starting at its root; the old driver is asked to close and then the new one for its root, up to the first error, which is the answer; after an error the driver's place is as before, and the driver too if it refused to close |
| Vfs.System.ChangeMount | src/kernel/vfs.c:138-148 | a step to another mount point, or from the root to itself: reference, answer and calls as for any step |
| Vfs.System.DriverOpen | src/kernel/vfs.c:127-158 | asks the driver to open the name from where the reference is, and answers what it does |
| Vfs.DeepestIs | src/kernel/vfs.c:117-159 | a reference in order is at the deepest mount point on its path |
| Vfs.OpensThere | src/kernel/vfs.c:127-158 | a step that stays at its mount point asks that driver, and only that one, to open the name from where it is |
| Vfs.ChangesThere | src/kernel/vfs.c:48-148 | a step to another mount point asks the old driver to close and the new one for its root, and no driver at the root's own parent |
| Vfs.AllHeard | src/kernel/vfs.c:48-68 | a list of calls answers 0 exactly if all of them do, and then all are made |
| Vfs.System.Enter | src/kernel/vfs.c:117-159 | one name moves the whole path as the list-of-names step does and leaves the reference at the deepest mounted node of the new path; the drivers are asked exactly what the step demands, up to the first error; the answer is that error, and 0 exactly if there is none; after an error the reference keeps its place in the driver but has a changed offset or node |
| Vfs.System.Open | src/kernel/vfs.c:175-228 | the reference stands for the list-of-names walk of the path from the root or the other reference; the answer and all calls to drivers are exactly those that the names demand, one after the other |
| Vfs.OpenedPasses | src/kernel/vfs.c:175-228 | opening answers 0 exactly when the names pass the verdict and every driver asked on the way agrees |
| Vfs.System.Trace | src/kernel/vfs.c:315-372 | writes the last 64 names with slashes, as far as the buffer reaches, asks for the steps up, and closes its copy |
| Vfs.System.TraceThenOpen | src/kernel/vfs.c:175-372 | tracing a reference and opening the result, relative to any other reference, returns 0 and leads to the same node, offset, driver and driver path, with drivers that agree |
| Vfs.FittedClean | src/kernel/vfs.c:349-369 | a trace of names without zero bytes has none, so that it may be opened |
| Vfs.VerdictPasses | src/kernel/vfs.c:198-220 | a path passes exactly when it has at most 64 names, each below 255 characters; error 36 exactly if one of the first 65 is longer, else 40 |
| Vfs.PlaceUnique | src/kernel/vfs.c:117-159 | node, offset and driver path are determined by the whole path |
| ConsolePaper.TypedShows | src/kernel/console.c:359-429 | for any byte of text, if the screen shows the end of the sheet before, it does after |
| ConsolePaper.PaperRun | src/kernel/console.c:359-429 | from a blank screen any text leaves the last rows of an endless sheet wrapped at the width |
| ConsolePaper.ErasedAllButLast | src/kernel/console.c:533-580 | erasing the display blanks it exactly when its last cell was blank |
| ConsoleCodes.DecimalRoundTrip | src/kernel/console.c:82-104 | reading the decimal digits of a number gives the number |
| ConsoleCodes.ParsedNumber | src/kernel/console.c:82-104 | a number in front of a byte that is no digit is read back, and the byte put back |
| ConsoleCodes.AnsiToVgaInvolutive | src/kernel/console.c:54-57 | the colour conversion is its own inverse |
| ConsoleCodes.InvertInvolutive | src/kernel/console.c:59-68 | inverting twice is the identity |
| ConsoleCodes.ColorsIndependent | src/kernel/console.c:138-153 | foreground and background colours do not disturb each other, in either order |
| ConsoleCodes.RenditionList | src/kernel/console.c:174-196 | a list of numbers applies the renditions from left to right |
| ConsoleMachine.TextRun | src/kernel/console.c:359-429 | text changes nothing but the picture |
| ConsoleMachine.TextIsPaper | src/kernel/console.c:359-429 | any text on a fresh blank console shows as the end of the endless sheet |
| ConsoleMachine.NextAll | src/kernel/console.c:359-511 | for any bytes at all the cursor stays inside the screen and the sequence below its 64 bytes |
| ConsoleMachine.SequenceRun | src/kernel/console.c:431-495 | a whole control sequence of up to 62 parameter bytes does its command and nothing else |
| ConsoleMachine.SequenceDropped | src/kernel/console.c:489-494 | a sequence that fills the buffer is given up with the screen untouched |
| ConsoleMachine.CursorMoves | src/kernel/console.c:201-234 | ESC [ n and A to E move the cursor by n, at most to the edge, and change nothing else |
| ConsoleMachine.CursorPlaced | src/kernel/console.c:243-256 | ESC [ n;m H and ESC [ n;m f put the cursor at column n and row m, counted from 1, at most at the edges, and at the first for 0 |
| ConsoleMachine.EraseDisplay | src/kernel/console.c:257-281 | ESC [ n J blanks exactly the cells behind the cursor, before it, or all but the last one |
| ConsoleMachine.EraseRow | src/kernel/console.c:282-306 | ESC [ n K does the same in the cursor's row |
| ConsoleMachine.ScrollRows | src/kernel/console.c:307-321 | ESC [ n S and ESC [ n T move every row by n, with blank rows coming in, and the cursor along inside the screen |
| ConsoleMachine.RenditionRun | src/kernel/console.c:174-196 | ESC [ a;b;... m applies its renditions and changes nothing else |
| ConsoleMachine.SaveRestore | src/kernel/console.c:459-473 | ESC 7, any text, ESC 8: cursor and attribute are back |
| Console.Screen.constructor | src/kernel/console.c:515-534 | the start state; all cells but the last blank |
| Console.Screen.Erase | src/kernel/console.c:570-580 | blanks exactly the cells from one position up to another |
| Console.Screen.Scroll | src/kernel/console.c:536-568 | shifts the rows by memmove, blanks the ones that come in, moves the cursor along inside the screen |
| Console.Screen.NextInt | src/kernel/console.c:82-104 | the loop reads the argument and puts back one byte, even when none was taken |
| Console.Screen.SgrApply | src/kernel/console.c:106-172 | the attribute after one rendition |
| Console.Screen.SgrExecute | src/kernel/console.c:174-196 | the attribute after the whole list |
| Console.Screen.CsiExecute | src/kernel/console.c:198-338 | performs the command of the sequence taken |
| Console.Screen.LexerInitial | src/kernel/console.c:359-429 | the machine's step in text |
| Console.Screen.LexerEscape | src/kernel/console.c:431-479 | the machine's step behind an escape |
| Console.Screen.LexerCsi | src/kernel/console.c:481-495 | the machine's step in a control sequence |
| Console.Screen.LexerUntilSt | src/kernel/console.c:497-511 | the machine's step in a string |
| Console.Screen.Write | src/kernel/console.c:582-584 | one byte of output is one step of the machine, every glyph inside the screen |
| ConsoleEffects.ControlBytes | src/kernel/console.c:361-379 | backspace, carriage return and line feed in columns and rows, with the rows moving up at the bottom |
| ConsoleEffects.TabStops | src/kernel/console.c:50-52 | a tab goes to the least multiple of four not before the cursor and one column on, or to the next row |
| ConsoleEffects.GlyphByte | src/kernel/console.c:408-428 | a glyph changes the cell at the cursor and no other, and the cursor goes on, behind the last column as a line feed does |
| ConsoleEffects.ForegroundBits | src/kernel/console.c:138-171 | colours 30 to 37 and 90 to 97: red, green and blue are the attribute's bits 2, 1 and 0; the other bits are kept, or for 90 to 97 the background alone and the bold bit set |
| ConsoleEffects.BackgroundBits | src/kernel/console.c:148-171 | colours 40 to 47 and 100 to 107: the same at bits 6, 5 and 4 |
| ConsoleEffects.OtherRenditions | src/kernel/console.c:106-172 | reset, bold on and off and the default colours, bit by bit; other numbers change nothing |
| ConsoleEffects.InversionBits | src/kernel/console.c:59-68 | inversion exchanges the halves of the attribute; 7 turns it on, 27 off |
| ConsoleEffects.StyledGlyph | src/kernel/console.c:174-428 | after ESC [ a;b;... m the next glyph's cell has the attribute that the list leaves |
| ConsoleEffects.ColoredGlyph | src/kernel/console.c:54-157 | the bytes ESC [ 3 c m or ESC [ 4 c m and a glyph: its cell has colour c on that ground, bit by bit, and the rest of the attribute as before |
| ConsoleEffects.InvertedGlyph | src/kernel/console.c:59-136 | the bytes ESC [ 7 m or ESC [ 27 m and a glyph: its cell has the attribute with its halves exchanged, or as it is |
| ConsoleEffects.StepsOnce | src/kernel/console.c:201-321 | A to E, S and T without a number act as with 1 |
| ConsoleEffects.ErasesAfter | src/kernel/console.c:257-306 | J and K without a number act as with 0 |
| ConsoleEffects.Home | src/kernel/console.c:243-251 | H and f without numbers go to the first column and row |
| ConsoleEffects.ColumnOnly | src/kernel/console.c:243-251 | with one number they go to that column of the first row |
| ConsoleEffects.OthersIgnored | src/kernel/console.c:198-338 | sequences with any other letter, F among them, leave the picture |
| ConsoleEffects.ErasesNothing | src/kernel/console.c:257-306 | J and K with a number above 3 leave it, too |
| ConsoleEffects.PositionRestored | src/kernel/console.c:321-332 | ESC [ s, any text, ESC [ u: the cursor is back, the text stays |
| ConsoleEffects.AttributeRestored | src/kernel/console.c:459-473 | ESC 7, a rendition, any text, ESC 8: the attribute is back as well as the cursor |
| ConsoleEffects.ShortcutsOff | src/kernel/console.c:447-451 | after ESC < every byte but an escape is text |
| ConsoleEffects.ShortcutsOn | src/kernel/console.c:453-457 | after ESC > the byte 0x9B introduces sequences as ESC [ does |
| ConsoleEffects.StringIgnored | src/kernel/console.c:442-511 | a string of any bytes up to its terminator ESC \ changes nothing that shows |
| ConsoleEffects.ShortStringIgnored | src/kernel/console.c:394-401 | the same for strings opened by 0x90 or 0x9D |
| ConsoleEffects.EscapeIgnored | src/kernel/console.c:431-479 | ESC and any other byte do nothing |

## Left out

- Kmalloc.Allocator.Kmalloc: what requests of 0 bytes and of more than N*1024 bytes do once they have passed the root test, as RootTest says they do; the code descends below the leaves.
- Kmalloc.Allocator.Krealloc: new sizes of 0 bytes and of more than N*1024 bytes, whose class lies above the tree; the code then reads levels that do not exist.
- Kmalloc.Allocator.Kset: arenas below address 4 or reaching past 2^31 (clamp is signed, and the pass above the root writes the first four bytes of memory), of fewer than five blocks (N below 8), and of more than N*1024 bytes, whose control structure may lie behind the last leaf and leave it unreserved; a second kset over the descriptors of a larger tree, where the pass above the root would write into that one's tables.
- Kmalloc.Allocator.InitializeTree: the same descriptors.
- Kmalloc.Allocator.Kmres: regions that reach past 2^31.
- The allocator's register and stack discipline; each routine is its arguments, result and effect on memory. The ghost parameter `n` of Kmsz, Kfree and Krealloc names the block that holds the pointer.
- FatFile.File.Fwrite: a disk without enough free clusters on which a number past the last cluster looks free; the code then takes such a number for a cluster. Data whose end passes 2^32, where the code's sum of cursor and length wraps. A chain that ends in a free entry before the write, as a write that ran out of clusters leaves it.
- FatFile.FindFree: a full table whose numbers past the last cluster have words behind the end of the disk.
- FatFile.Create: a full table on which a number past the last cluster looks free, and the directory entry.
- FatFile.File.RemoveChain: walks that ask for a word behind the end of the disk, where a driver's reply decides.
- FatFile.File.Fread: a cursor behind the size but not behind the clusters, and clusters that start behind the size, where a count goes below zero as ReadTrimmed says; loops that go round in a cycle or past the last cluster.
- FatVolume.Volume.Write: the chain of the written file after a failure, which Fwrite states; it is then no open file any more.
- FatFile.File.Truncate: the directory entry's size field; files stand for their directory entries.
- The update of a file's entry after a write, a truncation or a creation (src/kernel/fat.c:315-327): the code writes it into the parent directory's chain, so among the files that keep their bytes the parent directory is not one.
- Directories, short and long file names, searching, recursive deletion; sector sizes other than 512 bytes.
- Geometries with one table only, with tables smaller than three clusters or than their entries, or of 4 GiB and more.
- The table cache is shared by all disks of the kernel; each disk of the model has its own.
- Floppy.Drive.Read: transfers whose end passes 2^32, where the sum of address and size wraps.
- Drive commands, timing and transfer errors of the floppy controller.
- Vfs.System.FindChild: a node without children counts as "not found"; the code reads through a null pointer there.
- Vfs.System.Enter: nodes without a driver and drivers mounted twice.
- Vfs.System.Open: what the reference is after an error, the flags handed to the driver, and a root file system that refuses its root; the code ignores that reply.
- Vfs.System.Trace: drivers that refuse to walk back, since the code ignores their replies; the terminating zero byte, which lies behind the last of `size` bytes when the path fills them exactly.
- Links in paths, and everything a driver does with an open file.
- Console.Screen.CsiExecute: overflow of numeric arguments; they are mathematical integers here. No conformance with ECMA-48 is claimed: the code takes the first argument of a cursor position as the column.
- The hardware cursor, and the text of kprintf.
- Scheduling, descriptors, system calls, program loading and boot code.
