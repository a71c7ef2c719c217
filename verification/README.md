# EponaOS kernel model

A Dafny model of the data structures and protocols of EponaOS, a small x86_64 kernel: its FAT32 volume and the VFS
cache over it, page tables, frame allocator and heaps, the TCP/HTTP client with its checksums and DNS, the scheduler's
ring, the terminal, and the shell's paths and pipes. Code that changes things step by step is a class with methods;
each method is proved against a specification, and the properties below are proved about those specifications for
every input, every state or every run.

| part | files |
|---|---|
| bytes, sectors, splicing a run into a sequence | `Bytes.dfy` |
| FAT entries, chains, cluster content, allocation, read and write | `FatTable.dfy` `FatChains.dfy` `FatContent.dfy` `FatVolume.dfy` `FatFile.dfy` `FatRead.dfy` `FatLayout.dfy` |
| names, directory entries, lookup, create, unlink | `FatNames.dfy` `FatDirent.dfy` `FatDirectory.dfy` `FatLookup.dfy` `FatCreate.dfy` `FatRemove.dfy` |
| child lists against directories, open files, paths | `FatSync.dfy` `FatCache.dfy` `VfsFile.dfy` `VfsPath.dfy` |
| runs of the whole volume and of the mounted file system | `FatTree.dfy` `FatMount.dfy` `FatWalk.dfy` `VfsMount.dfy` |
| frames and page tables | `Pmm.dfy` `Paging.dfy` `PageWalks.dfy` `PageTables.dfy` |
| user heap, kernel heap | `BlockLists.dfy` `HeapBlocks.dfy` `UserHeap.dfy` `KernelBlocks.dfy` `KernelHeap.dfy` |
| checksums, TCP/HTTP, DNS | `Checksum.dfy` `TcpProtocol.dfy` `TcpNumbers.dfy` `HttpClient.dfy` `Dns.dfy` |
| scheduler | `TaskRing.dfy` `Scheduler.dfy` |
| console and escape sequences | `Console.dfy` `EscapeParser.dfy` `EscapeSequences.dfy` `Terminal.dfy` |
| shell paths, pipes | `ShellPath.dfy` `Pipe.dfy` |

## What the proofs found

Properties one would expect that the code does not have; each has its exact condition.

- A transfer that starts inside a sector, crosses a sector boundary and ends inside its cluster misses its last bytes
  and continues in the next cluster (fs/fat.c:143, fs/fat.c:254): `FatRead.WriteIsSplice`, `FatContent.TransferContiguous`;
  `FatContent.SpanUncovered` is an instance.
- A file's size is cut to 32 bits, so a write behind 4 GiB makes it smaller (fs/fat.c:283-284): `FatDirectory.GrownSizeIs`;
  `FatDirectory.GrownSizeWraps` is an instance.
- Truncating by `vfs_create` changes the node only, not the entry on disk (fs/vfs.c:145-152), until the next whole write:
  `FatCache.TruncateSync`, `FatCache.WriteTracks`, `FatMount.RunInStep`; `FatCache.FiveBytesStale` is an instance.
- A child list falls out of step with the disk exactly on names that do not survive the 8.3 conversion, and when
  `vfs_create` is given the name of a directory, which it then creates a second time (fs/vfs.c:144-170):
  `FatMount.EventMirrors`, `FatNames.NameRoundTrip`; `FatSync.NamesThatChange`, `FatCache.DirectoryNamedAgain` and the calls of
  `VfsMount.MadeTwice` are instances.
- Unlinking a directory that has entries leaves their chains without an owner (fs/fat.c:501-565): `FatTree.UnlinkStep`;
  `FatTree.DirectoryLeaks` is an instance.
- A read from a position behind the end of the file is not cut at all (fs/vfs.c:210-211): `VfsFile.CutAtEnd`,
  `VfsFile.ReadBehindEnd`.
- A mount point also takes paths that only start with the same letters (fs/vfs.c:44-61): `VfsPath.RestMeans`,
  `VfsPath.MountTakesLetters`.
- `pmm_alloc_contiguous` overlooks a run that ends at the last frame (mm/pmm.c:78): `Pmm.Allocator.AllocContiguous`,
  `Pmm.LastRunOverlooked`.
- Splitting a 2 MiB page makes its small pages writable, and open to user programs if the new page is, whatever the large
  page allowed (mm/paging.c:54-61): `PageWalks.SplitWalks`, `PageWalks.SplitLoosens`.
- The user heap loses space when a free last block grows past 4 GiB (user/stdlib.c:291): `HeapBlocks.GrownKeeps`,
  `HeapBlocks.GrowthCanWrap`.
- The kernel heap loses blocks when it grows after its last block was split, a request near 2^64 is served with
  64 bytes, and two free blocks can stay side by side (mm/heap.c:57-62, 98-100, 127-130):
  `KernelHeap.ExtendedKeeps`, `KernelBlocks.GrowthLoses`, `KernelBlocks.TotalHolds`, `KernelBlocks.HugeRequest`,
  `KernelBlocks.FreedNeighbours`, `KernelBlocks.TwoFreeStay`.
- A FIN without payload closes the connection and acknowledges bytes that never arrived (net/net.c:743-753), and a
  header break cut by a segment boundary is not seen (net/net.c:348-354): `TcpProtocol.FinCloses`, `TcpProtocol.FinOvertakes`,
  `TcpProtocol.FoundIff`, `TcpProtocol.BreakCut`.
- Segments of more than 1500 bytes are accepted unchecked (net/net.c:220-221): `Checksum.SegmentChangeDetected`,
  `Checksum.LongSegmentPasses`.
- A task put to sleep, or terminated while current, is ready again as soon as another task is dispatched
  (kernel/scheduler.c:195): `Scheduler.Ring.Sleep`, `Scheduler.OutgoingReady`, `TaskRing.SleeperReady`.
- A blocked task is dispatched like a ready one, because only terminated and sleeping ones are skipped
  (kernel/scheduler.c:162-163): `TaskRing.BlockedRuns`.
- `task_create` loses a frame when only one of its two allocations succeeds (kernel/scheduler.c:65-69), and destroying the
  only task leaves it the current one (kernel/scheduler.c:127-129): `Scheduler.Ring.Create`,
  `Scheduler.StacklessTask`, `Scheduler.Ring.Destroy`.
- The standard's string terminator ESC \ prints a backslash (kernel/term.c:144-146): `EscapeParser.StringTerminatorPrinted`.
- For a buffer of one byte and a path to the root, `normalize_path` puts the terminator behind the buffer
  (kernel/shell.c:441-454): `ShellPath.NormalizePath`, `ShellPath.RootOverruns`.

## Model

| member | source | states |
|---|---|---|
| `FatTable.Merged` | fs/fat.c:58-59 | the stored entry has the new low 28 bits and the old top four |
| `FatTable.SetEntryRaw` | fs/fat.c:49-68 | read after write on raw entries: the set entry has the merged value and every other raw entry is kept |
| `FatTable.SetEntryFat` | fs/fat.c:36-68 | setting an entry is exactly one update of the table, by the value's low 28 bits |
| `FatTable.SetEntryFrame` | fs/fat.c:49-68 | nothing outside the table copies changes |
| `FatTable.SetEntryMirrors` | fs/fat.c:49-68 | copies that agreed still agree |
| `FatChains.ChainAcyclic` | fs/fat.c:36-47 | a chain that ends in an end mark visits no cluster twice |
| `FatChains.ChainUnique` | fs/fat.c:36-47 | a first cluster has one chain |
| `FatChains.ChainInUse` | fs/fat.c:196-216 | no cluster of a chain has a zero entry, so none is ever allocated again |
| `FatChains.AllocKeepsChains` | fs/fat.c:196-216 | allocating keeps all live chains ended, in range and disjoint, and the new cluster is in none of them |
| `FatChains.GrowKeepsChains` | fs/fat.c:228-242 | allocating and linking behind a chain's end makes that chain one longer, the free clusters one fewer, and keeps all other chains |
| `FatChains.InRangeIsSafe` | fs/fat.c:493-499 | freeing terminates from anywhere on every table with entries in range, cyclic ones included |
| `FatChains.FreedIsZeroed` | fs/fat.c:493-499 | on a chain, freeing zeroes exactly its entries and raises the free count by its length |
| `FatChains.FreeKeepsChains` | fs/fat.c:493-499 | freeing one live chain keeps all others |
| `FatContent.ClustersApart` | fs/fat.c:32-34 | different clusters have different sectors |
| `FatLayout.BytePlaced` | fs/fat.c:32-34 | byte k of a chain's content is byte k mod 512 of the sector that lies as many clusters behind reserved sectors, table copies and root area as its cluster number, less 2, says |
| `FatLayout.EntryPlaced` | fs/fat.c:36-47 | a table entry is the low 28 bits of four bytes, lowest first, at four times its number behind the reserved sectors |
| `FatLayout.CopyPlaced` | fs/fat.c:62-67 | the copies of the table follow one another |
| `FatLayout.MarksAre` | fs/fat.c:196-216 | an allocated cluster's entry reads 0FFFFFF8, a freed one's 0 |
| `FatContent.TransferContiguous` | fs/fat.c:246-272 | every byte of a transfer is at its own offset if and only if the span is covered: it reaches its cluster's end, or the sector count made from the size also covers the in-sector start |
| `FatContent.AlignedIsCovered` | fs/fat.c:218-260 | one sector per cluster, or a sector-aligned offset, is always covered |
| `FatContent.ReachAll` | fs/fat.c:227-280 | a chain holds all of a transfer if and only if it reaches to the cluster of the transfer's last byte |
| `FatContent.CoveredClusters` | fs/fat.c:227-280 | on a covered span that is the cluster of the range's last byte |
| `FatContent.LandedCollected` | fs/fat.c:117-289 | reading collects a written range from where writing put it, covered or not |
| `FatContent.UncoveredMisses` | fs/fat.c:254-272 | an uncovered transfer leaves a byte of its own range as it was and overwrites one behind its cluster |
| `FatVolume.Volume.NextCluster` | fs/fat.c:36-47 | the table's entry, read through the sector and byte arithmetic |
| `FatVolume.Volume.SetCluster` | fs/fat.c:49-68 | one table update in every copy, nothing else moves, agreeing copies stay so |
| `FatVolume.Volume.AllocCluster` | fs/fat.c:196-216 | the first free cluster, marked as ended chain; 0 exactly if there is none |
| `FatVolume.Volume.FreeClusterChain` | fs/fat.c:493-499 | every entry met on the way is zeroed, also on cycles |
| `FatVolume.Volume.NextOrGrow` | fs/fat.c:274-280 | the chain's next cluster, or one allocated and linked; the chains stay well formed; 0 and no change only on a full volume |
| `FatFile.WriteCluster` | fs/fat.c:245-269 | the read-modify-write loop puts the run into the cluster's bytes and changes nothing else on disk |
| `FatFile.SeekGrowing` | fs/fat.c:227-242 | reaches the offset's cluster, with the chain just long enough or as long as it was; fails if and only if chain and free clusters together end before it |
| `FatFile.WriteData` | fs/fat.c:218-281 | writes exactly the bytes that the chain and the free clusters can take, grows the chain to exactly the clusters the transfer needs or there are, puts each byte where a transfer puts it, and leaves every other byte of the chain and every other chain unchanged |
| `FatRead.Read` | fs/fat.c:117-166 | the exact count a chain can give, and a buffer that holds exactly what the transfer collects from the content |
| `FatRead.WriteThenRead` | fs/fat.c:117-289 | reading back the range of a whole write gives the data, all of it, on every span |
| `FatRead.WriteIsSplice` | fs/fat.c:218-281 | a whole write of a covered span replaces exactly that range of the file; an uncovered one misses a byte of the range and overwrites one outside |
| `FatNames.NameTo83` | fs/fat.c:360-388 | the scanning loop accepts exactly the valid 8.3 names and pads and upper-cases them |
| `FatNames.ValidIff` | fs/fat.c:360-388 | the valid names are those put together from 1 to 8 letters, digits, hyphens and underscores, and at most 3 behind an optional dot |
| `FatNames.BytesOf` | fs/fat.c:360-388 | the 11 bytes are stem and extension in capitals, padded with blanks to 8 and 3 |
| `FatNames.TrimName` | fs/fat.c:168-184 | the copying loops give the lower-cased stem and extension up to the first NUL or space |
| `FatNames.TrimOf83` | fs/fat.c:168-184 | what a name reads back as after both conversions |
| `FatNames.NameRoundTrip` | fs/fat.c:360-388 | both conversions together are the identity exactly on names without capitals and without a final dot |
| `FatNames.NotADotEntry` | fs/fat.c:360-388 | no valid name produces a dot, free or deleted entry |
| `FatDirent.NewSlotSays` | fs/fat.c:464-476 | a new entry reads back as the name, kind, first cluster and size it was made of |
| `FatLayout.NewSlotBytes` | fs/fat.c:464-476 | which of the 32 bytes of a new entry hold name, attribute, the two halves of the first cluster and the size; the others are zero |
| `FatDirent.ResizedSays` | fs/fat.c:100-115 | a resized entry has the new size and cluster and keeps name and attributes |
| `FatLayout.ListedIff` | fs/fat.c:301-340 | an entry is listed if and only if none up to it starts with zero and it is not deleted, no volume label and no part of a long name; its fields are those bytes |
| `FatDirent.ListingAdd` | fs/fat.c:414-479 | a live entry in the first available place adds itself to the listing and removes nothing |
| `FatDirent.ListingReplace` | fs/fat.c:100-115 | overwriting a live entry exchanges just that one in the listing |
| `FatDirent.ListingDrop` | fs/fat.c:524-554 | marking an entry deleted removes just that one from the listing |
| `FatDirectory.SlotWritten` | fs/fat.c:100-115 | writing 32 bytes at an entry's sector and offset replaces that entry of the directory's content and changes no other chain and no table |
| `FatDirectory.UpdateDirentSize` | fs/fat.c:100-115 | the node's entry takes its size and first cluster; a root has no entry |
| `FatDirectory.WriteFile` | fs/fat.c:218-289 | the write is whole if and only if the clusters it reaches into are in the chain or free; a whole one also sets node size and entry to the larger of old size and end of write, cut to 32 bits; every byte outside the file's range, its entry and new clusters is as before |
| `FatDirectory.WholeIffAffordable` | fs/fat.c:218-289 | a write is whole if and only if it was affordable; then the chain is as long as it was or as the transfer needs, and if it was cut short the volume is full |
| `FatDirectory.GrownSizeIs` | fs/fat.c:283-284 | the new size is the larger of old size and end of write if and only if that end fits 32 bits |
| `FatLookup.FindAvailable` | fs/fat.c:401-416 | the walk finds the first free or deleted entry of the whole directory, and nothing only if there is none |
| `FatLookup.FindMatch` | fs/fat.c:508-548 | the walk finds the first live entry with the name before the first zero entry, and nothing only if there is none |
| `FatCreate.FillCluster` | fs/fat.c:420-462 | the new cluster's bytes are the first sector followed by zeros, all else is untouched |
| `FatCreate.Create` | fs/fat.c:390-491 | creates on a fresh one-cluster chain, adds exactly one entry and one cached child; fails, changing nothing, exactly on an invalid name, a directory without place or a full volume |
| `FatTree.NewDirectoryLists` | fs/fat.c:422-452 | a new directory lists itself as "." and as ".." the directory it was made in, or 0 for the root |
| `FatRemove.Unlink` | fs/fat.c:501-565 | deletes the first matching entry and frees exactly its chain; fails, changing nothing, exactly if the name is invalid or matches nothing |
| `FatSync.SyncedAdd` | fs/fat.c:481-484 | a child put in front keeps list and listing one-to-one if and only if it says what the new entry says |
| `FatSync.SyncedDrop` | fs/vfs.c:254-266 | taking a child out matches losing an entry if and only if it is that entry's child |
| `FatSync.SyncedStale` | fs/vfs.c:268 | a list that keeps the child of a deleted entry is out of step |
| `FatSync.CreateSync` | fs/fat.c:390-491 | creating keeps list and directory in step if and only if the name round-trips; names stay unique if and only if the new one was not there |
| `FatSync.WriteSync` | fs/fat.c:100-115 | giving node and entry the same new size keeps them in step |
| `FatSync.SyncedIff` | fs/vfs.c:136-179 | a list is one-to-one with its directory if and only if it is in everything but sizes and no size differs |
| `FatSync.ReadDir` | fs/fat.c:291-358 | counts the live entries, keeps every child already cached, makes a faithful list complete and leaves a list alone that names every entry |
| `FatSync.FindChild` | fs/vfs.c:82-87 | the first child with the name, or none |
| `FatCache.LoadIfEmpty` | fs/vfs.c:249-250 | an empty list is loaded and then one-to-one with its directory; any other is left alone |
| `FatCache.VfsUnlink` | fs/vfs.c:233-269 | deletes an entry and takes the first child of that name off the list, or changes nothing; from a list in step the result is in step if and only if the name round-trips |
| `FatCache.UnlinkSync` | fs/vfs.c:252-268 | after an unlink the old list is never in step, and without its first child of that name it is if and only if the name round-trips |
| `FatCache.VfsCreate` | fs/vfs.c:136-179 | opens an existing file with size 0, or creates one; the directory keeps its zero tail and a proper list, and from a list in step the result is in step if and only if the opened file was empty, or the created name round-trips and is new |
| `FatCache.VfsMkdir` | fs/vfs.c:181-205 | makes a directory unless the name is taken; from a list in step the result is in step if and only if the name round-trips |
| `FatCache.LoadTracks` | fs/vfs.c:249-250 | a load leaves a list that is one-to-one but for sizes, with the same sizes stale |
| `FatCache.AddedTracks` | fs/fat.c:390-491 | creating keeps list and directory one-to-one but for sizes, and names distinct, if and only if the name round-trips and is new |
| `FatCache.RemovedTracks` | fs/vfs.c:252-268 | unlinking keeps them so, without the deleted entry, if and only if the name round-trips |
| `FatCache.TruncatedTracks` | fs/vfs.c:145-152 | opening with size 0 keeps them so; that size is stale if and only if the entry's is not 0 |
| `FatCache.WriteTracks` | fs/fat.c:283-286 | writing keeps them so, and a whole write settles the size |
| `FatCache.TruncateSync` | fs/vfs.c:145-152 | setting a cached size to 0 keeps the list in step if and only if it was 0 |
| `FatCache.WriteChild` | fs/vfs.c:220-227 | a whole write through a cached file gives node and entry one size, a short one changes neither; a list in step stays so, and every other chain keeps its content |
| `VfsFile.OpenFile.Read` | fs/vfs.c:207-218 | delivers what a chain read from the position gives, advances by it, and from inside the file stays inside |
| `VfsFile.OpenFile.Write` | fs/vfs.c:220-227 | writes at the position, whole if and only if the volume can take it, and advances by what was written |
| `VfsFile.CutAtEnd` | fs/vfs.c:210-211 | a read ends by the file's end if and only if it starts inside the file |
| `VfsFile.ReadIsSlice` | fs/fat.c:117-166 | a whole read of a covered span is that slice of the content |
| `VfsFile.HandlesAgree` | fs/vfs.c:207-227 | what one handle wrote whole, another at the same position reads back, all of it, through the cut at the file's end |
| `VfsFile.WrittenIsAsked` | fs/vfs.c:210-211 | that cut never shortens a read of the range just written, even when the size was cut to 32 bits |
| `VfsPath.VfsSplitParent` | fs/vfs.c:96-117 | splits at the last slash; fails exactly on empty paths and paths that end in one |
| `VfsPath.SplitText` | fs/vfs.c:96-117 | a name alone has an empty directory, behind a slash what stands in front, up to 255 bytes; without a name at its end a path is not split |
| `VfsPath.ParentMeans` | fs/vfs.c:96-117 | the directory's components followed by the name are the path's components, unless the directory part is cut at 255 bytes |
| `VfsPath.VfsSplitPath` | fs/vfs.c:32-63 | the first longest mount point that is a prefix, and the rest of the path |
| `VfsPath.RestText` | fs/vfs.c:44-61 | every path that starts with the mount point is taken, and what follows, less one slash, is the rest |
| `VfsPath.RestMeans` | fs/vfs.c:44-61 | mount point and rest name the same components as the path if and only if the prefix ends at a component boundary |
| `FatTree.CreateStep` | fs/fat.c:390-491 | creating keeps every own entry on a live chain of its own, and leaves no chain without an entry that had one |
| `FatTree.WriteStep` | fs/fat.c:218-289 | so does writing |
| `FatTree.UnlinkStep` | fs/fat.c:501-565 | unlinking keeps it too, and loses chains if and only if the victim is a directory with entries of its own |
| `FatTree.SoundIsDeletable` | fs/fat.c:550-557 | in a sound volume what an unlink finds owns a live chain that is not the directory's |
| `FatTree.RunSound` | fs/fat.c:218-565 | in every state of every run of creates, writes and unlinks live chains are acyclic, disjoint, in range and ended and entries own them one-to-one; without unlinking non-empty directories none loses its entry |
| `FatTree.FormatSound` | fs/fat.c:610-640 | every layout with a data cluster has a sound volume without leaks to mount and run from: zeroed, the root cluster's entry an end mark |
| `FatMount.EventMirrors` | fs/vfs.c:136-269 | after any load, open, create, mkdir, unlink or write every directory's list is one-to-one with its entries but for known stale sizes, if and only if the name used round-trips and does not repeat one |
| `FatMount.RunMirrors` | fs/vfs.c:136-269 | along every run all lists of all directories stay so, in all states, if and only if every name used fits |
| `FatMount.RunInStep` | fs/vfs.c:136-269 | with nothing truncated every loaded list of every directory is in step, sizes included, in every state |
| `FatMount.CallsAllowed` | fs/fat.c:501-565 | in every such state an unlink finds only what it may delete, and every listed file may be written |
| `FatMount.BareMirrors` | fs/fat.c:610-640 | a freshly formatted volume with nothing loaded is such a state |
| `FatMount.CreateFitsBefore` | fs/vfs.c:144-170 | before the call: a creation fits if and only if the name is a file's, or round-trips and is no directory's |
| `FatWalk.EventLinks` | fs/vfs.c:136-269 | no call lists a directory anywhere new but the one a mkdir makes, in its parent; an unlinked one is listed nowhere |
| `FatWalk.WalksOnce` | fs/vfs.c:65-94 | a path leads to one place on disk at most |
| `VfsMount.Mount.constructor` | fs/fat.c:639-645 | a mounted root with nothing loaded is in order, with one node a directory |
| `VfsMount.Mount.Create` | fs/vfs.c:136-179 | vfs_create on the node tree is one event of the run; everything is in order behind it if and only if the name was a file's before, or nothing was created, or the name round-trips and was no directory's; the node handed out is a listed file of that name and size 0, the directories' nodes stay, and what joins the mount is new |
| `VfsMount.Mount.Mkdir` | fs/vfs.c:181-205 | so is vfs_mkdir, in order if and only if it fails or the name round-trips; a success adds exactly its node, for a directory that was none before and has no names of its own taken |
| `VfsMount.Mount.Unlink` | fs/vfs.c:233-269 | so is vfs_unlink, in order if and only if it fails or the name round-trips; a success takes exactly one chain, and the node of its directory if it was one, never the parent's |
| `VfsMount.Mount.Load` | fs/vfs.c:78-80 | a load is one event, changes nothing on disk and keeps everything in order; the list is tracked |
| `VfsMount.Mount.Write` | fs/vfs.c:220-227 | so is a write to a listed file, whole if and only if the volume can take it |
| `VfsMount.Mount.ChartKept` | fs/vfs.c:136-269 | every call with a name that fits keeps one node a directory: a listed directory is the node kept for it, or was never entered, and that node is in the list of the directory whose entry it is |
| `VfsMount.Mount.LookUp` | fs/vfs.c:74-93 | one level: the list is loaded and searched, and a path goes on from the child found exactly as on disk |
| `VfsMount.Mount.Resolve` | fs/vfs.c:65-94 | finds a node if and only if the path leads somewhere on disk, the node says where, and a directory's is the one node kept for it; nothing on disk changes |
| `VfsMount.Session` | fs/vfs.c:136-269 | a load, a new file and its data, a new directory, a file in it and the first file unlinked, called one after the other, are one run and leave everything in order |
| `VfsMount.MadeTwice` | fs/vfs.c:144-170 | a directory's name made and then created leaves the mount out of order, if both succeed |
| `Pmm.CoversMeansInside` | mm/pmm.c:41-47 | a frame is released exactly if it lies wholly inside a usable range, on ranges that do not wrap |
| `Pmm.Allocator.Init` | mm/pmm.c:32-62 | clear are exactly the frames in usable ranges from 2 MiB up and below the maximum, and the count of used frames is right |
| `Pmm.Allocator.Alloc` | mm/pmm.c:64-73 | the first clear frame becomes used, no other changes; 0 exactly if there is none |
| `Pmm.Allocator.AllocContiguous` | mm/pmm.c:75-91 | the first clear run among the starts it looks at becomes used, no other frame changes |
| `Pmm.Allocator.Free` | mm/pmm.c:93-99 | exactly that frame becomes clear, others and addresses beyond the total are left alone |
| `Paging.EntryChanged` | mm/paging.c:114-140 | in a tree of tables a changed entry affects exactly the addresses whose walk uses it |
| `Paging.SplitSame` | mm/paging.c:54-61 | the 512 small pages of a split 2 MiB page translate every address as the large one did |
| `Paging.UsesIsPage` | mm/paging.c:114-140 | two addresses use the same leaf entry if and only if they are in the same page |
| `PageWalks.WalkAnswers` | mm/paging.c:114-140 | the last entry a walk meets decides what the address translates to |
| `PageWalks.WalkChanged` | mm/paging.c:34-69 | walks that use a changed entry have the same entries above it, and all others do not change |
| `PageWalks.SplitWalks` | mm/paging.c:54-61 | a split gives each small page of the large one its own frame, present and writable, and user if asked; no other page's bits change |
| `PageWalks.LeafGrants` | mm/paging.c:34-69 | with the way down opened, the leaf has exactly the address and the bits that the caller gave and the present bit, and every other mapped page keeps its last entry, or one made by the split |
| `PageWalks.GrantedUser` | mm/paging.c:46-67 | a page mapped for user access has the user bit in all four entries, and is writable in its leaf if and only if the caller said so |
| `PageTables.CreateKeeps` | mm/paging.c:15-26 | a new empty table changes no translation |
| `PageTables.SplitKeeps` | mm/paging.c:54-61 | splitting a large page changes no translation |
| `PageTables.UserKeeps` | mm/paging.c:46-62 | setting the user bit changes no translation |
| `PageTables.LeafMaps` | mm/paging.c:67 | writing the leaf maps that page to the frame and leaves every other page's answer |
| `PageTables.LeafClears` | mm/paging.c:108 | clearing the leaf unmaps that page and leaves every other page's answer |
| `PageTables.AddressSpace.GetOrCreateTable` | mm/paging.c:15-26 | the linked table, or a fresh one from the allocator; translations stay; 0 only if no frame is left |
| `PageTables.AddressSpace.SplitIfHuge` | mm/paging.c:54-61 | no large page is left on the walk and every translation stays |
| `PageTables.AddressSpace.MapPageOn` | mm/paging.c:34-69 | refines one update of the map from pages to frames; the page gets the caller's bits and the present bit, the entries above it the user bit if the caller gave it, missing ones present and writable, and every other page keeps its bits outside a split; on failure no translation changed and no frame is left |
| `PageTables.AddressSpace.UnmapPage` | mm/paging.c:83-112 | removes exactly one page from the map, leaves every other page's entries alone and gives back exactly its frame, or reports an unmapped page and changes nothing |
| `PageTables.AddressSpace.GetPhysOn` | mm/paging.c:114-140 | the unrolled walk answers what the recursive one does |
| `HeapBlocks.PayloadsApart` | user/stdlib.c:228-232 | in a tiled heap blocks never overlap and lie inside it |
| `HeapBlocks.CarveKeeps` | user/stdlib.c:262-272 | taking a block keeps the heap tiled and all live blocks, and makes no free neighbours |
| `HeapBlocks.GrownKeeps` | user/stdlib.c:280-300 | growing keeps the tiling if and only if the free last block's 32-bit size does not overflow, and then the request fits |
| `HeapBlocks.ReleasedIs` | user/stdlib.c:313-322 | the coalescing pass turns the freed block and its free neighbours into one block |
| `HeapBlocks.ReleasedKeeps` | user/stdlib.c:308-323 | freeing keeps the tiling if and only if the joined size fits 32 bits; then no two free blocks touch and only the freed block is gone |
| `HeapBlocks.SmallHeapFits` | user/stdlib.c:274-323 | up to 4 GiB nothing overflows |
| `HeapBlocks.GrowthCanWrap` | user/stdlib.c:290-292 | a heap in which growth does overflow |
| `UserHeap.Heap.FindFree` | user/stdlib.c:253-260 | the first free block that is large enough, or null exactly if there is none |
| `UserHeap.Heap.SplitBlock` | user/stdlib.c:262-272 | the linked list spells the cut blocks |
| `UserHeap.Heap.Malloc` | user/stdlib.c:274-306 | never fails for a non-zero size; the heap stays whole if and only if growth does not overflow, and then a new block of at least that size and less than 32 bytes more joins the live ones |
| `UserHeap.Heap.Free` | user/stdlib.c:308-323 | the loop over next pointers coalesces; the heap stays whole if and only if the joined size fits |
| `UserHeap.ServedKeeps` | user/stdlib.c:274-306 | serving a request keeps tiling and live blocks if and only if growth does not overflow |
| `UserHeap.BreakMoves` | user/stdlib.c:279-288 | the break moves if and only if no free block is large enough, by 64 KiB or what request and header need |
| `UserHeap.RunTiled` | user/stdlib.c:274-323 | in every state of every run up to 4 GiB blocks tile the heap and no free ones touch |
| `KernelBlocks.SizesSum` | mm/heap.c:14-19 | block sizes add up to the heap |
| `KernelBlocks.BlocksApart` | mm/heap.c:14-19 | blocks never overlap and lie inside the heap |
| `KernelBlocks.TotalHolds` | mm/heap.c:57-62 | the computed size leaves room for the request if and only if it is at most 2^64 - 32 |
| `KernelBlocks.TotalTight` | mm/heap.c:57-62 | and no more room than alignment to 16 and the smallest block ask for |
| `KernelBlocks.PagesTight` | mm/heap.c:84-95 | a growth has as many pages as the request or 64 KiB fill, and none more |
| `KernelBlocks.CarveKeeps` | mm/heap.c:66-80 | handing out a block keeps the heap whole and every live block |
| `KernelBlocks.FreedKeeps` | mm/heap.c:120-131 | freeing keeps the heap whole and removes exactly the freed block from the live ones |
| `KernelBlocks.FreedNeighbours` | mm/heap.c:120-131 | no free neighbours arise if and only if the two neighbours were not both free |
| `KernelBlocks.RunWhole` | mm/heap.c:53-166 | in every state of every run served without growth, blocks of at least 64 bytes tile the same range and sum to its size |
| `KernelBlocks.GrowthLoses` | mm/heap.c:84-100 | a heap that loses a block by growing |
| `KernelHeap.LinksInverse` | mm/heap.c:14-19 | next and prev are mutual inverses along the list |
| `KernelHeap.ExtendedKeeps` | mm/heap.c:84-115 | growth keeps the heap whole if and only if the end pointer is at the last block |
| `KernelHeap.Heap.Take` | mm/heap.c:67-79 | the pointer writes of a split are those that list surgery needs |
| `KernelHeap.Heap.KMalloc` | mm/heap.c:53-118 | served in place it never disturbs the heap and gives a new live block; by growth it stays whole if and only if the end pointer is right; short of frames it changes nothing; a request that wraps the page count gets null |
| `KernelHeap.Heap.KFree` | mm/heap.c:120-131 | coalescing through prev and next is the list operation, live blocks but one stay |
| `KernelHeap.Heap.KRealloc` | mm/heap.c:144-166 | null exactly if neither a free block nor frames serve the new size, and then nothing changed; else the new block holds the first bytes of the old, as many as both sizes allow, no other byte of memory changes, and the old block is freed |
| `Checksum.Checksum16` | net/net.c:142-157 | the 32-bit loop with end-around carries computes the complement of the one's-complement sum, on up to 128 KiB |
| `Checksum.ZeroIff` | net/net.c:142-157 | a message verifies if and only if its words sum to a positive multiple of 65535 |
| `Checksum.FillInVerifies` | net/net.c:184-187 | storing the checksum in its zeroed, aligned field makes any message verify, odd lengths included |
| `Checksum.ChangeDetected` | net/net.c:142-157 | a changed word, the last half word of an odd length included, goes unnoticed if and only if it is congruent modulo 65535 and the message is not all zero |
| `Checksum.LastByteDetected` | net/net.c:142-157 | another last byte of an odd-length message is always noticed |
| `Checksum.SegmentVerifies` | net/net.c:218-265 | every segment whose checksum was filled in verifies at the receiver |
| `Checksum.SegmentSum` | net/net.c:218-232 | the receiver's check is that addresses, protocol 6, length and words add up to a multiple of 65535 |
| `Checksum.SegmentChangeDetected` | net/net.c:678 | one changed word or last half word passes the receiver if and only if it is congruent, or the segment is longer than 1500 bytes |
| `Checksum.Sender.BuildIpv4` | net/net.c:175-188 | a header that verifies, with every field in its place, and the next identification number |
| `Checksum.Sender.BuildTcp` | net/net.c:234-268 | a segment that verifies, with numbers, flags and payload in their places |
| `TcpProtocol.AcceptedIsNext` | net/net.c:708-741 | an accepted payload is the next piece of the server's stream |
| `TcpProtocol.AcceptedIff` | net/net.c:708-712 | a relevant piece is accepted if and only if it starts where the accepted prefix ends |
| `TcpProtocol.StepHolds` | net/net.c:661-755 | every packet and every poll keep the connection's invariant |
| `TcpProtocol.RunHolds` | net/net.c:661-755 | under any loss, repetition, reordering and corruption the accepted bytes are an exact prefix of the stream, the acknowledgement number and byte count say how long it is, and the body is its first 511 bytes after the header break found |
| `TcpNumbers.StepSends` | net/net.c:661-755 | every event sends exactly its answer: SYN, acknowledgement and request under their numbers, acknowledgements of what is there, nothing else |
| `TcpNumbers.StepMoves` | net/net.c:661-755 | which state every event leads to, and that success and segment count say what was accepted |
| `TcpNumbers.RunNumbers` | net/net.c:270-289 | along every run the SYN has the initial number, the request the next one and everything behind it the one behind the request, each with the acknowledgement number of the bytes accepted by then |
| `TcpNumbers.OneRequest` | net/net.c:291-327 | everything with data in it, repeats included, is the one request |
| `TcpNumbers.SegmentRead` | net/net.c:661-690 | a segment built by the client is read with its own numbers, flags and payload |
| `TcpNumbers.BodyKept` | net/net.c:329-355 | the body buffer is the first 511 bytes at most of what follows the break found in the stream so far |
| `TcpProtocol.FinCloses` | net/net.c:743-754 | a closing packet closes if and only if it is empty or in order, acknowledges the whole stream, and the stream is complete if and only if it carried data or all had arrived |
| `TcpProtocol.FoundIff` | net/net.c:342-355 | the body starts at the stream's first header break if and only if no chunk boundary cuts it |
| `TcpProtocol.BodyIsRest` | net/net.c:342-355 | the body is what follows the break found, across all later chunks |
| `TcpProtocol.TimerRuns` | net/net.c:377-400 | without packets the segment is repeated unchanged after every 200000 polls, three times, and given up at 800000 |
| `HttpClient.Client.Start` | net/net.c:270-289 | starts only a closed connection, with one SYN |
| `HttpClient.Client.StoreBody` | net/net.c:329-340 | the buffer takes what fits of the data and stays terminated |
| `HttpClient.Client.ProcessPayload` | net/net.c:342-355 | the search loop finds the first header break of the chunk |
| `HttpClient.Client.PollRetransmit` | net/net.c:377-400 | one poll of the retransmission timer is the state machine's |
| `HttpClient.Client.HandleTcp` | net/net.c:661-755 | one packet's effect on all variables, and the segments it makes the client send, are the state machine's |
| `HttpClient.Client.Fetch` | net/net.c:987-1014 | leaves a closed connection without body, whatever went before, or everything as it was if there is no configuration or no gateway |
| `Dns.WriteName` | net/net.c:515-551 | writes exactly the names whose labels are 1 to 63 bytes long and that fit, as their labels and a zero byte, and never beyond the size given |
| `Dns.LabelsJoin` | net/net.c:515-551 | the labels are the dotless pieces that the name is put together from |
| `Dns.WritableIff` | net/net.c:515-551 | a name is writable if and only if its labels are good and they fit with their lengths and the zero byte |
| `Dns.SkipName` | net/net.c:553-571 | the loop ends where skipping label by label ends |
| `Dns.SkipEncoded` | net/net.c:553-571 | skipping a well-formed name, compressed or not, ends exactly behind it if and only if it has at most 64 labels |
| `Dns.SkipSound` | net/net.c:553-571 | and whatever is skipped is a well-formed name of at most 64 labels |
| `Dns.WrittenIsSkipped` | net/net.c:515-571 | what was written for a host is skipped exactly, up to 64 labels |
| `Dns.HandleDns` | net/net.c:608-659 | the address found in any message, with every read below its length |
| `Dns.ResponseAnswered` | net/net.c:608-659 | on every well-formed response the answer is the first A record of class IN with four bytes, and none if there is none |
| `Dns.FirstAddressIs` | net/net.c:640-655 | that record is the first of type 1 and class 1 with four bytes |
| `TaskRing.ScheduledKeeps` | kernel/scheduler.c:154-208 | dispatching keeps one ring with each task once and only the current one running, and exactly the terminated tasks behind the dispatched one leave |
| `TaskRing.RoundRobin` | kernel/scheduler.c:154-208 | with all others ready, n calls rotate the ring by n, so as many calls as tasks run each once |
| `TaskRing.NoStarvation` | kernel/scheduler.c:154-208 | a task that can be dispatched and stands at place j runs within j calls |
| `TaskRing.CreatedKeeps` | kernel/scheduler.c:106-113 | a new task behind the current one keeps the ring and adds just itself |
| `TaskRing.DestroyedKeeps` | kernel/scheduler.c:118-130 | destroying removes just that task |
| `TaskRing.RunKeeps` | kernel/scheduler.c:63-255 | every run of create, destroy, schedule and tick keeps one ring and at most the current task running |
| `Scheduler.TickMeans` | kernel/scheduler.c:223-255 | a tick starts nobody, wakes exactly the sleepers that are due and not killed, and ends exactly the tasks with a deadly signal |
| `Scheduler.TickTakes` | kernel/scheduler.c:231-249 | signals are taken in order up to the first deadly one, whose number negated is the exit code; masked ones, those behind it and those of terminated tasks stay pending |
| `Scheduler.OutgoingReady` | kernel/scheduler.c:194-197 | the outgoing task is ready whatever it was, exactly if another one was dispatched |
| `Scheduler.Relinked` | kernel/scheduler.c:121-127 | pointing the predecessor past a task takes it out of the circle |
| `Scheduler.Ring.Create` | kernel/scheduler.c:63-116 | links a fresh ready task behind the current one if both frames are to be had; else changes nothing but loses the frame that was |
| `Scheduler.Ring.Destroy` | kernel/scheduler.c:118-138 | unlinks and frees just that task; the successor takes over if it was current; the ring stays valid if and only if it was not the only one |
| `Scheduler.Ring.Find` | kernel/scheduler.c:144-152 | the nearest task with the number, or none |
| `Scheduler.Ring.Reap` | kernel/scheduler.c:168-184 | the pointer loops unlink and free exactly the terminated tasks from there on |
| `Scheduler.Ring.Schedule` | kernel/scheduler.c:154-208 | the linked list after a call is the ring that dispatching makes, and the machine halts exactly on a terminated current task without successor |
| `Scheduler.Ring.Tick` | kernel/scheduler.c:223-255 | ticks every task exactly once and leaves the ring alone |
| `Scheduler.Ring.Sleep` | kernel/scheduler.c:214-221 | the sleeper stays asleep if and only if no other task can be dispatched |
| `Console.EraseMeans` | drivers/gpu.c:557-586 | erasing blanks exactly the cells its mode names and leaves cursor and colour |
| `Console.Vga.Putc` | drivers/gpu.c:339-367 | control characters, wrapping and scrolling; the cursor stays in view |
| `Console.Vga.Scroll` | drivers/gpu.c:327-337 | every row moves up one and the last is blank |
| `Console.Vga.SetCursor` | drivers/gpu.c:542-550 | any position is clamped into view |
| `Console.Vga.EraseDisplay` | drivers/gpu.c:557-573 | the row and column loops blank one contiguous run of cells |
| `Console.Vga.EraseLine` | drivers/gpu.c:575-586 | the same inside one row |
| `EscapeParser.Step` | kernel/term.c:126-151 | any byte keeps at most 16 parameters, colours below 16 and the cursor in view |
| `EscapeParser.FedApp` | kernel/term.c:153-156 | a stream may be cut anywhere, even inside a sequence |
| `EscapeParser.DigitsRead` | kernel/term.c:29-40 | digits are read as the number they spell, leading zeros or not |
| `EscapeParser.CursorAddressed` | kernel/term.c:89-95 | ESC [ r ; c H or f, in any digits, puts the cursor at (r-1, c-1), clamped, and changes nothing else |
| `EscapeSequences.CursorSteps` | kernel/term.c:73-95 | ESC [ n A, B, C, D move up, down, right and left by n, 1 if missing or 0, to the edge at most; H and f with one number go to the start of that row; nothing else changes |
| `EscapeSequences.Erases` | kernel/term.c:96-101 | ESC [ n J and K blank exactly the cells from the cursor on, up to it or all, of the screen and of the row |
| `EscapeSequences.Colours` | kernel/term.c:50-67 | ESC [ n m sets the colours that n names, and text printed next has them |
| `EscapeSequences.ListSplits` | kernel/term.c:42-67 | a list of up to 16 colour numbers does what one sequence for each does |
| `EscapeSequences.OthersIgnored` | kernel/term.c:111-151 | every other sequence and every other byte behind ESC does nothing |
| `EscapeParser.TextLands` | kernel/term.c:129-132 | plain text that fits the row lands at the cursor in order and nowhere else |
| `EscapeSequences.TextFlows` | drivers/gpu.c:327-367 | plain text of any length fills cell after cell over line ends, and whole lines scroll out at the top, blank ones in at the bottom |
| `EscapeSequences.ControlBytes` | drivers/gpu.c:339-367 | newline, carriage return, backspace and form feed |
| `EscapeParser.OscIgnored` | kernel/term.c:144-146 | an operating-system command ended by BEL leaves the screen untouched |
| `EscapeParser.StringTerminatorPrinted` | kernel/term.c:144-146 | ended by ESC \ it prints the backslash |
| `EscapeParser.SaveRestore` | kernel/term.c:105-110 | restore brings the cursor back after anything that saves nothing |
| `EscapeParser.DownClamped` | kernel/term.c:77-80 | moving down clamps to the last row if and only if the sum is not cut to 16 bits first |
| `Terminal.Term.PutByte` | kernel/term.c:126-151 | one byte's effect on parser and console is the parser function's |
| `Terminal.Term.ApplySgr` | kernel/term.c:50-67 | the loop over parameters applies each colour in order and sets the console's colour |
| `Terminal.Term.Print` | kernel/term.c:153-156 | a whole text likewise |
| `ShellPath.NormalIsNormal` | kernel/shell.c:419-455 | a normal form fits its buffer with terminator, has no empty, "." or ".." component and at most 32, and is its own normal form |
| `ShellPath.NormalIs` | kernel/shell.c:419-455 | the normal form of any path: the names left when, from the end, each ".." takes the nearest name in front that is not taken yet; none if some part of the way is more than 32 deep or the buffer too small |
| `ShellPath.DotsDo` | kernel/shell.c:423-440 | behind any path "." and a slash change nothing, and a name with ".." behind it nothing either unless it lies 33 deep |
| `ShellPath.DownAndUp` | kernel/shell.c:423-440 | down and up again, from any path of at most 31 components |
| `ShellPath.ParentIs` | kernel/shell.c:423-440 | from a normal path ".." leads to the one without the last name, from the root to the root, and a name to the one with it behind |
| `ShellPath.Collect` | kernel/shell.c:423-440 | the loop keeps the names that walking the components leaves, and fails exactly if 33 are ever stacked |
| `ShellPath.NormalizePath` | kernel/shell.c:419-455 | succeeds exactly on paths with a normal form for the buffer and writes that; only for one byte and the root does it write behind the size given, and then it reports success |
| `ShellPath.RelativeMeans` | kernel/shell.c:467-474 | a path joined to the working directory leads where its own components lead from there |
| `ShellPath.CombinedFits` | kernel/shell.c:459-475 | the combined text leaves room for its terminator in 512 bytes; a joined one that does not is refused, a single one cut |
| `ShellPath.ResolvePath` | kernel/shell.c:459-475 | writes the normal form of the combined path, or fails, exactly as normalising that path does |
| `ShellPath.ResolveMeans` | kernel/shell.c:459-475 | from a normal working directory the empty path stays there and a relative one walks from there |
| `Pipe.PushKeeps` | kernel/syscall.c:77-79 | the slot at the head is not a queued one, so a push appends to the queue |
| `Pipe.PopKeeps` | kernel/syscall.c:66-68 | the slot behind the count holds the oldest byte |
| `Pipe.Ring.Read` | kernel/syscall.c:62-71 | delivers the oldest bytes, exactly as many as asked for and queued |
| `Pipe.Ring.Write` | kernel/syscall.c:73-82 | accepts exactly as many as given and fit; delivered then queued bytes are always all accepted bytes |
| `Pipe.Table.Alloc` | kernel/syscall.c:48-60 | hands out an unused pipe, empty, and leaves the others alone; fails exactly if all are used |

## Left out

- Mounting: reading the boot sector and the partition table; the geometry is a parameter that is well formed.
- Disk errors: a sector read or write always succeeds. Memory for nodes and file handles never runs out.
- Integer widths of loop counters and of the byte count that `fat_read` and `fat_write` return; offsets stay below 2^64.
- Long file names, files without clusters, handles used after their file was unlinked.
- FatRemove.Unlink: asks that the entry it finds, if it owns a chain, owns a live one that is not its directory's; `FatTree.SoundIsDeletable` gives that in every sound volume.
- FatCache.VfsUnlink: the same.
- VfsMount.Mount.Resolve: takes the components of the path, the empty list for the empty path, and asks that none is "." or "..", whose children are second nodes of directories that have one already. Which nodes have been entered is ghost state.
- VfsMount.Mount.Write: asks for a file that is still listed in its directory.
- Directories that grow: the code does not extend a full directory either.
- FatRead.Read: on a span that is not covered it promises what the transfer collects, not the span itself.
- PageTables.AddressSpace.MapPageOn: pages of 1 GiB are not supported by the code; the address of a large page is 2 MiB aligned, as the processor demands.
- PageTables.AddressSpace.UnmapPage: asks for small pages on the walk and for a frame that holds no table, because the code looks at neither; the TLB is not modelled.
- `paging_clone_current`, `paging_add_flags`, `paging_map_range` and everything on shared tables.
- Pmm.Allocator.AllocContiguous: asks for a count of at most the total, because the code subtracts without looking.
- The user heap's break is a number that only grows; `SYS_BRK` is a stub. `calloc` and `realloc` of the user library.
- KernelHeap.Heap.KRealloc: asks for a size that a free block serves, that fails for want of frames, or that grows a heap whose end pointer is right; headers and payload bytes are two maps, so a write of one never shows in the other. Mapping errors of a growth are not modelled.
- KernelHeap.Heap.KMalloc: a request that wraps the page count returns null after linking an empty block; the list is then only promised to spell what growth made of it.
- HttpClient.Client.Fetch: leaves out the DNS query it sends; whether there is a configuration and a gateway are parameters.
- TcpProtocol.RunHolds: asks for streams shorter than 2^32 bytes, because positions are compared modulo 2^32.
- The last two of the 27 bytes copied behind the host name of a request lie at and behind the literal's terminator; requests are modelled by their length.
- Checksum.Sender.BuildTcp: asks for a payload that fits the 640-byte buffer.
- `handle_ipv4` trusts the lengths in the packet; packets here have exactly the bytes their lengths say.
- DHCP, ARP and ICMP, the body preview on the serial line.
- Scheduler.Ring.Destroy: asks for a task in the ring; for any other the code loops.
- Stacks, registers and address spaces of tasks, file descriptors, and the 32-bit overflow of ticks.
- EscapeParser.DigitsRead: parameters are unbounded, so the overflow of very large numbers is not modelled; an empty first parameter is dropped, as the code does.
- The framebuffer branch of the console, the hardware cursor, and the GUI.
- Pipe reference counts and blocking; only the byte queue is modelled.
- kernel/elf.c, process creation, drivers, and the applications.
