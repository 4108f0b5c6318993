# BuzzOS: a verified model of its stateful cores

BuzzOS is a small x86-64 kernel in C with host tools in Python. This project models the parts of it whose correctness
rests on state that many operations share, and proves what every operation keeps, what whole runs guarantee, and that
the imperative code does what its specification says. `dafny verify dfyconfig.toml` checks all of it.

Each part has two layers. The specification layer describes the state as a value, every operation as a function on it,
and the properties as lemmas. The kernel layer is the code's own form: a class with the source's tables as fields, and
methods with the source's loops and branches, each proved to have the effect of the specification function. What is
proved about the functions therefore holds of the methods, for all inputs and all runs.

| part | specification | kernel form |
|---|---|---|
| MiniFS images: checker and repairer | `MiniFs`, `MiniFsTree`, `MiniFsSpec`, `MiniFsRepair` | `MiniFsCheck` (class `MiniFsImage`) |
| MiniFS image writer | `MiniFsGrow`, `MiniFsStore`, `MiniFsDirs`, `MiniFsSession`, `MiniFsNames` | `MiniFsWrite` (class `MiniFsWriter`) |
| file descriptors and pipes | `PipeRing`, `Vfs`, `VfsCount`, `VfsInv`, `VfsRuns`, `VfsCalls`, `VfsAnswers`, `VfsTables` | `VfsKernel` (class `Kernel`), `PipeRing` (class `Buffer`) |
| path normalization | `Paths`, `PathsLaws` | methods of `Paths` on a character array |
| write-back block cache | `BlockCache`, `BlockCacheUse` | `BlockCacheKernel` (class `Cache`) |
| physical page allocator | `Pmm` | `Pmm` (class `Allocator`) |
| audio: route search and engine | `HdaRoute`, `HdaEngine`, `HdaPlay`, `HdaAnswers` | `HdaRoute` (class `Search`), `HdaKernel` (class `Driver`) |
| ELF loaders and the paging they use | `Elf`, `ElfAnswers` | `Paging` (class `AddressSpace`), `ElfLoad` (both loaders) |
| in-memory file system | `Ramfs` | `RamfsKernel` (class `Pool`) |

Main results:

- Whatever sequence of additions and writes a session with the image writer performs, the checker accepts the image,
  every file there is at the end, found or made in the session, reads as the last payload written to it, everything
  added is listed, and nothing else is lost (`MiniFsWrite.MiniFsWriter.Session`, `Install`). As in the source, the
  writer takes, lays out, lists and frees blocks by code of its own, and shares with the checker only the reading of
  files and directories and the checks on opening.
- The checker accepts exactly the images with exact bitmaps, unshared blocks and a directory tree
  (`MiniFsSpec.CheckerSound`, `MiniFsTree.ReachesIffTree`, `MiniFsCheck.MiniFsImage.Check`); repair succeeds exactly when
  the repaired image passes a fresh check, changes no contents, and is idempotent (`MiniFsRepair`).
- In every interleaving of all descriptor and pipe operations all reference counts are exact and no wakeup is lost
  (`VfsRuns.EveryReachableState`, `NoLostWakeup`, `NoDeadlockOnOnePipe`); the ring buffers make pipes first-in first-out
  streams, and every call that ends, however often it blocked, returns the number of its own bytes that went in or came
  out, in order (`VfsCalls.PipesAreStreams`, `CallReturns`, `WriteCompletes`). What each call answers, when it is refused
  and when it waits is said slot by slot in `VfsAnswers` and `VfsTables`.
- The block cache is a plain disk under eviction, batching, I/O errors and a volatile device cache, and a flush that
  returns 0 is durable (`BlockCache.PlainDisk`, `FlushKeeps`); when calls fail is exact (`BlockCacheUse.ReadFails`,
  `WriteFails`, `FlushAnswer`), and the entry given up is the least recently used (`LeastRecentlyUsed`).
- Exactly the files with valid, mappable segments and an executable entry point load, with the right bytes, permissions
  and image end, and the two ELF loaders agree (`ElfAnswers.LoadAnswer`, `Elf.LoadBytes`, `ElfLoad.LoadersAgree`).
- Resampling is exact over every run of writes, polls, flushes and changes of rate, silence standing in for samples that
  come late (`HdaPlay.NoDrift`).
- Path normalization obeys the laws of paths, which determine it (`PathsLaws`); allocation is complete
  (`Pmm.Allocator.Allocate`), the route search is sound and complete (`HdaRoute.FindIff`), and the ramfs pool stays a
  tree whose paths lead where they should (`RamfsKernel.Pool`).

Six properties that one might expect do not hold of the code. For each the model keeps the code as it is and states
exactly when the property holds:

- Path normalization is idempotent if and only if the result is shorter than 127 characters (`Paths.NormalizeIdempotent`;
  `Paths.FullLength` gives inputs).
- `add_child` accepts names that break the image: with a slash before the first NUL, with a NUL in front, or cut at a NUL
  to a name that is listed already. The image stays acceptable if and only if the name, cut at its first NUL, is good
  (`MiniFsDirs.ChildAdded`, `MiniFsWrite.MiniFsWriter.AddChild`, `MiniFsNames.AcceptedWhenGood`); `MiniFsNames.AddSlash`
  adds "a/b" to an image.
- `hda_set_rate` whose stream reset fails has already changed the settings; the sample accounts survive if and only if
  what is queued fits them (`HdaEngine.SetRateFailure`; `SetRateFailureBreaks` and `SuchAState` give a reachable case).
- With its static initial settings the audio engine never starts, because the limit of 882 samples is below the start
  threshold of 942; from the first successful change of rate on a retrying writer always starts it
  (`HdaEngine.BootNeverStarts`, `RetryingWriterStarts`).
- A loadable ELF segment of memory size 0 passes validation and then makes the load fail at the permission pass, after
  bytes have been written; a validated file loads if and only if it has none (`Elf.EmptySegmentFails`;
  `Elf.SmallFileFails` gives a file, `Elf.SmallFile`).
- The ramfs pool stays a tree under renaming if and only if the new parent lies outside the renamed subtree, which the
  code does not check (`Ramfs.MoveTreeIff`, `RamfsKernel.Pool.Rename`); `RamfsKernel.RenameIntoItself` renames "/a" to
  "/a/b".

Conventions. Static arrays of the kernel are sequence-valued fields that the methods update element by element; ring
buffers, bitmaps and path buffers that the source edits in place are arrays. A spin-locked section is one step. Things
the code cannot decide are parameters: the outcome of a disk request (`Fate`), positions reported by audio hardware,
whether memory can be had for a page (`grant`), how much a short read returns (`eager`), whether a mounted file system
agrees to open (`found`, `good`).

## Model

| member | source | states |
|---|---|---|
| `MiniFs.LayoutFits` | `tools/check_minifs.py:68-73` | For every region size with room for metadata the computed bitmap area has a byte for each data block, and superblock, inodes, bitmap and data fill the region exactly to its end. |
| `MiniFs.DecodeEncode` | `tools/install_doom_wad.py:67-74` | Any inode whose values fit the on-disk fields is read back unchanged by the checker's decoding of the writer's encoding. |
| `MiniFs.TablePut` | `tools/install_doom_wad.py:111-113` | Packing a pointer into slot k of a table sector changes entry k of the decoded table and no other entry. |
| `MiniFs.BlockOfReferenced` | `tools/check_minifs.py:188-239` | A block that a file maps at any logical number, through any of the three levels, is among the pointers the inode references. |
| `MiniFs.RefsFrame` | `tools/check_minifs.py:188-239` | How often an inode references a block depends only on the sectors behind its own pointers. |
| `MiniFs.ReadFileFrame` | `tools/check_minifs.py:241-249` | What a file reads as depends only on the sectors behind its own pointers. |
| `MiniFsTree.WalkSucceeds` | `tools/check_minifs.py:345-361` | On a directory tree the depth-first walk never meets a directory that is on its own stack, so it does not fail. |
| `MiniFsTree.WalkMarks` | `tools/check_minifs.py:345-361` | A successful walk marks only inodes that hang below its start by parent links, and every inode that a marked directory lists. |
| `MiniFsTree.ReachesIffTree` | `tools/check_minifs.py:345-368` | For every consistent directory graph: the walk succeeds and marks every inode in use if and only if every inode in use is listed by its parent and reaches the root by finitely many parent links. Termination of the walk on every image is part of its definition (the stack of distinct inodes grows). |
| `MiniFsSpec.EntriesChecked` | `tools/check_minifs.py:257-280` | Every entry that parsing returns has a valid name and names an inode in use, of the entry's type, whose parent is the directory. |
| `MiniFsSpec.EntriesAre` | `tools/check_minifs.py:251-281` | A directory can be read if and only if every taken record names an inode in use, of the type it says, whose parent is the directory, by a NUL-terminated UTF-8 name without slash, and no two names are the same; its entries are then exactly those of the taken records. |
| `MiniFsSpec.CheckerSound` | `tools/check_minifs.py:370-375` | If a check returns normally, every data block has at most one reference over all direct, table and inner-table pointers of inodes in use, its bitmap byte is 1 exactly when it has one and 0 otherwise, and every inode in use leads to the root through parents that list it. |
| `MiniFsRepair.BitmapRoundTrip` | `tools/check_minifs.py:116-123` | Reading the bitmap back after it has been written returns the same bits. |
| `MiniFsRepair.RepairedParts` | `tools/check_minifs.py:283-336` | A repair leaves superblock and data area alone, turns stale free inodes into blank ones, keeps the others, and installs exactly the bitmap that the references call for. |
| `MiniFsRepair.AccountedAfterRepair` | `tools/check_minifs.py:320-336` | On the repaired image every block is accounted for by the bitmap if and only if no block had two owners before. |
| `MiniFsRepair.RepairSound` | `tools/check_minifs.py:370-375` | The repaired image passes a fresh check without repair if and only if the original meets what a repair insists on; so a repair that returns normally has produced an acceptable image. |
| `MiniFsRepair.RepairKeepsContents` | `tools/check_minifs.py:100-123` | A repair changes no inode in use and no byte of any file or directory, and puts no inode into or out of use. |
| `MiniFsRepair.RepairIdempotent` | `tools/check_minifs.py:327-336` | An image that passes the check is left exactly as it is, so a second repair changes nothing. |
| `MiniFsCheck.LogicalAt` | `tools/check_minifs.py:196-243` | The scan's list of blocks, looked up by logical number, agrees with following direct, single-indirect and double-indirect pointers one by one, 0 standing for no block. |
| `MiniFsCheck.NotesCount` | `tools/check_minifs.py:188-239` | The scan of an inode notes each block exactly as often as the inode references it. |
| `MiniFsCheck.PointersInRange` | `tools/check_minifs.py:183-186` | If every pointer passes the range test during the scan then everything the inode references is a data block. |
| `MiniFsCheck.InRangePointers` | `tools/check_minifs.py:183-186` | And conversely: if everything the inode references is a data block then no range test fails. |
| `MiniFsCheck.InodeBlocks` | `tools/check_minifs.py:188-239` | The scan succeeds exactly when the pointers it tests are in range (all of them, or only the tables), and then returns the noted pointers in order and the blocks by logical number. |
| `MiniFsCheck.NoteIndirect` | `tools/check_minifs.py:196-208` | Scanning a single-indirect table succeeds exactly when the table and, if references are noted, its entries are in range, and yields the table. |
| `MiniFsCheck.NoteInner` | `tools/check_minifs.py:216-238` | The same for all inner tables of a double-indirect table. |
| `MiniFsCheck.NoteDouble` | `tools/check_minifs.py:209-238` | The same for the double-indirect table with everything it leads to. |
| `MiniFsCheck.ReadFileBytes` | `tools/check_minifs.py:241-249` | Reading succeeds exactly when the tables are in range and no logical block is missing or outside the data area, and returns the gathered sectors cut to the size. |
| `MiniFsCheck.ReadDirEntries` | `tools/check_minifs.py:251-281` | Parsing accepts exactly the directories whose records all pass the entry rules (free record, range, type, terminated UTF-8 name without slash, no duplicate, parent), and returns their entries in order. |
| `MiniFsCheck.CollectRefs` | `tools/check_minifs.py:316-318` | Collecting the references of all inodes in use succeeds exactly when all are in range, and notes each block once per reference. |
| `MiniFsCheck.NoDuplicates` | `tools/check_minifs.py:320-323` | True exactly when no block is referenced twice in the whole image. |
| `MiniFsCheck.ReferencedBits` | `tools/check_minifs.py:325-333` | The rebuilt bitmap is 1 exactly for the referenced blocks. |
| `MiniFsCheck.MarkedExactly` | `tools/check_minifs.py:338-343` | Missing and leaked blocks are both absent exactly when the bitmap equals the reference counts. |
| `MiniFsCheck.SweepInodes` | `tools/check_minifs.py:287-309` | One pass over the inodes accepts exactly the tables that follow the inode rules; with repair, stale free inodes are blanked in image and table instead, and the rules apply to what results. |
| `MiniFsCheck.RepairVerdict` | `tools/check_minifs.py:370-375` | The stages of a check with repair, which look at the image with stale inodes blanked, succeed exactly when the repaired image is acceptable. |
| `MiniFsCheck.MiniFsImage.Load` | `tools/check_minifs.py:131-176` | Loading fails on a short image, a wrong superblock or, unless allowed, a bitmap byte other than 0 and 1, and otherwise yields the decoded inodes and the bitmap. |
| `MiniFsCheck.MiniFsImage.CheckInodes` | `tools/check_minifs.py:283-309` | Without repair it changes nothing and accepts exactly tables that follow the inode rules; with repair it decides the blanked table and leaves it in image and memory. |
| `MiniFsCheck.MiniFsImage.WriteBitmap` | `tools/check_minifs.py:116-123` | Rewrites the whole bitmap area, zero beyond the last block, and nothing else. |
| `MiniFsCheck.MiniFsImage.CheckBlocks` | `tools/check_minifs.py:311-343` | Without repair: accepts exactly when references are in range and bitmap and references agree. With repair: exactly when they are in range and unshared, and then the bitmap is the wanted one and the image is rewritten only if it differed. |
| `MiniFsCheck.MiniFsImage.WalkDirs` | `tools/check_minifs.py:345-361` | The recursive walk agrees with its specification on success and on the set of inodes it adds to the reachable ones, and terminates. |
| `MiniFsCheck.MiniFsImage.CheckReachability` | `tools/check_minifs.py:363-368` | Accepts exactly when the walk from the root succeeds and meets every inode in use. |
| `MiniFsCheck.MiniFsImage.Check` | `tools/check_minifs.py:370-375` | Without repair the image is unchanged and accepted exactly when it follows every rule. With repair it succeeds exactly when the repaired image passes a fresh check, and leaves that image. |
| `MiniFsGrow.LaidLogical` | `tools/install_doom_wad.py:102-128` | A file laid out over a list of data blocks by the three table levels has exactly that list as its logical blocks, in order, and none beyond. |
| `MiniFsGrow.LaidRefs` | `tools/install_doom_wad.py:102-128` | Such a file references its data blocks and its table blocks once each and nothing else. |
| `MiniFsGrow.ReadBack` | `tools/check_minifs.py:241-249` | Reading undoes writing for every payload length: an inode laid out over blocks that hold the payload's chunks reads as exactly the payload. |
| `MiniFsGrow.TotalReplace` | `tools/install_doom_wad.py:133-139` | Replacing one inode changes the reference count of each block by exactly the difference of the two versions. |
| `MiniFsGrow.SparedReads` | `tools/install_doom_wad.py:45-52` | As long as blocks marked in the bitmap are not written, every file and directory in use reads as before. |
| `MiniFsGrow.ReplaceKeepsCore` | `tools/install_doom_wad.py:133-139` | Exchanging the blocks of one inode for freshly taken ones keeps all rules about superblock, inodes, ranges, bitmap and sharing. |
| `MiniFsStore.FillTable` | `tools/install_doom_wad.py:112-113` | The loop that packs pointers into a blank sector yields the table of those pointers padded with zeros. |
| `MiniFsStore.DoubleStep` | `tools/install_doom_wad.py:119-128` | Storing one more inner table in a fresh block and its pointer in the outer table extends the double-indirect part by exactly that group of pointers. |
| `MiniFsStore.LaidAfterChunks` | `tools/install_doom_wad.py:129-132` | Copying the data into the data blocks does not disturb any table of the file. |
| `MiniFsStore.Present` | `tools/install_doom_wad.py:77` | Filtering the pointers that are present keeps each of them as often as it occurs and drops only zeros. |
| `MiniFsStore.OldInner` | `tools/install_doom_wad.py:88-96` | The loop over an outer table lists every inner table that is present and every pointer in it, each as often as it is referenced. |
| `MiniFsStore.OldBlocks` | `tools/install_doom_wad.py:76-97` | The writer's own scan lists each block of an inode, data and tables of all three levels, exactly as often as the inode references it. |
| `MiniFsStore.OldWithin` | `tools/install_doom_wad.py:133-134` | For an inode whose pointers are in range the old blocks are data blocks of the region, so clearing their bits stays inside the bitmap. |
| `MiniFsStore.FreedAlike` | `tools/install_doom_wad.py:133-134` | Clearing the blocks the writer's scan lists has the same effect on the bitmap as clearing those the checker's scan notes. |
| `MiniFsStore.ExchangeDone` | `tools/install_doom_wad.py:133-134` | After the old blocks are cleared in the bitmap it differs from before by exactly the blocks taken and the blocks the old version referenced. |
| `MiniFsStore.ContentsReplaced` | `tools/install_doom_wad.py:99-139` | After replacing the contents of one inode: all rules about inodes and blocks hold, the new contents read back, and no other block in use has changed. |
| `MiniFsDirs.MakeRecordHeader` | `tools/install_doom_wad.py:164-165` | The inode number and type of a packed directory record are read back. |
| `MiniFsDirs.MakeRecordName` | `tools/install_doom_wad.py:164-165` | The name field of a packed record is the padded name. |
| `MiniFsDirs.PlainNameGood` | `tools/check_minifs.py:268-276` | A non-empty UTF-8 name without slash and NUL that the directory does not have yet is a good name and is stored whole. |
| `MiniFsDirs.EntriesAppend` | `tools/install_doom_wad.py:163-167` | Appending a record for a new inode adds one entry at the end if the name, cut at its first NUL, is good, and makes the directory unreadable otherwise. |
| `MiniFsDirs.FileReplaced` | `tools/install_doom_wad.py:99-139` | Replacing the contents of a file keeps the directory tree, so the whole image stays well formed. |
| `MiniFsDirs.TreeOkKept` | `tools/install_doom_wad.py:99-139` | A directory graph stays a tree when inodes keep their places and directories their entries. |
| `MiniFsDirs.TreeOkGrown` | `tools/install_doom_wad.py:162-168` | A directory graph stays a tree when a directory gains an entry for a new inode without entries of its own. |
| `MiniFsDirs.ChildAdded` | `tools/install_doom_wad.py:147-168` | After an entry has been added the image is well formed if and only if the name was good, that is, if what is left of it before the first NUL is non-empty, free of slashes, UTF-8 and not listed yet: add_child itself does not ask for that, and any other name breaks the image. |
| `MiniFsDirs.Finished` | `tools/install_doom_wad.py:37-40` | Writing the bitmap turns a well-formed writer state into an image the checker accepts. |
| `MiniFsDirs.StartFrom` | `tools/install_doom_wad.py:21-24` | Every image the checker accepts, once loaded, is a well-formed writer state. |
| `MiniFsSession.FileKept` | `tools/install_doom_wad.py:99-139` | Writing one file leaves every other file's contents and every directory listing as they were. |
| `MiniFsSession.EntryKept` | `tools/install_doom_wad.py:147-168` | Adding an entry leaves all files and all listed entries as they were, and the new entry is listed. |
| `MiniFsSession.SoFarNext` | `tools/install_doom_wad.py:99-168` | One more request carries the whole account of a session on: what every file reads as, which files and directories there are, what they list, and which requests have been carried out. |
| `MiniFsSession.ReadNext` | `tools/install_doom_wad.py:99-168` | A step that performs one request moves what each file reads as, files made in the session included, from the expected contents to the next expected contents. |
| `MiniFsSession.TypedNext` | `tools/install_doom_wad.py:147-168` | The files and directories after a request are those before and the one it has made. |
| `MiniFsSession.CarriedNext` | `tools/install_doom_wad.py:99-168` | Whether a request is carried out is decided by the requests before it: every write to what is a file by then is, and every plain name added to what is a directory by then. |
| `MiniFsSession.SoFarFinished` | `tools/install_doom_wad.py:37-40` | Installing the bitmap changes nothing of that account. |
| `MiniFsWrite.DirectoryReads` | `tools/check_minifs.py:251-281` | Every directory of a well-formed file system can be read. |
| `MiniFsWrite.FreshInodeSound` | `tools/install_doom_wad.py:54-64` | Storing a fresh, empty inode in a free slot keeps every rule about inodes and blocks. |
| `MiniFsWrite.EntryAdded` | `tools/install_doom_wad.py:162-168` | The outcome of appending a record for a fresh inode: the directory's new list of entries, and well-formedness exactly for good names. |
| `MiniFsWrite.FormattedOk` | `tools/install_doom_wad.py:26-35` | A freshly formatted region passes the check. |
| `MiniFsWrite.EmptyRejected` | `tools/check_minifs.py:142-143` | A region of zeros has no valid superblock, so an unformatted region is never mistaken for a file system. |
| `MiniFsWrite.MiniFsWriter.AllocBlock` | `tools/install_doom_wad.py:45-52` | Fails exactly when no block is free; otherwise takes the lowest free block, blanks it, and touches no block that was in use. |
| `MiniFsWrite.MiniFsWriter.AllocBlocks` | `tools/install_doom_wad.py:102` | Takes n distinct free blocks; succeeds exactly when there are n. |
| `MiniFsWrite.MiniFsWriter.BuildTable` | `tools/install_doom_wad.py:108-113` | Takes one block and leaves in it the table of the given pointers; fails exactly when no block is free. |
| `MiniFsWrite.MiniFsWriter.BuildDouble` | `tools/install_doom_wad.py:115-128` | Builds the outer table and one inner table per 256 pointers; succeeds exactly when that many blocks are free, and every pointer ends up in its place. |
| `MiniFsWrite.MiniFsWriter.BuildTables` | `tools/install_doom_wad.py:103-128` | All tables for a list of data blocks, through three levels; the file is then laid out over exactly these blocks. |
| `MiniFsWrite.MiniFsWriter.WriteChunks` | `tools/install_doom_wad.py:129-132` | Copies the payload chunk by chunk into the data blocks and writes nothing else. |
| `MiniFsWrite.MiniFsWriter.FreeBlocks` | `tools/install_doom_wad.py:133-134` | Clears the bitmap for exactly the blocks named by the old pointers. |
| `MiniFsWrite.MiniFsWriter.WriteInode` | `tools/install_doom_wad.py:67-74` | Stores one inode sector; every other sector and inode is unchanged. |
| `MiniFsWrite.MiniFsWriter.StoreData` | `tools/install_doom_wad.py:101-132` | Lays a payload out in free blocks; succeeds exactly when data blocks and tables together fit the free blocks. |
| `MiniFsWrite.MiniFsWriter.SetContents` | `tools/install_doom_wad.py:99-139` | Succeeds exactly when the new version fits the free blocks, the old ones not counted; then all rules hold, the payload reads back through all levels, only this inode changed, and no block in use by others was written. |
| `MiniFsWrite.MiniFsWriter.AllocInode` | `tools/install_doom_wad.py:54-65` | Fails exactly when no inode from 2 on is free; otherwise stores a fresh inode in the lowest free one and keeps all rules. |
| `MiniFsWrite.MiniFsWriter.Child` | `tools/install_doom_wad.py:141-145` | Finds exactly the inode that the directory lists under the name. |
| `MiniFsWrite.MiniFsWriter.AppendRecord` | `tools/install_doom_wad.py:163-167` | Appends 32 bytes to a directory; fails exactly when the grown directory does not fit the free blocks. |
| `MiniFsWrite.MiniFsWriter.RecordChild` | `tools/install_doom_wad.py:163-167` | Records a fresh inode under a name; fails exactly when the grown directory does not fit, and otherwise the directory lists it and well-formedness holds exactly for good names. |
| `MiniFsWrite.MiniFsWriter.AppendChild` | `tools/install_doom_wad.py:162-168` | Succeeds exactly when an inode and enough blocks are free, and then has the effect of one appended record. |
| `MiniFsWrite.MiniFsWriter.AddChild` | `tools/install_doom_wad.py:147-168` | Rejects names outside 1..23 bytes or not UTF-8; returns an existing entry's inode, failing exactly when its type differs; otherwise fails only for want of room, and the state stays well formed if and only if the name is good. |
| `MiniFsWrite.MiniFsWriter.WriteBitmap` | `tools/install_doom_wad.py:37-40` | From every well-formed state, the image with the bitmap installed passes the check and has the same inodes and data. |
| `MiniFsWrite.MiniFsWriter.SetFile` | `tools/install_doom_wad.py:175` | Replacing a file's contents keeps the state well formed, the payload reads back, and every other file and listing is kept. |
| `MiniFsWrite.MiniFsWriter.Format` | `tools/install_doom_wad.py:26-35` | Leaves the formatted region and changes nothing outside it. |
| `MiniFsWrite.MiniFsWriter.Open` | `tools/install_doom_wad.py:16-24` | An empty region is formatted first; opening succeeds on every image the checker accepts, and an opened image is well formed if and only if the checker accepts it. |
| `MiniFsWrite.MiniFsWriter.Examine` | `tools/install_doom_wad.py:21-24` | The writer's own checks on opening; they skip only the test for unreachable inodes. |
| `MiniFsWrite.MiniFsWriter.Perform` | `tools/install_doom_wad.py:99-168` | Any request keeps the state well formed: a write reads back, an added name is listed, a file made for it reads as nothing, no other inode comes into use, and everything else is kept. |
| `MiniFsWrite.MiniFsWriter.Session` | `tools/install_doom_wad.py:99-168` | After any sequence of requests that succeeds, and write_bitmap, the checker accepts the image. Every file there is then, found or made in the session, reads as the last payload written to it, as nothing if the session made it and did not write to it, and as before otherwise; the files and directories are those found and those made; every name added is listed, and so is what was listed before; every write to a file and every addition of a plain name to a directory has been carried out. |
| `MiniFsWrite.MiniFsWriter.AddPlain` | `tools/install_doom_wad.py:147-168` | Adding a name without slash and NUL keeps the state well formed, lists the entry with the right inode, and keeps everything else. |
| `MiniFsWrite.MiniFsWriter.MakeDoomDir` | `tools/install_doom_wad.py:171-173` | The path /games/doom exists afterwards; nothing else is lost. |
| `MiniFsWrite.MiniFsWriter.MakeWadFile` | `tools/install_doom_wad.py:171-174` | The path /games/doom/doom1.wad leads to a file afterwards; nothing else is lost. |
| `MiniFsWrite.MiniFsWriter.Install` | `tools/install_doom_wad.py:170-176` | After a successful installation the checker accepts the image, the path /games/doom/doom1.wad leads to a file that reads as the given bytes, and every other file and listing is kept. |
| `MiniFsNames.AcceptedWhenGood` | `tools/install_doom_wad.py:37-40` | Once the bitmap is installed, an image to which an entry has been added is accepted if and only if the name was good. |
| `MiniFsNames.SlashIsBad` | `tools/install_doom_wad.py:148-151` | The name a/b passes every test that add_child makes and is not a good name in any directory. |
| `MiniFsNames.AddSlash` | `tools/install_doom_wad.py:147-168` | On every formatted region with a data block, which the checker accepts, adding a file named a/b to the root succeeds and leaves an image that the checker rejects. |
| `VfsCount.FreeSlotIs` | `src/kernel/fs/vfs.c:174-180` | The slot search returns the lowest free slot, and -1 only if there is none. |
| `VfsCount.CloseTableOk` | `src/kernel/fs/vfs.c:261-281` | Closing a live descriptor keeps every reference count of its table equal to the number of descriptors naming the file. |
| `VfsCount.InstallOk` | `src/kernel/fs/vfs.c:228-236` | So does pointing a free descriptor at a new open file. |
| `VfsCount.ShareOk` | `src/kernel/fs/vfs.c:351-356` | So does one more descriptor on an open file in use. |
| `VfsCount.FilesFit` | `src/kernel/fs/vfs.c:239-245` | There are never more open files in use than descriptors in use (pigeonhole). |
| `VfsCount.OpenFileAvailable` | `src/kernel/fs/vfs.c:223-226` | Whenever a descriptor is free so is an open file: alloc_open_file never fails when alloc_fd_slot succeeds. |
| `VfsCount.TwoOpenFilesAvailable` | `src/kernel/fs/pipefs.c:170-193` | The same for the two descriptors and two open files of a new pipe. |
| `VfsInv.WakeOk` | `src/kernel/fs/pipefs.c:18-25` | Waking any set of tasks keeps the waiting discipline. |
| `VfsInv.PipeCloseWaits` | `src/kernel/fs/pipefs.c:48-69` | Closing a pipe end keeps the waiting discipline: whoever loses the reason to wait is woken. |
| `VfsInv.ReadLoopWaits` | `src/kernel/fs/pipefs.c:82-102` | So does a reader's lock-held section, whether it blocks, ends or takes bytes. |
| `VfsInv.WriteLoopWaits` | `src/kernel/fs/pipefs.c:118-143` | So does a writer's, over all its rounds, for every payload. |
| `VfsInv.ResumeWaits` | `src/kernel/fs/pipefs.c:36-46` | So does the return from a wait, also when the pipe has been freed or reused meanwhile. |
| `VfsInv.CloseFdInv` | `src/kernel/fs/vfs.c:256-282` | Closing any descriptor keeps all reference counts, all pipe counts and the waiting discipline. |
| `VfsInv.CloseUpToInv` | `src/kernel/fs/vfs.c:568-570` | So does the loop of closes, which leaves none of the descriptors open. |
| `VfsInv.NothingOpen` | `src/kernel/fs/vfs.c:571-579` | With exact counts, a table without descriptors has no open file left, so clearing it loses nothing. |
| `VfsInv.ResetInv` | `src/kernel/fs/vfs.c:565-581` | A task reset empties the owner's table, touches no other owner, and leaves every pipe count in the system exact: no pipe end leaks. |
| `VfsInv.OpenInv` | `src/kernel/fs/vfs.c:214-237` | Opening keeps the whole invariant. |
| `VfsInv.DupInv` | `src/kernel/fs/vfs.c:342-357` | Duplicating keeps the whole invariant. |
| `VfsInv.StillOpen` | `src/kernel/fs/vfs.c:371-376` | Closing the target of dup2 never frees the open file that the source descriptor names. |
| `VfsInv.Dup2Inv` | `src/kernel/fs/vfs.c:359-379` | dup2 keeps the whole invariant. |
| `VfsInv.Dup2Result` | `src/kernel/fs/vfs.c:359-379` | dup2 succeeds exactly for a live source and a target in range; then both descriptors name the same open file and no other descriptor has moved. |
| `VfsRuns.MakePipeInv` | `src/kernel/fs/pipefs.c:153-229` | Making a pipe keeps the whole invariant. |
| `VfsRuns.MakePipeSucceeds` | `src/kernel/fs/pipefs.c:163-193` | Making a pipe fails exactly for lack of a pipe or of two descriptors, never for lack of open files. |
| `VfsRuns.CloneInv` | `src/kernel/fs/vfs.c:583-657` | A clone keeps the whole invariant, gives the new owner exactly the live descriptors below the limit under the same numbers and onto copies of the same files, and leaves the source alone. |
| `VfsRuns.SetupStdioResult` | `src/kernel/fs/vfs.c:667-680` | Resetting a task and then opening its standard streams, the two steps that setting up standard streams makes, keep the invariant; the call returns 0 exactly when the three opens succeed, which then have numbers 0, 1 and 2. |
| `VfsRuns.SetupSerialStdioResult` | `src/kernel/fs/vfs.c:682-696` | The same on the serial line, where only descriptors 0 to 2 are replaced. |
| `VfsRuns.ReadInv` | `src/kernel/fs/pipefs.c:71-103` | Starting a read keeps the whole invariant. |
| `VfsRuns.WriteInv` | `src/kernel/fs/pipefs.c:105-144` | Starting a write keeps the whole invariant. |
| `VfsRuns.ResumeInv` | `src/kernel/fs/pipefs.c:36-46` | Resuming a call keeps the whole invariant. |
| `VfsRuns.StepInv` | `src/kernel/fs/vfs.c:214-696` | Every lock-held section of every task, including wakes from outside and tasks dying inside a call, keeps the whole invariant. |
| `VfsRuns.EveryReachableState` | `src/kernel/fs/vfs.c:214-696` | In every state that any interleaving reaches from boot: each open file's count is the number of its owner's descriptors naming it, each pipe's counts are the numbers of open files over all owners holding its ends, a pipe is used iff an end is open, its ring has head = (tail + count) mod size, and every blocked task has its reason and its bit in the mask. |
| `VfsRuns.NoDeadlockOnOnePipe` | `src/kernel/fs/pipefs.c:27-46` | A reader and a writer are never blocked on the same pipe, and nobody is blocked on a freed pipe. |
| `VfsRuns.NoLostWakeup` | `src/kernel/fs/pipefs.c:18-103` | A blocked reader that a step leaves blocked still has an empty pipe with a live writer: any step that gives it something to do wakes it. |
| `VfsRuns.NoLostWriteWakeup` | `src/kernel/fs/pipefs.c:18-144` | A blocked writer that a step leaves blocked still has a full pipe with a live reader. |
| `VfsRuns.WriteEnds` | `src/kernel/fs/pipefs.c:118-143` | A write's section leaves other pipes and other tasks' calls alone; it returns because it is finished or because no reader is left, or it sleeps with the rest, and returns -1 if nothing has gone in. |
| `VfsRuns.WriteAppends` | `src/kernel/fs/pipefs.c:118-143` | The bytes that a section counts, over all its rounds and two copies each, are exactly those appended to the contents of the ring, in order. |
| `VfsRuns.ReadTakes` | `src/kernel/fs/pipefs.c:82-102` | A read's section takes the oldest bytes of the ring, as many as asked for or as there are, and returns 0 only when the pipe is empty and no writer is left. |
| `VfsCalls.StepAnswered` | `src/kernel/fs/pipefs.c:27-144` | Any step of any task keeps the log faithful: for each pipe what went in is what came out followed by what the ring holds, and each task's call has moved exactly what its sections moved together; and a call that ends returns the right value. |
| `VfsCalls.PipesAreStreams` | `src/kernel/fs/pipefs.c:71-144` | In every run each pipe in use is a first-in first-out stream: the bytes ever written are the bytes ever read followed by the contents of its ring. |
| `VfsCalls.CallReturns` | `src/kernel/fs/pipefs.c:71-144` | In every run a pipe call that ends, however often it blocked and whatever ran in between, returns for a write the number of its bytes that all its sections put in, the first ones of its payload in order, or -1 for none, and all of them unless the pipe has no reader; for a read the number of bytes taken, none only at the end of the stream. |
| `VfsCalls.WriteCompletes` | `src/kernel/fs/pipefs.c:105-144` | In every run a write that ends while its pipe has a reader has put in its whole payload and returns its length. |
| `VfsAnswers.ReadAnswer` | `src/kernel/fs/pipefs.c:71-103` | A read of a descriptor is refused with -1 exactly when the descriptor is not the reading end of a pipe (other files aside), and with 0 exactly when it is and nothing is asked for. Otherwise, with nothing in the pipe and a writer left, the task waits in the mask; else it returns the oldest bytes, as many as asked for or as there are, which is 0 only at the end of the stream, and wakes exactly the waiting writers. |
| `VfsAnswers.WriteAnswer` | `src/kernel/fs/pipefs.c:105-144` | A write is refused with -1 exactly when the descriptor is not the writing end of a pipe or nobody reads the pipe, and with 0 exactly when it is, somebody reads, and there is nothing to write. Otherwise it puts in as many of its first bytes as fit, wakes exactly the waiting readers, and returns if that was all or waits in the mask with the rest. |
| `VfsAnswers.ResumeAnswer` | `src/kernel/fs/pipefs.c:27-46` | After a wait a call takes its own bit back and goes on as a new one would, from where it was; on a pipe that has been freed a read returns 0 and a write what it has put in, or -1. |
| `VfsTables.OpenAnswer` | `src/kernel/fs/vfs.c:214-237` | An open succeeds exactly when the file system agrees and a descriptor is free; the file gets the lowest free descriptor and an open file of its own, and no other descriptor, pipe or task is touched. |
| `VfsTables.DupAnswer` | `src/kernel/fs/vfs.c:342-357` | Duplicating succeeds exactly for a live descriptor when one is free; the lowest free descriptor then names the same open file, and nothing else moves. |
| `VfsTables.MakePipeAnswer` | `src/kernel/fs/pipefs.c:153-229` | Making a pipe succeeds exactly when a pipe and two descriptors are free; the first number is then the reading end and the second the writing end of a pipe that was free and is empty, they are the two lowest free descriptors with open files of their own, and nothing else moves. |
| `VfsTables.CloseAnswer` | `src/kernel/fs/vfs.c:256-282` | Closing frees exactly this descriptor. Its open file goes exactly when no other descriptor names it, and only then does its pipe lose an end: the count falls by one, the pipe is freed when both counts are 0, and those who wait for an end that nobody holds any more are woken, and no one else. |
| `VfsTables.StdioAnswer` | `src/kernel/fs/vfs.c:667-680` | A task set up with standard streams has no descriptor from 3 on; all of 0, 1 and 2 are in use exactly when that returns 0, and lead to files that are not pipes. |
| `VfsTables.SerialAnswer` | `src/kernel/fs/vfs.c:682-696` | On the serial line descriptors from 3 on name what they named, and those below lead to files that are not pipes. |
| `VfsKernel.Kernel.constructor` | `src/kernel/fs/pipefs.c:231-237` | The empty tables satisfy the whole invariant. |
| `VfsKernel.Kernel.AllocFdSlot` | `src/kernel/fs/vfs.c:174-180` | The loop returns the lowest free descriptor. |
| `VfsKernel.Kernel.AllocOpenFile` | `src/kernel/fs/vfs.c:239-245` | The loop returns the lowest free open file. |
| `VfsKernel.Kernel.WakeMask` | `src/kernel/fs/pipefs.c:18-25` | The loop readies exactly the blocked tasks of the mask, from task 1 on. |
| `VfsKernel.Kernel.ClosePipeEnd` | `src/kernel/fs/pipefs.c:48-69` | Has the effect of the specified close: counts, wakes, masks and release of the pipe. |
| `VfsKernel.Kernel.CloseFdLocked` | `src/kernel/fs/vfs.c:256-282` | Has the effect of the specified close on tables and pipes, and returns 0 exactly for a live descriptor. |
| `VfsKernel.Kernel.TaskReset` | `src/kernel/fs/vfs.c:565-581` | The two loops reset the owner as specified. |
| `VfsKernel.Kernel.OpenAbsForOwner` | `src/kernel/fs/vfs.c:214-237` | Opens at the lowest free descriptor with an open file that no other descriptor names, keeps the invariant, and succeeds whenever the file system agrees and a descriptor is free. |
| `VfsKernel.Kernel.VfsDup` | `src/kernel/fs/vfs.c:342-357` | Succeeds exactly for a live descriptor when one is free, and then the lowest free descriptor names the same open file; keeps the invariant. |
| `VfsKernel.Kernel.VfsDup2` | `src/kernel/fs/vfs.c:359-379` | Duplicates onto a given number as specified and keeps the invariant. |
| `VfsKernel.Kernel.VfsPipe` | `src/kernel/fs/pipefs.c:153-229` | Returns the reading and the writing end of a new, empty pipe at the two lowest free descriptors, with the slots marked for the moment while the second ones are looked for; keeps the invariant. |
| `VfsKernel.Kernel.CloneFdRange` | `src/kernel/fs/vfs.c:583-657` | Closes, counts, copies files and descriptors in loops; the result is the specified clone. |
| `VfsKernel.Kernel.CountNames` | `src/kernel/fs/vfs.c:617-624` | The counting loop returns for each open file the number of descriptors below the limit that name it. |
| `VfsKernel.Kernel.CopyFiles` | `src/kernel/fs/vfs.c:626-644` | The copying loop yields the cloned open files with counts of their own, and every pipe count grows by exactly the copied ends. |
| `VfsKernel.Kernel.CopyDescriptors` | `src/kernel/fs/vfs.c:646-654` | The descriptor loop completes the cloned table. |
| `VfsKernel.Kernel.VfsSetupStdio` | `src/kernel/fs/vfs.c:667-680` | A reset followed by the three opens; returns 0 exactly when they succeed; keeps the invariant. |
| `VfsKernel.Kernel.VfsSetupSerialStdio` | `src/kernel/fs/vfs.c:682-696` | The same for the serial line. |
| `VfsKernel.Kernel.PutBytes` | `src/kernel/fs/pipefs.c:127-140` | Bytes go into the ring and exactly the waiting readers are woken. |
| `VfsKernel.Kernel.PipeWrite` | `src/kernel/fs/pipefs.c:118-143` | The writing loop has the effect on ring, masks and tasks, and the result, of the specified section. |
| `VfsKernel.Kernel.PipeRead` | `src/kernel/fs/pipefs.c:82-102` | The reading section yields the bytes, the effect and the result of the specified one. |
| `VfsKernel.Kernel.VfsRead` | `src/kernel/fs/pipefs.c:71-103` | The first section of a read of a descriptor has exactly the answer of `VfsAnswers.ReadAnswer`: when it is refused, when it waits, what it takes and returns, whom it wakes; it keeps the invariant. |
| `VfsKernel.Kernel.VfsWrite` | `src/kernel/fs/pipefs.c:105-144` | The same for the first section of a write, with the answer of `VfsAnswers.WriteAnswer`. |
| `VfsKernel.Kernel.PipeResume` | `src/kernel/fs/pipefs.c:36-46` | The section after a wait has exactly the answer of `VfsAnswers.ResumeAnswer`; it keeps the invariant. |
| `PipeRing.PutQueue` | `src/kernel/fs/pipefs.c:127-139` | Writing into the slots behind the queue appends to it. |
| `PipeRing.TakeQueue` | `src/kernel/fs/pipefs.c:99-100` | Moving the tail forward drops exactly the oldest bytes. |
| `PipeRing.TwoCopies` | `src/kernel/fs/pipefs.c:131-137` | The two straight copies write the bytes into consecutive slots of the ring and touch no other slot. |
| `PipeRing.TwoReads` | `src/kernel/fs/pipefs.c:92-98` | The two straight copies out yield the oldest bytes in order. |
| `PipeRing.PutContent` | `src/kernel/fs/pipefs.c:127-139` | Two copies and a new head append the bytes to the contents of the ring. |
| `PipeRing.TakeContent` | `src/kernel/fs/pipefs.c:91-100` | Two copies out and a new tail: the contents before are the bytes taken followed by the contents after. |
| `PipeRing.Buffer.Append` | `src/kernel/fs/pipefs.c:127-139` | In place: keeps head = (tail + count) mod size, and appends the bytes to the contents. |
| `PipeRing.Buffer.Remove` | `src/kernel/fs/pipefs.c:91-100` | In place: keeps head = (tail + count) mod size; the contents before are the bytes returned followed by the contents after. |
| `Paths.PartsBody` | `src/kernel/fs/vfs.c:57-83` | Rendering clean components and taking the text apart again are inverse, whatever follows. |
| `Paths.NormalTwice` | `src/kernel/fs/vfs.c:32-87` | A rendered path with a slash in front normalizes to itself. |
| `Paths.NormalShorter` | `src/kernel/fs/vfs.c:74-83` | The result is never longer than an absolute input, which is why a 128-byte buffer suffices. |
| `Paths.NormalCanonical` | `src/kernel/fs/vfs.c:32-87` | For every absolute input or working directory the result is canonical: 1 to 127 characters, a slash before each component, no empty, "." or ".." component, no slash at the end except for the root. |
| `Paths.NormalizeIdempotent` | `src/kernel/fs/vfs.c:32-87` | Normalizing the result again is the identity if and only if the result is shorter than 127 characters. |
| `Paths.FullLength` | `src/kernel/fs/vfs.c:46-51` | A concrete family of inputs for which it is not: 126 letters below the root lose their last character the second time. |
| `PathsLaws.PartsAppend` | `src/kernel/fs/vfs.c:53-61` | A slash separates components: taking apart two paths joined by one gives the components of the first followed by those of the second. |
| `PathsLaws.UpCancels` | `src/kernel/fs/vfs.c:66-73` | Going into a name and up again leads back: p/a/.. normalizes as p, for every path p and every name a. |
| `PathsLaws.UpThenOn` | `src/kernel/fs/vfs.c:66-73` | And so before anything else: p/a/../q normalizes as p/q. |
| `PathsLaws.Root` | `src/kernel/fs/vfs.c:66-73` | The root is its own normal form, and a path of no components leads to it. |
| `PathsLaws.RootUp` | `src/kernel/fs/vfs.c:66-73` | Going up from a path that is the root stays at the root. |
| `PathsLaws.ParentOf` | `src/kernel/fs/vfs.c:66-73` | Any other path is its parent followed by a name, and going up from it gives the parent. |
| `PathsLaws.NameAppended` | `src/kernel/fs/vfs.c:74-83` | A name goes to the end of the normal form, after a slash unless that is the root. |
| `PathsLaws.DotDropped` | `src/kernel/fs/vfs.c:56-65` | A dot, or a slash at the end, changes nothing. |
| `PathsLaws.SlashesMerge` | `src/kernel/fs/vfs.c:56-57` | Two slashes are as good as one. |
| `PathsLaws.NormalFirst` | `src/kernel/fs/vfs.c:32-87` | What follows a path depends on the path only through its normal form. |
| `PathsLaws.JoinedIs` | `src/kernel/fs/vfs.c:36-51` | The path taken apart is the path itself, or the working directory and the path with one slash between them, cut at 127 characters, with a slash put in front of a path from the root. |
| `PathsLaws.RelativeFromCwd` | `src/kernel/fs/vfs.c:36-51` | A relative path leads where the working directory followed by it leads. |
| `PathsLaws.AbsoluteAsIs` | `src/kernel/fs/vfs.c:36-51` | A path from the root leads where it leads without any working directory. |
| `PathsLaws.EmptyIsCwd` | `src/kernel/fs/vfs.c:36-37` | The empty path is the working directory. |
| `Paths.NormalizePath` | `src/kernel/fs/vfs.c:32-87` | The in-place buffer ends up holding, NUL-terminated, the normal form of the joined path, which the laws of `PathsLaws` determine; it succeeds whenever the joined path is absolute and shorter than the buffer. |
| `Paths.Join` | `src/kernel/fs/vfs.c:33-51` | The two copying loops yield the joined path cut at 127 characters; fails exactly for a relative path without working directory. |
| `Paths.Edit` | `src/kernel/fs/vfs.c:53-86` | The loop over components refines pushing and popping on a component stack. |
| `Paths.GoUp` | `src/kernel/fs/vfs.c:66-73` | Going up takes exactly the last component out of the buffer and leaves those before it, and the root where it is. |
| `Paths.PushPart` | `src/kernel/fs/vfs.c:74-82` | Appends a component with a slash where needed; fails exactly when the buffer is too small. |
| `BlockCache.AtaWriteKeeps` | `src/kernel/block/cache.c:61-62` | A write of dirty cached sectors, successful or not and whatever prefix got through, changes nothing that users see. |
| `BlockCache.FlushEntryKeeps` | `src/kernel/block/cache.c:58-66` | Writing one entry back, with any failure, changes nothing that users see; on success the entry is clean. |
| `BlockCache.ReadKeeps` | `src/kernel/block/cache.c:80-108` | A read, with any failures and eviction, changes nothing that users see, and what it returns is what they see. |
| `BlockCache.WriteKeeps` | `src/kernel/block/cache.c:110-127` | A successful write changes what users see at that sector and nowhere else; a failed one changes nothing. |
| `BlockCache.BatchIs` | `src/kernel/block/cache.c:142-153` | A batch consists of the data of dirty entries of adjacent sectors, one entry each because no sector is cached twice. |
| `BlockCache.FlushBatchKeeps` | `src/kernel/block/cache.c:131-161` | A successful batch makes at least one dirty entry clean, so flushing terminates; a failed or partly completed one leaves all entries as they were; neither changes anything that users see. |
| `BlockCache.AllCleanDurable` | `src/kernel/block/cache.c:163-167` | With everything clean and the device's own cache emptied, what users see is on the platter. |
| `BlockCache.FlushKeeps` | `src/kernel/block/cache.c:129-170` | A flush changes nothing that users see whatever fails; when it returns 0 a power loss loses nothing. |
| `BlockCache.PlainDisk` | `src/kernel/block/cache.c:80-170` | Over any run of reads, writes, flushes, evictions, failures and destaging, every sector shows the last value successfully written to it. |
| `BlockCache.ReadsLastWritten` | `src/kernel/block/cache.c:80-108` | And a successful read returns it. |
| `BlockCache.BootInv` | `src/kernel/block/cache.c:68-78` | The empty cache satisfies the invariant on any disk. |
| `BlockCacheUse.ReadFails` | `src/kernel/block/cache.c:80-108` | A read fails if and only if the sector is not cached and either the entry to be given up is dirty and cannot be written back, or the disk does not deliver the sector; a read that succeeds leaves the sector cached. |
| `BlockCacheUse.ReadAnswer` | `src/kernel/block/cache.c:80-108` | After a miss the sector sits in the place of the first unused or else oldest entry, clean and with the age of now; no other entry has moved, and a hit asks nothing of the disk. |
| `BlockCacheUse.WriteFails` | `src/kernel/block/cache.c:110-127` | A write fails if and only if the sector is not cached and the entry to be given up is dirty and cannot be written back. |
| `BlockCacheUse.WriteAnswer` | `src/kernel/block/cache.c:110-127` | A write that succeeds leaves the sector dirty in the cache; no entry but its own or the one given up has moved, and the disk is asked only to take the latter. |
| `BlockCacheUse.FlushAnswer` | `src/kernel/block/cache.c:129-170` | With a disk that takes every request a flush returns 0 if and only if every dirty sector is on the disk; it never returns 0 while one is not. |
| `BlockCacheUse.BatchMaximal` | `src/kernel/block/cache.c:142-153` | A batch ends only at eight sectors or where the next sector is not cached dirty. |
| `BlockCacheUse.LeastRecentlyUsed` | `src/kernel/block/cache.c:47-56` | Over any run from an empty cache in which the 32-bit clock does not wrap: once all entries are in use, the sector given up was used last before every other cached sector. |
| `BlockCacheKernel.Cache.FindEntry` | `src/kernel/block/cache.c:39-45` | The loop finds the entry of a sector, or reports that there is none. |
| `BlockCache.PickIs` | `src/kernel/block/cache.c:47-56` | The entry picked is the first unused one, or when all are in use one with an age no greater than any other's, and the first of those. |
| `BlockCacheKernel.Cache.PickEntry` | `src/kernel/block/cache.c:47-56` | The loop returns such an entry: the first unused one, else the first of least age. |
| `BlockCacheKernel.Cache.FlushOne` | `src/kernel/block/cache.c:58-66` | Writes one entry back as specified and keeps the invariant. |
| `BlockCacheKernel.Cache.BlockReadSector` | `src/kernel/block/cache.c:80-108` | On success the buffer holds what users see at the sector, and the sector is cached; it fails exactly when the sector is not cached and the victim is stuck or the disk does not deliver; users see nothing change. |
| `BlockCacheKernel.Cache.BlockWriteSector` | `src/kernel/block/cache.c:110-127` | On success users see the new value there and nothing else change; it fails, and changes nothing that users see, exactly when the sector is not cached and the victim is stuck. |
| `BlockCache.LowestIs` | `src/kernel/block/cache.c:132-138` | The search finds a dirty entry if there is one, and none of the dirty entries has a lower sector number. |
| `BlockCacheKernel.Cache.LowestDirty` | `src/kernel/block/cache.c:132-138` | The loop returns such an entry, or -1 exactly when nothing is dirty. |
| `BlockCacheKernel.Cache.Gather` | `src/kernel/block/cache.c:142-153` | The loop gathers the run of adjacent dirty sectors, at most eight, with their data. |
| `BlockCacheKernel.Cache.MarkClean` | `src/kernel/block/cache.c:159-160` | Marks exactly the gathered entries clean. |
| `BlockCacheKernel.Cache.BlockCacheFlush` | `src/kernel/block/cache.c:129-170` | Terminates; users see nothing change; a return of 0 means that the platter holds, at every sector, what users see; it returns 0 whenever the disk takes every request and every dirty sector is on it. |
| `Pmm.MarkSpanIs` | `src/kernel/mm/pmm.c:52-77` | Marking used covers exactly the managed pages the range touches, marking free exactly those that lie wholly inside it; ranges past the end of the address space are cut there. |
| `Pmm.SearchComplete` | `src/kernel/mm/pmm.c:174-202` | If no place that the scan visits from the rover on and around starts a free run, then no place does. |
| `Pmm.Blocked` | `src/kernel/mm/pmm.c:185-201` | A used page at offset j rules out every start up to it, so skipping past it misses nothing. |
| `Pmm.TooLate` | `src/kernel/mm/pmm.c:179-182` | Starts too close to the end cannot hold the run, so skipping to the wrap misses nothing. |
| `Pmm.LiveAllocate` | `src/kernel/mm/pmm.c:192-199` | Taking a free run keeps the blocks handed out pairwise apart and off page 0. |
| `Pmm.LiveFree` | `src/kernel/mm/pmm.c:219-228` | Giving a block back keeps the others used and apart. |
| `Pmm.FreeSpan` | `src/kernel/mm/pmm.c:223` | Freeing a block by its address clears exactly its pages. |
| `Pmm.Allocator.MarkRange` | `src/kernel/mm/pmm.c:52-90` | The loop marks exactly the span and returns by how much the number of free pages changed. |
| `Pmm.Allocator.CountFreePages` | `src/kernel/mm/pmm.c:92-99` | The loop counts the clear bits. |
| `Pmm.Allocator.Search` | `src/kernel/mm/pmm.c:174-202` | Finds the first free run that a scan from the rover on and around meets; reports failure only if no free run of n pages exists anywhere. |
| `Pmm.Allocator.Allocate` | `src/kernel/mm/pmm.c:165-205` | Past the size test it fails only if no free run of n pages exists; on success exactly that run is taken, the counter falls by n, the rover moves behind it, and all live blocks stay apart and off page 0. |
| `Pmm.Allocator.AllocateUser` | `src/kernel/mm/pmm.c:211-213` | Takes a free run only if at least 4096 pages stay free for the kernel afterwards; otherwise changes nothing. |
| `Pmm.Allocator.FreePages` | `src/kernel/mm/pmm.c:219-228` | For any range: frees the pages wholly inside, keeps the counter equal to the number of clear bits and the rover in range. |
| `Pmm.Allocator.FreeBlock` | `src/kernel/mm/pmm.c:219-228` | Giving back a live block frees exactly its pages and keeps all other live blocks. |
| `Pmm.Allocator.constructor` | `src/kernel/mm/pmm.c:107-148` | A page ends up free exactly when it lies wholly inside a usable region among the first 128 and touches nothing reserved; overlapping regions count once. |
| `Pmm.Allocator.FreeUsable` | `src/kernel/mm/pmm.c:123-134` | The loop over the memory map frees exactly the pages inside usable regions and counts each once. |
| `Pmm.Allocator.Reserve` | `src/kernel/mm/pmm.c:136-146` | Takes back exactly the pages the kernel, the frame buffer, the device window and page 0 touch. |
| `HdaRoute.FindSound` | `src/kernel/drv/hda.c:398-423` | Every route the search returns is a simple path to an audio output that fits the path buffer, and its connection indices spell it edge by edge. |
| `HdaRoute.FindComplete` | `src/kernel/drv/hda.c:398-423` | If a simple path that fits exists, the search finds a route. |
| `HdaRoute.FindIff` | `src/kernel/drv/hda.c:398-423` | The search succeeds if and only if a simple path of at most 16 widgets leads from the start to an audio output. |
| `HdaRoute.Search.FindDacPath` | `src/kernel/drv/hda.c:398-423` | The recursion with its global buffers: on success path and connections hold the route from the given depth on, on failure the visited marks are restored, and what lies before is untouched. |
| `HdaEngine.ThresholdFits` | `src/kernel/drv/hda.c:944-962` | For every supported rate and every requested latency: start threshold <= queue limit <= FIFO size. |
| `HdaEngine.RefillInv` | `src/kernel/drv/hda.c:676-684` | A refill keeps the accounts: the ring's count is the sum of the periods' counts, and the total falls by exactly the retired samples. |
| `HdaEngine.ServiceInv` | `src/kernel/drv/hda.c:692-696` | Catching up to any period keeps the accounts, ends at that period and never raises the total. |
| `HdaEngine.BelievedInside` | `src/kernel/drv/hda.c:617-646` | Whatever the two position registers report, the believed position lies in an active period. |
| `HdaEngine.PrimedIs` | `src/kernel/drv/hda.c:726-733` | Filling n periods at the start consumes exactly the samples due, without silence, and leaves the exact fractional phase. |
| `HdaEngine.RingShare` | `src/kernel/drv/hda.c:706-709` | A full ring is due no more than its rounded-up share. |
| `HdaEngine.PeriodShare` | `src/kernel/drv/hda.c:711-714` | A period never takes more than its rounded-up share, whatever the phase. |
| `HdaEngine.StartOk` | `src/kernel/drv/hda.c:726-744` | Starting moves every consumed sample into the ring, keeps the accounts and leaves at least one whole period of samples in the FIFO. |
| `HdaEngine.FirstRefillFull` | `src/kernel/drv/hda.c:716-724` | So the first refill after starting finds all samples it is due. |
| `HdaPlay.StartPlays` | `src/kernel/drv/hda.c:726-744` | The ring primed at the start plays the queue from its first sample on, frame by frame. |
| `HdaPlay.PeriodPlays` | `src/kernel/drv/hda.c:661-674` | A period filled after j others, with samples enough, has in frame f the sample floor((1024 j + f) * rate / 48000) of the stream. |
| `HdaPlay.RefillPlays` | `src/kernel/drv/hda.c:676-696` | One more refill with samples enough keeps the ring exact: each slot plays the period whose turn it is, and nothing is dropped, repeated or shifted. |
| `HdaPlay.ServiceIsAfter` | `src/kernel/drv/hda.c:686-704` | Catching up refills exactly as many periods as the hardware has left behind. |
| `HdaPlay.StepSounds` | `src/kernel/drv/hda.c:854-972` | Every write, poll, flush and change of rate keeps the account of what is heard: the stream grows by the bytes accepted and by silence for what was missing, and starts anew with a reset. |
| `HdaPlay.NoDrift` | `src/kernel/drv/hda.c:648-972` | Over every run of writes, polls, flushes and successful changes of rate: every period in the ring plays, in frame f of the j-th period filled since the last reset, the sample floor((1024 j + f) * rate / 48000) of what has been written since then, with silence in the place of samples that were missing when due; the rest is queued, and nothing from before the reset is heard. |
| `HdaPlay.NoDriftFromBoot` | `src/kernel/drv/hda.c:648-972` | And so over every run from boot on. |
| `HdaPlay.RefillSounds` | `src/kernel/drv/hda.c:648-696` | A refill that runs out plays what there is, then silence, as if the missing samples had been silent ones. |
| `HdaPlay.NoSilence` | `src/kernel/drv/hda.c:648-696` | While the queue holds out nothing is put in: the stream is just the bytes accepted. |
| `HdaAnswers.BelievedAnswer` | `src/kernel/drv/hda.c:617-646` | Of the two reported positions the one with the smaller plausible advance is believed; with none plausible, the one that has not moved, or else the link position; a position outside the ring never. |
| `HdaAnswers.SilenceWhenOut` | `src/kernel/drv/hda.c:648-674` | A frame whose sample is due when the queue has run out is silent. |
| `HdaAnswers.PollAnswer` | `src/kernel/drv/hda.c:686-704` | After catching up the believed position is remembered and the next period to refill is the one it lies in; an idle engine is left alone. |
| `HdaAnswers.WriteAnswer` | `src/kernel/drv/hda.c:854-876` | A write accepts the first bytes it is offered, all of them unless that brings the queue to its limit or fills the FIFO, and playback starts exactly when that brings the queue to the threshold. |
| `HdaAnswers.FlushAnswer` | `src/kernel/drv/hda.c:890-917` | A flush that succeeds leaves an idle engine with nothing queued, nothing in the ring and silent buffers, and keeps the settings; one that fails changes nothing. |
| `HdaAnswers.SetRateAnswer` | `src/kernel/drv/hda.c:928-972` | A supported rate replaces the settings, and a good reset leaves an empty engine that can be started; without it everything else stays; any other rate changes nothing. |
| `HdaAnswers.PeriodsAnswer` | `src/kernel/drv/hda.c:944-950` | The ring is the largest number of whole periods that fits the latency asked for, within 2 and 8. |
| `HdaAnswers.LimitAnswer` | `src/kernel/drv/hda.c:952-962` | The queue holds the samples of the latency asked for, rounded up, or what it takes to start if that is more. |
| `HdaAnswers.AlwaysPlaced` | `src/kernel/drv/hda.c:686-744` | In every run the last position lies in the ring. |
| `HdaEngine.WriteInv` | `src/kernel/drv/hda.c:854-876` | A write keeps the accounts; once tuned, every non-empty write takes something or finds the engine playing. |
| `HdaEngine.RetryingWriterStarts` | `src/kernel/drv/hda.c:854-876` | Once tuned, a writer that keeps offering data starts playback, at the latest after as many non-empty writes as samples are missing. |
| `HdaEngine.FlushInv` | `src/kernel/drv/hda.c:890-917` | A flush, successful or not, keeps the accounts. |
| `HdaEngine.SetRateTunes` | `src/kernel/drv/hda.c:928-972` | A successful change of rate establishes the accounts and start threshold <= queue limit, whatever the state was. |
| `HdaEngine.SetRateFailure` | `src/kernel/drv/hda.c:964-969` | A change of rate whose stream reset fails has already changed rate, ring and limit; the accounts survive if and only if what is queued happens to fit the new settings. |
| `HdaEngine.SetRateFailureBreaks` | `src/kernel/drv/hda.c:964-969` | They need not: 3000 queued bytes do not fit 80 ms at 11025 Hz. |
| `HdaEngine.SuchAState` | `src/kernel/drv/hda.c:854-876` | And such a state is reached from boot by one change of rate and one write. |
| `HdaEngine.StaysTuned` | `src/kernel/drv/hda.c:854-972` | Over any run in which changes of rate succeed: threshold <= limit, and FIFO and ring together never exceed the limit. |
| `HdaEngine.BootNeverStarts` | `src/kernel/drv/hda.c:121-126` | With the initial settings (limit 882, threshold 942) no run without a change of rate ever starts playback. |
| `HdaKernel.Driver.FillPeriod` | `src/kernel/drv/hda.c:661-674` | The frame loop yields the specified period, phase, current sample and count of samples taken. |
| `HdaKernel.Driver.RefillPeriod` | `src/kernel/drv/hda.c:676-684` | Refills and accounts as specified. |
| `HdaKernel.Driver.CatchUp` | `src/kernel/drv/hda.c:692-696` | The loop terminates and refills exactly the periods left behind. |
| `HdaKernel.Driver.ServiceStream` | `src/kernel/drv/hda.c:686-704` | Services the stream as specified for any reported positions; keeps the accounts. |
| `HdaKernel.Driver.StartPlayback` | `src/kernel/drv/hda.c:726-744` | Primes and starts as specified; the accounts hold afterwards. |
| `HdaKernel.Driver.HdaWrite` | `src/kernel/drv/hda.c:854-876` | Queues what fits, never beyond the limit; plays afterwards exactly if it played before or the queue has reached the threshold; once tuned an idle engine takes something of every non-empty write. |
| `HdaKernel.Driver.HdaFlush` | `src/kernel/drv/hda.c:890-917` | Returns 0 exactly for a good reset, and then the engine is idle with FIFO, ring and buffers empty; otherwise nothing changes. |
| `HdaKernel.Driver.HdaSetRate` | `src/kernel/drv/hda.c:928-972` | From any state, also one left by a failed change: returns 0 exactly for a supported rate and a successful reset, and then the engine is empty and tuned. |
| `Elf.ScanOk` | `src/kernel/core/elf.c:80-93` | A first pass that succeeds has validated every segment to load and mapped all its pages. |
| `Elf.ScanHarmless` | `src/kernel/core/elf.c:80-93` | The first pass writes no byte and changes no page that was there before. |
| `Elf.BadFilesWriteNothing` | `src/kernel/core/elf.c:76-94` | No user byte is written before all segments and the entry point are validated: a bad header, segment or entry, or lack of memory, leaves every byte and every existing page as it was. |
| `Elf.StoreTwice` | `src/kernel/core/elf.c:161-170` | Copying in pieces is copying at once. |
| `Elf.LoadPermissions` | `src/kernel/core/elf.c:45-69` | After a successful load a page that a segment overlaps is writable exactly when a writable segment overlaps it, and executable exactly when it was or an executable segment overlaps it, whatever the order of the headers. |
| `Elf.LoadBytes` | `src/kernel/core/elf.c:96-105` | Every byte of a segment that no later segment covers is that of the file, or zero beyond its file part. |
| `Elf.CopyAllElsewhere` | `src/kernel/core/elf.c:96-105` | Bytes outside all segments stay as they were. |
| `Elf.EmptySegmentFails` | `src/kernel/core/elf.c:51-66` | A validated file loads exactly when no segment to load has memory size 0: the permission call for an empty range is an error, found only after the bytes have been written. |
| `Elf.SmallFileFails` | `src/kernel/core/elf.c:51-66` | A concrete file of 176 bytes, with an executable segment that holds the entry point and a read-only segment of memory size 0, passes validation and fails to load. |
| `ElfAnswers.ScanGoesThrough` | `src/kernel/core/elf.c:80-93` | The first pass goes through if and only if every segment to load is valid and memory can be had for each page that neither the space nor an earlier segment has; it then has added exactly their pages. |
| `ElfAnswers.LoadAnswer` | `src/kernel/core/elf.c:71-109` | A file loads if and only if its header is valid, every segment to load is valid, can be mapped and has memory, and the entry point lies in an executable one; the load returns the header's entry point and the end of the last segment, memory beyond its file part included; otherwise 0 for both. |
| `ElfAnswers.ScanEndsAt` | `src/kernel/core/elf.c:85-86` | The image end is at or beyond the end in memory of every segment to load, and is the end of one of them. |
| `ElfAnswers.LoadElsewhere` | `src/kernel/core/elf.c:71-109` | A load adds exactly the pages of its segments, and any other page keeps its permissions. |
| `ElfAnswers.SegmentDecoded` | `src/kernel/core/elf.h:24-33` | A program header packed field by field in the ELF64 order is read back as it was. |
| `ElfAnswers.HeaderDecoded` | `src/kernel/core/elf.c:25-37` | A header packed field by field is accepted exactly when it has program headers that lie in the file, and its entry point, offset and count are read back. |
| `Paging.ExtentWhole` | `src/kernel/arch/x86_64/paging.c:398-436` | Every byte of a range lies before the first unmapped page if and only if all pages of the range are mapped. |
| `Paging.ExtentIs` | `src/kernel/arch/x86_64/paging.c:398-436` | The point where a copy stops is determined by the mapped pages: all before it is mapped and it is the end of the range or in an unmapped page. |
| `Paging.MapAnswer` | `src/kernel/arch/x86_64/paging.c:295-336` | A range that has been mapped is there; pages that were not before read as zero, can be written and not executed; every other page is as it was. |
| `Paging.AddressSpace.MapUserRange` | `src/kernel/arch/x86_64/paging.c:295-336` | The loop maps the absent pages of a range one by one, blank, writable and not executable. It succeeds exactly for a range in bounds for whose absent pages memory can be had; at the first failure the pages marked as pending are taken back, and the space is exactly what it was. |
| `Paging.AddressSpace.Rollback` | `src/kernel/arch/x86_64/paging.c:322-335` | Taking back the pending pages of a partly mapped range restores the space as it was. |
| `Paging.AddressSpace.SetUserFlag` | `src/kernel/arch/x86_64/paging.c:365-396` | Page by page: succeeds exactly for a non-empty range in bounds with all pages mapped; whether or not it does, the flag has changed on exactly the pages before the first unmapped one. This is what changing writability and executability come to. |
| `Paging.AddressSpace.CopyToUser` | `src/kernel/arch/x86_64/paging.c:398-418` | Page by page: succeeds exactly for an empty range or one in bounds with all pages mapped; whether or not it does, exactly the bytes before the first unmapped page have been written. |
| `Paging.AddressSpace.ZeroUser` | `src/kernel/arch/x86_64/paging.c:420-436` | The same with zeros. |
| `ElfLoad.ElfLoadIntoSpace` | `src/kernel/core/elf.c:71-109` | The loader over a buffer, pass by pass: it succeeds exactly for the files that load, and then returns the entry point and the end in memory of the last segment. |
| `ElfLoad.ReadExactAt` | `src/kernel/core/elf.c:115-126` | Reads exactly the bytes asked for, however short the single reads are; fails beyond INT32_MAX or the end of the file. |
| `ElfLoad.CopyChunks` | `src/kernel/core/elf.c:161-170` | The loop over 16 KiB chunks stores the whole file part of a segment. |
| `ElfLoad.ElfLoadFileIntoSpace` | `src/kernel/core/elf.c:134-194` | For every stable file of at most INT32_MAX bytes the loader over a file succeeds exactly for the files that load, with the same entry, image end, bytes and permissions as the loader over a buffer. |
| `ElfLoad.LoadersAgree` | `src/kernel/core/elf.c:71-194` | Both loaders from the same address space end in equal results and equal address spaces. |
| `Ramfs.ListedOnce` | `src/kernel/fs/ramfs.c:48-52` | Every node in use but the root sits at exactly one position of exactly one sibling list, its parent's. |
| `Ramfs.UnderMoved` | `src/kernel/fs/ramfs.c:385-390` | After a node has been hung elsewhere, outside its own subtree, every node still leads to the root. |
| `Ramfs.BypassChain` | `src/kernel/fs/ramfs.c:125-133` | Making the previous link skip a node represents the list without it. |
| `Ramfs.RemoveTree` | `src/kernel/fs/ramfs.c:121-135` | Removing a node without children keeps the tree. |
| `Ramfs.AddTree` | `src/kernel/fs/ramfs.c:163-166` | Adding a new node under a directory without that name keeps the tree. |
| `Ramfs.MoveTree` | `src/kernel/fs/ramfs.c:371-393` | Moving a node with its subtree to a directory outside that subtree keeps the tree. |
| `Ramfs.MoveTreeIff` | `src/kernel/fs/ramfs.c:371-393` | A move keeps the tree if and only if the new parent lies outside the moved subtree; otherwise the node no longer reaches the root, and no reading of the links as lists makes the pool a tree. |
| `Ramfs.FindInUnique` | `src/kernel/fs/ramfs.c:54-62` | Because siblings have different names, the search by name finds exactly the node of that name. |
| `Ramfs.WalkKept` | `src/kernel/fs/ramfs.c:64-82` | Paths that avoid the node added or moved lead where they led. |
| `Ramfs.LeadsTo` | `src/kernel/fs/ramfs.c:64-82` | The path of the new parent followed by the name leads to the node added or moved. |
| `RamfsKernel.Pool.constructor` | `src/kernel/fs/ramfs.c:502-515` | The pool at boot is a tree with /dev, /proc and /fs below the root. |
| `RamfsKernel.Pool.FindChild` | `src/kernel/fs/ramfs.c:54-62` | Following sibling links finds the child of the name, or reports that there is none. |
| `RamfsKernel.Pool.ResolvePath` | `src/kernel/fs/ramfs.c:64-82` | Finds the node the path leads to, if any. |
| `RamfsKernel.Pool.ResolveParent` | `src/kernel/fs/ramfs.c:84-119` | Finds the directory that holds the last component and that component, if any. |
| `RamfsKernel.Pool.AllocNode` | `src/kernel/fs/ramfs.c:29-46` | Takes the first free node; fails exactly when the pool is full. |
| `RamfsKernel.Pool.AddChild` | `src/kernel/fs/ramfs.c:48-52` | Makes the node the first child of its parent. |
| `RamfsKernel.Pool.Skip` | `src/kernel/fs/ramfs.c:125-133` | Walking the links finds the one that leads to the node and makes it skip the node. |
| `RamfsKernel.Pool.DetachChild` | `src/kernel/fs/ramfs.c:137-152` | Takes a node out of its parent's list, keeping the node. |
| `RamfsKernel.Pool.UnlinkChild` | `src/kernel/fs/ramfs.c:121-135` | Frees a childless node and keeps the tree; every other node is what and where it was. |
| `RamfsKernel.Pool.CreateFile` | `src/kernel/fs/ramfs.c:154-168` | Exact conditions for success; then the path leads to a writable file, which is the existing one or the one new node; the pool stays a tree and every other node is what and where it was. |
| `RamfsKernel.Pool.MakeUnder` | `src/kernel/fs/ramfs.c:163-167` | Puts a new node under a directory; fails exactly when the pool is full. |
| `RamfsKernel.Pool.Mkdir` | `src/kernel/fs/ramfs.c:322-341` | Succeeds exactly when the parent is a directory, the name is free and the pool is not full; then the path leads to a new directory and every other node is what and where it was. |
| `RamfsKernel.Pool.Unlink` | `src/kernel/fs/ramfs.c:343-355` | Succeeds exactly for a writable file that need not stay, frees it, and keeps the tree and every other node. |
| `RamfsKernel.Pool.Rmdir` | `src/kernel/fs/ramfs.c:357-369` | Succeeds exactly for an empty directory that need not stay, frees it, and keeps the tree and every other node. |
| `RamfsKernel.Pool.Rename` | `src/kernel/fs/ramfs.c:371-393` | Succeeds exactly when the node may move, the target directory exists and the name is free there. If the new parent lies outside the moved subtree, the new path then leads to the same node, and the tree and every other node are kept; if it lies inside, which the code does not check, the call succeeds too and cuts the node off from the root. |
| `RamfsKernel.RenameInside` | `src/kernel/fs/ramfs.c:371-393` | For all names a and b: in the pool at boot, making a directory a and renaming it to b inside itself succeeds and leaves a pool that is no tree. |
| `RamfsKernel.Added` | `src/kernel/fs/ramfs.c:163-167` | What adding a node comes to: the tree is kept, the path leads to it, nothing else changes. |
| `RamfsKernel.MovedTo` | `src/kernel/fs/ramfs.c:385-390` | What moving a node comes to: the tree is kept, the new path leads to it, nothing else changes. |

## Left out

- MiniFsWrite.MiniFsWriter.SetContents: says nothing about the data area after a failure, because the source raises an exception and the image is not written back; it says that inodes and blocks in use are untouched.
- MiniFsWrite.MiniFsWriter.Open: does not promise a well-formed state for an image whose only fault is an inode in use that no directory lists, because the source's own checks on opening skip that one; it is well formed exactly when the checker accepts it.
- MiniFsWrite.MiniFsWriter.Perform: passes over exactly the additions whose name would break the directory, after which nothing could be promised; `AddChild` and `MiniFsNames.AcceptedWhenGood` state what those do.
- MiniFsCheck.MiniFsImage.WalkDirs: terminates for every depth, where the Python interpreter raises an error once directories nest deeper than its recursion limit, about a thousand levels.
- RamfsKernel.Pool.Mkdir: requires a last component under 24 bytes, as do `CreateFile` and `Rename`; longer ones are stored cut and not found again.
- Pmm.Allocator.FreeBlock: requires a block that is live; `FreePages` states what freeing any range does to bitmap, counter and rover.
- HdaEngine.StaysTuned: runs contain only changes of rate whose stream reset succeeds; `SetRateFailure` covers the others.
- HdaPlay.NoDrift: runs contain only changes of rate whose stream reset succeeds, because a failed one goes on playing the old ring under the new settings.
- VfsKernel.Kernel.OpenAbsForOwner: leaves out path lookup among mounts and what a file system stores in the open file; whether they succeed are parameters, and files that are not pipes carry no state.
- MiniFS pointers are modelled raw (block number plus one, 0 for none), where the Python code mostly subtracts one; the scan keeps the zeros that the code skips.
- MiniFS images have fewer than 65536 data blocks in the writer, the limit of the 16-bit pointers; the paths the walk records for listing, the printed summary, `list_tree` and the command lines.
- The WAD header test before installing.
- Open flags and access modes, seek positions, `lseek`, `getdents`, `stat` and device files; what a read or a write of a descriptor that is not a pipe does.
- Task 0, which cannot be blocked, polls a pipe that is not ready; the scheduler itself, fairness and signals.
- VfsKernel.Kernel.PutBytes: holds the ring's buffer as a sequence value, as `PipeRead` does; `PipeRing.Buffer` is the same ring edited in place. Data races that the VFS lock excludes, and null buffers.
- Spin locks, interrupt masking and memory barriers: a section under a lock is one step.
- The ATA protocol: a request is within the disk and its fate is arbitrary; sector counts and sizes beyond 32-bit sector numbers.
- BlockCacheUse.LeastRecentlyUsed: says nothing after the 32-bit clock has wrapped, when the ages no longer follow the order of use.
- Allocator bitmap words are one boolean per page; `pmm_info` and the debug output; the memory map comes as a sequence.
- Paging.AddressSpace.MapUserRange: leaves out the tables above the pages, which a failed mapping prunes, and physical addresses; an address space is a set of mapped pages with bytes and flags.
- Audio hardware: codec verbs and amplifier settings, stream descriptor setup, interrupts; the connection graph is a value and the FIFO's masked indices are a queue; the right channel, which equals the left.
- Ramfs file data, read-only files registered at boot, directory listings and stat; components are found by `Paths.Parts`, not character by character.
- The kernel's own MiniFS driver, devfs, procfs, system-call layer, network stack, consoles and user programs.
