# DreamCore in Dafny

A model of the parts of DreamCore whose correctness is hardest to see by reading: the journaled filesystem DFS, the
process and descriptor tables, the kernel image compressor, the physical memory hand-over, the disk installer and a
part of libc. Every module states in Dafny what the code does, in the code's own form - classes where the kernel
updates tables, arrays where it works in place, loops where it loops - and proves what it is for.

Run `dafny verify dfyconfig.toml`; it takes a few minutes.

## What is modelled

**The disk** (`Disk.dfy`). A disk has durable sectors and pending writes; losing power keeps any subset of the pending
writes. The class `Disk` also remembers, for the proofs only, every image that a power loss at any moment so far could
have left. Crash safety is therefore an ordinary postcondition: whatever is in that set mounts to something allowed.
Sector writes are atomic. The CRC step that absorbs one byte is a parameter of every theorem, so none of them depends
on the checksum being free of collisions.

**DFS** (`Dfs*.dfy`), from `kernel/src/fs/dfs.rs`. From the bottom up: layout, records and the inode codec; extents,
paths and the bitmap; the transaction and the redo journal; the run allocator; the abstract metadata (`DfsState`) and
what keeps it consistent; the operations; and whole runs. `DfsImage.Lookup` reads a disk image as a map from paths to
entries. `DfsSpec.Done` says what each operation does to that map and `DfsSpec.Interrupted` what a power loss in the
middle of it may leave. The latter takes the answer the operation gives, so that a refused one may leave no more than
it does. `DfsSession.Run` proves both for every sequence of operations, each with the power losses during it kept
apart, together with when a write is all or nothing among them (`DfsAtomic`), the ownership invariant (extents
disjoint, inside the data area, marked; and, if it was so at the start, nothing else marked) and the tree invariant
(unique paths, every parent a live directory). `PowerLossMounts` and `MountingIsRestartable` say what mounting then
finds, `Durability` that it never loses what an operation had returned from.

**Processes and pipes** (`Ipc.dfy`, `Opening.dfy`, `Descriptors.dfy`, `Processes.dfy`, `Kernel.dfy`, `KernelRun.dfy`,
`VainWaits.dfy`), from `kernel/src/exec/process.rs`, `kernel/src/ipc.rs` and `kernel/src/abi/syscall.rs`. The kernel
is an object with the process table, the descriptor tables and the pipes. Its invariant has three parts: pids are
unique and parents are older; every pipe counts exactly the descriptors that name it; and every zombie's status is
still to be handed to its creator. Every call keeps it. A fourth property, that every blocked process waits for a
living child of its own (`Processes.Waits`), is kept by every call but a `waitpid` that waits in vain. A ghost history
numbers births and records by whom each was created, so "its creator" does not depend on pids. `KernelRun.Drive` is
about every sequence of calls, those included.

**The image compressor** (`LzFormat.dfy`, `LzBytes.dfy`, `LzParse.dfy`, `Dzimage.dfy`, `Dzunpack.dfy`, `Dzpack.dfy`),
from `tools/dzpack.rs` and `bootstrap/dzimage.rs`. `LzFormat` says what a stream is and what it stands for without
reference to either program; the compressor is proved to write such a stream for its input and the unpacker to accept
exactly such streams.

**Memory** (`Physical.dfy`, `Memory.dfy`, `FrameAllocator.dfy`, `BootAllocator.dfy`), from `bootstrap/bootstrap.rs`
and `kernel/src/mm/memory.rs`. `HandOut` runs all of it. That no frame is given twice rests on usable entries that do
not overlap, that as many are given as were reported on a direct map that has room for them.

**Installation** (`Gpt.dfy`, `GptForm.dfy`, `Installer.dfy`, `Partitioning.dfy`, `PartitionTable.dfy`, `Install.dfy`),
from `kernel/src/fs/installer.rs` and `kernel/src/fs/gpt.rs`; the format is that of sections 5.3.2 and 5.3.3 of the
UEFI Specification.

**libc** (`Sorting.dfy`, `Numerals.dfy`, `NumeralForm.dfy`, `Printf.dfy`, `PrintField.dfy`, `PrintParse.dfy`), from
`userland/libc/stdlib.c` and `userland/libc/stdio.c`: heap sort and binary search for any total preorder, and number
conversion in both directions (sections 7.21.6, 7.22.1.4 and 7.22.5 of ISO/IEC 9899:2011). `NumeralForm` and
`PrintField` say what is read and printed without reference to how the code goes about it.

## What the code does not promise

Where the code falls short of what one would expect, the model keeps the code and states exactly when it holds.

- A path with a NUL byte is stored whole but read back cut. The new entry is found under its name if and only if the
  name has no NUL (`CreatedIsFound`); paths stay unique if and only if nothing has the name cut at its first NUL
  (`StoredUniqueIff`); the filesystem stays consistent if and only if moreover the cut name is a proper one
  (`CreatedOkIff`). With "a" in the root, creating "a", NUL, "b" makes two inodes of path "a" (`NulMakesDoubles`). The
  operations ask for no more of a name than that condition, which every name without a NUL meets (`PlainIsHarmless`).
- A blocking `waitpid` for any child records a pid that no process ever has (the comment at
  `kernel/src/exec/process.rs:1384-1385` says that any exit clears it; the loop at 947-951 does not), and a caller
  whose status pointer is bad is left waiting for a zombie; either way it waits for good, whatever is called
  afterwards, and the timer stops preempting (`KernelRun.Drive`; `NeverAgain` gets there in two calls from boot). A
  blocking call does give up the processor, although the comment at 1392-1393 says otherwise. `WaitPid` says that all
  waits stay answerable if and only if neither happens.
- `sort_and_merge_ranges` answers an empty list with 1.
- The plus and blank flags of `printf` put a sign before unsigned conversions too, and any pointer gets "0x"
  (`BareIs`).
- Where a conversion prints 2^31 characters or more before padding, their number becomes negative as an `int` and the
  padding is more than 2^63 characters (`Overlong`); up to there the width is as stated (`FieldIs`).
- A reserved range of no length takes away the page it begins inside of (`BlockedIff`).
- Bytes taken from a pipe for a caller whose buffer turns out to be bad are lost (`ReadPipe`).
- A frame whose address in the direct map would overflow is taken from its region and then lost.
- The part of `compress` that would enter the positions inside a match into the hash table never has anything to do,
  because at that point the cursor is too close to the match end; it is modelled as written.
- A recursive removal of a tree deeper than the limit is refused, and by then may have removed part of it. Nothing is
  gone if and only if the way from first child to first child, in the order of the inode table, leads past the limit
  (`DfsDepth.Straight`); `RefusedHalfway` is a tree where it does not. The top of the tree and what is out of reach
  are always still there, and every other failure of a removal changes nothing (`DfsSpec.RemoveDone`).
- A power loss between the writes of data and their inode may show new sectors within the old size of a file that was
  being overwritten: contents are not journaled (`documentation/README.md:36`). A write is all or nothing if and only
  if it changes no more than one sector of what the file shows, and none if the file grows (`AtomicAt`, for each write
  of a `Run`); where it is not, every mixture of old and new sectors can be seen (`WriteAt`). An append shows nothing
  of itself.
- A reserved range that reaches past the last address is ignored, so its pages may be handed out; unless it meets
  another range, with which it is merged into one that ends there (`HandedOutIff`).
- `open` may have made or emptied the file when it fails (`RefusedLate`).
- Behind a region whose end would overflow the boot allocator does not look for room (`FitsIff`).

## Model

| member | source | states |
|---|---|---|
| `Bytes.FromLeIs` | kernel/src/fs/dfs.rs:1152-1169 | In an integer of two, four or eight bytes the first counts 1 and each further one 256 times as much as the one before |
| `Disks.CrashIsSubset` | kernel/src/drivers/block.rs:11-23 | Keeping, sector by sector, the old contents or one of the pending writes is exactly what the survival of some subset of the pending writes in order amounts to, for every image and every list of pending writes |
| `Disks.Disk.ReadSector` | kernel/src/drivers/block.rs:15-16 | A read sees the newest pending write to the sector, or the durable contents if there is none |
| `Disks.Disk.WriteSector` | kernel/src/drivers/block.rs:18-19 | A write replaces one whole sector of the view, stays pending, and adds every subset it makes possible to the images a power loss may leave |
| `Disks.Disk.Flush` | kernel/src/drivers/block.rs:21-22 | After a flush everything written is durable and nothing is pending |
| `Crc.UpdateAppend` | kernel/src/fs/dfs.rs:1270-1291 | A checksum accumulated piece by piece is the checksum of the concatenation |
| `Crc.Crc32Is` | kernel/src/fs/dfs.rs:1270-1291 | The checksum of nothing is 0, and one more byte goes through the step in complement: with the step this fixes every checksum |
| `DfsLayout.LayoutRegions` | kernel/src/fs/dfs.rs:1121-1150 | A layout exists exactly when there is room for a data sector and no address overflows; its regions then follow one another without gap or overlap and the bitmap has at least one bit, and less than one sector too many, for every sector |
| `DfsSuperblock.SuperblockRoundTrip` | kernel/src/fs/dfs.rs:1152-1200 | The superblock that is written is accepted with the same layout, for every layout that can be made |
| `DfsSuperblock.SuperblockIff` | kernel/src/fs/dfs.rs:1171-1200 | A sector is accepted as superblock if and only if the partition has a layout, every field written for that layout is found in it, and the checksum is right |
| `DfsSuperblock.EncodeSuperblock` | kernel/src/fs/dfs.rs:1152-1169 | The sector assembled field by field is the record that `SuperblockRoundTrip` reads back |
| `DfsNode.EncodeNode` | kernel/src/fs/dfs.rs:1202-1226 | Encoding succeeds exactly when path, extents and kind fit the record, and gives the record that `NodeRoundTrip` is about |
| `DfsNode.LoadNode` | kernel/src/fs/dfs.rs:1228-1268 | Decoding in loops (path scan, extent scan with refusals) agrees with the decoding function `NodeRoundTrip` is about on every sector, good or bad |
| `DfsNode.NodeRoundTrip` | kernel/src/fs/dfs.rs:1202-1268 | A stored inode reads back as itself with its path cut at the first NUL; it reads back unchanged if and only if the path has no NUL |
| `DfsNode.EmptyRoundTrip` | kernel/src/fs/dfs.rs:1202-1232 | An all-zero sector and the empty inode stand for each other, whatever the checksum does |
| `DfsDecoding.NodeIff` | kernel/src/fs/dfs.rs:1228-1268 | A sector is accepted as an inode if and only if its kind is 0, or it is a file or directory whose fields are all where they are written, whose path ends at a NUL or fills its field, and whose checksum is right |
| `DfsBitmap.SetBitFrame` | kernel/src/fs/dfs.rs:1293-1299 | Setting a bit of a bitmap sector gives that bit the value and leaves the other 4095 alone |
| `DfsBitmap.ByteIs` | kernel/src/fs/dfs.rs:1293-1299 | The eight bits of a byte count 1, 2, 4 and so on up to 128 |
| `DfsBitmap.Located` | kernel/src/fs/dfs.rs:773-787 | Every sector of the partition has its bit inside the bitmap area |
| `DfsBitmap.HomeAndSlotTell` | kernel/src/fs/dfs.rs:773-787 | No two sectors share a bit |
| `DfsExtents.TiledFinds` | kernel/src/fs/dfs.rs:627-637 | Looking a logical sector up in extents that tile the file finds exactly the sector at that position, and nothing past the end |
| `DfsExtents.Locate` | kernel/src/fs/dfs.rs:627-637 | The extent scan is the lookup `TiledFinds` is about |
| `DfsExtents.AllocatedSectors` | kernel/src/fs/dfs.rs:372-375 | The sum over the extents is the number of sectors of the file |
| `DfsExtents.AddExtentAppends` | kernel/src/fs/dfs.rs:680-709 | Adding a run, merged with the last extent or not, appends exactly its sectors to the file, keeps the tiling and changes nothing else of the inode |
| `DfsExtents.AddExtentStorable` | kernel/src/fs/dfs.rs:680-709 | An inode that can be stored can still be stored after a run was added |
| `DfsPath.CanonicalIsNamed` | kernel/src/fs/dfs.rs:1301-1315 | What canonicalising returns is the root or a name that canonicalises to itself |
| `DfsPath.CanonicalIsClean` | kernel/src/fs/dfs.rs:1301-1315 | A canonical path is the root or has no empty component, fits an inode, and has no NUL that was not there before |
| `DfsPath.ParentSplit` | kernel/src/fs/dfs.rs:1317-1319 | A path is its parent, a slash and a name without a slash; or a name alone when the parent is the root |
| `DfsPath.ChildIffParent` | kernel/src/fs/dfs.rs:1321-1332 | A path is an immediate child of a directory if and only if that directory is its parent |
| `DfsCanonical.CanonicalIff` | kernel/src/fs/dfs.rs:1301-1315 | A path stands for `q` if and only if it is `q` or a slash and `q`, and `q` is empty, the root, or one or more names joined by slashes in at most 255 bytes, none of them empty, ".", ".." or with a slash; anything else is refused as invalid |
| `DfsTransaction.Transaction.Add` | kernel/src/fs/dfs.rs:142-157 | A write replaces an earlier one to the same sector or joins the end; it is refused exactly when it is a seventeenth distinct sector |
| `DfsTransaction.TransactedApplies` | kernel/src/fs/dfs.rs:142-157 | A transaction that keeps one update per sector has the effect of all the updates in order |
| `DfsJournal.TransactionChecksum` | kernel/src/fs/dfs.rs:1270-1277 | The checksum loop gives the checksum the record is decoded with |
| `DfsJournal.DecideRecord` | kernel/src/fs/dfs.rs:814-910 | A record written over its payload is decoded to exactly the writes that were committed |
| `DfsJournal.UncommittedRecovers` | kernel/src/fs/dfs.rs:853-861 | While the header sector is zero, mounting changes nothing, whatever the payload slots hold |
| `DfsJournal.CommittedRecovers` | kernel/src/fs/dfs.rs:853-910 | Once the record is on disk, mounting arrives at all the new sectors, whichever of the in-place writes had happened |
| `DfsJournal.CommitTransaction` | kernel/src/fs/dfs.rs:814-851 | Committing applies the whole transaction, leaves a zero header and nothing pending; every image a power loss can leave on the way mounts to exactly the old or exactly the new sectors, and outside targets and journal nothing differs |
| `DfsJournal.WritePayload` | kernel/src/fs/dfs.rs:819-835 | No power loss while the slots are filled can be taken for a commit |
| `DfsJournal.LandTargets` | kernel/src/fs/dfs.rs:836-850 | From the moment the header is durable every power loss mounts to the new sectors; the header is retired only after they are durable |
| `DfsJournal.ReplayJournal` | kernel/src/fs/dfs.rs:853-910 | Replay succeeds exactly when the record is absent or intact, arrives at the image `Recovered` says and leaves a zero header; a refusal changes nothing; every image a power loss during replay can leave is one the next theorem covers |
| `DfsJournal.ReplayIsRepeatable` | kernel/src/fs/dfs.rs:853-910 | A replay that was cut short leaves a disk that the next replay takes to the same image |
| `DfsJournal.CrashesDuringReplay` | kernel/src/fs/dfs.rs:853-910 | So does any number of power losses during recovery, one after the other |
| `DfsRecord.RedoIff` | kernel/src/fs/dfs.rs:853-910 | Writes are redone if and only if the header is a committed record of one to sixteen of them with the right checksum, the slots hold their data, and none leaves the partition or touches the journal |
| `DfsRecord.ElseIff` | kernel/src/fs/dfs.rs:853-875 | Nothing is done for an all-zero header or one marked done; whatever is neither that nor to be redone is refused |
| `DfsRecord.CoversAll` | kernel/src/fs/dfs.rs:1270-1277 | The checksum is over every address and every byte of data: no two records of as many writes look the same to it |
| `DfsRuns.FindFreeRun` | kernel/src/fs/dfs.rs:639-678 | The run returned is the first free stretch, non-empty, no longer than asked for and than 15 bitmap sectors; the search fails exactly when no data sector is free |
| `DfsRuns.FirstFitMeans` | kernel/src/fs/dfs.rs:639-678 | The run found by the scan over cached bitmap sectors is the first fit on the bitmap itself |
| `DfsRuns.StampRun` | kernel/src/fs/dfs.rs:711-739 | The bitmap sectors collected for a run never overflow the transaction and are the writes `RunLands` is about |
| `DfsRuns.RunLands` | kernel/src/fs/dfs.rs:711-738 | Applying them marks exactly the sectors of the run |
| `DfsRuns.CachedBit` | kernel/src/fs/dfs.rs:650-658 | The cache holds the bitmap sector of the bit that is looked at, so the bit is the one on disk |
| `DfsAlloc.ReserveRun` | kernel/src/fs/dfs.rs:711-739 | A run and its inode are stored in one transaction that always fits the sixteen slots: both appear or neither does |
| `DfsAlloc.ReleaseRun` | kernel/src/fs/dfs.rs:741-771 | A run of any length is released, in as many transactions as that takes, without ever overflowing one; every power loss on the way leaves exactly the bits of a first part of the run cleared and nothing else changed |
| `DfsState.FindUnique` | kernel/src/fs/dfs.rs:596-604 | In a consistent tree the first inode with a path is the only one |
| `DfsState.TreeCreate` | kernel/src/fs/dfs.rs:555-589 | A new inode under an existing directory keeps paths unique and every parent a live directory |
| `DfsState.TreeRemove` | kernel/src/fs/dfs.rs:438-488 | Removing a childless inode keeps the tree closed |
| `DfsState.GrowKeeps` | kernel/src/fs/dfs.rs:376-382 | A file that takes sectors nobody had, now marked, keeps ownership disjoint and inside the data area; no marked sector is left without an owner |
| `DfsState.EmptyKeeps` | kernel/src/fs/dfs.rs:490-507 | A file that gives up its sectors before they are unmarked leaves everything consistent |
| `DfsState.FreeKeeps` | kernel/src/fs/dfs.rs:497-505 | Unmarking sectors that nobody owns leaves everything consistent |
| `DfsState.ReleaseSettles` | kernel/src/fs/dfs.rs:497-505 | Once they are unmarked, a data sector is marked if and only if it has an owner |
| `DfsImage.CoreFrame` | kernel/src/fs/dfs.rs:853-910 | Nothing about the files depends on what is in the journal |
| `DfsFind.FindIndex` | kernel/src/fs/dfs.rs:596-604 | On a consistent disk the scan finds the one inode with the path, or none, and never meets a corrupt one |
| `DfsFind.StoreNode` | kernel/src/fs/dfs.rs:617-625 | Storing an inode replaces it in the table, and a power loss leaves the old table or the new one |
| `DfsFind.ReadNode` | kernel/src/fs/dfs.rs:606-615 | An index past the table is refused; otherwise the answer is what the sector of that inode decodes to |
| `DfsFind.FindNode` | kernel/src/fs/dfs.rs:591-594 | The inode found is the one with the path, and there is none exactly when no live inode has it |
| `DfsFind.FindFree` | kernel/src/fs/dfs.rs:573-578 | The lowest free slot behind the root, or no space exactly when there is none |
| `DfsFind.Commit` | kernel/src/fs/dfs.rs:789-812 | More than sixteen updates, or one outside the partition or inside the journal, are refused untouched, and nothing else is; no updates change nothing; any others take effect together, as if carried out in order, at every power loss all or none |
| `DfsNames.CreateKeepsTreeIff` | kernel/src/fs/dfs.rs:555-589 | With an accepted new name stored as it will be read back, the paths form a tree if and only if the name, cut at its first NUL, is a proper one and free; its parent needs no further condition |
| `DfsNames.CutKeepsParent` | kernel/src/fs/dfs.rs:1317-1319 | Cutting a name at a NUL behind its last slash leaves its parent |
| `DfsNames.CreateAnswers` | kernel/src/fs/dfs.rs:555-578 | Which answer: whether a live inode has the path, whether a directory has its parent's, whether a slot behind the root is free, in this order |
| `DfsCreate.CreateNode` | kernel/src/fs/dfs.rs:555-589 | Creation fails exactly for an existing name, a missing or unsuitable parent or a full table, without touching the disk; otherwise the new inode joins the table as it reads back, and the filesystem stays consistent if and only if the name, cut at its first NUL, is a proper one and free; exactly that entry, empty, then appears, and a power loss shows it or not |
| `DfsCreate.CreatedIsFound` | kernel/src/fs/dfs.rs:555-589 | A new inode is found again under the name it was created with if and only if the name holds no NUL byte |
| `DfsCreate.StoredUniqueIff` | kernel/src/fs/dfs.rs:555-589 | Whatever inode is stored in a free slot: paths stay unique if and only if nothing has its name cut at the first NUL, and form a tree if and only if moreover that name is a proper one with a live directory as its parent |
| `DfsCreate.CreatedOkIff` | kernel/src/fs/dfs.rs:555-589 | The filesystem is consistent after a creation if and only if the name, cut at its first NUL, is a proper one and free |
| `DfsCreate.NulMakesDoubles` | kernel/src/fs/dfs.rs:555-589 | An input that breaks it: on any consistent disk with an "a" in the root and a slot free, creating "a", NUL, "b" is accepted and leaves two inodes of path "a" |
| `DfsGrow.Allocate` | kernel/src/fs/dfs.rs:372-382 | The allocation loop ends with exactly the sectors asked for, or with no space or no extent left; no entry anywhere shows a change, the grown inode is stored and consistent, and so is every state a power loss can leave |
| `DfsGrow.AddExtentRoom` | kernel/src/fs/dfs.rs:680-709 | For an inode of a consistent filesystem only a fifteenth fragment is refused, and a run that follows the last one is none: the 32-bit counts never overflow |
| `DfsGrow.GrownLooksSame` | kernel/src/fs/dfs.rs:376-382 | Growing a file does not change what anyone reads |
| `DfsGrow.AllocateStep` | kernel/src/fs/dfs.rs:377-381 | Each turn gets strictly nearer to what is required and never beyond it, or changes nothing because no sector is free, or because there are fourteen extents and the lowest free sector does not follow the last one |
| `DfsData.WriteData` | kernel/src/fs/dfs.rs:384-406 | The data loop turns every sector the range touches into the old sector with its part of the input over it, and no other; a power loss leaves each of them old or new |
| `DfsData.WriteStep` | kernel/src/fs/dfs.rs:387-405 | Each turn leaves one more sector patched and moves past it |
| `DfsData.TornMayCrash` | kernel/src/fs/dfs.rs:384-406 | With all the data pending, any choice of old and new sectors may be what a power loss leaves |
| `DfsPatch.PatchedContent` | kernel/src/fs/dfs.rs:384-406 | Sectors patched one by one are the file with the input spliced in at the offset |
| `DfsPatch.TornAppend` | kernel/src/fs/dfs.rs:384-409 | While the old size is in force a torn append shows nothing of itself |
| `DfsWritten.TornRewrites` | kernel/src/fs/dfs.rs:384-408 | Until then every power loss shows, within the old size, each sector of the file as it was or as the write makes it, and nothing else changed |
| `DfsWritten.TornIsReached` | kernel/src/fs/dfs.rs:384-408 | Conversely every such mixture of old and new sectors is what some half-done write shows |
| `DfsWritten.PublishedRewrites` | kernel/src/fs/dfs.rs:407-409 | Publishing the size over complete data shows exactly the splice |
| `DfsWrite.WriteAt` | kernel/src/fs/dfs.rs:364-411 | From the inode on, a write is a splice of the bytes or an error that leaves them as they were; a power loss shows the old size with old or new sectors in it, or the whole write, and only the old bytes if the write is refused; every mixture of old and new sectors is what some power loss shows |
| `DfsWrite.AtomicIff` | kernel/src/fs/dfs.rs:384-410 | Every mixture of the old and new sectors of a file is the old or the new file if and only if the write changes no more than one sector of what the file shows, and none if the file grows |
| `DfsWrite.AppendIsAtomic` | kernel/src/fs/dfs.rs:364-410 | A write that begins exactly at the end of a file is all or nothing under every power loss |
| `DfsWrite.WriteDurably` | kernel/src/fs/dfs.rs:384-408 | The data is durable before any inode speaks of it |
| `DfsRead.ReadFile` | kernel/src/fs/dfs.rs:299-339 | A read returns the bytes of the entry from the offset on until the buffer is full or the file ends, and nothing less; from 0 into a buffer large enough it returns the whole file; it never finds the metadata corrupt and leaves the rest of the buffer alone |
| `DfsRead.Stat` | kernel/src/fs/dfs.rs:509-515 | The metadata returned is that of the entry, its size the number of its bytes |
| `DfsFree.ReleaseExtents` | kernel/src/fs/dfs.rs:497-505 | Giving back the runs of an inode that no longer has them unmarks exactly those sectors; at every power loss the files look the same |
| `DfsVacate.Vacate` | kernel/src/fs/dfs.rs:483-507 | The inode changes first, then its sectors go back: afterwards exactly the owned sectors are marked |
| `DfsVacate.VacateIsAtomic` | kernel/src/fs/dfs.rs:483-507 | A power loss meanwhile shows the entry whole or shows it emptied or gone |
| `DfsDepth.StraightIsDeep` | kernel/src/fs/dfs.rs:445-482 | A way from first child to first child that leads past the limit, on which a removal gives up before anything is gone, is one on which it is refused |
| `DfsDepth.DeepIsConsistent` | kernel/src/fs/dfs.rs:438-488 | A table with 33 directories inside each other below "d" is consistent |
| `DfsDepth.RefusedHalfway` | kernel/src/fs/dfs.rs:445-482 | Removing "d" from it recursively is refused, and has by then lost the file that was its first child |
| `DfsReach.RemoveAnswers` | kernel/src/fs/dfs.rs:438-482 | The answer to a removal: the root is refused, then what is not there, then without the flag what has children, then what has a descendant more than 32 parents down; everything else is removed |
| `DfsReach.AncestorIff` | kernel/src/fs/dfs.rs:445-482 | A path is the n-th parent of another exactly when that one lies below it and n levels down |
| `DfsTree.DescendantHasChild` | kernel/src/fs/dfs.rs:454-482 | Below a directory without children there is nothing |
| `DfsTree.PrunedShows` | kernel/src/fs/dfs.rs:438-488 | However far a recursive removal got, every path outside the subtree is as before and every path inside as before or gone |
| `DfsTree.SubtreeOfChildless` | kernel/src/fs/dfs.rs:454-482 | An inode without children is its whole subtree |
| `DfsRemove.RemoveAt` | kernel/src/fs/dfs.rs:438-488 | The answer is exactly the one the tree, the flag and the depth limit call for; it terminates; on success the whole subtree is gone; a refusal has lost something exactly when `Halfway` says so, never the top or what is out of reach, and otherwise touches nothing; what has no children goes whole or not at all |
| `DfsRemove.FirstChild` | kernel/src/fs/dfs.rs:459-474 | The child found is the first in table order, and there is none exactly when the directory is empty |
| `DfsRemove.RemoveChildren` | kernel/src/fs/dfs.rs:454-482 | The loop empties the directory, or stops only at what lies too deep, having lost something or not as `Straight` says; without the flag, or without children, it touches nothing |
| `DfsOps.WriteFile` | kernel/src/fs/dfs.rs:341-411 | Seen through paths, writing is a splice into one entry (created first if asked for) or an error that keeps its contents, and every other entry stays the same; power losses show no more than what the write, with the answer it would give, may leave; a refused one nothing but a new file created for it |
| `DfsOps.CreateDirectory` | kernel/src/fs/dfs.rs:413-427 | Exactly one empty directory entry appears, or nothing changes; a power loss shows one or the other, and nothing if the call is refused; for any name the filesystem stays consistent if and only if the name is one that keeps the tree |
| `DfsOps.Truncate` | kernel/src/fs/dfs.rs:490-507 | Exactly one file becomes empty and keeps its other metadata, or nothing changes |
| `DfsOps.Remove` | kernel/src/fs/dfs.rs:429-488 | Exactly one subtree disappears, or the answer says why not and nothing changes, unless the removal stops halfway; a power loss shows what has no children whole or gone, of a subtree any part gone, and nothing if the call is refused |
| `DfsSpec.HalfwayShows` | kernel/src/fs/dfs.rs:438-488 | A removal that stopped halfway, in terms of paths: something of the subtree is gone, its top is there, and so is everything out of reach |
| `DfsSpec.WriteShows` | kernel/src/fs/dfs.rs:341-411 | After a write the path shows, byte by byte, the input where it was written and what was there elsewhere, and is as long as the longer of the two |
| `DfsSpec.PlainIsHarmless` | kernel/src/fs/dfs.rs:555-589 | A name without a NUL always keeps the tree |
| `DfsSpec.AppendInterrupted` | kernel/src/fs/dfs.rs:341-411 | In terms of paths: a power loss during an append shows the old file or the whole new one |
| `DfsFormat.Format` | kernel/src/fs/dfs.rs:161-202 | Formatting succeeds exactly when a layout exists and leaves a consistent filesystem with an empty root directory, no marked sector and nothing outside the partition touched |
| `DfsFormat.FreshBitmap` | kernel/src/fs/dfs.rs:174-180 | Exactly the bits of the sectors before the data area are set |
| `DfsAtomic.AtomicAt` | kernel/src/fs/dfs.rs:384-410 | Over all the images that power losses during an overwriting write may leave: each mounts to a file that shows the old bytes or all of the new ones if and only if the write is one that `AtomicIff` calls so |
| `DfsAtomic.ManyStepsAreNot` | kernel/src/fs/dfs.rs:384-410 | Where it is not, one of these images shows neither |
| `DfsSession.Mount` | kernel/src/fs/dfs.rs:204-217 | Mounting gives the answer that superblock, journal and root call for, leaves a zero header and the recovered image, and may itself be cut short; a refusal leaves the disk alone, or recovered if it was for the root |
| `DfsSession.MountIff` | kernel/src/fs/dfs.rs:204-217 | What mounts: a superblock that is accepted, a journal that is absent or intact, and behind it a root that decodes to a directory with the empty path; a refusal is invalid filesystem for the superblock and corrupt metadata for the rest |
| `DfsSession.MountSucceeds` | kernel/src/fs/dfs.rs:204-217 | A disk whose recovered image is a consistent filesystem mounts |
| `DfsSession.Run` | kernel/src/fs/dfs.rs:341-507 | For every sequence of operations each does to the state before it what its specification says, the filesystem stays consistent, marked sectors stay exactly the owned ones, every power loss during the k-th operation recovers to the state before it or to what that operation, with the answer it gives, may leave, and an overwriting write is atomic among them exactly as `AtomicAt` says |
| `DfsSession.PowerLossMounts` | kernel/src/fs/dfs.rs:204-217 | Whatever a power loss during the k-th operation leaves mounts to a consistent filesystem showing the state before it or what it may leave |
| `DfsSession.Durability` | kernel/src/fs/dfs.rs:341-507 | What an operation has returned from stays: a path that the operations from the j-th to the k-th leave alone shows, after a power loss during the k-th, what it showed when the j-th began |
| `DfsSession.MountingIsRestartable` | kernel/src/fs/dfs.rs:204-217 | Any number of further power losses while mounting change neither that it succeeds nor what it shows |
| `Ipc.Pipes.Create` | kernel/src/ipc.rs:84-94 | The lowest closed pipe is opened with one end of each kind and an empty history; the call fails exactly when all are open |
| `Ipc.Pipes.AddReader` | kernel/src/ipc.rs:108-112 | One more read end is counted, up to the limit of the counter; a closed pipe is refused |
| `Ipc.Pipes.AddWriter` | kernel/src/ipc.rs:115-119 | One more write end, likewise |
| `Ipc.Pipes.CloseReader` | kernel/src/ipc.rs:124-131 | One read end fewer; the pipe is recycled exactly when no end is left |
| `Ipc.Pipes.CloseWriter` | kernel/src/ipc.rs:134-141 | One write end fewer, likewise |
| `Ipc.Pipes.Read` | kernel/src/ipc.rs:148-164 | The oldest bytes leave in order: all bytes accepted over the life of the pipe are those delivered followed by those buffered; a read would block exactly when nothing is buffered and a writer is counted |
| `Ipc.Pipes.Write` | kernel/src/ipc.rs:170-189 | As much of the input as fits joins the end of the stream; broken exactly without readers, would block exactly when the ring is full |
| `Descriptors.NamedIsOpen` | kernel/src/exec/process.rs:1753-1759 | While the counts agree with the tables no descriptor names a closed pipe |
| `Descriptors.NoWritersMeans` | kernel/src/ipc.rs:134-141 | A pipe counts no writers if and only if no table of any process holds a write end of it |
| `Descriptors.NoReadersMeans` | kernel/src/ipc.rs:124-131 | The same for readers |
| `Descriptors.SameOpenSameEnds` | kernel/src/abi/syscall.rs:1145-1159 | The counts follow from the tables: with the same descriptors open every pipe has the ends it had |
| `Descriptors.TakeCounts` | kernel/src/ipc.rs:108-119 | Taking a reference keeps the counts equal to the descriptors, the new one included |
| `Descriptors.GiveCounts` | kernel/src/ipc.rs:124-141 | So does giving one back, also when it was the last and the pipe is recycled |
| `Descriptors.StoreCounts` | kernel/src/exec/process.rs:1794-1828 | So does storing a descriptor over another, which is then the one to give back |
| `Descriptors.SpawnSlots` | kernel/src/exec/process.rs:1472-1507 | So each slot of the table a spawned child starts with |
| `Processes.SomebodyRuns` | kernel/src/exec/process.rs:909-983 | In every sound table with somebody alive, somebody is runnable or somebody is stopped |
| `Processes.AwaitedIsHigher` | kernel/src/exec/process.rs:1378-1391 | A blocked process waits for a living process with a higher pid, so the wait graph has no cycle |
| `Processes.WaitsEnd` | kernel/src/exec/process.rs:1378-1391 | Following waits from any process one arrives at a living process that does not wait |
| `Processes.PidIsFresh` | kernel/src/exec/process.rs:1131-1137 | A new pid is above every pid and every parent field in the table |
| `Processes.BirthKeeps` | kernel/src/exec/process.rs:1220-1226 | A birth keeps pids unique, parents older than children and every wait answerable |
| `Processes.EndKeeps` | kernel/src/exec/process.rs:918-952 | So does an exit: whoever waited for the process is released |
| `Processes.ReapReconciles` | kernel/src/exec/process.rs:1415-1465 | A status is handed to the process that created the child, and for the first time; the record of hand-overs stays one in which that is so of each |
| `Processes.BirthReconciles` | kernel/src/exec/process.rs:1220-1226 | A birth keeps that record: who created whom is never rewritten |
| `Processes.EndReconciles` | kernel/src/exec/process.rs:918-952 | So does an end, which enters the status under the birth it belongs to |
| `Opening.OpensIff` | kernel/src/abi/syscall.rs:703-764 | The checks are passed exactly for a good path to no directory, flags that fit together and a file that may be used so; emptying a file takes leave to write it |
| `Opening.FlagsFit` | kernel/src/abi/syscall.rs:703-718 | The flags that fit together are 21 numbers: reading, writing or both, creating or creating a new file only, and with writing truncating or appending |
| `Opening.FirstComplaint` | kernel/src/abi/syscall.rs:698-764 | Which check gives which answer |
| `Opening.CursorStands` | kernel/src/abi/syscall.rs:755-764 | The cursor begins at the length of the file for appending, and at 0 otherwise |
| `Opening.RefusedLate` | kernel/src/abi/syscall.rs:737-764 | A file is made although the checks then fail exactly when emptying it or asking for its length does; one that was emptied passes them all |
| `Kernels.Kernel.constructor` | kernel/src/exec/process.rs:248-275 | The first program is pid 1, every table holds the three standard descriptors and no other, and the state is sound |
| `Kernels.Kernel.Schedule` | kernel/src/exec/process.rs:954-983 | The next runnable slot in round-robin order runs, or the kernel halts because there is none |
| `Kernels.NextRunnableIff` | kernel/src/exec/process.rs:954-983 | Told without distances: going up from the slot behind the current one and on from slot 0, the first that is runnable |
| `Kernels.Kernel.YieldCurrent` | kernel/src/exec/process.rs:636-638 | Yielding keeps all books and hands over to the next runnable process |
| `Kernels.Kernel.TimerTick` | kernel/src/exec/process.rs:648-706 | Exactly when a tick counts, and exactly when it preempts: out of user mode, while nobody waits and somebody else can run, at the tenth tick; it never halts |
| `Kernels.Kernel.AnyWaiting` | kernel/src/exec/process.rs:716-722 | True exactly when some process waits |
| `Kernels.Kernel.EndCurrent` | kernel/src/exec/process.rs:909-983 | An ending process becomes a zombie with all its descriptors closed and its status recorded, its waiters are released; the kernel halts only if nobody is alive or somebody is stopped |
| `Kernels.Kernel.ExitCurrent` | kernel/src/exec/process.rs:731-735 | The status recorded for this birth is the one passed to exit |
| `Kernels.Kernel.ForkCurrent` | kernel/src/exec/process.rs:1208-1318 | The child gets the next pid and a copy of the descriptor table with every pipe end counted again; on failure nothing changes |
| `Kernels.Kernel.SpawnCurrent` | kernel/src/exec/process.rs:1099-1192 | Slots 0, 1 and 2 of the child hold the caller's descriptors `input`, `output` and `error` where these numbers are in range and open, and the standard ones otherwise, every other slot is closed, and all are counted; each failure has its own answer and changes nothing |
| `Kernels.Kernel.ExecveCurrent` | kernel/src/exec/process.rs:1006-1091 | Pid, parent and descriptors survive execve; failures change nothing |
| `Kernels.Kernel.ApplySpawnIo` | kernel/src/exec/process.rs:1472-1507 | One descriptor of the parent lands in one standard slot of the child, its pipe end counted once more; a bad or closed number leaves the slot alone |
| `Kernels.Kernel.ReapChild` | kernel/src/exec/process.rs:1415-1465 | The first matching zombie is collected exactly when its status can be delivered, as a word below 65536 whose upper byte is the low byte of the status; its slot is then free |
| `Kernels.Kernel.WaitPid` | kernel/src/exec/process.rs:1340-1410 | Every answer of waitpid: a collected zombie is a child of the caller and the one asked for, and the upper byte of the word is the low byte of the status it passed to exit; no child is the answer exactly when there is none; all waits stay answerable if and only if the caller does not block without a living child to wait for - a blocking wait for any child, or an undeliverable status - and everything else stays sound in any case |
| `Kernels.VainWait` | kernel/src/exec/process.rs:1382-1391 | A caller that does so waits for a pid no living process has |
| `Kernels.Kernel.StopCurrent` | kernel/src/exec/process.rs:806-875 | Stopping keeps all books; the kernel may then halt although somebody is alive |
| `Kernels.Kernel.SendSignal` | kernel/src/exec/process.rs:746-770 | Which signal is refused and why, in the order of the checks; a continue or kill signal makes exactly the named process eligible again, any other leaves the table alone |
| `Kernels.Kernel.AllocateDescriptor` | kernel/src/exec/process.rs:104-109 | The lowest free slot from 3 on is used; the call fails exactly when there is none |
| `Kernels.Kernel.CloseDescriptor` | kernel/src/exec/process.rs:1732-1749 | Exactly that descriptor is closed and its pipe end given back |
| `Kernels.Kernel.ReleaseDescriptors` | kernel/src/exec/process.rs:1724-1730 | Every pipe end a table holds is given back exactly once |
| `Kernels.Kernel.Duplicate` | kernel/src/exec/process.rs:1764-1789 | The copy lands in the lowest free slot, counted; every failure leaves tables and counts as they were |
| `Kernels.Kernel.DuplicateTo` | kernel/src/exec/process.rs:1794-1828 | The copy replaces the target, whose pipe end is given back after the new one was counted - also onto itself or onto the last end of a pipe |
| `Kernels.Kernel.CreatePipe` | kernel/src/abi/syscall.rs:1130-1174 | The lowest closed pipe gets the two lowest free descriptors, the lower for reading; or, on each of the rollback paths, no descriptor is left and the pipe is closed again |
| `Kernels.Kernel.RollBack` | kernel/src/abi/syscall.rs:1145-1157 | Whichever end had been allocated, the rollback leaves neither descriptor nor pipe; the second close of an end already given back does nothing |
| `Kernels.Kernel.ReadPipe` | kernel/src/abi/syscall.rs:1538-1554 | A non-empty read returns 0 if and only if everything accepted was delivered and no process holds a write end; otherwise it takes as many of the oldest bytes as there are and fit, which are lost if the caller's buffer is bad |
| `Kernels.Kernel.WritePipe` | kernel/src/abi/syscall.rs:1705-1718 | What is taken joins the end of the stream; it would block exactly when the ring is full and fails for want of readers exactly when no process holds a read end; a bad buffer is noticed before anything is taken |
| `Kernels.Kernel.SeekFd` | kernel/src/abi/syscall.rs:1570-1614 | Only the cursor of an open file moves, to where the arguments say; every other descriptor is untouched |
| `Kernels.Kernel.OpenFile` | kernel/src/abi/syscall.rs:693-769 | The first check that fails gives the answer; the descriptor tables are as before on every failure, and the file has been made or emptied exactly when `Creates` and `Empties` say so, a later failure notwithstanding; otherwise the lowest free slot gets a file with the cursor at its length if it is opened for appending and at 0 if not, or the table is full |
| `Kernels.Kernel.GiveReference` | kernel/src/exec/process.rs:1753-1759 | Exactly the end the descriptor names is given back |
| `Kernels.Kernel.ReleaseWaiting` | kernel/src/exec/process.rs:946-951 | Exactly those that waited for the finished pid stop waiting |
| `Kernels.Kernel.OtherRunnable` | kernel/src/exec/process.rs:679-689 | True exactly when a process other than the running one is runnable |
| `VainWaits.VainIsStuck` | kernel/src/exec/process.rs:1382-1391 | It waits for no pid at all or for that of a zombie that only it could collect |
| `VainWaits.StuckStep` | kernel/src/exec/process.rs:909-983 | Nothing that a call can do to the table releases it |
| `VainWaits.StuckMeans` | kernel/src/exec/process.rs:648-722 | While it is there it is not runnable, and the timer preempts nobody |
| `VainWaits.ForkAndWait` | kernel/src/exec/process.rs:1340-1410 | `fork` and `waitpid(-1)` right after boot lead there, with the child left running |
| `KernelRun.NeverAgain` | kernel/src/exec/process.rs:648-722 | After these two, whatever calls follow: the first process never runs again and the timer never preempts anyone, as long as pids last |
| `KernelRun.Drive` | kernel/src/exec/process.rs:636-1410 | For every sequence of calls, waits in vain included, all books stay right, no status is handed over twice, every status ever handed over went to the creator of the child, and who waits in vain does so for good; if all waits can be answered and nobody stops, the kernel halts only when nobody is left alive |
| `LzFormat.LengthReads` | tools/dzpack.rs:110-116 | Every extended length reads back, in front of anything |
| `LzFormat.BlockReads` | tools/dzpack.rs:86-100 | Every sequence, with its offset and match length, reads back in front of anything |
| `LzFormat.TailReads` | tools/dzpack.rs:102-108 | The final literals read back at the end of the stream |
| `LzFormat.ReadsPiece` | bootstrap/dzimage.rs:40-72 | Whatever reads as a piece of a stream is written that way: nothing else is accepted |
| `LzFormat.DecodeIff` | bootstrap/dzimage.rs:39-94 | Decoding from left to right succeeds exactly on well-formed streams that stay within the size, with exactly what they stand for |
| `LzBytes.LengthIs` | tools/dzpack.rs:110-116 | An extended length is as many bytes 255 as fit into it, and the rest |
| `LzBytes.BlockIs` | tools/dzpack.rs:86-100 | A short sequence in bytes: the token with the literal length in its upper half and the match length less four in its lower, the literals, the offset low byte first |
| `LzBytes.LongBlockIs` | tools/dzpack.rs:86-100 | A long one has what is over 15 and over 19 behind the token and behind the offset |
| `LzBytes.HeaderIff` | bootstrap/dzimage.rs:13-22 | A header is accepted if and only if magic and reserved bytes are right and the size is 1 to 64 MiB, and which error it is otherwise |
| `LzBytes.RefusedFor` | bootstrap/dzimage.rs:24-102 | Behind a good header: too small a buffer, then a payload that stands for no such number of bytes, then the checksum |
| `LzParse.RunShrinks` | tools/dzpack.rs:42-79 | A run of five or more equal bytes, however long, becomes one literal and one reference |
| `LzParse.ShortStays` | tools/dzpack.rs:42-79 | Four bytes or fewer stay literals |
| `LzParse.HashIs` | tools/dzpack.rs:81-84 | The hash is the upper half of the 32-bit product of the four bytes, low byte first, and the multiplier |
| `Dzimage.UnpackedIff` | bootstrap/dzimage.rs:24-102 | Unpacking succeeds exactly when header, payload, length and checksum agree, and then gives those bytes; for arbitrary input |
| `Dzimage.PackedUnpacks` | tools/dzpack.rs:19-37 | An image built of any 1 to 64 MiB unpacks to exactly them |
| `Dzunpack.Unpack` | bootstrap/dzimage.rs:24-102 | The loops terminate, give that answer, write only below the unpacked size, and report progress that starts at 0, rises strictly and ends at 100 on success |
| `Dzunpack.CopyMatch` | bootstrap/dzimage.rs:73-90 | The copy loop reads only bytes already written, also where source and destination overlap |
| `Dzunpack.TakeLength` | bootstrap/dzimage.rs:117-129 | Extended lengths are read as `LengthReads` writes them; running out of input is an error |
| `Dzunpack.ReportNew` | bootstrap/dzimage.rs:104-115 | A report is made only when the percentage, rounded down, rose |
| `Dzpack.Compress` | tools/dzpack.rs:42-79 | The output is a well-formed stream that stands for the input, for every input, with every offset between 1 and 65535: exactly the one whose references are found greedily through the last position with the same hash |
| `Dzpack.CopyReproduces` | tools/dzpack.rs:60-68 | Copying from a repeated stretch reproduces the input, overlapping or not |
| `Dzpack.MatchEnd` | tools/dzpack.rs:60-65 | A match is extended exactly as far as the bytes repeat |
| `Dzpack.EmitSequence` | tools/dzpack.rs:86-100 | The bytes emitted are those `BlockReads` reads back |
| `Dzpack.EmitLastLiterals` | tools/dzpack.rs:102-108 | The bytes emitted are those `TailReads` reads back |
| `Dzpack.EmitExtendedLength` | tools/dzpack.rs:110-116 | The bytes emitted are those `LengthReads` reads back |
| `Dzpack.Pack` | tools/dzpack.rs:19-40 | The image file is built exactly for 1 to 64 MiB, and unpacks to the input into every buffer that is large enough |
| `Physical.InIff` | bootstrap/bootstrap.rs:316-333 | A range holds the addresses from its start on as many as its length says, up to the last but one there is |
| `RangeMerge.SortAndMerge` | bootstrap/bootstrap.rs:307-334 | The ranges that remain lie in order with gaps between them and cover exactly the addresses covered before; those that still reach past the last address are exactly the original ones that did and that every other range ends before; an empty list is answered with 1 |
| `RangeMerge.Sort` | bootstrap/bootstrap.rs:308-314 | The insertion sort orders the ranges by start and keeps each of them |
| `RangeMerge.Merge` | bootstrap/bootstrap.rs:316-333 | Compaction in place keeps the covered addresses, leaves no two ranges touching and lets exactly such outliers reach past the last address |
| `RangeMerge.Sink` | bootstrap/bootstrap.rs:309-313 | The inner loop takes one range to its place and loses none |
| `Memory.FramesFromHas` | kernel/src/mm/memory.rs:111-129 | The frames still to come are exactly the aligned pages of the regions |
| `Memory.FramesFromDistinct` | kernel/src/mm/memory.rs:111-129 | No page is among the frames still to come twice |
| `Memory.FreeIsApart` | kernel/src/mm/memory.rs:84-104 | No byte of a free page lies in a reserved range |
| `Memory.BlockedIff` | kernel/src/mm/memory.rs:84-97 | A reserved range that does not wrap takes away exactly the pages it has an address in, and, if it is empty, the one it begins inside of |
| `FrameAllocation.FrameAllocator.Init` | kernel/src/mm/memory.rs:46-76 | What will be handed out are pages of usable entries, as many as reported; each once if the entries do not overlap; none that a reserved range touches, of those that do not reach past the last address, if the ranges are in order; and all others unless the region table ran full |
| `FrameAllocation.FrameAllocator.AddUnreserved` | kernel/src/mm/memory.rs:78-109 | The regions added for an entry are the entry without the reserved ranges, which are to be in order |
| `FrameAllocation.FrameAllocator.AllocateFrame` | kernel/src/mm/memory.rs:111-129 | Each call hands out the next of those pages; a page whose mapped address overflows is used up without being handed out |
| `FrameAllocation.HandOut` | kernel/src/mm/memory.rs:46-129 | Sorting, merging, setting up and allocating together, for every list of reserved ranges: each frame is a usable page that has a reserved address if and only if `HandedOutIff` lets it; none is given twice if the entries do not overlap; there are never more frames than `init` reported, and as many as asked for or reported if every page has an address in the direct map |
| `FrameAllocation.LetThroughIff` | kernel/src/mm/memory.rs:85-97 | Of the list the allocator is given: a page not kept out has a reserved address exactly when a range that wraps, which is ignored, starts before its end |
| `FrameAllocation.HandedOutIff` | kernel/src/mm/memory.rs:85-97 | Of the list before sorting and merging: exactly when a range that wraps and that every other range ends before starts before its end |
| `FrameAllocation.FrameAllocator.AddEntry` | kernel/src/mm/memory.rs:53-68 | An entry contributes its whole pages without the reserved ones; one whose end or start overflows contributes none |
| `FrameAllocation.FrameAllocator.Count` | kernel/src/mm/memory.rs:70-75 | The sum returned is the number of pages in the regions |
| `BootAllocation.BootAllocator.constructor` | bootstrap/bootstrap.rs:78-101 | The boot allocator begins with whole pages of usable entries, with all of them unless its table ran full, and they do not overlap if the entries do not |
| `BootAllocation.BootAllocator.AllocateContiguous` | bootstrap/bootstrap.rs:103-117 | Every range given is whole pages of one entry and apart from everything given before; the call fails exactly when rounding overflows or `FitsIff` finds no region |
| `BootAllocation.FitsIff` | bootstrap/bootstrap.rs:105-115 | A region is found exactly when one has room and no region before it overflows |
| `Gpt.ReadPrimary` | kernel/src/fs/gpt.rs:41-108 | A table is accepted if and only if it is in order; otherwise the first thing wrong is reported; every sector that is read exists |
| `Gpt.EntriesChecksum` | kernel/src/fs/gpt.rs:165-184 | The checksum over the sectors is that of the first so many bytes |
| `Gpt.ReadPartition` | kernel/src/fs/gpt.rs:110-147 | An entry lies within one sector before the usable ones, and is empty, inside the usable sectors, or refused |
| `Gpt.FindPartition` | kernel/src/fs/gpt.rs:149-162 | The first partition of the type is found, unless an entry before it is refused |
| `Gpt.TableFrame` | kernel/src/fs/gpt.rs:41-162 | A table stays accepted and says the same as long as the sectors before the usable ones do |
| `GptForm.AcceptableIff` | kernel/src/fs/gpt.rs:41-108 | In order means, by the bytes of the header: signature, size, own place, backup behind and entries before the usable sectors, all on the disk, 1 to 128 entries of 128, 256 or 512 bytes, both checksums |
| `GptForm.ComplaintIs` | kernel/src/fs/gpt.rs:41-108 | Which error is reported for what |
| `GptForm.EntryIff` | kernel/src/fs/gpt.rs:110-147 | An entry of the zero type is none; any other is the partition its fields say if it lies inside the usable sectors, and is refused if not |
| `Installer.PartitionsInOrder` | kernel/src/fs/installer.rs:278-287 | On every disk the installer accepts, table copies, ESP and DFS partition do not overlap, the DFS partition is aligned at both ends, at least 1 MiB, and as large as alignment allows |
| `Installer.WritePartitionEntry` | kernel/src/fs/installer.rs:366-384 | Exactly the 128 bytes of the entry change, to the fields given; at most 36 characters of the name are stored |
| `Installer.EntryIs` | kernel/src/fs/installer.rs:366-384 | The fields where they stand, and the name in every other byte |
| `Installer.MakeGptHeader` | kernel/src/fs/installer.rs:658-683 | The header assembled field by field is the record `HeaderSays` reads back |
| `Installer.FillEntries` | kernel/src/fs/installer.rs:289-315 | The entry array holds exactly the two entries, whatever was in the buffer before |
| `Installer.WriteEntries` | kernel/src/fs/installer.rs:318-322 | The sectors written read as the entry array, and no other is touched |
| `Partitioning.RoomyDisks` | kernel/src/fs/installer.rs:279-287 | There is room for a DFS partition exactly from 266273 sectors on |
| `Partitioning.WriteGpt` | kernel/src/fs/installer.rs:278-364 | Both copies of the table and the boot record are written, nothing between the copies is touched; a smaller disk is refused untouched |
| `Partitioning.MbrSays` | kernel/src/fs/installer.rs:353-362 | The boot record has one partition of type 0xee from sector 1 over the whole disk, the boot signature, and zeros elsewhere |
| `PartitionTable.HeaderSays` | kernel/src/fs/gpt.rs:46-99 | Signature, revision, sizes, addresses, disk identifier and checksums of a header that was made read back as given |
| `PartitionTable.WrittenIsAccepted` | kernel/src/fs/gpt.rs:41-108 | The reader accepts every table the installer writes |
| `PartitionTable.BackupAgrees` | kernel/src/fs/installer.rs:318-352 | The backup copy describes the same disk with the two headers' places exchanged |
| `PartitionTable.WrittenPartitions` | kernel/src/fs/gpt.rs:110-147 | The table lists the ESP, the DFS partition, and nothing else |
| `Install.DfsFits` | kernel/src/fs/dfs.rs:1121-1150 | The partition the table names can always be formatted, and the filesystem lies inside it |
| `Install.LocateDfs` | kernel/src/fs/installer.rs:206-209 | On an installed disk the reader finds exactly the DFS bounds that were written |
| `Install.InstallDisk` | kernel/src/fs/installer.rs:204-215 | Partitioning, filling the ESP and formatting succeed exactly from the minimum size on; afterwards table, both copies, and an empty, consistent filesystem are all in place |
| `Sorting.SiftDown` | userland/libc/stdlib.c:529-543 | Sifting restores the heap and moves nothing outside it |
| `Sorting.Sort` | userland/libc/stdlib.c:545-556 | For every total preorder the array ends up sorted with the same elements |
| `Sorting.BinarySearch` | userland/libc/stdlib.c:505-518 | On sorted items an equal element is returned if and only if there is one |
| `Sorting.BuildHeap` | userland/libc/stdlib.c:549-551 | The first loop makes a heap of all the elements |
| `Sorting.PlaceTop` | userland/libc/stdlib.c:552-555 | Each turn of the second puts the highest element behind the heap and repairs it |
| `Numerals.ParseDigits` | userland/libc/stdlib.c:159-171 | The value is the number the digits stand for, or the maximum, and overflow is noticed exactly when it is larger |
| `Numerals.ParseUnsigned` | userland/libc/stdlib.c:135-179 | Sign, base prefix, digits and end of a numeral, for every text and every base; a bad base is refused |
| `Numerals.StrToLL` | userland/libc/stdlib.c:208-219 | The number itself when it fits, else the nearer limit and a range error; the end is behind the digits, or the beginning where there are none; a bad base is refused |
| `Numerals.StrToULL` | userland/libc/stdlib.c:188-193 | The number, negated modulo 2^64 after a minus sign, or the limit and a range error |
| `Numerals.SkipBlanks` | userland/libc/stdlib.c:139 | Exactly the leading white space is passed over, which `WhiteIsSkipped` names |
| `NumeralForm.FormIsScanned` | userland/libc/stdlib.c:139-171 | A text of white space, a sign or none, a prefix the base allows, digits and something that is no digit is scanned as these parts |
| `NumeralForm.EveryTextHasForm` | userland/libc/stdlib.c:135-179 | Every text is of that form, for every base |
| `NumeralForm.NumberIs` | userland/libc/stdlib.c:126-132 | One more digit: its place among "0" to "9", or 10 more than its place in either alphabet, added to base times the number before |
| `NumeralForm.WhiteIsSkipped` | userland/libc/stdlib.c:139 | Any run of blanks, tabs, newlines, vertical tabs, form feeds and carriage returns in front of a text moves its numeral and changes nothing else |
| `NumeralForm.ParseBehindWhite` | userland/libc/stdlib.c:135-219 | So value and error of `strtoll` and `strtoull` are those of the text without it, and the end moves by its length if the text says a number |
| `Printf.FillDigits` | userland/libc/stdio.c:256-264 | 64 places always hold the digits, least significant first |
| `Printf.EmitChar` | userland/libc/stdio.c:70-74 | A character is stored while there is room for it and a terminator, and always counted |
| `Printf.FormatInteger` | userland/libc/stdio.c:256-282 | An integer conversion stores exactly its text behind what is there, cut where the buffer ends, changes no other byte, and counts all of it |
| `Printf.EmitRepeat` | userland/libc/stdio.c:76-79 | As many copies of the character join the text |
| `Printf.EmitBytes` | userland/libc/stdio.c:81-84 | The bytes join the text in order |
| `Printf.EmitDigits` | userland/libc/stdio.c:281 | The digits join the text, most significant first |
| `PrintField.FieldIs` | userland/libc/stdio.c:274-282 | Where it is less than 2^31 characters without a width, the text of a conversion is as long as its width or, if that is longer, as that; filled up with blanks behind it under the left flag, with zeros between sign or prefix and digits under the zero flag unless a precision is given, with blanks before it otherwise |
| `PrintField.BareIs` | userland/libc/stdio.c:256-273 | Without a width it is the sign asked for, the prefix of the alternate form, and the shortest numeral of the value in the base and case of the conversion, with zeros before it up to the precision; nothing for a zero with precision 0 |
| `PrintField.Overlong` | userland/libc/stdio.c:274-275 | From 2^31 characters on the padding is more than 2^63 characters instead |
| `PrintField.OverlongInput` | userland/libc/stdio.c:265-275 | A zero printed with a plus sign and the largest precision is such a case |
| `PrintParse.DecimalRoundTrip` | userland/libc/stdio.c:219-282 | Every integer printed in base ten with any flags, width and precision is read back in base ten |
| `PrintParse.PrefixedRoundTrip` | userland/libc/stdio.c:219-282 | Every unsigned integer printed in octal or hexadecimal is read back in that base and, printed in the alternate form, in base 0 |

## Left out

- Power losses during `format`, and device errors: an I/O error ends the run, and the next thing is a mount.
- Disks of 2^32 sectors or more: the ATA driver stops at 2^28 (`kernel/src/drivers/ata.rs:15`).
- The bits CRC-32 mixes: the step for one byte is a parameter.
- `read_directory`, `seed_from_ustar`, the global `mounted` wrappers and the executable buffer of DFS.
- Permissions, accounts, the VFS routing table and the RAMFS overlay.
- Address spaces, ELF loading, user-memory copies, the FPU and register frames: in the process model their outcomes
  are parameters of the calls.
- Kernels.Kernel.SpawnCurrent: does not model how a program is found and loaded, only the order in which its failures
  are noticed and what each leaves.
- Signals except for their effect on exit and on stopping; handlers and masks.
- Kernels.Kernel.SendSignal: whether the sender may signal the process is a parameter; the set of pending signals is
  not modelled.
- Kernels.Kernel.OpenFile: what the file system answers about the path is a parameter.
- DfsOps.WriteFile: a write that goes on after creating a name that breaks the tree is not modelled; `CreateDirectory`
  and `DfsCreate.CreateNode` say for every name when that happens.
- DfsSession.Run: takes names without a NUL, for the same reason.
- VainWaits.StuckStep: pids are taken not to run out, which would take 2^64 births.
- Reads and writes of files and of the console through descriptors, and the interrupt state around pipe calls.
- The FAT16 contents of the ESP: the installer's writes there are any writes to its sectors.
- Install.InstallDisk: does not model the payload checks before it or the seeding of files after it.
- The shape of the generated GUIDs; they are parameters.
- Partitioning.WriteGpt: disks of less than 2081 sectors, on which the subtractions would wrap around; the caller
  refuses everything below 268288.
- Elements of different sizes in `qsort` and `bsearch`: elements are values, so the byte-wise swap is one exchange.
- Parsing of format strings, the other conversions of `printf`, and buffered output.
- `strtoul`, `strtol` and `strtoimax`, which are the functions modelled here under other names.
- Floating point, the allocator and the rest of libc.
