# A verified model of YAF

YAF is a small Linux file system: a superblock, an inode bitmap, a data bitmap,
a table of 64-byte inodes with 8 block slots each, and data blocks holding file
bytes or 32-byte directory entries. This project models the formatter
(`tool/mkfs.c`) and the driver (`driver/`) in Dafny and proves what the driver
relies on but no single function of it checks: the two allocators know nothing
of owners, files and directories take blocks on different paths, deletion frees
blocks by `i_size`, and a link count doubles as the test for an empty directory.

## How it is built

| file | content |
|---|---|
| `Layout.dfy` | sizes, the five sections, address arithmetic |
| `FirstFit.dfy`, `Bitmap.dfy` | first fit over a flat set; the bitmap buffer updated bit by bit |
| `Bytes.dfy`, `Dentries.dfy` | little-endian words, `strncmp`/`strncpy`, directory records |
| `Directory.dfy`, `Namespace.dfy` | one directory as a finite map; all directories as a tree |
| `State.dfy` | the state `Fs` of a mounted file system and the invariant `Inv` |
| `Alloc.dfy`, `Slots.dfy`, `Creation.dfy`, `Deletion.dfy`, `FileData.dfy`, `Readdir.dfy` | what each operation computes, and what that means |
| `Conservation.dfy`, `Leaks.dfy` | ownership accounts: which operations keep them, and what is lost when they are not kept |
| `Runs.dfy`, `Durability.dfy` | theorems over every run from a formatted device; what a file holds survives every run that spares it |
| `Driver.dfy` | class `Yaf`: the operations as methods with the source's loops and in-place updates, proved equal to the functions above |
| `Image.dfy`, `Mkfs.dfy` | the device as bytes: records, formatting, mounting, writing inodes back |
| `DiskLayout.dfy` | the device written down byte by byte without the codecs, and that mounting, formatting and storing agree with it |
| `Compiled.dfy`, `CompiledRuns.dfy` | the unsigned tests of signed results, and exactly when they do no harm, for one operation and for a run |
| `Witnesses.dfy`, `Crowding.dfy`, `DeviceEnd.dfy` | runs from a formatted device that end where the code and its documentation differ |

The invariant `Inv` has four parts. `Shape`: table and block sizes. `Ownership`:
in every live inode the mapped slots come first and are distinct, a directory
owns exactly the blocks its size needs and a file at least those, every owned
block is used, and no two inodes share one. `Links`: a directory's link count is
one more than its number of live entries, a file's is 1. `IsTree`: live entries
have well-formed, unique names, and form a tree on the live inodes rooted at
inode 1. `Maps(fs)` is what a user sees: a map from names to inode numbers for
each directory.

## Where the code and its documentation differ

- `yaf_get_free_bit` returns a signed `-ENOENT`, which the callers hold in a
  `uint32_t` and test for `>= 0` (driver/bitmap.c:34-43, 73-82); `_yaf_create`
  holds a signed offset in a `uint64_t` and tests `< 0` (driver/inode.c:136-155).
  Neither test can fail. The operations follow the documented contracts
  (driver/bitmap.c:7-12, 27-31, 66-70). `Bitmap.GetFreeUnsigned`, `Compiled.dfy`
  and `CompiledRuns.dfy` follow the conversions instead: allocation, create,
  mapping and write agree with the documented ones exactly when the first bitmap
  block has enough clear bits and, for a create, the directory has a free entry
  or room for one; `CompiledRunAgrees` says the same of whole runs.
  `CompiledMappingDerails` and `CompiledCreateDerails` give, on every formatted
  device (with 1026 inodes for the second), a run that ends where the guard fails.
- A listing resumed inside a block reads the records from the start of that
  block (driver/dir.c:56-59). `Driver.Yaf.Iterate` does the same;
  `ListingRightIffAligned` proves that resuming at an entry is right in every
  reachable state exactly when the entry starts a block, and
  `MisalignedResumesWrong` gives the run that shows it wrong.
- Mapping a block without finishing the write leaves a block that deletion,
  driven by `i_size`, does not free (driver/inode.c:357-361). `ApplyTight` gives
  the exact guard on the state before an operation for the accounts to be kept,
  `DeleteLoses` the blocks a deletion loses, `RunKeepsLost` that a lost block is
  never freed or owned again, and `MappingLosesABlock` a run of three operations
  that loses one. `RunConserves` proves conservation while the guard holds.
- The data bitmap has a bit for every block of the aligned device, and the data
  section has fewer blocks (tool/mkfs.c:31-43); `yaf_get_free_dblock` does not
  look at `nr_d`, so on every formatted device it hands out blocks past the data
  section once that is used up. Where the device ends there, reading such a block
  fails: `assert(bh)` after the read of a new directory block
  (driver/inode.c:113-115) does not hold, and a write of part of a page cannot
  read its block. The operations have block reads succeed, so their results
  count blocks past the section as taken; `CreateFailsExactly`,
  `WriteSucceedsExactly` and `WriteThenRead` say besides exactly when the outcome
  stays in the section. `ApplyOnDevice` gives the guard of every operation on the
  state before it, `RunStaysOnDevice` that a run stays in the section exactly
  when the guard holds at each step, and `MappingLeavesDevice` and
  `CreatingLeavesDevice` give runs that leave it.
- The layout comments put `i_size` after the three times (include/inode.h:24-25);
  the struct puts it before them (include/inode.h:95-105), and `RecordWords`
  follows the struct.

Assumptions about the caller, as preconditions: names are nonempty and hold no
NUL; create is called for a name absent from a live directory; unlink for a
regular file, rmdir for a directory, with the inode that the directory names.
Block reads succeed, also past the data section. The inodes in memory and on the device are one table for
the operations; the record codec is modelled by itself.

## Model

| member | source | states |
|---|---|---|
| Layout.FormatGeometry | tool/mkfs.c:25-46 | For every device of fewer than 2^32 blocks the five sections are nonempty, disjoint and cover exactly the aligned device if and only if it has at least 64 blocks; then the inode count is the aligned block count and the counts are those of GeometryLeast |
| Layout.GeometryLeast | tool/mkfs.c:25-43 | The counts are exactly these: one inode a block, the least bitmap sections with a bit for each of the aligned blocks, and all remaining blocks for data |
| Layout.SectionsFollow | include/fs.h:26-70 | Superblock, inode bitmap, data bitmap, inodes and data follow each other from block 0 on |
| Layout.IdivCeil | tool/mkfs.c:20-22 | The result is the least number of units of b that hold a |
| Layout.AlignDown | tool/mkfs.c:16-18 | The result is the greatest multiple of a that is at most x |
| Layout.InodeAddress | include/inode.h:132-141 | Inode record i starts 64 i bytes into the inode section; records lie inside the section, inside one block each, and never overlap |
| Layout.DataAddress | include/inode.h:144 | A data block number counts from the first block of the data section, addresses the section exactly when it is below the block count, and addresses are injective |
| Layout.BitAddress | include/bitmap.h:35-50 | Section block, byte and bit of an index are in range and determine the index |
| FirstFit.LeastAtMostUsed | driver/bitmap.c:13-20 | Pigeonhole: the index handed out is at most the number of used ones |
| FirstFit.StaysBelow | driver/bitmap.c:71-92 | With all used indices below m, first fit stays below m exactly while fewer than m are used, whatever the size of the bitmap |
| FirstFit.TakeGiveBack | driver/bitmap.c:71-103 | Taking fails exactly when every index is used, adds exactly one, and giving it back restores the set |
| FirstFit.FilledStaysBelow | driver/bitmap.c:71-92 | Any number of first-fit steps stays below m exactly while at most m indices are used |
| Bitmaps.Bitmap.TestAndSetBit | driver/bitmap.c:13-20 | Reports whether the bit was set and adds exactly that index to the used set |
| Bitmaps.Bitmap.TestAndClearBit | driver/bitmap.c:23-25 | Reports whether the bit was set and removes exactly that index |
| Bitmaps.Bitmap.GetFreeBit | driver/bitmap.c:13-20 | First clear bit of one block, now set; a negative error exactly when the block is full |
| Bitmaps.Bitmap.GetFree | driver/bitmap.c:32-53 | The scan over several bitmap blocks is first fit over one flat set: least unused index of the section, now used, or the reserved number |
| Bitmaps.Bitmap.PutBit | driver/bitmap.c:95-103 | For a used index the assertion holds and exactly that index becomes unused |
| Bitmaps.Bitmap.GetFreeUnsigned | driver/bitmap.c:32-53 | The scan with its result in a uint32_t: the first block decides and a full one yields 0xFFFFFFFE |
| Bitmaps.UnsignedScanAgrees | driver/bitmap.c:34-46 | The unsigned test meets the documented contract exactly while the first bitmap block has a clear bit; otherwise it yields 0xFFFFFFFE |
| DiskLayout.BitsAscend | include/bitmap.h:35-66 | Bit j of a byte is the one of value 2^j |
| Bitmaps.SetBit | include/bitmap.h:76-79 | For a clear bit: sets it and no other bit of the byte |
| Dentries.StrncpyPads | driver/inode.c:179 | Storing a NUL-free name pads it with NULs to the field |
| Dentries.MatchIsEquality | driver/inode.c:238-240 | The 24-byte comparison of a stored name with a NUL-free name of up to 24 bytes is equality of names |
| Dentries.DecodeEncode | include/inode.h:111-115 | A directory record read back is the record stored |
| DiskLayout.DentryOffsets | include/inode.h:111-115 | A directory record holds the inode number at byte 0, the length at 4, least significant byte first, and the name field from 8 on |
| Dentries.PutDentryAt | driver/inode.c:166-179 | Storing record i of a directory block changes record i and no other |
| Dentries.PutInoAt | driver/inode.c:332-335 | Clearing the inode number of record i changes only that field of that record |
| Directory.FindRefines | driver/inode.c:226-249 | The scan finds a name exactly when it is in the directory's map, and finds its inode |
| Directory.PutInserts | driver/inode.c:177-179 | Filling a free or appended entry inserts one binding into the map and adds one live entry |
| Directory.KillRemoves | driver/inode.c:335 | Clearing an entry removes its name from the map and one live entry |
| Directory.FullMeansAllLive | driver/inode.c:86-92 | The scan finds no free entry exactly when all entries are live |
| Directory.CountZeroIsEmptyMap | driver/inode.c:376-378 | No live entries is the empty name map |
| Namespace.OneDepth | driver/inode.c:131-195 | In a tree the path from the root to an inode has one length, so there are no cycles |
| Namespace.NamedOnce | driver/inode.c:131-195 | Every live inode but the root is named by exactly one live entry |
| Namespace.GraftKeepsTree | driver/inode.c:177-189 | Naming a new inode in a free entry keeps the tree |
| Namespace.PruneKeepsTree | driver/inode.c:335-364 | Removing a file or an empty directory keeps the tree, and no directory is its own parent |
| State.SlotsInjective | driver/file.c:41-51 | No two (inode, slot) pairs hold the same data block, and each held block is used |
| Alloc.GetDblockFresh | driver/bitmap.c:71-92 | A block handed out was unused and is in the bitmap; failure changes no owner and means every other index is used |
| Alloc.GetDblockRoom | driver/bitmap.c:71-92 | A block is handed out exactly while there is room, and uses up one |
| Alloc.NewInodeFresh | driver/inode.c:26-52 | A new inode number is the least free one, never 0 or 1, and lies in the table; failure leaves the state as it was and means the table is full |
| Slots.RoomForDentry | driver/inode.c:97-110 | When a block is due its slot is the first reserved one, so the assertion holds; otherwise the slot is owned |
| Slots.FreeDentryFinds | driver/inode.c:67-128 | The slot found is the first unused one, with the state as it was, or one appended when there is none; it is in bounds and in an owned block, and everything keeps the invariant |
| Slots.FreeDentryReuses | driver/inode.c:86-92 | While any entry is unused the search changes nothing and returns the first such entry |
| Slots.FreeDentryExactly | driver/inode.c:67-128 | Size, slots and all inodes after the search: the directory grows by one entry exactly when none is unused and there is room, and by the least unused block when one is due |
| Slots.FreeDentryWritesOnly | driver/inode.c:112-117 | The search writes four bytes of one record when it appends an entry, and otherwise nothing |
| Slots.FreeDentryFailsExactly | driver/inode.c:97-107 | No slot is found exactly when all entries are live and there are 1024 of them, or a block is due and none is left |
| Creation.CreateInserts | driver/inode.c:131-195 | Create keeps the invariant; on success it inserts the name into exactly one map, with an empty map for a new directory, and adds one live inode; on failure names, link counts and inode bitmap are as before |
| Creation.CreateEntriesExactly | driver/inode.c:166-179 | The new name goes to the first unused entry, or one past the end; every other entry of every directory stays where it was |
| Creation.CreateInodesExactly | driver/inode.c:18-64 | All inodes and the inode bitmap after a create of any result: the parent's size, slots and links, and the new inode under the least free number |
| Creation.CreateWritesOnly | driver/inode.c:166-181 | Create writes one record of the data section and no other byte; a failing one at most its inode number |
| Creation.CreateFailsExactly | driver/inode.c:97-175 | ENAMETOOLONG, EIO, ENOSPC, EINVAL and success, each exactly when its own condition on the state before holds; a full table gives ENOSPC when the inode bitmap has no spare bits and EINVAL otherwise; success with every block in the data section, exactly when besides no block is due or the section has an unused one |
| Creation.CreateGrowsAtMostOne | driver/inode.c:149-175 | Whatever its result, create takes one block exactly when all entries are live and fill their blocks, and the parent grows by one entry exactly when all are live and there is room |
| Creation.CreateOnDevice | driver/inode.c:102-115 | Create stays in the data section exactly when no block is due or the section has an unused one |
| Deletion.LookupRefines | driver/inode.c:263-310 | Lookup answers from the name map for every name: too long, present with its inode, or absent |
| Deletion.LookupFailsExactly | driver/inode.c:219-295 | In any directory at all: ENAMETOOLONG, EINVAL for a first match beyond the inode table, and absence, each exactly when its condition holds |
| Deletion.NamedEntry | driver/inode.c:323-324 | The lookup inside delete succeeds, so its assertion holds |
| Deletion.SizedBlocksOwned | driver/inode.c:357-361 | The blocks freed are those of the slots that start below the size; the inode owns them, and they are all of its blocks exactly when the size accounts for every mapped slot |
| Deletion.DeleteRemoves | driver/inode.c:313-368 | Delete keeps the invariant, removes exactly the name and the inode, and frees the inode's blocks by size and nothing else; one entry is cleared and every other entry of every directory stays where it was |
| Deletion.DeleteFreesExactly | driver/inode.c:348-364 | Delete succeeds, and frees the inode number and the sized blocks exactly when at most one link is left after lowering the count |
| Deletion.DeleteWritesOnly | driver/inode.c:332-337 | Delete writes the inode number of one record and no other byte |
| Deletion.DeleteKeepsInodes | driver/inode.c:340-351 | Delete lowers the link counts of the directory and of the deleted inode by one each, and changes nothing else in any inode |
| Deletion.RmdirRemovesEmpty | driver/inode.c:371-381 | rmdir succeeds exactly on an empty name map and otherwise changes nothing |
| Deletion.UnlinkRemoves | driver/inode.c:345-387 | A regular file has one link, so unlink always removes its name and frees its inode number and the blocks its size needs, and nothing else |
| FileData.MapBlockMaps | driver/file.c:17-59 | Mapping never changes a mapped slot, maps exactly through iblock on success, keeps the invariant even when space runs out midway, and changes nothing without create; it succeeds exactly when iblock is in range and the state before has room for the missing slots |
| FileData.MapBlockTakes | driver/file.c:41-51 | A mapping fills as many of the missing slots as there is room for, and takes exactly that many blocks |
| FileData.MapBlockAscends | driver/file.c:41-51 | The newly filled slots hold blocks of ascending numbers |
| FileData.ExtendSucceedsExactly | driver/file.c:41-51 | The allocation loop fills its slots exactly when there is room for all of them, and otherwise uses up the room |
| FileData.WriteStores | driver/file.c:73-95 | The byte count, or ENOSPC, is a function of the state before; exactly those bytes are stored, and other mapped bytes, other inodes and all names are kept |
| FileData.WriteHoldsOld | driver/file.c:73-95 | Outside the bytes it reports a write changes no byte, not even in blocks it has newly mapped |
| FileData.WriteSucceedsExactly | driver/file.c:73-95 | A write is finished exactly when it ends within the largest file size and there is room for every block up to its last byte; and finished inside the data section exactly when the section has that room |
| FileData.MapOnDevice | driver/file.c:41-51 | A mapping stays in the data section exactly when the section has unused blocks for the missing slots |
| FileData.WriteOnDevice | driver/file.c:41-95 | A write stays in the data section exactly when the section has unused blocks for the missing slots up to its end or the largest file size |
| FileData.WriteThenRead | driver/file.c:17-59 | A write that fits is finished; reading through the mapping then gives the bytes written, and every other mapped byte of every file reads as before; the bytes are in the data section exactly when it had blocks for them |
| Conservation.TightIsDisjointUnion | driver/inode.c:357-364 | In a tight state the used blocks are the disjoint union of the owned ones |
| Conservation.CreateTight | driver/inode.c:102-121 | Create keeps every used block owned and every inode's blocks equal to what its size needs |
| Conservation.DeleteTight | driver/inode.c:357-364 | With the accounts in order, delete frees exactly the blocks the inode owned and keeps the accounts |
| Conservation.DeleteTightExactly | driver/inode.c:357-364 | With the accounts otherwise in order, delete keeps them exactly when the deleted inode owns just the blocks its size needs |
| Conservation.DeleteLoses | driver/inode.c:357-361 | The blocks without an owner after a delete are those before it and the ones the inode had beyond its size |
| Conservation.WriteMaps | driver/file.c:35-53 | A write, finished or cut short, maps exactly through the last byte it reports |
| Conservation.WriteTightExactly | driver/file.c:35-95 | A write, finished, cut short or failed, keeps the accounts exactly when its first page is out of range, finds room for every missing block, or finds no room at all |
| Conservation.MapBlockTight | driver/file.c:35-53 | A mapping by itself keeps the accounts exactly when it creates nothing, is out of range or already there, or finds no block left |
| Conservation.CreateThenDelete | driver/inode.c:131-368 | Create then delete restores every name map and the inode bitmap, and leaves used only blocks used before or owned by the parent |
| Conservation.CreateKeepsFiles | driver/inode.c:131-195 | Create changes no inode and no byte of any file |
| Conservation.DeleteKeepsFiles | driver/inode.c:313-368 | Delete changes no inode and no byte of any other file |
| Conservation.NextBlockOnDevice | tool/mkfs.c:35-43 | The next block handed out lies in the data section exactly while fewer blocks are used than the device has, despite the spare bits |
| Alloc.GetDblockOnDevice | driver/bitmap.c:71-92 | The block handed out lies in the data section exactly while the section has an unused one, and uses up one |
| Conservation.StaysOnDevice | driver/bitmap.c:71-92 | Taking any number of blocks by first fit stays in the data section exactly when the state before has that many unused blocks of it |
| Conservation.MappedOnDevice | include/inode.h:144 | Mapped slots address the data section while all used blocks are on the device |
| Runs.ApplyKeeps | driver/inode.c:393-404 | Every operation, successful or not, keeps the invariant |
| Runs.RunKeeps | driver/inode.c:393-404 | Every state reached from a good state by any allowed sequence of operations is good |
| Runs.ApplyTight | driver/inode.c:357-364 | Each of the eight operations keeps the accounts exactly under a guard on the state before it |
| Runs.FinishedKeepsAccounts | driver/file.c:73-95 | The guard holds for every write that fits and for mappings made only inside writes |
| Runs.RunConserves | driver/inode.c:357-364 | Over any run whose operations meet that guard the used blocks stay exactly the owned ones |
| Leaks.RunKeepsLost | driver/inode.c:357-364 | A used block without an owner stays so over every run: it is never freed and never handed out |
| Witnesses.MappingLosesABlock | driver/file.c:41-51 | From any formatted device: create a file, map its first block, unlink it; the compiled driver makes every step without a fault, the tree is as before, and a used block has no owner |
| Runs.ApplyOnDevice | driver/bitmap.c:71-92 | Each of the eight operations keeps all used blocks in the data section exactly under a guard on the state before it |
| Runs.RunStaysOnDevice | tool/mkfs.c:35-43 | All states of a run keep their used blocks in the data section exactly when that guard holds at each step |
| DeviceEnd.MappingLeavesDevice | driver/bitmap.c:71-92 | On every formatted device a run ends in a state where mapping a file's first block succeeds with a block past the data section |
| DeviceEnd.CreatingLeavesDevice | driver/inode.c:102-115 | On every formatted device a run ends in a state where the first create in a directory gives it a block past the data section |
| Durability.RunKeepsFile | driver/file.c:17-59 | Over any run that neither writes nor deletes a file, it keeps its size and every byte mapped at the start reads the same |
| Durability.WrittenStaysRead | driver/file.c:17-95 | A write that fits is read back after any run that does not write or delete the file again |
| Runs.FormattedIsGood | tool/mkfs.c:207-234 | A formatted file system satisfies the invariant and is one empty root directory that owns nothing |
| Runs.ReachedIsTree | driver/inode.c:131-195 | In every state reachable from formatting, each live inode but the root is named by exactly one live entry and hangs off the root by a path of one length |
| Runs.ReachedSharesNothing | driver/file.c:41-51 | In every state reachable from formatting no data block is held twice, and each held block is used |
| Readdir.ListShowsMap | driver/dir.c:46-72 | A listing from position 0 emits each name of the map exactly once with its inode and nothing else |
| Readdir.ListFromStart | driver/dir.c:32-72 | A listing from position 0 emits the live entries and ends at the size plus 2 |
| Readdir.ListFromAnywhere | driver/dir.c:14-75 | From any position: ENOTDIR and ENOENT exactly when their conditions hold, the position left behind, nothing emitted from the end on, and before it the entries of the scan whose record pointer starts at the base of the block |
| Readdir.ListedInOrder | driver/dir.c:57-66 | Entries are emitted in offset order |
| Readdir.LiveEntriesAreNames | driver/inode.c:177-179 | A directory has as many live entries as names |
| Readdir.LinkCountIsNames | driver/inode.c:189 | In every good state a directory's link count is one more than the number of its names |
| Crowding.ListingRightIffAligned | driver/dir.c:46-59 | A listing resumed at an entry emits the rest of the directory in every reachable state exactly when the entry is the first of its block |
| Crowding.MisalignedResumesWrong | driver/dir.c:56-59 | For every other entry, on every formatted device with inodes enough, a run of creates ends in a root whose listing from that entry is wrong |
| Driver.Yaf.GetFreeDblock | driver/bitmap.c:71-92 | The method takes the block the specification takes |
| Driver.Yaf.PutDblock | driver/bitmap.c:95-103 | Exactly the given used block becomes unused |
| Driver.Yaf.MakeInode | driver/inode.c:18-64 | The method is the specification of a new inode, with an out-of-range number given back |
| Driver.Yaf.ScanUnused | driver/inode.c:76-95 | The nested loops stop at the first unused entry, or at the directory's size |
| Driver.Yaf.GetFreeDentry | driver/inode.c:67-128 | The method leaves the specified state and returns 32 times the specified entry |
| Driver.Yaf.CreateEntry | driver/inode.c:131-195 | The method leaves the state and the result of the specified create |
| Driver.Yaf.LookupOffset | driver/inode.c:212-250 | The nested loops return the offset of the first live entry whose name compares equal, or the error |
| Driver.Yaf.LookupName | driver/inode.c:263-310 | The method returns the specified lookup |
| Driver.Yaf.DeleteEntry | driver/inode.c:313-368 | The method leaves the state of the specified delete, with every assertion on the way holding |
| Driver.Yaf.FreeBlocks | driver/inode.c:357-361 | Every bit the loop clears is set when reached, and exactly the blocks within the size are freed |
| Driver.Yaf.RemoveDirectory | driver/inode.c:371-381 | The method leaves the state and the result of the specified rmdir |
| Driver.Yaf.RemoveFile | driver/inode.c:384-387 | The method leaves the state and the result of the specified unlink |
| Driver.Yaf.GetBlock | driver/file.c:17-59 | The two loops leave the state and the result of the specified mapping, also when space runs out midway |
| Driver.Yaf.WriteOnePage | driver/file.c:73-95 | The size check, mapping, copy and size update leave the specified state |
| Driver.Yaf.WriteAt | driver/file.c:73-127 | The page loop leaves the state and the byte count of the specified write |
| Driver.Yaf.Iterate | driver/dir.c:14-75 | The nested loops terminate and emit what the specified listing emits, from any position |
| Image.InodeRoundTrip | driver/super.c:88-119 | An inode stored and loaded is the same inode exactly when its fields fit 32 bits and its mode 16 |
| DiskLayout.EncodeOffsets | include/inode.h:95-105 | The stored record of an inode is the one with every field at its byte offset, least significant byte first, and no other |
| DiskLayout.DecodeOffsets | driver/inode.c:444-455 | Loading reads every field from its byte offset, and the mode in 16 bits |
| Image.InodeFitsRecord | driver/super.c:88-119 | In every good state the size, link count and slots of a live inode fit the record, so with fitting owner and times it is loaded back as it was stored |
| Image.PutInodeAt | driver/inode.c:411-455 | After storing inode i its record loads as i and every other record loads as before |
| Image.SuperRoundTrip | driver/super.c:163-186 | Mounting accepts the magic that formatting writes and recovers the four counts |
| DiskLayout.MountIffOnDisk | driver/super.c:143-198 | Mounting yields a state exactly when the bytes of the device hold it: counts and magic, each bit of both bitmaps, each field of each inode, each byte of each data block at its place |
| DiskLayout.MountFailsExactly | driver/super.c:166-198 | EINVAL exactly for a wrong magic byte or an empty inode table, EIO exactly for an image shorter than its sections |
| DiskLayout.StoreThenMount | driver/super.c:88-186 | A state written out, superblock, bitmaps, inode records and blocks, mounts as the same state |
| DiskLayout.WriteInodeThenMount | driver/super.c:88-119 | Writing an inode back changes what mounting yields in that inode only |
| DiskLayout.FormatBytes | tool/mkfs.c:25-243 | The formatted image byte by byte: counts and magic, 3 in the first byte of the inode bitmap and 0 in every other bitmap byte, a root record of mode 040777 with one link and no blocks; no other byte is written |
| Image.FormatThenMount | tool/mkfs.c:254-346 | Formatting any device of 64 to 2^32-1 blocks and mounting it yields an empty root directory, bits 0 and 1 in the inode bitmap, an empty data bitmap and the four section sizes |
| Mkfs.Device.WriteSuperblock | tool/mkfs.c:25-60 | The superblock block holds the least counts for the device and the magic, and nothing else changes |
| Mkfs.Device.WriteInodeBitmap | tool/mkfs.c:99-149 | The inode bitmap section is zero but for bits 0 and 1, and nothing else changes |
| Mkfs.Device.WriteDataBitmap | tool/mkfs.c:152-181 | The data bitmap section is zero and nothing else changes |
| Mkfs.Device.WriteInodeBlocks | tool/mkfs.c:207-243 | The root record is written and nothing else changes |
| Mkfs.Device.MakeFs | tool/mkfs.c:254-346 | The device ends up as the formatted image |
| Mkfs.Device.WriteInode | driver/super.c:88-119 | Writing field by field, with the slots in a loop, stores the record and changes nothing else |
| Mkfs.Device.CheckMagic | driver/super.c:166-172 | The loop accepts exactly the blocks filled with the magic string |
| Mkfs.Device.FillSuper | driver/super.c:143-198 | Mounting yields the state that the bytes of the image hold, or its error |
| Compiled.CompiledCreateAgrees | driver/inode.c:136-175 | The compiled create is the documented one exactly under a guard a caller can check, and otherwise always goes on with something it does not own |
| Compiled.CompiledExtendAgrees | driver/file.c:41-51 | The compiled mapping loop is the documented one exactly when the first data bitmap block has a clear bit for every slot to fill, and otherwise goes on with a number no scan returned |
| Compiled.CompiledMapAgrees | driver/file.c:17-59 | The same for a whole mapping, counting the missing slots in the state before |
| Compiled.CompiledWriteAgrees | driver/file.c:73-95 | The same for a whole write, counting the missing slots up to its end or the largest file size |
| CompiledRuns.ApplyCompiledAgrees | driver/inode.c:393-404 | Every operation as compiled leaves the documented state under its guard and derails without it |
| CompiledRuns.CompiledRunAgrees | driver/inode.c:393-404 | A run of the compiled driver is a documented run, through the same states, in which the guard holds at each step, and conversely |
| CompiledRuns.CompiledRunKeeps | driver/inode.c:393-404 | Every state the compiled driver reaches without derailing is good |
| Witnesses.CompiledMappingDerails | driver/bitmap.c:71-83 | On every formatted device a run without a fault leaves an empty file and a full first data bitmap block; mapping the file then derails the compiled driver |
| Crowding.CompiledCreateDerails | driver/inode.c:149-155 | On every formatted device with 1026 inodes a run of 1024 creates fills the root; the next create is documented to fail with EIO and derails the compiled driver |

## Left out

- Module registration, mount plumbing, slab caches, buffer reference counts, logging, argument parsing and device calls: I/O and foreign calls.
- Failing block reads, including the `RESERVED_INO` return of the block allocator on a failed read.
- Refused emits in a listing, and the "." and ".." entries, which the VFS emits.
- Truncation, attribute changes, hard links, and files unlinked while open: the driver has no code for them.
- The page cache: a write maps each page's block, stores the bytes and raises the size, and a new block keeps the bytes it held.
- Inode objects as separate memory: inodes are values in one table that the methods update, so two in-memory copies of one inode are not modelled; neither are concurrency and sub-second times.
- Owner, permission bits and times in the operations: they are in the record codec only.
- The compiled variants of create, mapping and write as methods: they are functions on the state; only the unsigned bitmap scan is also a method.
- Image.Mount: an image shorter than its sections is a failed mount, while the source fails only if the block of the root inode cannot be read.
- Layout.FormatGeometry: devices of 2^32 or more blocks, whose block count is cut to 32 bits, are not covered.
- Readdir.ListFromStart: states the listing for the position 0; other positions are covered by Readdir.ListFromAnywhere and Crowding.ListingRightIffAligned.
