# A verified model of xv8's file system, checksums and shell tables

This project models four parts of the repository in Dafny and proves what they are for.

**The file-system stack of `kernel/fs`.** Four layers over one disk, each shown to agree with something simpler:

| layer | files here | agrees with |
|---|---|---|
| free-position bitmap (`bitmap.c`) | `Bitmap`, `FreeMap` | a set of positions |
| buffer cache and block allocator (`block.c`) | `CacheSpec`, `BufferCache`, `CacheRuns`, `Tally`, `CacheRoom`, `CacheClient`, `BlockIO` | a plain, uncached disk |
| inode cache (`inode.c`) | `DiskInodes`, `Volume`, `InodeSpec`, `InodeCache`, `InodeUses` | a map from inode numbers to inodes |
| open files, read, write, seek, open, close (`read_write.c`, `open_close.c`) | `FsState`, `Files`, `FileSteps`, `FileSys`, `Descriptors` | one byte sequence per file |
| path lookup (`namei.c`) | `Paths`, `Namei` | a fold of directory lookups |
| all of these | `Machine`, `Calls`, `Boot` | a machine of files, descriptors and cursors |
| locks of all of them | `Locks` | processes that take locks in one ranking |

`FsState.Abs` is the meaning of the machine: inodes by number, free blocks and free inode numbers per device, data
blocks. `Files.Sound` is the invariant: every data block is free or in exactly one address slot of one allocated inode.
`FileSys.FileSystem.Valid` holds between calls. `Machine.Does` says what each call answers and changes, and exactly when
it is refused, in terms of files, cursors and uses alone; `Calls.Run` proves that every run of calls by any processes is a
run of that machine, and `Machine.Isolation`, `Machine.ReadSeesWrite`, `Machine.AllocThenFree` and `Machine.PathsStay` what
follows for the callers. How much a write stores, and which blocks it takes, is told from the state before it
(`Files.AsMuchAsFits`, `Files.Wrote`). `Boot` starts the kernel on a volume with a file and a device node in it, where the
first open of the file must succeed, the file can be read and freed, and every open of the device is refused.
Where things lie is stated without the functions that compute it: fields and inodes as ranges of bytes (`Layout`,
`InodeInTable`), directories as lists written out (`DirectoryReadsBack`), maps as bits of bytes (`FreeIsBit`).
Tables that the kernel changes in place are classes over arrays; each method is proved equal to a function of the old
state, and the theorems are about those functions.

**Checksums of `busybox`.** `CrcSteps`, `CrcTable` and `Crc`: the table-driven CRC of `cksum.c` is division by the AUTODIN
II polynomial, bit by bit and reflected (section 8 of RFC 1952), it detects every burst of thirty-two bits, and a file
followed by its own checksum always leaves one residue.
`Sum`: the rotate-and-add sum of `sum.c` detects every change of one byte, and `Sum.TwoBytesIff` says when it misses two.

**The shell's environment table.** `EnvSpec` and `EnvTable`: an array with holes is a finite map.

**The shell's tokeniser.** `Words` and `Tokenizer`: `split_line` returns the maximal runs of non-delimiters (section
7.24.5.8 of ISO/IEC 9899:2011), and no store passes the capacity of a buffer.

`dafny verify dfyconfig.toml` checks everything. `Blocks` holds the constants of `kernel/include/param.h`. Numbers are
little-endian and sized as an x86_64 compiler sizes them: an on-disk inode takes 112 bytes, a directory entry 40.

## Repairs

`kernel/fs` is a draft, and says so (kernel/fs/block.c:114-115, kernel/fs/bitmap.c:37). The model is of the protocol it
intends. It departs from the code in these places:

- **Bitmap.** A 1 bit means free (kernel/fs/bitmap.c:11). Word and bit are `pos / 16` and `pos % 16`, and unset_pos clears
  with AND. `AsWritten` proves exactly when the expressions as coded do the same, and shows positions where they do not.
- **Allocation.** balloc and ialloc clear the bit they find, the scan moves to the next block, and positions count from
  the start of the map, not of the block. get_free_pos stops at the end of its block. A block just allocated is zeroed, as
  the unused bzeroo does (kernel/fs/block.c:127-137). When ialloc finds no room for the inode the number is given back.
- **Addressing.** The free map has `BITS_PER_BLK` positions a block, and an inode lies at slot times inode size.
- **Counts.** A hit in bread, iget or fget counts too. A count is an unsigned byte (kernel/include/fs.h:120, 137, 154); the
  256th user is refused. iput gives up the use of a clean inode as well.
- **Dirty data.** A dirty buffer is written before it is re-read or recycled, a dirty inode before its entry is recycled,
  and bwrite leaves the buffer clean. `AsWritten.BreadKeepsViewIff` says exactly when the code as it stands loses data.
- **Locks** are given back on every path, and are identities, not values. brelease takes the lock of the buffer around its
  work; the code only releases it when held (kernel/fs/block.c:73-76), and nothing has taken it.
- **Write.** A new block is recorded in `i_addr`, the size follows the cursor, the last partial block is dirty and given
  back, and the next block is fetched when its first byte is written. `i_addr` has 8 slots, as fs.h declares it; param.h
  says 9. sys_read gives its last block back and fetches none past the end of the file.
- **ifree** does what its comments announce: the blocks and the number become free, and the entry is dropped. It checks
  nothing; `Calls.DoFree` refuses a directory, an inode somebody has open and one nobody uses.
- **Open and close.** fget looks for the very inode, device and number, among live entries, and gives up the caller's extra
  use when it finds it. sys_close clears the slot and gives the descriptor's inode up at the last close. sys_open returns
  the descriptor, as its comment promises; the code returns EINPROGRESS. Descriptors are below 128 and not negative in
  every call.
- **namei** stops at the end of the path, skips one slash after each component, matches names exactly, steps through a
  block by the size of an entry, ignores entries with inode number 0, and gives up the use of each directory it leaves.
- **Environment.** env_set looks through the whole table before it takes a hole; env_unset and echo pass over holes; the
  value buffer starts empty. `EnvSpec.AsWrittenIff` and `EnvSpec.SeekIff` say when the code as it stands does the same,
  and `EnvSpec.BoundTwice` shows calls after which it does not.
- **Tokeniser.** split_line counts its capacity in elements; `Tokenizer.StoresFitIff` says when bytes are enough.
- **cksum** is the fold over the octets of the file; the loop over chunks is the known fault of busybox/README:44.

Kept as coded: sys_seek counts SEEK_END back from the cursor and refuses offset 0 and every offset from the size on, so
`FileSys.FileSystem.WriteSeekRead` states exactly when a cursor can be put back. It returns the new offset, not the
distance its comment speaks of. `f_flag & FWRT == 0` never holds in C, so the open mode stops no call. read_line compares
with `BUFF_SZ` rather than with the size reached; that grows the buffer more than needed and never too little.

## Model

| member | source | states |
|---|---|---|
| `CacheSpec.BgetInv` | kernel/fs/block.c:139-164 | bget returns the buffer that carries the tag, or recycles the first one nobody uses; a buffer in use is never recycled, no tag gets a second buffer, and every other buffer is untouched |
| `CacheSpec.BreadEffect` | kernel/fs/block.c:20-31 | bread returns a buffer carrying the block and showing its current contents, adds exactly one use to it, and changes what no block reads as |
| `CacheSpec.BzeroEffect` | kernel/fs/block.c:127-137 | the block reads as zeros afterwards and every other block as before |
| `CacheSpec.StoreEffect` | kernel/fs/read_write.c:122-127 | a store through a handle changes one byte of one block of the disk everyone sees, and marks the buffer dirty |
| `CacheSpec.BwriteEffect` | kernel/fs/block.c:36-56 | a dirty buffer reaches the disk and loses one use; the last use leaves a buffer without tag, bytes or users, and the block cached nowhere; an earlier one leaves the buffer as it is, but clean; a clean buffer changes nothing, and no block reads differently |
| `CacheSpec.BreleaseEffect` | kernel/fs/block.c:68-79 | brelease drops one use and changes nothing else |
| `BufferCache.BufferTable.constructor` | kernel/include/fs.h:232-235 | an empty table shows the disk as it is |
| `BufferCache.BufferTable.Bget` | kernel/fs/block.c:139-164 | the two scans over the table in place: disk, buffers and handle are those of the specification, and failure is its panic |
| `BufferCache.BufferTable.Bread` | kernel/fs/block.c:20-31 | table, disk and handle are those of the specification; failure when no buffer is free or the count is full |
| `BufferCache.BufferTable.Bzero` | kernel/fs/block.c:127-137 | the same for a block zeroed instead of read |
| `BufferCache.BufferTable.Store` | kernel/fs/read_write.c:122-127 | the byte goes into the buffer and the buffer is dirty |
| `BufferCache.BufferTable.Bwrite` | kernel/fs/block.c:36-56 | disk and table are those of the specification |
| `BufferCache.BufferTable.Brelease` | kernel/fs/block.c:68-79 | table is that of the specification |
| `CacheRuns.StepRefines` | kernel/fs/block.c:20-79 | one call on the cached machine is the same call on a machine with a plain disk: same answer, same blocks, same users of every block |
| `CacheRuns.Transparent` | kernel/fs/block.c:20-79 | every run of bread, zeroing a new block, store, bwrite and brelease, with whatever recycling, gives the answers the plain disk gives and ends in agreement with it |
| `CacheRuns.BootAgrees` | kernel/include/fs.h:232-235 | a table with no users agrees with the plain disk, so runs can start there |
| `CacheRuns.SyncLeavesNothing` | kernel/fs/block.c:46-53 | over any run after a bwrite that took the last use of a block, no buffer carries the block until it is opened again |
| `CacheRoom.RoomIff` | kernel/fs/block.c:151-161 | a buffer can be recycled if and only if fewer blocks are in use than there are buffers |
| `CacheRoom.StepIff` | kernel/fs/block.c:139-164 | a call panics exactly when the plain machine would forbid it, or the block has 255 users, or it is unused and every buffer holds a block in use |
| `CacheRoom.RunIff` | kernel/fs/block.c:139-164 | a whole run ends without panic if and only if the plain machine with that many buffers allows every step |
| `BlockIO.OpenBlock` | kernel/fs/block.c:20-31 | the caller holds the block, with its contents, and nothing else has changed |
| `BlockIO.OpenZero` | kernel/fs/block.c:103 | the caller holds the block zeroed and dirty |
| `BlockIO.StoreByte` | kernel/fs/read_write.c:122-127 | the byte is stored and the block still held |
| `BlockIO.CloseBlock` | kernel/fs/block.c:68-79 | all uses are as before the block was opened, and the disk reads as before but for what was stored into that block |
| `BlockIO.WriteBlock` | kernel/fs/block.c:36-56 | a dirty block is on the disk with its bytes, and every use is as before the block was opened; if that use was the only one the buffer is blank and the block cached nowhere, else the buffer keeps all but one use; a clean block is left as it is |
| `AsWritten.BreadKeepsViewIff` | kernel/fs/block.c:20-31 | bread and bget as coded keep every block's contents if and only if the buffer they settle on does not hold unsaved data of a block nobody uses |
| `AsWritten.StoreLeavesUnsaved` | kernel/fs/block.c:68-79 | one store and a brelease produce such a buffer |
| `AsWritten.BreadCountsIff` | kernel/fs/block.c:25-28 | bread as coded counts its caller if and only if the block had no user before |
| `Bitmap.SetAdds` | kernel/fs/bitmap.c:29-35 | setting a bit adds exactly that position to the set of free positions, across all words and bits |
| `Bitmap.ClearRemoves` | kernel/fs/bitmap.c:38-43 | clearing a bit removes exactly that position |
| `Bitmap.ClaimThenFree` | kernel/fs/bitmap.c:29-43 | clearing then setting a free position, or setting then clearing a taken one, restores every word |
| `Bitmap.NoneFree` | kernel/fs/bitmap.c:11-19 | no position is free if and only if every word is zero |
| `Bitmap.SetPos` | kernel/fs/bitmap.c:29-35 | in place: the set gains the position |
| `Bitmap.UnsetPos` | kernel/fs/bitmap.c:38-43 | in place: the set loses the position |
| `Bitmap.LastFreeBit` | kernel/fs/bitmap.c:21-24 | the bit loop yields the highest set bit of a non-zero word |
| `Bitmap.GetFreePos` | kernel/fs/bitmap.c:6-27 | fails if and only if every word is zero, else returns a free position in the first non-zero word, the last one of it |
| `Bitmap.FirstExists` | kernel/fs/bitmap.c:6-27 | every set of positions that is not empty has one such choice, and only one |
| `AsWritten.TargetIff` | kernel/fs/bitmap.c:31-32 | the word and bit computed as coded are those of the position if and only if it is position 0 |
| `AsWritten.SetPosIff` | kernel/fs/bitmap.c:29-35 | set_pos as coded adds its position, and stores inside the map, if and only if the position is 0, or the one really set is in the map and both were free already |
| `AsWritten.SetPosMisses` | kernel/fs/bitmap.c:29-35 | a taken position other than 0 is not freed: another one is, or the store falls past the map |
| `AsWritten.SetPosExample` | kernel/fs/bitmap.c:29-35 | position 5 of a map with nothing free: 264 is freed |
| `AsWritten.UnsetPosIff` | kernel/fs/bitmap.c:38-43 | unset_pos as coded, wrong word and bit included, takes its position from the map if and only if the word it changes is in the map, the position was taken already, and every other position of that word was free |
| `AsWritten.UnsetPosMisses` | kernel/fs/bitmap.c:38-43 | a free position, as get_free_pos finds them, is never claimed |
| `AsWritten.UnsetPosExample` | kernel/fs/bitmap.c:38-43 | the one free position of a word, found by get_free_pos and claimed as coded: all sixteen are free |
| `FreeMap.SetAfter` | kernel/fs/block.c:116-125 | writing one bit of a map kept in blocks adds or removes exactly one position of the map |
| `FreeMap.FreeIsBit` | kernel/fs/bitmap.c:11-24 | a position of a map is free if and only if its bit is 1: bit p % 8, the low one first, of byte p / 8 of the blocks of the map |
| `FreeMap.ReleaseUndoesClaim` | kernel/fs/block.c:81-125 | freeing a position just claimed restores every byte of the disk |
| `FreeMap.ClaimInWords` | kernel/fs/bitmap.c:6-43 | the choice of get_free_pos in one block is cleared, byte for byte |
| `FreeMap.ClaimInBlock` | kernel/fs/block.c:94-109 | one turn of the scan: the block is read, searched and given back |
| `FreeMap.ClaimPos` | kernel/fs/block.c:81-112 | the scan fails only when no position is free; else it clears the bit of a free one in the first block that has any, and leaves every buffer use as it was |
| `FreeMap.ChoiceIsFirst` | kernel/fs/block.c:93-112 | over all blocks of the map the position claimed is that choice among all free positions |
| `FreeMap.ReleasePos` | kernel/fs/block.c:116-125 | the bit of the position is set and nothing else on the disk changes |
| `DiskInodes.DecodeEncode` | kernel/include/fs.h:81-94 | an inode written to bytes and read back is the same inode |
| `DiskInodes.DecodeZeros` | kernel/fs/inode.c:118-121 | a slot set to zero reads as the blank inode |
| `DiskInodes.LittleEnd` | kernel/include/fs.h:81-94 | a four-byte number, low byte first, in powers of 256 |
| `DiskInodes.LittleEnd8` | kernel/include/fs.h:81-94 | an eight-byte one from its two halves |
| `DiskInodes.Layout` | kernel/include/fs.h:81-94 | the byte range of every field of an on-disk inode |
| `DiskInodes.OneSlot` | kernel/fs/inode.c:9 | overwriting one slot of a block leaves every other slot of it |
| `DiskInodes.SlotsInOrder` | kernel/fs/inode.c:9 | the slots of inodes 0, 1, 2 and so on, put one after the other, are the block from its first byte on |
| `Volume.WriteOneInode` | kernel/fs/inode.c:7-9 | number to (block, slot) is injective: writing one inode back leaves every other, in the same block or elsewhere |
| `Volume.InodeInTable` | kernel/fs/inode.c:7-9 | over all blocks of the table, inode number n is the 112 bytes that follow those of inodes 0 to n - 1 |
| `Volume.WrittenBytes` | kernel/fs/inode.c:53-55 | overwriting an inode puts the bytes there |
| `InodeSpec.CleanedSame` | kernel/fs/inode.c:52-57 | writing a dirty entry back changes no inode anyone can see |
| `InodeSpec.FilledSame` | kernel/fs/inode.c:32-37 | recycling a clean unused entry for another inode changes no inode anyone can see |
| `InodeSpec.EditedView` | kernel/include/fs.h:101-123 | changing an entry in core changes that inode for every reader and no other |
| `InodeCache.InodeTable.CopyIn` | kernel/fs/inode.c:54 | memcpy into the block held |
| `InodeCache.InodeTable.PutInode` | kernel/fs/inode.c:53-55 | the disk gets the bytes in the slot of that inode, the 112 after those of the inodes before it in the table, and differs nowhere else |
| `InodeCache.InodeTable.WriteBack` | kernel/fs/inode.c:52-56 | the entry is on disk and clean, and all inodes read as before |
| `InodeCache.InodeTable.FetchInode` | kernel/fs/inode.c:33-39 | the inode those 112 bytes of the table are; no buffer use left over |
| `InodeCache.InodeTable.Recycle` | kernel/fs/inode.c:32-39 | an unused entry becomes the inode asked for, with one use; a dirty one is written back first, and no inode changes |
| `InodeCache.InodeTable.Iget` | kernel/fs/inode.c:15-44 | the entry of the inode gains one use and nothing else, or the first unused entry becomes the inode that its bytes of the table are, clean and with one use; fails exactly when there is no room; no inode changes |
| `InodeCache.InodeTable.Iput` | kernel/fs/inode.c:46-62 | one use less, dirty or not; a dirty inode goes to disk; no inode changes |
| `InodeCache.InodeTable.Irelease` | kernel/fs/inode.c:72-83 | one use less and nothing else |
| `FsState.AlikeAbs` | kernel/fs/inode.c:15-62 | the machine seen as inodes by number, free sets and data blocks is not changed by what the inode cache does |
| `FsState.DataAbs` | kernel/fs/read_write.c:122 | storing into a data block changes that data block and no inode or free set |
| `FsState.BlkBitAbs` | kernel/fs/block.c:116-125 | writing a bit of the block map changes that free set by that block and nothing else |
| `FsState.InoBitAbs` | kernel/fs/inode.c:97-107 | the same for inode numbers |
| `FsState.EditAbs` | kernel/fs/read_write.c:119-135 | editing an inode in core changes that inode of the state and nothing else |
| `FsState.WipeAbs` | kernel/fs/inode.c:118-121 | zeroing a slot and dropping its entry makes that inode blank and changes nothing else |
| `Files.PutByteContent` | kernel/fs/read_write.c:121-123 | one turn of the write loop splices one byte into the file |
| `Files.PutByteElsewhere` | kernel/fs/read_write.c:121-123 | and leaves the bytes of every other file |
| `Files.AddBlockContent` | kernel/fs/read_write.c:129 | giving a file a fresh block changes no byte of any file |
| `Files.WroteMore` | kernel/fs/read_write.c:121-133 | consecutive splices are one splice of the concatenation, across block boundaries, and the blocks taken are those one write of it takes |
| `Files.SuppliedSize` | kernel/fs/block.c:81-112 | as many free blocks fewer as slots got one |
| `Files.Stops` | kernel/fs/read_write.c:126-132 | a write that reaches its length, the size limit, or an empty slot on a full device has stored as many bytes as there was room for in the state before it |
| `Files.AsMuchIff` | kernel/fs/read_write.c:121-136 | then every shorter length has room and every longer one up to the length asked for has not; the whole is stored if and only if it ends within the size limit and its slots that lack a block are no more than the free blocks |
| `Files.ReadBack` | kernel/fs/read_write.c:118-135 | after a write the bytes written stand where they were written, and those before and after are the old ones |
| `Files.OneOwner` | kernel/fs/inode.c:85-130 | each data block is free, or held by exactly one address slot of exactly one allocated inode, never both |
| `Files.Conserved` | kernel/fs/block.c:81-125 | free blocks and owned blocks are disjoint and together all data blocks of the device, so their numbers always add up to the same |
| `Files.AddBlockStep` | kernel/fs/block.c:81-112 | ownership survives allocation: the new block was owned by nobody |
| `Files.DropBlockStep` | kernel/fs/block.c:116-125 | ownership survives freeing a block of a file |
| `Files.PutByteStep` | kernel/fs/read_write.c:121-123 | ownership survives a store |
| `FileSteps.StoreStep` | kernel/fs/read_write.c:121-123 | one stored byte, on blocks and inode entries, is that splice on files, and takes no block |
| `FileSteps.GrowStep` | kernel/fs/read_write.c:126-132 | balloc and the record of its block in i_addr keep all invariants and all contents, and take that block from the free ones for that slot |
| `FileSteps.DropStep` | kernel/fs/inode.c:123-125 | bfree and the clearing of the slot that named the block keep all invariants |
| `FileSteps.WipeStep` | kernel/fs/inode.c:118-123 | zeroing the inode on disk and setting the bit of its number keep all invariants |
| `FileSteps.NumberStep` | kernel/fs/inode.c:97-107 | a number claimed from the map is that of a blank inode, and all invariants survive |
| `Files.PutByteBlocks` | kernel/fs/read_write.c:121-123 | a store touches no block that another inode names, past its size or not |
| `Files.AddBlockBlocks` | kernel/fs/read_write.c:129 | nor does an allocation |
| `FileSteps.FreshIsSound` | kernel/include/fs.h:168-194 | a volume of blank inodes with every data block free satisfies the invariant |
| `FileSys.FileSystem.OpenSlot` | kernel/fs/read_write.c:115-132 | the block of a slot is held; one that had none got the free block the scan chooses, zeroed, and no byte of any file changes; fails only for a slot without a block on a full device, and then nothing has changed |
| `FileSys.FileSystem.StoreSlot` | kernel/fs/read_write.c:122-123 | the byte under the cursor is stored and the size covers it |
| `FileSys.FileSystem.SysWrite` | kernel/fs/read_write.c:82-136 | the file becomes its old contents with the bytes written spliced in at the cursor; the count is the most there was room for; each slot those bytes lie in that had no block took one, in order, the choice of the scan among what was free, and no other slot or free block changed; a block taken reads as zeros but for those bytes, and no other byte of any data block changed; every other file is unchanged, as is every block another inode names and every other field of this inode; the cursor advances by the count; buffer uses are as before |
| `FileSys.FileSystem.WriteTurn` | kernel/fs/read_write.c:121-133 | one byte more is spliced in, entering a block and letting it go at its end as need be; or nothing changes, and the file is as long as files get or the slot under the cursor is empty and the device full |
| `FileSys.FileSystem.ReadBytes` | kernel/fs/read_write.c:56-70 | the loop copies a slice of the contents |
| `FileSys.FileSystem.ReadTurn` | kernel/fs/read_write.c:58-70 | one byte of the contents is copied and the cursor moves by one, whether or not a block ends there |
| `FileSys.FileSystem.SysRead` | kernel/fs/read_write.c:14-73 | returns exactly the slice of the contents from the cursor, cut at the file size, advances the cursor by its length, and changes no file and no buffer use |
| `FileSys.FileSystem.SysSeek` | kernel/fs/read_write.c:145-191 | as coded: succeeds if and only if the new offset is above 0 and below the size, and then moves the cursor there |
| `FileSys.FileSystem.WriteSeekRead` | kernel/fs/read_write.c:82-191 | after a write of as many bytes as there is room for, a seek back and a read of that length, the bytes written are returned; the seek back succeeds if and only if the start is above 0 and below the new size |
| `FileSys.FileSystem.DropBlocks` | kernel/fs/inode.c:125 | every block of the inode is free, every slot zero, the size 0 |
| `FileSys.FileSystem.Ifree` | kernel/fs/inode.c:112-130 | for any inode in hand that no open file names, allocated or not: it is blank on disk and in no entry, its blocks and its number are free, and nothing else has changed |
| `FileSys.FileSystem.Ialloc` | kernel/fs/inode.c:85-110 | the free number the scan chooses is taken and its blank inode in use; it fails if and only if no number is free or there is no room in core for the inode of that number, and then the state is exactly as before |
| `FileSys.FileSystem.Fget` | kernel/fs/open_close.c:94-123 | the live entry of that very inode gains a user and the caller's extra inode use is given up, or the first free entry gets its first, with the mode of the inode, the flags of the caller and the cursor at 0; fails exactly when full; no two live entries ever name one inode |
| `FileSys.FileSystem.Fput` | kernel/fs/open_close.c:80-87 | one user less; at the last one the entry is cleared and the inode given up, and only then |
| `FileSys.FileSystem.GetInodeUse` | kernel/fs/inode.c:15-44 | iget keeps the open-file table and every file |
| `FileSys.FileSystem.PutInodeUse` | kernel/fs/inode.c:46-62 | iput keeps the open-file table and every file |
| `Descriptors.SlotAdded` | kernel/fs/open_close.c:55-57 | a new slot and one count more keep every count equal to the number of slots |
| `Descriptors.SlotRemoved` | kernel/fs/open_close.c:80 | a slot cleared and one count less keep it so |
| `Descriptors.LastUser` | kernel/fs/open_close.c:80 | a count reaches zero exactly when no slot of any process points at the entry |
| `Descriptors.DescriptorTable.Fdget` | kernel/fs/open_close.c:125-137 | the lowest free descriptor from 3 on, or none is free |
| `Descriptors.DescriptorTable.SysOpen` | kernel/fs/open_close.c:41-57 | the lowest free descriptor points at an entry of that inode, a new one with the mode of the inode and the flags of the call; it fails exactly when the open-file table has no room or the process no descriptor, and then no count, slot or inode use is left over |
| `Descriptors.DescriptorTable.SysClose` | kernel/fs/open_close.c:67-92 | the slot is cleared; the inode loses a use if and only if no slot points at the entry any more |
| `Calls.RegularIsAllocated` | kernel/fs/open_close.c:29-33 | an inode of a regular file in use is not among the free ones |
| `Calls.OpenFound` | kernel/fs/open_close.c:29-57 | succeeds exactly for a regular file with room in the open-file table and a free descriptor, and accounts for the use of the inode either way |
| `Calls.OpenJoined` | kernel/fs/open_close.c:98-117 | what fget does to the table is, for the callers, joining a file that is open or opening it at its start |
| `Calls.Open` | kernel/fs/open_close.c:14-60 | a descriptor is given out exactly when the path leads, component by component, to a regular file and there is room for every inode on the way, for the open file and for the descriptor; it leads to that file. Otherwise no file, descriptor, open file or inode use has changed |
| `Calls.DoWrite` | kernel/fs/read_write.c:82-136 | sys_write through a descriptor is the write of the machine below |
| `Calls.DoRead` | kernel/fs/read_write.c:14-73 | so is sys_read, bytes included |
| `Calls.DoSeek` | kernel/fs/read_write.c:145-191 | and sys_seek |
| `Calls.DoClose` | kernel/fs/open_close.c:67-92 | and sys_close: the open file goes exactly when no descriptor leads to it any more |
| `Calls.DoOpen` | kernel/fs/open_close.c:14-60 | and sys_open |
| `Calls.DoAlloc` | kernel/fs/inode.c:85-110 | and ialloc, whose use of the new inode stays with the caller |
| `Calls.DoName` | kernel/fs/namei.c:9-33 | and namei, whose use of the inode found stays with the caller |
| `Calls.DoPut` | kernel/fs/inode.c:46-62 | and iput, done exactly when somebody but an open file has a use of the inode |
| `Calls.DoFree` | kernel/fs/inode.c:112-130 | and ifree, done exactly for an inode in use, no directory, that nobody has open |
| `Calls.SameFullSet` | kernel/fs/inode.c:22-30 | room in the inode cache, told from the uses of inodes |
| `Calls.RoomIsRoom` | kernel/fs/open_close.c:100-111 | room in the open-file table, told from descriptors and open files |
| `Calls.Perform` | kernel/fs/open_close.c:14-92 | any call is a step of the machine of files and cursors (`Machine.Does`), refused exactly when that says so, with its answer; it keeps all invariants and every count of buffer uses |
| `Calls.Run` | kernel/fs/open_close.c:14-92 | any run of calls by any processes is a run of that machine, answer for answer; it ends with counts equal to slots, buffer uses as they were, and with free and owned blocks disjoint and constant in number |
| `Machine.TypeBits` | kernel/include/fs.h:9-11 | the type tests are those of the C text on the bits of any mode: i_mode & 0170000 against 0100000 and 0040000 |
| `Machine.TypeByte` | kernel/include/fs.h:9-11 | on the disk they are the upper half of the second byte of the inode |
| `Machine.OpensOnlyFiles` | kernel/fs/open_close.c:30-33 | a path that leads to an inode whose type bits are any other than 1000 is refused and changes nothing |
| `Machine.StepLeaves` | kernel/fs/read_write.c:118-135 | a call that does not write to or free a file leaves its contents |
| `Machine.Isolation` | kernel/fs/read_write.c:118-135 | over any run a file that no call writes to or frees keeps its contents |
| `Machine.WriteCount` | kernel/fs/read_write.c:118-135 | a write answers the largest length there was room for, the whole when it stays inside blocks the file has, and leaves as many free blocks fewer as slots it needed a block for |
| `Machine.AllocThenFree` | kernel/fs/inode.c:85-130 | an inode just allocated can be freed by its caller, which puts every file, block and number back, and no other use has changed |
| `Machine.StepKeepsOther` | kernel/fs/read_write.c:118-135 | no call changes a directory, nor any block it names |
| `Machine.StepHolds` | kernel/fs/inode.c:22-27 | an inode held besides its open file, not freed and not given up by this call, stays held and keeps its entry |
| `Machine.PathsStay` | kernel/fs/namei.c:9-33 | over any run in which nobody gives them up, the root and working directories stay in their entries, and every path through directories goes on leading to the inode it led to |
| `Machine.ReadSeesWrite` | kernel/fs/read_write.c:52-135 | bytes written are the bytes read at the same place, by any process through any descriptor, after any calls that do not touch the file |
| `Machine.SeekUndoesRead` | kernel/fs/read_write.c:166-189 | after a read each of the three seeks, given the length read or the old place, puts the cursor and everything else back |
| `Machine.ReadsInOrder` | kernel/fs/read_write.c:44-78 | reads of any sizes give the file from the cursor on, in order and without gaps, and the empty answer comes only after all of it |
| `Boot.IsMounted` | kernel/include/fs.h:168-194 | a volume of eight blocks with a root directory, one regular file and one character device is well formed |
| `Boot.IsSound` | kernel/fs/inode.c:85-130 | and sound: blocks owned once, free numbers blank |
| `Boot.NamesFile` | kernel/fs/namei.c:9-33 | on it "/f", the first entry of the root, leads to the file and "/d", the second, to the device, with room on the way |
| `Boot.OpensFile` | kernel/fs/open_close.c:14-60 | on it the first call to open "/f" must succeed |
| `Boot.DeviceRefused` | kernel/fs/open_close.c:30-33 | on it the path of the device leads to its inode, and an open of it is refused |
| `Boot.ReadsFile` | kernel/fs/read_write.c:23-80 | on it the first open of "/f" answers descriptor 3 and a read through it the two bytes of its data block |
| `Boot.StartsTidy` | kernel/fs/namei.c:14-18 | on it the root is held, is a directory, and nothing is open |
| `Boot.Start` | kernel/include/fs.h:222-240 | the tables of the kernel start there, with every invariant |
| `Boot.AllocatesAndFrees` | kernel/fs/inode.c:85-130 | from the start the first allocation must succeed, its number is 15, and freeing it is done and puts everything back |
| `Boot.FreesFile` | kernel/fs/inode.c:112-130 | from the start namei of "/f" and ifree of what it returns are done; then block and number of the file are free |
| `Boot.FileFreed` | kernel/fs/inode.c:112-130 | the kernel started and that run made, down to the tables |
| `Paths.ComponentsJoin` | kernel/fs/namei.c:20-27 | the components of "p/q" are those of p followed by those of q |
| `Paths.OneName` | kernel/include/fs.h:71-74 | a name field holds one name only, so matching is exact and not by prefix |
| `Paths.WalkJoin` | kernel/fs/namei.c:21-27 | walking one list of names after another is walking their concatenation |
| `Paths.WalkPath` | kernel/fs/namei.c:9-33 | walking "p/q" is walking q from where p leads |
| `Paths.TypedPath` | kernel/fs/namei.c:14-27 | components of a path as typed are what stands between its slashes |
| `Paths.FindIsFirst` | kernel/fs/namei.c:42-50 | a directory search yields the number of the first entry, in order of slots and entries, with that very name, and none when there is none |
| `Paths.DirectoryReadsBack` | kernel/fs/namei.c:42-50 | for any list of at most 102 numbers and names, each written out as 8 bytes of number, 25 of name and padding to 40, the search of that block yields the number of the first entry in use with the name, and none if there is none |
| `Paths.DirectoryExists` | kernel/include/fs.h:71-74 | every such list is the contents of a block |
| `Namei.SearchBlock` | kernel/fs/namei.c:44-48 | the first entry of the block with that very name |
| `Namei.DirLookup` | kernel/fs/namei.c:35-54 | the entry found over all blocks of the directory, with every buffer given back |
| `Namei.SkipComponent` | kernel/fs/namei.c:22 | stops at the next slash or the end of the path |
| `InodeUses.GetsOneMore` | kernel/fs/inode.c:15-44 | iget adds one use of one inode and of no other |
| `InodeUses.NoRoomIs` | kernel/fs/inode.c:22-30 | there is no room for an inode exactly when its count is full, or it has no use and every entry has one |
| `InodeUses.SameRoom` | kernel/fs/inode.c:22-30 | where the inodes in use are kept makes no difference to that |
| `Tally.AllUsedIff` | kernel/fs/block.c:151-161 | every entry of a table is in use exactly when as many tags are in use as there are entries |
| `Namei.Step` | kernel/fs/namei.c:23-26 | one lookup, after which the directory's use is given up |
| `Namei.WalkFrom` | kernel/fs/namei.c:21-32 | ends where the fold of lookups ends, found or not, holding one use of the inode found and no other; runs out of entries exactly when an inode on the way has no room; entries in use keep their inodes |
| `Namei.NamePath` | kernel/fs/namei.c:9-33 | the same, from the root for a path that starts with a slash and from the working directory otherwise |
| `Locks.ScriptOk` | kernel/fs/inode.c:20-58 | every call takes its locks in one strict ranking and returns holding exactly what it entered with |
| `Locks.ProgramOk` | kernel/fs/open_close.c:78-89 | so does every sequence of calls |
| `Locks.RunInv` | kernel/fs/block.c:143-157 | in every interleaving no lock has two holders and every process keeps the ranking |
| `Locks.OneAtATime` | kernel/fs/block.c:143-157 | in every interleaving of any calls no two processes are at work on one table at once |
| `Locks.ScriptWorks` | kernel/fs/inode.c:20-58 | and each call does work on every table, inode and buffer it needs |
| `Locks.WantHigher` | kernel/fs/superblock.c:10-17 | along a wait-for edge the rank of the lock wanted goes up |
| `Locks.NoCycle` | kernel/fs/inode.c:20-58 | the wait-for graph has no cycle |
| `Locks.NoDeadlock` | kernel/fs/open_close.c:78-89 | from every reachable state with work left some process can move, whatever the calls and the interleaving |
| `Locks.DoneHoldsNothing` | kernel/fs/block.c:45-55 | a process that has finished holds nothing |
| `Locks.RunsEnd` | kernel/fs/block.c:143-157 | every run is as long as the work done, so runs end |
| `CrcSteps.StepInjective` | busybox/cksum.c:19-22 | a step of the division can be undone |
| `CrcTable.RowIsSum` | busybox/cksum.c:24-89 | every row of the table is its first entry added to row 0 |
| `CrcTable.TableIsDivision` | busybox/cksum.c:24-89 | each of the 256 entries is eight steps of division of its index |
| `Crc.UpdateIsDivision` | busybox/cksum.c:17 | one use of the macro is eight steps of division, for every state and byte |
| `Crc.CksumIsDivision` | busybox/cksum.c:124-143 | for every file the checksum is the complement of the bit-by-bit remainder from all ones |
| `Crc.Crc32` | busybox/cksum.c:124-143 | the loop computes it |
| `Crc.EmptyFile` | busybox/cksum.c:124-143 | the checksum of the empty file is 0 |
| `Crc.CheckValue` | busybox/cksum.c:124-143 | the checksum of the nine digits from 1 is 0xcbf43926 |
| `Crc.Residue` | busybox/cksum.c:124-143 | a file followed by its own checksum, low byte first, has checksum 0x2144df1c, whatever the file |
| `Crc.FeedWord` | busybox/cksum.c:17 | the bits of a word fed one at a time make the difference the whole word makes |
| `Crc.ByteIsBits` | busybox/cksum.c:17 | a byte enters the division as its eight bits, lowest first |
| `Crc.RemainderIsFeed` | busybox/cksum.c:124-143 | the remainder of a file is that of its bits |
| `Crc.WindowBits` | busybox/cksum.c:17 | from one state, two strings of at most thirty-two bits lead to one state only if they are the same |
| `Crc.LongerMissed` | busybox/cksum.c:17 | thirty-three bits are too many, from every state |
| `Crc.BurstDetected` | busybox/cksum.c:124-143 | files of one length that differ at most within thirty-two consecutive bits, wherever they begin, have equal checksums if and only if they are equal |
| `Crc.BytesDetected` | busybox/cksum.c:124-143 | so within four consecutive bytes |
| `Sum.RotateMovesBits` | busybox/sum.c:46 | the shift and mask are a sixteen-bit right rotation |
| `Sum.MixState` | busybox/sum.c:46-48 | for one byte a step is injective in the state |
| `Sum.MixByte` | busybox/sum.c:46-48 | from one state a step is injective in the byte |
| `Sum.Checksum` | busybox/sum.c:39-54 | the loop folds the step over the file and stays below 65536 |
| `Sum.SumOfAbc` | busybox/sum.c:39-54 | the sum of "abc" is 16556 |
| `Sum.OneByteDetected` | busybox/sum.c:39-54 | files of one length that differ at most in one byte have equal sums if and only if they are equal |
| `Sum.TwoBytesIff` | busybox/sum.c:39-54 | files that differ at two places have one sum if and only if the second change is the difference of the sums before it, rotated once |
| `Sum.SumsBefore` | busybox/sum.c:46-48 | those sums come from the one before the first change by the changed byte and the common bytes between |
| `Sum.NextBytesIff` | busybox/sum.c:46-48 | for neighbouring bytes and no carry, one sum if and only if first plus twice second is the same in both |
| `Sum.TwoBytesMissed` | busybox/sum.c:39-54 | for instance, a two and then the one it is rotated into |
| `EnvSpec.BootIsGood` | busybox/shell/sh.c:145-169 | the initial table is well formed and USER, UID, GID, HOME, PATH and PWD are its protected names |
| `EnvSpec.BootMeans` | busybox/shell/sh.c:145-169 | at the start each of the eight names has the value the parent passed for it |
| `EnvSpec.RoomLeft` | busybox/shell/env.c:98-99 | there is an empty slot if and only if fewer names are bound than there are slots |
| `EnvSpec.SetRefinesIff` | busybox/shell/env.c:96-113 | set updates the map, or fails when the name is new and the table full, each name keeping one slot, if and only if the name has fewer than 32 characters or is refused |
| `EnvSpec.UnsetRefines` | busybox/shell/env.c:125-142 | unset removes the name, or fails if and only if it is absent or protected |
| `EnvSpec.RunRefines` | busybox/shell/env.c:74-143 | a run is that of a finite map with that room and those protected names if and only if every name that gets a slot has fewer than 32 characters |
| `EnvSpec.CompareIsStrCmp` | busybox/shell/env.c:105 | comparing names is strcmp on the bytes of the 32-byte field, the read past its end included |
| `EnvSpec.FoundIffFits` | busybox/shell/env.c:100-102 | a new name is found with its value if it has fewer than 32 characters, and otherwise the next search for it reads past the end of its field |
| `EnvSpec.AsWrittenIff` | busybox/shell/env.c:97-110 | set as coded does the same if and only if no hole lies before the slot of the name |
| `EnvSpec.SeekIff` | busybox/shell/env.c:125-138 | the scan as coded reaches a null name if and only if a hole comes before the name, or the name is absent and there is a hole |
| `EnvSpec.BoundTwice` | busybox/shell/env.c:97-138 | from the initial table, set a, set b, unset a, set b: as coded b is bound twice, and a scan for it before the last call meets a null name |
| `EnvTable.Environment.constructor` | busybox/shell/sh.c:145-169 | the arrays hold the initial table |
| `EnvTable.Environment.Seek` | busybox/shell/env.c:126-127 | the slot of the name, past holes, or the end |
| `EnvTable.Environment.JoinArgs` | busybox/shell/env.c:86-94 | the value is the arguments, each followed by a space, unless a store falls outside its 256 bytes |
| `EnvTable.JoinedIs` | busybox/shell/env.c:88-93 | the value is the arguments joined with single spaces, and one space more |
| `EnvTable.Environment.EnvSet` | busybox/shell/env.c:74-114 | the arrays end as set leaves the table, with the arguments joined by spaces as value; usage errors, and a value of 256 bytes or more, which overruns its block, change nothing |
| `EnvTable.Environment.EnvUnset` | busybox/shell/env.c:116-143 | the arrays end as unset leaves the table |
| `EnvTable.Environment.Echo` | busybox/shell/echo.c:13-20 | what the table has for the name: on a well-formed one, the value of the map |
| `Words.SpansAreRuns` | include/shell.h:58-71 | the words found are exactly the maximal runs of non-delimiters, in order |
| `Words.RunsAreUnique` | include/shell.h:58-71 | and no other list of spans is that |
| `Words.SeparatesIff` | include/shell.h:58 | a character separates words if and only if it is a bell, tab, newline, carriage return or space |
| `Words.SplitJoin` | include/shell.h:49-75 | joining words with single spaces and splitting gives the words back |
| `Words.SplitJoinSplit` | include/shell.h:49-75 | splitting, joining and splitting again is splitting |
| `Tokenizer.ReadLine` | include/shell.h:16-47 | the input up to the newline, terminated, with every store inside the buffer; the size the buffer reaches |
| `Tokenizer.StrTok` | include/shell.h:58-70 | the next word, one terminator written over the delimiter after it, and where to go on |
| `Tokenizer.ReadBack` | include/shell.h:60 | a pointer kept to an earlier word still reads as that word after all later cuts |
| `Tokenizer.SplitLine` | include/shell.h:49-75 | the pointers read back, in order, as the words of the line; every store, the final null included, falls inside the array; only delimiters have been overwritten |
| `Tokenizer.StoresFitIff` | include/shell.h:63-72 | with the size passed to realloc as bytes, every store falls inside if and only if the line has fewer than 64 words |

## Left out

- Calls.Open: O_CREAT, which the code leaves empty, and the mode checks its comments announce.
- Machine.Does: a number allocated stays a blank inode, as no code gives it a type. Uses that namei and ialloc hand out belong to nobody in particular: any caller can give one up.
- Locks.ScriptOk: the locks of each call are a script of acquisitions and releases; the methods of the other files run one at a time, so data races inside a call are not modelled. Sleeping locks are the same as spinning ones here.
- FileSys.FileSystem.SysWrite: assumes access is granted.
- EnvSpec.FoundIffFits: what a read past the end of a field finds there, and what a store past the end of a value damages, are outcomes with no further effect.
- Tokenizer.SplitLine: failure of malloc and realloc.
- Permission tests (kernel/fs/read_write.c:209-239), timestamps, `stat`, indirect blocks.
- Directories as anything but readable: creating and removing entries has no code (kernel/fs/dir.c, kernel/fs/link.c).
- Mounting, `fork`, `exec` and the descriptors they copy; the superblock is given, and `s_flag` and its mount point are not modelled.
- Unused buffers are a precondition of the file calls, as a panic has no state after it: `CacheRoom.RunIff` tells exactly when the cache has one.
- The chunk loop of cksum and the block count that sum prints.
- env_list, select_cmd, exec_cmd, the main loop of the shell, and the rest of `busybox`.
