# OS64 in Dafny

A model of the algorithmic cores of OS64, a freestanding C kernel, with proofs about them. Code that
works by changing state step by step is a class or a method with loops; each method is tied to a
specification on values, and the long-range properties are proved about that specification. What
stays outside the model (clocks, packets, the disk hardware) comes in as parameters, and reads and
writes of the disk succeed.

The components and what is proved of them:

- **ext2** (`Ext2Layout`, `Ext2Dir`, `Ext2Volume`, `Ext2Files`, `Ext2Paths`, `Ext2Store`, `Ext2Format`, `Ext2Disk`,
  `Ext2Outcome`, `Ext2`, `Ext2Journal`). The disk is a sequence of 4 KiB blocks; the ghost volume `vol` is what the metadata
  blocks hold. The invariant `Ext2Volume.Inv` says that no block has two owners, owned blocks are marked and lie in the
  data area, both sets of free counts equal the clear bits, every directory block is tiled by
  records, no inode has two names beside `.` and `..`, and the directories below the root form a tree. Formatting
  establishes it; storing and removing keep it, whatever the path. On a path through no file a store succeeds exactly
  when the missing directories and the file fit; then the path loads back the bytes and every other path loads what it
  did before; otherwise, with the parent directory present, bitmaps, counts and inode table are exactly as before. What
  is stored, made and formatted is also stated of the bytes on the disk, in the offsets and numbers of the format.
- **TCP receiver** (`TcpSpec`, `TcpSafety`, `TcpDelivery`, `TcpConnection`, `TcpPackets`). Prefix safety for any
  pattern of overlap and loss, and complete delivery of up to nine segments in any order with any repetition, both for
  packets as bytes in the layout of section 3.1 of RFC 9293.
- **Internet checksum** (`Checksum`).
- **Kernel heap** (`HeapSpec`, `HeapMemory`, `KernelHeap`). Block headers live inside a byte array; the
  invariant holds over every run of calls, and no call changes another live allocation's bytes.
- **FAT32 writer of Mini64** (`FatSpec`, `FatFiles`, `Fat32`).
- **Hashing** (`Sha256`, `Sha256Constants`, `Crypto`), **calendar and NTP** (`Calendar`, `Ntp`), **accounts**
  (`AccountText`, `AccountTable`, `AccountLaws`, `Accounts`), **shell paths** (`ShellPaths`), **base64** (`Base64`).
- `Bytes` and `Bits` hold little-endian fields and bitmaps, shared by the above.

Where the code does less than one might expect, the exact condition is proved: `Ext2Journal.JournalSoundIff` (a
journal on a volume of fewer than 1286 blocks leaves inode 8 owning blocks outside the volume),
`FatFiles.FoundAgainIff` (a name that begins with byte 0xE5 is stored but never found again),
`TcpSafety.AppendSafeIff` (the sequence number moves past bytes that did not fit the queue),
`Calendar.StoredEpochIff` (from_epoch keeps 16 bits of the year), `Ntp.StampIff` (ntp_from_ns garbles times before
1970 that are not whole seconds) and `Ntp.ElapsedIff` (elapsed_ns can overflow on clocks faster than 18 GHz). One
property holds more widely than its usual statement: the checksum round trip `Checksum.FilledVerifies` needs no bound
on the length.

## Model

| member | source | states |
|---|---|---|
| `Ext2.Driver.Store` | kernel/fs/ext2.c:55 | ext2_store of any path, through files too, keeps the invariant. For a path whose existing intermediate components are directories, `.` and `..` included, it succeeds exactly when `StoreFits` (each missing directory can be made, then blocks enough and, for a new file, an inode and directory room); on success the path resolves to a file with exactly the bytes, a file that was there keeps inode, owner, mode and links, a new one takes a free inode, every other file binding was there before, and with the parent present exactly one name is bound and only that file's bits and inode changed; on the disk the bytes stand in the blocks that the inode's pointers name, a new file's slot holds 0100000 with the caller's permission bits, user, group, one link and size, and a directory record names it with type 1, while a file that was there keeps mode, owner and links; on failure with the parent present both bitmaps, all counts, the inode table and every used block are as before |
| `Ext2Outcome.PresentFitsIff` | kernel/fs/ext2.c:47-55 | with the parent present a store fits exactly when the file can be entered in it |
| `Ext2Outcome.MissingFitsIff` | kernel/fs/ext2.c:46-55 | with directories missing and no `.` or `..` among the missing names, a store fits exactly when each missing name has 1 to 255 bytes, the directory at the gap has room for the first, and there is an inode for each name and a block for each missing directory beside the file's |
| `Ext2Journal.FormatAndRun` | kernel/fs/ext2.c:50-61 | after formatting at any level, with more than 1285 blocks if there is a journal, and any sequence of stores and removals, whatever their paths, no block has two owners, every owned block is marked and in the data area, and superblock and group counts equal the clear bits |
| `Ext2Outcome.StoreThenLoad` | kernel/fs/ext2.c:52-57 | after a successful store of up to (12+1024)*4096 bytes, loading the path yields those bytes, and every path that led to another loadable file still leads there and loads the old bytes |
| `Ext2.Driver.Load` | kernel/fs/ext2.c:56-57 | ext2_load changes nothing and succeeds exactly for a mounted volume and a path to a file that fits and whose blocks are all mapped; the result is the file's contents |
| `Ext2.Driver.Stat` | kernel/fs/ext2.c:58 | ext2_stat changes nothing, succeeds exactly when the path leads to an inode, and reports size, permission bits, user and group as the inode's slot has them |
| `Ext2Outcome.StoreOnDisk` | kernel/fs/ext2.c:55 | the outcome of a successful store in terms of the bytes on the disk |
| `Ext2Disk.ContentOnDisk` | kernel/fs/ext2.c:52-57 | byte p of a file is byte p mod 4096 of the block that pointer p / 4096 names, direct or in the indirect block |
| `Ext2Disk.InodeOnDisk` | kernel/fs/ext2.c:26-37 | mode, user, size, group, links, sectors and the fifteen pointers at their offsets in the inode's 128-byte slot |
| `Ext2Disk.EntryOnDisk` | kernel/fs/ext2.c:44-45 | every entry of a directory is a record in its first block with inode, name length, type and name |
| `Ext2.Driver.Remove` | kernel/fs/ext2.c:61 | ext2_remove succeeds exactly when the path leads to a file; then one binding, one inode and that inode's blocks are gone, everything else is as before, and the invariant holds |
| `Ext2Outcome.OthersSurvive` | kernel/fs/ext2.c:61 | after a removal every path to another file still resolves to it and it reads the same |
| `Ext2.Driver.Check` | kernel/fs/ext2.c:65 | ext2_check refuses a volume that ext2_probe refuses; otherwise its counts and the recorded free counts add up to the volume's blocks and unreserved inodes |
| `Ext2.Driver.Format` | kernel/fs/ext2.c:50 | ext2_format succeeds exactly for 262 to 32768 blocks and leaves a valid, mounted, empty volume that ext2_probe accepts, whatever the disk held; every field of superblock and group descriptor, both bitmaps and the root directory stand on the disk as `Ext2Disk.FormatOnDisk` lists them |
| `Ext2Format.FormattedInv` | kernel/fs/ext2.c:50 | the formatted volume satisfies the whole invariant |
| `Ext2Format.FormattedFinds` | kernel/fs/ext2.c:50 | in a formatted volume only `.` and `..` of the root are bound, both to the root |
| `Ext2Format.ReservedCount` | kernel/fs/ext2.c:50 | two reserved ranges leave exactly the bits between them clear |
| `Ext2Format.SuperReads` | kernel/fs/ext2.c:49-50 | all seventeen fields of the superblock at their offsets, and ext2_probe's test holds |
| `Ext2Format.GroupReads` | kernel/fs/ext2.c:50 | the fields of the group descriptor at their offsets |
| `Ext2Disk.FormattedOnDisk` | kernel/fs/ext2.c:50 | what the disk holds after formatting, bit by bit and field by field |
| `Ext2.Driver.StoreExisting` | kernel/fs/ext2.c:55 | replacing a file: new blocks first, then the inode, then the old blocks freed; succeeds exactly when the new blocks fit beside the old ones, otherwise nothing changed |
| `Ext2.Driver.StoreNew` | kernel/fs/ext2.c:55 | a new file: exact success condition, mode, user, group, links and size in the inode's slot on the disk, the directory record, and full undo on every failure path |
| `Ext2.Driver.EnterFile` | kernel/fs/ext2.c:55 | binding the written file to its name, or giving everything back when the directory is full |
| `Ext2.Driver.Withdraw` | kernel/fs/ext2.c:55 | the error path after dir_add restores bitmaps, counts and inode table exactly |
| `Ext2Store.ReplaceFile` | kernel/fs/ext2.c:53-55 | switching the inode and freeing the old pointers keeps the invariant, stores the bytes and frames every other file |
| `Ext2Store.EnteredFile` | kernel/fs/ext2.c:45-55 | inode, blocks and directory entry together keep the invariant and add exactly that file |
| `Ext2Store.UndoNew` | kernel/fs/ext2.c:55 | giving back the inode of a failed store restores the volume |
| `Ext2Store.UndoFilled` | kernel/fs/ext2.c:55 | releasing blocks, zeroing the inode and giving it back restores the volume |
| `Ext2Store.Discard` | kernel/fs/ext2.c:61 | zeroing an unbound file's inode and freeing its blocks and inode keeps the invariant and frees exactly those |
| `Ext2.Driver.WriteNewBlocks` | kernel/fs/ext2.c:54 | write_new_blocks succeeds exactly when data and indirect blocks fit the free count; then fresh blocks mapped by the inode hold the padded data; otherwise every block taken is given back |
| `Ext2.Driver.AddIndirect` | kernel/fs/ext2.c:54 | one more block behind the first twelve, allocating the indirect block on first use; on failure nothing stays allocated |
| `Ext2.Driver.AddDirect` | kernel/fs/ext2.c:54 | one more direct block, filled, with the blocks before it untouched |
| `Ext2.Driver.Rollback` | kernel/fs/ext2.c:53-54 | the failure path of write_new_blocks gives back exactly the blocks taken |
| `Ext2.Driver.ReleaseBlocks` | kernel/fs/ext2.c:53 | release_blocks frees every nonzero direct pointer, indirect entry and the indirect block |
| `Ext2Files.FreeAllCounted` | kernel/fs/ext2.c:40-53 | releasing distinct marked blocks clears exactly their bits and the counts follow |
| `Ext2Files.GrownCount` | kernel/fs/ext2.c:38-41 | the free count falls by exactly the number of blocks taken |
| `Ext2Files.AllocFull` | kernel/fs/ext2.c:39-42 | allocation fails exactly when the recorded free count is zero |
| `Ext2Files.MappedContent` | kernel/fs/ext2.c:52-57 | blocks mapped directly and through the indirect block read back as the data |
| `Ext2Files.MappedOwned` | kernel/fs/ext2.c:52-54 | a mapped file points to each of its blocks once and owns nothing else |
| `Ext2Files.KeptReads` | kernel/fs/ext2.c:52-57 | a file whose inode and owned blocks are unchanged reads the same |
| `Ext2.Driver.FileBlockOf` | kernel/fs/ext2.c:52 | file_block through direct pointers and the indirect block |
| `Ext2.Driver.ReadFile` | kernel/fs/ext2.c:57 | the reading loop succeeds exactly when all blocks are mapped and yields the contents |
| `Ext2.Driver.Walk` | kernel/fs/ext2.c:47 | walk resolves the path's names from the root; without `create` nothing changes; with it the volume stays valid whatever the path leads through, and for a path through no file every earlier binding and file is framed, only directories are added, nothing is made when the parent exists, success, volume and parent are those of `Created`, and the parent is the directory where `Goal` says the path ends (a new one exactly when it ends behind a missing name) |
| `Ext2Outcome.MadeFacts` | kernel/fs/ext2.c:46 | a make_dir that can succeed keeps the invariant, takes one inode and one block, and adds one binding and one empty directory |
| `Ext2.Driver.MakeDir` | kernel/fs/ext2.c:46 | make_dir in a directory succeeds exactly when there is an inode, a block and room for the name; then the name is bound to a directory holding `.` and `..`, the parent has one more link, the directory count grows, and every other binding is as before; on the disk its slot says drwxr-xr-x, two links and 4096 bytes, and the three records have type 2; beneath a file, which the code does not tell apart, the volume stays valid and the new directory is bound nowhere |
| `Ext2.Driver.DirFind` | kernel/fs/ext2.c:44 | dir_find agrees with the directory's name-to-inode map |
| `Ext2.Driver.DirAdd` | kernel/fs/ext2.c:45 | dir_add to a directory succeeds exactly when a record has room and then inserts one record; to a file it changes at most the file's first block and no binding |
| `Ext2Volume.DirAddKeeps` | kernel/fs/ext2.c:45 | binding a fresh name keeps the invariant and changes the name-to-inode map at that name alone |
| `Ext2Volume.FileWriteKeeps` | kernel/fs/ext2.c:45 | rewriting a file's first block, as dir_add does to a file, keeps the invariant and every binding |
| `Ext2Volume.DirRemoveKeeps` | kernel/fs/ext2.c:61 | unbinding a file keeps the invariant and changes the map at that name alone |
| `Ext2Dir.AddEntries` | kernel/fs/ext2.c:43-45 | the record split keeps the block exactly tiled, each record long enough for its name, and inserts one entry |
| `Ext2Dir.AbsorbEntries` | kernel/fs/ext2.c:61 | the record merge keeps the block exactly tiled and removes one entry |
| `Ext2Dir.InsertedLookup` | kernel/fs/ext2.c:44-45 | looking up after an insert agrees with the map updated at the new name |
| `Ext2Dir.RemovedLookup` | kernel/fs/ext2.c:44-61 | looking up after a removal agrees with the map without the name |
| `Ext2Dir.NewDirEntries` | kernel/fs/ext2.c:46 | a new directory block is tiled by `.` and `..` |
| `Ext2.Driver.DropRecord` | kernel/fs/ext2.c:61 | the scan of ext2_remove edits exactly the record before the first match |
| `Ext2.Driver.ScanName` | kernel/fs/ext2.c:44 | the record scan finds the first live record of the name |
| `Ext2.Driver.AllocateBlock` | kernel/fs/ext2.c:39-41 | takes the first clear bit above FIRST_DATA and moves both counts |
| `Ext2.Driver.AllocateInode` | kernel/fs/ext2.c:39-42 | takes the first clear inode bit from 10 on and moves both counts |
| `Bits.BitIs` | kernel/fs/ext2.c:39-40 | bit k of a byte is counted from the low end |
| `Ext2.Driver.Counters` | kernel/fs/ext2.c:38 | superblock and group counts change together, with 32- and 16-bit wrap-around |
| `Ext2.Driver.InodeGet` | kernel/fs/ext2.c:36 | inode_get reads the slot of a valid inode number |
| `Ext2.Driver.InodePut` | kernel/fs/ext2.c:37 | inode_put changes that inode and nothing else on the volume |
| `Ext2Layout.InodeReadsBack` | kernel/fs/ext2.c:26-37 | the 128-byte inode encoding decodes to the inode |
| `Ext2Paths.ResolveConcat` | kernel/fs/ext2.c:47 | a path leads where its rest leads from where its front leads, and a single name where the directory binds it |
| `Ext2Paths.OtherFilesKept` | kernel/fs/ext2.c:47-57 | a framed change keeps what every path to another file resolves to and reads |
| `Ext2Paths.PlainPaths` | kernel/fs/ext2.c:47 | for paths without `.` and `..` a path leads through no file just when no earlier name leads to one |
| `Ext2Paths.MadeAndBack` | kernel/fs/ext2.c:46-47 | a missing directory followed by `..` leads on exactly like the path without the two |
| `Ext2Paths.GoalIsParent` | kernel/fs/ext2.c:47 | a path whose directories all exist ends in its parent |
| `Ext2Outcome.WalkAlike` | kernel/fs/ext2.c:46-47 | make_dir of a missing name changes neither where the rest of a path goes nor whether it can be walked |
| `Ext2Outcome.OldFile` | kernel/fs/ext2.c:47-55 | a file found after making directories was there before, under the same name, unchanged |
| `Ext2Journal.FormatVariant` | kernel/fs/ext_variant.c:14-15 | ext_variant_format accepts levels 2 to 4; the volume is valid at level 2 and otherwise exactly from 1286 blocks on; detection reports the level |
| `Ext2Journal.JournalSoundIff` | kernel/fs/ext_variant.c:13 | formatting plus journal satisfies the invariant if and only if the volume has more than 1285 blocks |
| `Ext2Journal.JournalKeeps` | kernel/fs/ext_variant.c:13 | on any valid volume with the journal's blocks free and inside it, add_journal keeps the invariant and every binding |
| `Ext2Journal.JournalBlocks` | kernel/fs/ext_variant.c:13 | file_block on inode 8 yields 261+i for every i below 1024 |
| `Ext2Journal.AddJournal` | kernel/fs/ext_variant.c:13 | add_journal reserves 1025 blocks, sets the journal flag beside whatever flags there are, fills inode 8 and the indirect block, and zeroes the journal behind its superblock; bits, counts, flag, slot, pointers and journal header are stated of the disk |
| `Ext2Journal.JournaledOnDisk` | kernel/fs/ext_variant.c:13 | the journal on the disk: pointer k of inode 8 is 261+k for every k below 1024, blocks 261 to 1285 are marked and off both counts, and the first 32 bytes of the journal |
| `Ext2Journal.DetectedIs` | kernel/fs/ext_variant.c:15 | which feature bits ext_variant_detect takes for which level, on any superblock |
| `Ext2Journal.JournalSlot` | kernel/fs/ext_variant.c:13 | the field writes into the zeroed slot decode to the journal inode |
| `TcpSafety.PrefixSafety` | kernel/net/net.c:113-139 | for an honest peer and a queue that never overflows (filling it to the last byte is allowed), bytes handed out followed by bytes queued are a prefix of the stream and the next sequence number is its length further, plus one once FIN is consumed |
| `TcpSafety.Handshake` | kernel/net/net.c:126-131 | from the state at connect, the peer's SYN with acknowledgement reaches the state the two stream theorems start from, with both sequence numbers set |
| `TcpSafety.RunSafe` | kernel/net/net.c:113-139 | every run of arrivals and reads keeps the safety invariant |
| `TcpSafety.AppendSafeIff` | kernel/net/net.c:113-117 | in-order data extends the prefix if and only if the queue has room for all of it |
| `TcpSafety.AckedPosition` | kernel/net/net.c:126-139 | in every such run each arriving segment but a reset is answered with one acknowledgement, and it names the end of what has been received |
| `TcpSafety.AheadIs` | kernel/net/net.c:133 | ahead means up to 2^31-1 numbers further on, across the wrap-around |
| `TcpSafety.DrainSafe` | kernel/net/net.c:123-125 | draining fragments keeps the safety invariant |
| `TcpDelivery.CompleteDelivery` | kernel/net/net.c:113-139 | up to nine pieces, the last with FIN, arriving in any order with repetition and reads in between, end with the whole stream, all slots empty and state 4 |
| `TcpDelivery.DeliveredAndRead` | kernel/net/net.c:113-236 | after that, reads with room enough hand out the whole stream in order and leave the queue empty |
| `TcpDelivery.ReadsInOrder` | kernel/net/net.c:229-236 | any reads hand out as much of the queue as they have room for, in order |
| `TcpPackets.PacketSafety` | kernel/net/net.c:107-139 | prefix safety for arriving packets: the peer's are laid out as the standard says, any others may come in between |
| `TcpPackets.PacketsDelivered` | kernel/net/net.c:107-139 | complete delivery for packets, with alien packets and reads in between |
| `TcpPackets.ParseWire` | kernel/net/net.c:107-130 | of a packet built field by field, with any options, tcp_receive takes in exactly sequence number, acknowledgement, flags and payload, and only for the connection's address and ports |
| `TcpPackets.EveryPacket` | kernel/net/net.c:126-130 | every packet that is long enough and has a proper data offset is built like that; the others are ignored |
| `TcpPackets.MalformedIgnored` | kernel/net/net.c:126-128 | packets that are too short or have an improper data offset are ignored |
| `TcpPackets.PacketControl` | kernel/net/net.c:126-139 | what a packet does beside its data, flag by flag |
| `TcpPackets.HeldIff` | kernel/net/net.c:118-122 | an early piece is kept exactly when it has at most 1460 bytes, is not kept yet and a slot is empty |
| `TcpPackets.PolledIs` | kernel/net/net.c:229-231 | polling takes in exactly the packets of the turns before which there was nothing to read |
| `TcpPackets.CancelledIs` | kernel/net/net.c:229-231 | a request to cancel ends the polling with what came before it taken in |
| `TcpPackets.TcpSend` | kernel/net/net.c:104-112 | tcp_send refuses more than 1400 bytes; otherwise both checksums of the frame verify, and a receiver with the ports the other way round reads sequence number, acknowledgement, flags and data from it |
| `TcpDelivery.DeliverPiece` | kernel/net/net.c:126-139 | one arrival of any piece keeps the delivery invariant |
| `TcpConnection.Connection.Receive` | kernel/net/net.c:126-139 | tcp_receive takes exactly the step of the specification for accepted packets and ignores others |
| `TcpConnection.Connection.DrainFragments` | kernel/net/net.c:123-125 | tcp_drain_fragments consumes in-order fragments until none is next |
| `TcpConnection.Connection.AppendBytes` | kernel/net/net.c:113-117 | tcp_append stores what fits and advances past all of it |
| `TcpConnection.Connection.Hold` | kernel/net/net.c:118-122 | tcp_store_fragment refuses oversize and repeated fragments and fills the first empty slot |
| `TcpConnection.Connection.Read` | kernel/net/net.c:229-236 | network_tcp_receive polls while there is nothing to read, gives up with -3 on a cancel, and hands out a prefix of the queue, keeping the rest in order; all its result codes |
| `TcpConnection.Connection.constructor` | kernel/net/net.c:203-213 | the state at connect: empty queue and slots, one sequence number taken by the SYN |
| `Checksum.FilledVerifies` | kernel/net/net.c:42 | the computed checksum in its zeroed even-offset field makes the buffer verify, for every buffer of any length |
| `Checksum.VerifiesIff` | kernel/net/net.c:42 | a buffer verifies exactly when its 32-bit sum is a nonzero multiple of 65535 |
| `Checksum.FoldIs` | kernel/net/net.c:42 | folding carries is the residue modulo 65535, with 65535 for nonzero multiples |
| `Checksum.SumConcat` | kernel/net/net.c:42 | sums of pieces of even length add up; with `Checksum.SumWord` this is the sum of big-endian words, an odd last byte padded with zero |
| `Checksum.PseudoSum` | kernel/net/net.c:100-103 | the pseudo header adds both addresses, 6 and the length to the segment's sum |
| `Checksum.ComputeChecksum` | kernel/net/net.c:42 | the 32-bit loops compute the complement of the folded sum, odd byte included |
| `Checksum.Sender.Ipv4Begin` | kernel/net/net.c:61-66 | every header ipv4_begin writes verifies and has its fields at their offsets, and the identification advances |
| `Checksum.Sender.TcpChecksum` | kernel/net/net.c:100-103 | tcp_checksum covers the pseudo header and the segment, and filled into the zeroed field makes the segment verify |
| `Checksum.SegmentVerifies` | kernel/net/net.c:100-112 | a segment filled as tcp_send does verifies together with its pseudo header |
| `HeapSpec.EveryRunIsValid` | kernel/mm/memory.c:106-283 | after memory_init and any run of calls the list tiles the heap, sizes are multiples of 16, no two neighbours are free, and the counters equal the sums over busy blocks |
| `HeapSpec.StepKeepsInv` | kernel/mm/memory.c:170-283 | each call keeps the heap invariant |
| `HeapSpec.Conservation` | kernel/mm/memory.c:148-168 | used bytes, free bytes and headers add up to the heap |
| `HeapSpec.LiveDisjoint` | kernel/mm/memory.c:170-205 | two live allocations never overlap and lie inside the heap |
| `HeapSpec.MallocFailsIff` | kernel/mm/memory.c:170-205 | kmalloc returns null exactly when the size is unusable or no free block fits, and then changes nothing |
| `HeapSpec.MallocAddsOne` | kernel/mm/memory.c:170-205 | a successful kmalloc adds one live block of at least the size, and no other; it is cut from the lowest free block that can hold it, exceeds the aligned size by less than 64 bytes, and what is not taken stays free |
| `HeapSpec.MallocIdle` | kernel/mm/memory.c:170-205 | the free bytes shrink by exactly the new block, and by a header if one more block exists |
| `HeapSpec.ServesAll` | kernel/mm/memory.c:170-205 | a free block that could hold several requests laid one behind the other, each with its header, serves them all, whatever else the heap holds |
| `HeapSpec.CallocFailsIff` | kernel/mm/memory.c:245-256 | kcalloc fails exactly when kmalloc of the true product would |
| `HeapSpec.ReallocLive` | kernel/mm/memory.c:258-283 | krealloc of size 0 frees; success replaces the allocation by one of at least the size; failure changes nothing |
| `HeapSpec.ReallocFailsIff` | kernel/mm/memory.c:258-283 | krealloc fails exactly for a pointer to nothing live, or when what is there is too small and kmalloc finds no room |
| `HeapSpec.FreeRemovesOne` | kernel/mm/memory.c:207-243 | kfree removes exactly the named live block, or nothing |
| `HeapSpec.FreeingAllRestores` | kernel/mm/memory.c:207-243 | freeing every live pointer restores the single initial block |
| `HeapMemory.HeaderReadsBack` | kernel/mm/memory.c:8-14 | a stored block header reads back |
| `KernelHeap.Heap.constructor` | kernel/mm/memory.c:106-136 | memory_init leaves one free block in a heap of the right size |
| `KernelHeap.Heap.Kmalloc` | kernel/mm/memory.c:170-205 | the header edits in memory realise the specified step and keep every live allocation's bytes |
| `KernelHeap.Heap.Kfree` | kernel/mm/memory.c:207-243 | the same for freeing with coalescing on both sides |
| `KernelHeap.Heap.Kcalloc` | kernel/mm/memory.c:245-256 | the new allocation is zero, the multiplication is checked for overflow, other bytes are kept |
| `KernelHeap.Heap.Krealloc` | kernel/mm/memory.c:258-283 | a successful call carries all old contents over; a failed one of nonzero size leaves everything as it was; other allocations keep their bytes |
| `KernelHeap.Heap.FreeBytes` | kernel/mm/memory.c:148-158 | the loop sums the free payload |
| `KernelHeap.Heap.Search` | kernel/mm/memory.c:170-205 | first fit: the first free block that is large enough |
| `KernelHeap.Heap.Locate` | kernel/mm/memory.c:207-243 | finds the block whose payload starts at the given address |
| `KernelHeap.Heap.Split` | kernel/mm/memory.c:170-205 | splitting relinks both neighbours so that previous inverts next |
| `KernelHeap.Heap.JoinBlocks` | kernel/mm/memory.c:207-243 | merging relinks the block after the pair |
| `Fat32.Volume.StoreLarge` | mini64/kernel.c:465-533 | disk_store_large keeps both table copies equal and the chains disjoint and acyclic; succeeds exactly when, after the old file is gone, there is a vacant slot and enough free clusters; the outcome is `FatFiles.Outcome`, and in every copy of the table on the disk the entries lead through clusters that hold the bytes, filled up with zeros |
| `FatFiles.StoredReads` | mini64/kernel.c:438-533 | following the table from the new entry's first cluster for its size reads exactly the stored bytes; name, attribute, first cluster and size stand at their offsets in the root sector |
| `FatFiles.OthersKept` | mini64/kernel.c:465-533 | every live file but the one found under the name keeps its entry, its chain and its contents, also when the store fails and even when another entry bears the same name |
| `FatFiles.OtherNamesKept` | mini64/kernel.c:407-533 | after a store under one 8.3 name, a file with another (not the same up to case) is found in the same slot with the same entry, chain and contents |
| `FatFiles.FoundAgainIff` | mini64/kernel.c:420-436 | for every name without zero bytes, find_entry finds the stored file in its slot, unless the name begins with 0xE5, when it finds nothing |
| `FatFiles.DropKeeps` | mini64/kernel.c:469-483 | freeing the old chain and marking its slot keeps the invariant and adds the chain's length to the free clusters |
| `FatFiles.GrowMore` | mini64/kernel.c:492-517 | allocating and linking one more cluster keeps the chain acyclic and takes one free cluster |
| `FatFiles.EnterKeeps` | mini64/kernel.c:524-532 | writing the directory entry keeps the invariant |
| `FatFiles.ReadsBack` | mini64/kernel.c:497-517 | a chain holding the chunks reads back as the data, from any cluster on |
| `Fat32.Volume.FatSet` | mini64/kernel.c:280-292 | fat_set changes one entry in every copy of the table and nothing else |
| `Fat32.Volume.FatGet` | mini64/kernel.c:273-279 | fat_get reads the low 28 bits of the entry |
| `Fat32.Volume.AllocateCluster` | mini64/kernel.c:438-463 | next fit with wrap-around to cluster 3; the cluster is marked, zeroed and the hint moved |
| `FatSpec.NextFitFails` | mini64/kernel.c:438-463 | allocation fails exactly when no cluster from 3 on is free |
| `FatSpec.NextFitIs` | mini64/kernel.c:438-463 | nothing free is passed over from the hint to the end and then from cluster 3 on |
| `FatSpec.KeyBytes` | mini64/kernel.c:407-418 | every byte of the key of any name: the first eight of the base and the first three of the extension in upper case, spaces elsewhere |
| `FatSpec.SameKeyIff` | mini64/kernel.c:407-418 | two 8.3 names without spaces have one key exactly when they agree up to case |
| `Fat32.StoredOnDisk` | mini64/kernel.c:272-292 | table entries in every copy and the bytes of the clusters, where a reader of the disk finds them |
| `Fat32.ClusterCount` | mini64/kernel.c:440-473 | how many clusters the table covers, from the geometry |
| `Fat32.Volume.FreeChain` | mini64/kernel.c:474-480 | the loop frees exactly the old chain's clusters, within its bound on steps |
| `Fat32.Volume.FindEntry` | mini64/kernel.c:420-436 | the first live slot with the name |
| `Fat32.Volume.MakeKey` | mini64/kernel.c:407-418 | name83: eight and three bytes, upper case, padded with spaces |
| `Fat32.Volume.WriteChain` | mini64/kernel.c:492-517 | the writing loop grows a chain of max(1, ceil(size/512)) clusters holding the data, or stops exactly when clusters run out |
| `Fat32.Volume.ReadFile` | mini64/kernel.c:600-610 | the reading loop copies the whole sectors of the chain, and cut to the size they are what the table and the clusters say |
| `Crypto.Sha.Update` | kernel/security/crypto.c:6 | update appends its bytes to the message |
| `Crypto.Sha.Final` | kernel/security/crypto.c:6 | final yields the compression folded over the padded message |
| `Crypto.Sha.Block` | kernel/security/crypto.c:5 | the schedule and round loops compute the compression of the buffer |
| `Crypto.HashPieces` | kernel/security/crypto.c:6 | every way of splitting a message into update calls gives the same digest |
| `Crypto.ComputeHash` | kernel/security/crypto.c:9 | crypto_sha256 is the hash of section 5.1.1 and 6.2 of FIPS 180-4 |
| `Crypto.ComputeHmac` | kernel/security/crypto.c:7 | hmac is the construction of section 2 of RFC 2104, also when message and output are one buffer |
| `Crypto.Pbkdf2` | kernel/security/crypto.c:8 | pbkdf2_sha256 is block 1 of section 5.2 of RFC 8018 for the first 64 bytes of the salt, hashing `u` in place |
| `Sha256Constants.ConstantsAre` | kernel/security/crypto.c:3 | the round constants are the first 32 bits of the fractional parts of the cube roots of the first 64 primes |
| `Sha256Constants.InitialIs` | kernel/security/crypto.c:4 | the initial state: the same of the square roots of the first eight primes |
| `Sha256.Mixing` | kernel/security/crypto.c:4-5 | the four mixing functions are what the pairs of shifts in the code make |
| `Sha256.ScheduleIs` | kernel/security/crypto.c:5 | the recurrence of the message schedule at every place behind the first sixteen words |
| `Sha256.ChoiceBits` | kernel/security/crypto.c:5 | each bit of the choice is that of the second or the third word, as the first has a one or a zero |
| `Sha256.MajorityBits` | kernel/security/crypto.c:5 | each bit of the majority is the one that two of the three words have |
| `Crypto.HmacPads` | kernel/security/crypto.c:7 | for a key of one block, hash of outer pad and hash of inner pad and text, the pads differing from the key by 0x5c and 0x36 in every byte |
| `Crypto.HmacKeys` | kernel/security/crypto.c:7 | a shorter key counts as if padded with zeros, a longer one as its hash |
| `Sha256.RoundIs` | kernel/security/crypto.c:5 | step 3 of section 6.2.2 of FIPS 180-4 on the eight working variables |
| `Sha256.AbsorbAppend` | kernel/security/crypto.c:5-6 | folding any compression function over blocks distributes over concatenation |
| `Crypto.ShortPadding` | kernel/security/crypto.c:6 | a message tail of at most 55 bytes is padded into one block |
| `Crypto.LongPadding` | kernel/security/crypto.c:6 | a longer tail is padded into two blocks |
| `Calendar.CivilEpoch` | kernel/core/timed.c:31-32 | every second has a date that exists, and to_epoch takes that date back to it |
| `Calendar.StoredEpochIff` | kernel/core/timed.c:31-32 | to_epoch of the date from_epoch stores is the same second if and only if the second lies before the year 65536 |
| `Calendar.StoredIs` | kernel/core/timed.c:32 | up to a year of 32 bits, the date stored is the true date but for the upper half of the year |
| `Calendar.EpochCivil` | kernel/core/timed.c:31-32 | the date of to_epoch's result is the date itself, for every existing date from 1970 |
| `Calendar.SixteenBitYears` | kernel/core/timed.c:32 | to_epoch then from_epoch is the identity on an existing date if and only if its year fits 16 bits |
| `Calendar.TlsDaysIs` | kernel/security/tls_platform.c:24-30 | the closed-form day count equals the year-by-year count plus 719528 |
| `Calendar.ToEpoch` | kernel/core/timed.c:31 | the loops compute the seconds since 1970 |
| `Calendar.FromEpoch` | kernel/core/timed.c:32 | the loops compute the date, counting years in 32 bits and keeping 16 |
| `Calendar.ValidationTime` | kernel/security/tls_platform.c:24-30 | refuses years before 2024; otherwise days and seconds split to_epoch's result, shifted by 719528 days |
| `Ntp.OffsetBound` | kernel/core/timed.c:50-63 | for times that ntp_from_ns can stamp, the computed offset is within half the computed delay plus 3 ns of the true clock difference |
| `Ntp.AcceptedBound` | kernel/core/timed.c:55-65 | an accepted offset is within 15 s and 3 ns of the true clock difference |
| `Ntp.DeltaClose` | kernel/core/timed.c:51 | fixed_delta_ns is within one nanosecond of the exact difference, across 64-bit wrap-around |
| `Ntp.StampClose` | kernel/core/timed.c:50 | the timestamp of any time, before or after 1970, is at most a quarter of a nanosecond before it |
| `Ntp.StampOfDate` | kernel/core/timed.c:31-50 | the timestamp of a date counts the seconds since 1900 by the calendar, in 32 bits |
| `Ntp.StampIff` | kernel/core/timed.c:50 | ntp_from_ns gives a signed time its timestamp if and only if the time is not negative or is a whole number of seconds |
| `Ntp.DeltaFits` | kernel/core/timed.c:51-60 | no product or sum of fixed_delta_ns, nor the sum of two results, leaves 64 signed bits |
| `Ntp.ElapsedExact` | kernel/core/timed.c:28 | dividing the ticks into seconds and rest loses nothing against the exact quotient |
| `Ntp.ElapsedIff` | kernel/core/timed.c:28 | elapsed_ns in 64 bits is the exact quotient rounded down once if and only if the rest times 10^9 fits 64 bits, so always below 18 GHz |
| `Ntp.Clock.Accept` | kernel/core/timed.c:60-65 | delays outside 0 to 30 s are refused and counted; otherwise the correction grows by the offset, which for an honest reply brings it within 15 s and 3 ns of the truth, and every status field follows |
| `AccountText.TableBack` | kernel/security/auth.c:10-21 | loading both exported texts rebuilds the table in order, for 1 to 16 uniquely named users, apart from locked records' secrets |
| `AccountText.TableBackIff` | kernel/security/auth.c:10-21 | the table comes back unchanged exactly when no locked record carries a salt or hash |
| `AccountTable.EveryTableBack` | kernel/security/auth.c:7-21 | after any run of loading, adding, deleting and changing users, both exports fit in 4096 bytes, and loading them rebuilds the very same table, if its users are uniquely named and no name or salt holds a separator |
| `AccountTable.RunKeeps` | kernel/security/auth.c:7-21 | every run keeps at most 16 records that fit their fields, locked ones without salt and hash |
| `AccountTable.StepKeeps` | kernel/security/auth.c:7-21 | each operation keeps that |
| `AccountTable.LoadKeeps` | kernel/security/auth.c:10-11 | whatever text auth_load reads, the table it leaves is sound and its locked records carry no secret |
| `AccountTable.LoadIdsKeeps` | kernel/security/auth.c:21 | whatever text auth_load_accounts reads, the table stays sound |
| `AccountText.TextsFit` | kernel/security/auth.c:19-20 | both texts of a full table fit in 4096 bytes, whatever its roles and groups |
| `AccountText.LineBack` | kernel/security/auth.c:10-19 | parse_line inverts one exported shadow line |
| `AccountText.ShadowBack` | kernel/security/auth.c:11-19 | auth_load inverts the whole shadow text |
| `AccountText.AccountsBack` | kernel/security/auth.c:20-21 | auth_load_accounts restores ids, roles and groups of every user |
| `AccountText.NumberBack` | kernel/security/auth.c:18-21 | number inverts putnum |
| `AccountLaws.RunRootOnly` | kernel/security/auth.c:7-14 | over any run without a text of ids, no one but root has the id 0 |
| `AccountLaws.RunKeepsRoot` | kernel/security/auth.c:13-14 | no run of additions, deletions and changes removes root or touches its ids, role or groups |
| `AccountLaws.AddNamed` | kernel/security/auth.c:13 | a new user is found under the clipped name unless it was taken, and no one else changes |
| `AccountLaws.AddedIds` | kernel/security/auth.c:7-13 | ids, role and groups of a new user; the id is 0 exactly for root |
| `AccountLaws.ParsedIds` | kernel/security/auth.c:7-10 | the same for a line of the shadow text |
| `AccountLaws.DeleteOthers` | kernel/security/auth.c:14 | deleting leaves everyone else, and users with id 0 |
| `AccountLaws.DeleteGone` | kernel/security/auth.c:14 | any other user is gone, names being distinct |
| `AccountLaws.PasswordSet` | kernel/security/auth.c:9-14 | a new password checks out at once, the salt is made from the name, and nothing else of the table changes |
| `AccountLaws.PasswordAdded` | kernel/security/auth.c:9-13 | the password a user is added with checks out |
| `AccountLaws.RoleSet` | kernel/security/auth.c:14 | a new role is the user's and no one else's, unless it is root's or the user's id is 0 |
| `AccountLaws.GroupsSet` | kernel/security/auth.c:14 | new groups are the user's and no one else's, with `users` added, unless the id is 0 |
| `AccountLaws.HexIff` | kernel/security/auth.c:6 | which byte each hexadecimal value comes from, in either case |
| `AccountLaws.ShadowFirst` | kernel/security/auth.c:11 | blank and comment lines are skipped, a bad line ends the loading |
| `AccountLaws.UnknownSkipped` | kernel/security/auth.c:21 | the line of an unknown user is skipped, whatever follows the name |
| `Accounts.Database.CheckPassword` | kernel/security/auth.c:12 | auth_check: the user is there, not locked, and all 32 bytes of the derived key agree |
| `Accounts.Database.ExportShadow` | kernel/security/auth.c:19 | the whole text, or nothing when it does not fit |
| `Accounts.Database.ExportAccounts` | kernel/security/auth.c:20 | the whole text, or nothing when it does not fit |
| `Accounts.Database.Load` | kernel/security/auth.c:11 | the records the text describes up to the first bad line, and root selected with its umask |
| `Accounts.Database.LoadAccounts` | kernel/security/auth.c:21 | unknown users are skipped; fields read before a missing colon are kept |
| `Accounts.Database.AddRole` | kernel/security/auth.c:13 | auth_add_role appends the record its step describes, or refuses a full table, a known name or an unknown role |
| `Accounts.Database.DeleteUser` | kernel/security/auth.c:14 | auth_delete closes the gap and never removes a user with id 0 |
| `Accounts.Database.HashPassword` | kernel/security/auth.c:9 | hash_password salts with the name, derives the key by PBKDF2 and unlocks |
| `Accounts.Database.SetPasswordOf` | kernel/security/auth.c:14 | auth_set_password changes one record's salt and hash |
| `Accounts.Database.SetRoleOf` | kernel/security/auth.c:14 | auth_set_role changes one record's role, never a root's and never to root |
| `Accounts.Database.SetGroupsOf` | kernel/security/auth.c:14 | auth_set_groups changes one record's groups, with `users` among them |
| `Accounts.Database.Select` | kernel/security/auth.c:15 | auth_select sets the current user and the umask |
| `Accounts.ReadLine` | kernel/security/auth.c:10 | parse_line with all its refusals |
| `Accounts.PutNumber` | kernel/security/auth.c:18 | putnum appends the decimal digits or reports that they do not fit |
| `Accounts.ReadNumber` | kernel/security/auth.c:21 | number reads digits with 32-bit wrap-around |
| `ShellPaths.ResolvePath` | kernel/core/kernel.c:144-156 | resolve_path refines a component stack for every absolute working directory and input, input beyond the 127-byte buffer being cut; the output fits the buffer, so its own cut never happens, and resolving it again from anywhere returns it |
| `ShellPaths.UpCancels` | kernel/core/kernel.c:152 | `name/..` cancels, wherever it stands in a path |
| `ShellPaths.DownAndUp` | kernel/core/kernel.c:147-155 | from any directory a name leads down and `..` up again, and at the root it stays |
| `ShellPaths.UpAtRoot` | kernel/core/kernel.c:152 | `..` at the front of an absolute path changes nothing |
| `ShellPaths.DotIgnored` | kernel/core/kernel.c:150-151 | neither does a component `.` or an empty one |
| `ShellPaths.LastSlash` | kernel/core/kernel.c:150-156 | nor a slash at the end |
| `ShellPaths.FromDirectory` | kernel/core/kernel.c:147 | a relative path resolves like the working directory, a slash and the path |
| `ShellPaths.PlainFixed` | kernel/core/kernel.c:144-156 | a path of plain names stands for itself |
| `ShellPaths.SpacesIgnored` | kernel/core/kernel.c:145 | leading spaces do not count |
| `ShellPaths.LongCut` | kernel/core/kernel.c:147-148 | of a longer path the first 127 bytes count |
| `ShellPaths.NamesConcat` | kernel/core/kernel.c:150 | a slash separates the components before it from those behind it |
| `ShellPaths.ResolvedCanonical` | kernel/core/kernel.c:144-156 | the result is absolute and has no empty, `.` or `..` component |
| `ShellPaths.ResolvedFixed` | kernel/core/kernel.c:144-156 | a result fits the buffer, and resolving it again, from any working directory, changes nothing |
| `ShellPaths.ResolvedFits` | kernel/core/kernel.c:147-155 | the result is never longer than the path before normalisation |
| `ShellPaths.Pop` | kernel/core/kernel.c:152 | `..` removes the last component from the buffer |
| `ShellPaths.Push` | kernel/core/kernel.c:153-154 | a name goes behind exactly one slash, copied under the code's length check |
| `Base64.Decode` | kernel/core/kernel.c:196 | package_decode accepts exactly alphabet characters followed by at most two paddings, white space ignored, fewer than six bits left and 20 to 262144 bytes |
| `Base64.EncodedAccepted` | kernel/core/kernel.c:195-196 | decoding inverts the encoding of section 4 of RFC 4648 for 20 to 262144 bytes, white space anywhere, with or without padding |
| `Base64.AfterValue` | kernel/core/kernel.c:196 | for any digits, as numbers the bytes that come out followed by the bits left over are the digits that went in |
| `Base64.AcceptsIff` | kernel/core/kernel.c:196 | the refusals by value: at most two paddings, no digit on its own in the last group, 20 to 262144 bytes |
| `Base64.Alphabet` | kernel/core/kernel.c:195 | the alphabet of section 4 of RFC 4648 by its characters |
| `Base64.DigitsAre` | kernel/core/kernel.c:196 | three bytes and their four digits are the same number |
| `Base64.DigitsBack` | kernel/core/kernel.c:196 | the bit accumulator turns the digits of any bytes back into them |
| `Base64.CharBack` | kernel/core/kernel.c:195 | base64_value inverts the alphabet |

## Left out

- Ext2.Driver.Store: for a path that leads through an existing file, states only that the volume stays valid; there make_dir may write its record into the file's first block. The last name is shorter than 256 bytes, the size of the code's name buffer.
- Ext2.Driver.MakeDir: states no rollback, because the code keeps an inode or block it has already allocated when a later step fails.
- Ext2.Driver.Format: models the disk as 32768 blocks of which the driver uses the first `blocks`; ext2_probe and ext2_mount are modelled only as the superblock test.
- TcpSafety.PrefixSafety: the queue never overflows and fewer than 2^31 bytes are received; outside the first hypothesis the property is false (`TcpSafety.AppendSafeIff`).
- Fat32.Volume.StoreLarge: starts from a mounted volume with one sector per cluster; fat_format and delete_root_file are not modelled, and the progress bar is left out.
- Ntp.OffsetBound: client times are stampable (`Ntp.StampIff`) and the four instants lie within 2^31 seconds of each other.
- ShellPaths.ResolvePath: the working directory leaves a place in the buffer for the slash behind it, unless the input is absolute.
- ext2 chmod, chown, enumeration and directory listing: easy readers and writers of single fields.
- I/O errors of the disk, and the sector loops inside block reads and writes.
- The queries about the current user; service code around the account table.
- Retransmission in network_tcp_send, ARP, DNS, the NTP packet exchange and the TLS client.
- Hardware access, the shell, the desktop and all other user interface code.
