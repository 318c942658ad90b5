# Verification of the Zigix boot and storage stack

This project models the parts of Zigix whose on-disk or in-ring form has to agree with a simple
abstract one, and proves the agreement for all inputs and all runs. Four groups are covered.

* **Image writers and their readers.** The Python scripts that build ext2, ext4 and FAT32 images
  are bump allocators over one byte array (`Ext2Image`, `Ext2Dir`, `Ext2DirStore`, `Ext2Tree`,
  `Ext4Extents`, `Ext4Image`, `Ext4Inode`, `Ext4Dir`, `Ext4DirStore`, `Ext4Tree`, `Fat32`). Their
  partner is the kernel's own reader: block resolution, directory walk, extent lookup and cluster
  chain. The main results say that the kernel reads back from the finished image exactly what was
  put in, for arbitrary files, trees and lists, and that nothing written later disturbs it.
  `HostTree` is the tree both scripts take in and `TreeView` what either finished image shows of
  it; over that, `TreeLinks` relates stored link counts to what the kernel lists, and `TreePath`,
  `PathDots` and `PathLost` its path lookup to the host's; `Ext2Listing` and `Ext4Listing` state
  them for the images. `Ext2Account`, `Ext4Groups` and `Ext4Account` relate the free counts on disk
  to the bitmaps on disk (`Bitmaps`, `Packing`).
* **Checksums.** `Crc32c` relates the table-driven CRC-32C to polynomial division (section 12.1 of
  RFC 3720); `CrcKernel` and `InodeChecksum` say exactly which changes of an inode go undetected.
* **Device rings.** `VirtTable` and `VirtQueue` (module `VirtRing`) hold the virtqueue: a free list
  threaded through the descriptor table, and two index rings as windows on unbounded histories
  (section 2.7 of OASIS VirtIO 1.2), with the block client in `VirtClients` and the receive path
  in `VirtNet`. `CompletionRing`, `NvmeQueue` and `GvnicRx` hold the rings that tell new entries
  by a bit (section 4.6 of the NVM Express Base Specification 1.4), `NvmeDisk` the chunked
  transfers. Driver and device are separate steps on shared memory.
* **Pipe and kernel loading.** `PipeSpec` is the pipe as its users see it, with theorems over
  every run; `Pipe` (module `PipeRing`) is the ring buffer proved against it. `Elf`, `Paging` and
  `KernelLoad` follow the x86 kernel from its ELF file to what a page walk reads (chapter 5 of the
  System V gABI, "Program Header"; section 4.5 of volume 3A of the Intel SDM).

State that the sources update in place is a class or an array here, and each such method is proved
against a function on values; the theorems are about those functions. Python's `bytearray` is a
`seq<byte>` field rather than an array, because slice assignment can change its length, and does
when too long a block is written. 16-bit indices wrap explicitly; register words of the CRC are
bit vectors. Where a promised property is false of the code, the lemma gives the exact condition:

* a directory is listed in full if and only if it takes at most twelve blocks, and its last block
  is written in place if and only if its final entry fits (`ListingIff`, `FinalBlockIff`); every
  path of names resolves, and every stored link count is found by listing, if and only if all
  directories are that short (`PathsResolveIff`, `LinksListedIff` in `Ext2Listing`); an ext4
  directory is listed in full if and only if no block was closed with a gap (`Ext4DirStore.StoreDir`),
  with the same two consequences for the image (`Ext4Listing`);
* a path with `..` resolves as on the host if and only if no `..` leaves a directory whose parent's
  path fills the kernel's buffer (`DotsResolveIff`);
* an extent tree reads back if and only if it has at most 340 extents (`TreeReadsIff`);
* a change of the inode generation alone escapes the checksum for one difference (`GenerationIff`),
  and one of any four bytes exactly as `WindowIff` says;
* a parked process is lost if and only if a blocked call records itself over it (`NoLossIff`), and
  one call raises readiness without notifying (`UnannouncedIff`); a pipe opened both ways is never
  given back (`FreedIff`);
* NVMe transfers are exact if and only if they are aligned to the disk's sectors (`ReadExactIff`,
  `WriteExactIff`); the comments promise the virtio-blk behaviour for all requests;
* the kernel window is right if and only if the kernel's base is a multiple of 1 GiB
  (`KernelMappedIff`); nothing keeps the firmware from handing out pages of the kernel's range for
  the page tables or the file buffer, and the kernel is seen if and only if the tables spare it
  (`Load`, `PlacedIff`);
* 16-bit ring indices keep their order if and only if the ring's size divides 65536
  (`OrderKeptIff`);
* the pipe's comment speaks of 4 KiB; the code's 65535 bytes are modelled.

Check the project with `dafny verify dfyconfig.toml`.

## Model

| member | source | states |
|---|---|---|
| Ext2Format.Read | kernel/fs/ext2.zig:900-963 | the block-by-block read loop returns the requested range of the file, cut at its size, for every image, inode, offset and count |
| Ext2Format.InodeSlotAgrees | kernel/fs/ext2.zig:692-709 | every inode number of the image is in group 0, and the slot the kernel finds by its two divisions, inside one block of the inode table, is the one the writer fills by one multiplication |
| Ext2Format.StoredReads | kernel/fs/ext2.zig:838-888 | a file stored in the writer's layout reads back byte for byte through direct, single-indirect and double-indirect pointers |
| Ext2Format.StoredFrame | kernel/fs/ext2.zig:838-888 | a stored file depends on its own blocks and inode slot only: equal bytes there mean it is still stored |
| Ext2Image.BlockWrittenInPlace | make_ext2_img.py:110-112 | a write of at most one block changes that block and nothing else |
| Ext2Image.BlockWrittenLength | make_ext2_img.py:110-112 | a block write keeps the image's length exactly when the data fits one block; a longer string removes its excess from the image |
| Ext2Image.Writer.AllocBlock | make_ext2_img.py:85-99 | the next block of the zone in use; fails exactly when that zone is exhausted, and leaves the other zone's counter alone |
| Ext2Image.Writer.AllocInode | make_ext2_img.py:101-108 | inode numbers in sequence; fails exactly past the last inode |
| Ext2Image.Writer.AllocFileBlocks | make_ext2_img.py:125-152 | the data blocks and the two pointer blocks in the layout the reader resolves; fails exactly when the zone is too small |
| Ext2Image.Writer.WriteFileData | make_ext2_img.py:154-191 | the data and every pointer block are in place afterwards, the second-level blocks included, and only the file's own blocks changed |
| Ext2Image.Writer.WriteInode | make_ext2_img.py:193-237 | the kernel reads back mode, size, links, pointers and block count from the slot; i_blocks is eight times the blocks the file takes, and no other slot changes |
| Ext2Image.Writer.PlaceFile | make_ext2_img.py:312-320 | one file allocated, written and entered, with everything outside its blocks and slot as before |
| Ext2Image.Writer.StoreFile | make_ext2_img.py:312-320 | the writer's record of stored files grows by this one and every earlier record still holds; succeeds exactly when the zone has room |
| Ext2Image.RecordKept | make_ext2_img.py:85-112 | writing new blocks and one inode slot leaves every other recorded file and directory as it was |
| Ext2Dir.DirectoryRoundTrip | make_ext2_img.py:239-289 | for every list of entries whose final entry fits the block it lands in, the kernel's walk over the packed blocks yields the entries in order |
| Ext2Dir.WalkBlock | kernel/fs/ext2.zig:1219-1274 | the rec_len walk of one finished block yields its entries and arrives exactly at the next block |
| Ext2Dir.PackFits | make_ext2_img.py:246-287 | every packed block but the last fits, and the last has room for all but its final entry |
| Ext2Dir.PackKeepsEntries | make_ext2_img.py:246-287 | the packed blocks together hold the entries, in order, none lost or repeated |
| Ext2Dir.BlockLength | make_ext2_img.py:114-123 | an emitted block is exactly 4096 bytes if and only if its entries fit |
| Ext2Dir.LastRecord | make_ext2_img.py:258-263 | the walk-back finds the start of the last record of a full block |
| Ext2Dir.SealBlock | make_ext2_img.py:253-271 | the back-patched block is the block whose last record reaches the end |
| Ext2DirStore.WriteDirBlocks | make_ext2_img.py:239-289 | the blocks written are consecutive and hold the packed directory; fails exactly when the zone is too small |
| Ext2DirStore.ListingIff | make_ext2_img.py:332-333 | the kernel lists exactly the entries if and only if the directory takes at most twelve blocks |
| Ext2DirStore.DirectoryShown | make_ext2_img.py:332-333 | a directory of any length lists the entries of its first twelve blocks: the inode names no others |
| Ext2Dir.SpillWitness | make_ext2_img.py:277-284 | 342 entries of names up to four bytes: the final one does not fit the block it is put in |
| Ext2Dir.LongWitness | make_ext2_img.py:246-287 | 4094 names of up to four bytes make a directory of more than twelve blocks |
| Ext2DirStore.FinalBlockIff | make_ext2_img.py:277-284 | writing the block the final entry lands in keeps the image's length if and only if the entry fits there |
| Ext2DirStore.StoreDir | make_ext2_img.py:326-333 | a directory of any length written and entered: the kernel lists its first twelve blocks, all of it if and only if there are no more, and every file stored before is kept; fails exactly when the zone is too small |
| Ext2Tree.AddTree | make_ext2_img.py:295-338 | a host tree of any depth, directories of any length: entries, inode numbers, block demand and every file and directory below are as specified, and earlier files are kept; succeeds if and only if inodes and zone suffice |
| Ext2Tree.BuildImage | make_ext2_img.py:564-818 | any list of files and trees, each in its zone, the root directory over them, bitmaps, descriptor and superblock: the run succeeds if and only if the inodes suffice and both zones are large enough, and then the kernel finds in the finished image the root's names, every directory's first twelve blocks, mode, link count and bytes of every file, and a true account of blocks and inodes |
| Ext2Tree.AddRoot | make_ext2_img.py:631-664 | inode 2 holds `.`, `..` and every top-level name, with two links and one per subdirectory, and disturbs nothing below; succeeds exactly when the low zone has room |
| Ext2Tree.RootFound | make_ext2_img.py:631-664 | every consistent image with these records shows the kernel the whole tree, from the root down |
| Ext2Account.Account | make_ext2_img.py:733-818 | bits of blocks and inodes are exactly what the counters handed out, the descriptor's and the superblock's free counts are the bitmaps' clear bits, and every stored file is kept; nothing but blocks 0 to 3 changed |
| Ext2Account.NoneFree | make_ext2_img.py:733-742 | no block of a stored file or directory is free in the bitmap: its bit is set or it lies beyond what the bitmap covers; and its inode's bit is set |
| HostTree.NumberedPack | make_ext2_img.py:246-287 | how a directory is packed depends on its names, not on the inode numbers it gets |
| TreeLinks.LinkCounts | make_ext4_img.py:374-411 | for either file system: every inode of a tree the image shows has as its stored link count the number of entries naming it, over the listing, what the kernel lists for every directory below, and what is cut off there |
| TreeLinks.NamedOnce | make_ext4_img.py:374-411 | each number the tree was given is named by exactly one of those entries other than `.` and `..` |
| TreeLinks.LinksListedIff | make_ext4_img.py:403 | counting over what the kernel lists gives every stored link count if and only if nothing is cut off |
| Ext2Listing.ImageLinks | make_ext2_img.py:655-664 | the stored links of every inode of the finished ext2 image, root included, are the entries naming it, listed or behind a twelfth block; every inode but the root has one name |
| Ext2Listing.LinksListedIff | make_ext2_img.py:331-333 | what the kernel lists accounts for the stored links of every inode if and only if no directory has more than twelve blocks |
| TreePath.Lookup | kernel/fs/ext2.zig:1352-1387 | the linear scan finds the first entry of that name among those the walk yields |
| Ext2Listing.Lookup | kernel/fs/ext2.zig:1336-1390 | the kernel's lookup in an inode of the image, and nothing where the inode is no directory |
| TreePath.ResolvePath | kernel/fs/vfs.zig:286-443 | the loop over a path's bytes, slashes skipped and components of 255 bytes at most, `.` and `..` included, the latter by resolving the shortened accumulated path, which is cut at 256 bytes |
| TreePath.NamesResolve | kernel/fs/vfs.zig:309-436 | a path of names arrives at the inode it leads to on the host, or nowhere where the host has nothing, along directories that are listed in full |
| PathDots.DotsResolveIff | kernel/fs/vfs.zig:340-403 | a path with dots leads at every component where it leads on the host if and only if no `..` leaves a directory whose parent's path has 256 bytes or more |
| PathDots.FileAtPath | kernel/fs/vfs.zig:286-443 | without such a `..` the path ends at the host's file or directory, or nowhere on both, and the inode holds that file's bytes and mode |
| PathDots.DeepNames | kernel/fs/vfs.zig:394-403 | three directories in one another, the outer two with names of 254 bytes together: `..` out of the third is such a step |
| PathLost.PathsResolveIff | kernel/fs/vfs.zig:286-443 | every path of names resolves as on the host if and only if nothing is cut off |
| Ext2Listing.PathsResolveIff | make_ext2_img.py:295-338 | in the finished ext2 image that is: if and only if no directory has more than twelve blocks |
| Ext2Listing.DotsResolveIff | kernel/fs/vfs.zig:340-403 | and a path with dots resolves there under the condition on the accumulated path |
| Crc32c.SerialIsRemainder | make_ext4_img.py:96-103 | the bit-serial register is the remainder of the message polynomial divided by the reflected Castagnoli polynomial |
| Crc32c.UpdateIsSerial | make_ext4_img.py:105-110 | the byte-wise update is the bit-serial division, for every start state and byte string |
| Crc32c.UpdateBoth | make_ext4_img.py:105-110 | updating with two strings in turn is one update with their concatenation |
| Crc32c.InitTable | make_ext4_img.py:93-103 | the table's 256 rows are eight division steps of their index |
| Crc32c.UpdateByTable | make_ext4_img.py:105-110 | the table-driven loop computes the byte-wise update for every start state and byte string |
| Crc32c.TableStep | make_ext4_img.py:109 | one table lookup is eight division steps of the register with the byte folded in |
| Crc32c.UpdateInjective | make_ext4_img.py:105-110 | two start states that differ stay different through any string |
| Crc32c.WindowDetected | make_ext4_img.py:105-110 | two messages that differ in one window of four bytes never have the same register |
| CrcKernel.UpdateLinear | make_ext4_img.py:105-110 | the update is linear in the register: a difference evolves on its own |
| CrcKernel.OnlyFixed832 | make_ext4_img.py:121-132 | the only words that 832 steps carry to themselves are zero and 0xFCA42DAF |
| InodeChecksum.ByCopy | make_ext4_img.py:121-132 | the writer's checksum over a copy with the two fields zeroed |
| InodeChecksum.ByPieces | kernel/fs/ext4/inode_ext4.zig:102-163 | the kernel's checksum, fed in pieces, is the writer's |
| InodeChecksum.Seal | make_ext4_img.py:330-333 | the inode with its two halves stored passes the kernel's check, and nothing but the two fields changed |
| InodeChecksum.NumberDetected | make_ext4_img.py:121-132 | another inode number never gives the same checksum |
| InodeChecksum.WindowDetectedIff | make_ext4_img.py:121-132 | a change within four consecutive bytes, generation aside, keeps the checksum if and only if it touches the checksum fields alone |
| InodeChecksum.CorruptionDetected | kernel/fs/ext4/inode_ext4.zig:166-180 | a verified inode changed in such a window, outside the fields, no longer verifies |
| InodeChecksum.GenerationIff | make_ext4_img.py:125-126 | the generation is fed twice: a change of it alone keeps the checksum if and only if the two values differ by 0 or 0xFCA42DAF |
| InodeChecksum.WindowIff | make_ext4_img.py:121-132 | for every four consecutive bytes, overlapping the generation or not: the checksum is kept if and only if the window's difference is the generation's difference 8(p+4) division steps on |
| Ext4Dir.EmitBlocks | make_ext4_img.py:337-368 | the strings the ext4 packer writes: full blocks closed with an empty record when 12 bytes or more are left, the last one stretched |
| Ext4Dir.ListedIff | make_ext4_img.py:346-355 | the kernel lists the directory in full if and only if no block but the last was closed with a tail of 4 or 8 bytes; otherwise the listing ends with the first such block |
| Ext4Dir.WalkClosed | kernel/fs/ext2.zig:1219-1274 | the walk of a closed block yields its entries and goes on to the next block exactly when it has no gap |
| Ext4Dir.GapWitness | make_ext4_img.py:346-355 | a directory of more than 342 names of up to four bytes is not listed in full |
| Ext4DirStore.StoreDir | make_ext4_img.py:397-407 | a directory through the image: the kernel, by inode and extent tree, lists the entries up to the first block closed with a gap, all of them if and only if there is none; only new blocks and the one slot change; fails exactly when the blocks run out |
| Ext4DirStore.WriteStrings | make_ext4_img.py:352-363 | the packer's strings in consecutive new blocks, zero-filled to the end of each |
| Ext4DirStore.RegionContents | make_ext4_img.py:346-363 | what then stands in the blocks is the directory whose walk `ListedIff` describes |
| Ext4Inode.MakeInode | make_ext4_img.py:303-333 | the 256-byte record shows mode, size, links, block count, extent flag and root to the kernel, and its stored checksum verifies |
| Ext4Inode.WriteInode | make_ext4_img.py:303-335 | the record is in its slot and no other byte of the image changed |
| Ext4Inode.AddFile | make_ext4_img.py:386-394 | one file with its inode, blocks and tree; fails exactly when inodes or blocks run out |
| Ext4Inode.HeldReads | kernel/fs/ext2.zig:838-963 | the kernel, going from the inode through the tree, reads back the file's bytes, and i_blocks is eight times its data blocks |
| Ext4Inode.HeldKept | make_ext4_img.py:190-211 | new blocks and another inode leave a held file as it is |
| Ext4Tree.AddTree | make_ext4_img.py:374-411 | a host tree of any depth in the ext4 image: entries, inode numbers, block demand, and every file and directory below stored with checksummed inode and extent tree, earlier ones kept; succeeds if and only if inodes and blocks suffice |
| Ext4Tree.BuildImage | make_ext4_img.py:374-828 | any list of files and trees, the root directory and the bookkeeping: the run succeeds if and only if inodes and blocks suffice, and then every inode verifies, the kernel reads every file's bytes, mode and link count and lists every directory up to its first gap, from the root down, and bitmaps, descriptors and superblock account for it |
| Ext4Tree.KeptShows | make_ext4_img.py:374-411 | every image that holds the records shows the kernel the tree |
| Ext4Tree.GaplessComplete | make_ext4_img.py:346-355 | nothing of the tree is cut off if and only if no directory has a block closed with a gap |
| Ext4Tree.UsedDirsIff | make_ext4_img.py:730-735 | the used-directory count the script stores is the number of directories if and only if there is no kernel source tree, whose top directory it leaves out |
| Ext4Listing.ImageLinks | make_ext4_img.py:403 | the stored links of every inode of the finished ext4 image are the entries naming it, listed or behind a gap; every inode but the root has one name |
| Ext4Listing.LinksListedIff | make_ext4_img.py:403 | what the kernel lists accounts for the stored links of every inode if and only if no directory has a gap |
| Ext4Listing.PathsResolveIff | kernel/fs/vfs.zig:286-443 | every path of names resolves in the finished ext4 image as on the host if and only if no directory has a gap |
| Ext4Extents.FindRuns | make_ext4_img.py:247-262 | the runs tile the block list, each 1 to 32768 consecutive blocks, and none could have been longer |
| Ext4Extents.ContiguousRuns | make_ext4_img.py:222-228 | blocks handed out in sequence need exactly ceil(n/32768) extents |
| Ext4Extents.OneCovers | make_ext4_img.py:247-262 | exactly one extent covers each logical block, and it leads to that block |
| Ext4Extents.EntriesFields | kernel/fs/ext4/extents.zig:46-92 | the packed extents are read back field by field, high and low halves of the start included |
| Ext4Extents.LeafReads | kernel/fs/ext4/extents.zig:202-219 | the lookup in a leaf maps every logical block to the listed block and every other one to nothing |
| Ext4Extents.IndexReads | kernel/fs/ext4/extents.zig:222-247 | the lookup from a depth-1 root is the lookup in its leaf |
| Ext4Extents.TreeReadsIff | make_ext4_img.py:274-294 | a depth-1 tree gives back every block of the list, and nothing beyond it, if and only if it has at most 340 extents |
| Ext4Image.TreeMaps | make_ext4_img.py:238-294 | a tree with or without a leaf maps exactly its block list |
| Ext4Image.StoredReads4 | make_ext4_img.py:386-394 | every byte of a stored file is found through its tree |
| Ext4Image.StoredKept | make_ext4_img.py:190-198 | a stored file is untouched by whatever is written to later blocks |
| Ext4Image.Writer.AllocBlock | make_ext4_img.py:190-198 | the next block, and the set of allocated blocks is exactly the blocks below the counter; fails exactly at the end of the image |
| Ext4Image.Writer.AllocInode | make_ext4_img.py:200-207 | inode numbers in sequence; fails exactly past the last inode |
| Ext4Image.Writer.AllocFileBlocks | make_ext4_img.py:222-228 | ceil(size/4096) consecutive blocks, or failure exactly when too few are left |
| Ext4Image.Writer.WriteFileData | make_ext4_img.py:230-236 | the data lies from the first block on, and only the file's blocks changed |
| Ext4Image.Writer.MakeExtentIblock | make_ext4_img.py:238-294 | for every block list of at most 340 runs the 60-byte root, with its leaf if more than four, maps the list; only the leaf block changed |
| Ext4Image.Writer.StoreFile | make_ext4_img.py:386-394 | a file stored and mapped with at most eight extents, in the blocks it needs and no others; fails exactly when they are not there |
| Ext4Groups.BlockBitmap | make_ext4_img.py:700-707 | bit b of group g's bitmap is set exactly when block g*32768+b was allocated, whatever the order of the pass |
| Ext4Groups.InodeBitmap | make_ext4_img.py:710-728 | bit b of group g's bitmap is set exactly when inode g*4096+b+1 is reserved or was handed out |
| Ext4Groups.CountIn | make_ext4_img.py:744 | the counting pass gives the number of allocated blocks of the group |
| Ext4Groups.UsedInodesCount | make_ext4_img.py:748-753 | the closed form is the number of inodes of the group in use |
| Bitmaps.ZeroBitsCount | kernel/fs/common/bitmap.zig:6-8 | a bitmap's clear bits, as the kernel tests them, are what is left when its members are counted off |
| Ext4Groups.Describe | make_ext4_img.py:741-757 | the eight groups' free counts and locations, and the totals as their sums; the bytes are in `Ext4Account` |
| Ext4Groups.CountsMatchBitmaps | make_ext4_img.py:745-754 | each descriptor's free counts are the clear bits of its group's two bitmaps |
| Ext4Groups.WriterTotals | make_ext4_img.py:781-786 | the superblock's totals are the blocks and inodes the allocators have left |
| Ext4Account.Account | make_ext4_img.py:699-828 | the finished image: every descriptor, read with its high and low parts, verifies and leads to bitmaps whose bits are exactly what the allocators handed out; its free counts are their clear bits; the superblock's totals are what is left; nothing but blocks 0 to 17 changed |
| Ext4Account.MakeDescriptor | make_ext4_img.py:762-773 | the 64-byte record shows locations, free counts and used directories to the kernel's accessors, and its stored checksum passes the kernel's check |
| Ext4Account.WriteDescriptors | make_ext4_img.py:739-777 | all eight records stand in block 1, each as made |
| Bitmaps.DiskClear | kernel/fs/common/bitmap.zig:6-8 | the clear bits the kernel counts in a bitmap block are those of the bitmap written there |
| Ext4Account.HeldAccounted | make_ext4_img.py:699-828 | every file stored before the bookkeeping reads back after it |
| Ext4Groups.SlotsInOrder | make_ext4_img.py:296-301 | inode slots form one array inside the inode-table region |
| Ext4Groups.SlotsApart | make_ext4_img.py:296-301 | the slots of different inodes do not overlap |
| Fat32.FatSize | make_gce_disk.py:95-106 | the sizing loop ends at the least FAT size that has an entry for every cluster, ceil((4(T-32)+8)/520) |
| Fat32.EveryClusterHasAnEntry | make_gce_disk.py:162-168 | each data cluster's entry lies inside its own FAT copy and its bytes inside the data region |
| Fat32.ClusterWriteLength | make_gce_disk.py:156-160 | the allocator has no limit: a cluster's bytes keep the image's length if and only if the cluster exists |
| Fat32.Partition.SetFatEntry | make_gce_disk.py:165-168 | the entry is set in both copies and the copies agree in every entry |
| Fat32.Partition.WriteFile | make_gce_disk.py:174-191 | the file's chain and bytes are in place, in clusters no earlier file has, and nothing of earlier clusters changed |
| Fat32.FileKept | make_gce_disk.py:174-191 | a stored file is untouched by whatever is written for later clusters |
| Fat32.WriteFiles | make_gce_disk.py:260-262 | any list of files that fits is stored at once, each chain apart from the others, both FAT copies equal |
| Fat32.Read | kernel/arch/aarch64/fat32.zig:153-186 | the kernel's read of a stored file returns exactly the range asked for, at every offset and count, and the chain ends with the file |
| Fat32.NextAlong | kernel/arch/aarch64/fat32.zig:304-325 | the kernel follows the chain cluster by cluster and finds its end after the last |
| PipeRing.Pipe.Read | kernel/fs/pipe.zig:75-108 | the two-phase copy out of the ring removes and returns a prefix of the queue; result, recorded waiter and wake-ups as specified, the rest of the buffer untouched |
| PipeRing.Pipe.Write | kernel/fs/pipe.zig:110-151 | the two-phase copy into the ring appends a prefix of the buffer, bounded at 65535 bytes; result, recorded waiter, wake-ups and the SIGPIPE that goes with -EPIPE as specified |
| PipeRing.Pipe.TakeOut | kernel/fs/pipe.zig:88-96 | the ring holds the rest of its bytes afterwards, across the wrap, and write_pos = (read_pos + count) mod 65535 is kept |
| PipeRing.Pipe.PutIn | kernel/fs/pipe.zig:131-139 | the ring holds its bytes followed by the new ones, across the wrap, and the position relation is kept |
| PipeRing.Pipe.Close | kernel/fs/pipe.zig:153-182 | an end less, the peer woken, and the slot released when both ends are gone |
| PipeRing.Pipe.OpenEnd | kernel/fs/pipe.zig:191-208 | an end more for a pipe in use when a file description is to be had, and no change otherwise; the 8-bit counts never wrap |
| PipeRing.Pipe.CheckReadiness | kernel/fs/pipe.zig:265-282 | the readiness bits of the abstract queue |
| PipeRing.CreatePipe | kernel/fs/pipe.zig:216-261 | the first slot not in use becomes an empty pipe with one end each; pipes in use are untouched; fails exactly when no slot or fewer than two descriptions are free |
| PipeSpec.ReadinessIff | kernel/fs/pipe.zig:265-282 | readable exactly when a read would not block, writable exactly when a write would take a byte, hang-up on an empty pipe exactly at its end |
| PipeSpec.UnannouncedIff | kernel/fs/pipe.zig:191-208 | every call that raises a readiness bit notifies event waiters, except, exactly, attaching a reader to a pipe with none |
| PipeSpec.ReopenedUnannounced | kernel/fs/pipe.zig:191-208 | a run that closes the reader and opens another: the pipe becomes writable and nobody is notified |
| PipeSpec.Conservation | kernel/fs/pipe.zig:75-151 | over every run, bytes read followed by bytes queued are the bytes written, in order, and at most 65535 are queued |
| PipeSpec.RecordingsKept | kernel/fs/pipe.zig:79-182 | over every step a recorded reader implies an empty pipe with a writer, a recorded writer a full one with a reader |
| PipeSpec.NeverBoth | kernel/fs/pipe.zig:79-145 | a reader and a writer are never recorded at once |
| PipeSpec.EndsWithWake | kernel/fs/pipe.zig:98-102 | the step that ends a recorded wait wakes the recorded process |
| PipeSpec.NoLossIff | kernel/fs/pipe.zig:79-145 | over every run, no parked process is lost if and only if no blocked call records itself over a parked one |
| PipeSpec.NoLostWakeup | kernel/fs/pipe.zig:79-182 | over every run, nobody sleeps through data, space or the end of the other side, unless its slot was overwritten |
| PipeSpec.EndsCounted | kernel/fs/pipe.zig:153-208 | over every run the two counts are the open ends, plus one reader for every description opened both ways and closed |
| PipeSpec.FreedIff | kernel/fs/pipe.zig:157-178 | when every end is closed the slot is given back if and only if none of them had been opened both ways |
| PipeSpec.BothWaysLeaks | kernel/fs/pipe.zig:153-208 | a run that opens an end both ways and closes every end: the slot stays in use |
| PipeSpec.SecondReaderHidesFirst | kernel/fs/pipe.zig:82-84 | two readers on an empty pipe: the write wakes the second and leaves the first parked in front of the data |
| VirtRing.VirtQueue.constructor | kernel/drivers/virtio.zig:104-175 | a queue of any size has every descriptor on its free list; it starts out valid exactly for the sizes with which no run loses an outstanding head |
| VirtRing.VirtQueue.AllocDescs | kernel/drivers/virtio.zig:179-193 | the first descriptors of the free list become a live chain, fails exactly when too few are free; also when the list empties and its head is stale |
| VirtRing.VirtQueue.FreeDescs | kernel/drivers/virtio.zig:195-205 | the whole chain goes back to the front of the list, in order, with buffer fields untouched |
| VirtRing.OpsConserve | kernel/drivers/virtio.zig:179-205 | over any interleaving of allocations and releases every descriptor is free or in one live chain, and the two counts add up to the queue size |
| VirtTable.Conserved | kernel/drivers/virtio.zig:136-143 | free and live descriptors together are the whole table |
| VirtTable.TakenReturned | kernel/drivers/virtio.zig:179-205 | freeing the chain just allocated restores the free list in its order |
| VirtTable.ReturnedTaken | kernel/drivers/virtio.zig:179-205 | allocating as many as were just freed gives the same chain back |
| VirtRing.VirtQueue.Submit | kernel/drivers/virtio.zig:209-225 | the head joins the submitted history; no entry the device has not seen is overwritten, because heads in flight are distinct descriptors |
| VirtRing.VirtQueue.DeviceTake | kernel/drivers/virtio.zig:209-245 | the device sees every submitted head once, in order, across the 16-bit wrap |
| VirtRing.VirtQueue.DeviceComplete | kernel/drivers/virtio.zig:58-61 | a head the device holds joins the used history, and no element the driver has not taken is overwritten |
| VirtRing.VirtQueue.PollUsed | kernel/drivers/virtio.zig:247-265 | returns every used element once, in order, across the 16-bit wrap; none exactly when all were taken |
| Rings.SlotStableIff | kernel/drivers/virtio.zig:211 | a 16-bit index picks the slot of the unbounded count for every count if and only if the ring size divides 65536 |
| Rings.OrderKeptIff | kernel/drivers/virtio.zig:209-225 | for every ring size: in every run of heads a driver can submit, none outstanding twice, the device, at most one ring behind, finds every head in the slot its 16-bit index picks, if and only if the size divides 65536 |
| Rings.SlotsCollideIff | kernel/drivers/virtio.zig:211 | two entries outstanding at once share a slot, for some pair, if and only if the size does not divide 65536 |
| VirtTable.RoomOnRings | kernel/drivers/virtio.zig:209-265 | neither ring ever holds more than queue_size entries |
| VirtClients.Start | kernel/drivers/virtio_blk.zig:132-155 | the device reads exactly header, data and status buffers, in order and direction; fails exactly with fewer than three free descriptors |
| VirtClients.Finish | kernel/drivers/virtio_blk.zig:157-177 | the completion taken is the request's own and its three descriptors are freed |
| VirtClients.Transfer | kernel/drivers/virtio_blk.zig:116-182 | a served request leaves table and free list exactly as they were |
| VirtClients.ChainIsRead | kernel/drivers/virtio_blk.zig:137-152 | a linked chain flagged on all but its last descriptor is read by the device as it was built, for any length |
| VirtNet.PostRxBuffer | kernel/drivers/virtio_net.zig:157-171 | the buffer is offered under a fresh descriptor and submitted; fails exactly when none is free |
| VirtNet.PostAll | kernel/drivers/virtio_net.zig:102-109 | all 16 buffers are posted, or as many as the queue has descriptors |
| VirtNet.Recycle | kernel/drivers/virtio_net.zig:234-285 | one completion: the descriptor is freed, the next allocation returns it and its buffer is posted again |
| VirtNet.HandleIrq | kernel/drivers/virtio_net.zig:227-287 | for any completions in any order every buffer is posted again under the descriptor it had, no allocation fails, and the device gets the buffers back in completion order |
| CompletionRing.RunInOrder | kernel/drivers/nvme.zig:172-207 | for any depth and any run with at most one lap outstanding, the consumer takes every completion once in order, and the head tests as new exactly when the device is ahead |
| CompletionRing.NewIff | kernel/drivers/nvme.zig:183-191 | the entry at the head carries the consumer's bit exactly when it is new, and then it is the next completion |
| CompletionRing.Overrun | kernel/drivers/nvme.zig:183-191 | the bound of one lap is exact: one completion more and the consumer sees nothing new |
| NvmeQueue.Queue.PollCompletion | kernel/drivers/nvme.zig:172-207 | the oldest completion not yet taken, or none exactly when all were; warns exactly on a foreign command id |
| NvmeQueue.Queue.Submit | kernel/drivers/nvme.zig:251-257 | the command joins the submitted history at the tail, which wraps at the depth |
| NvmeDisk.Controller.SubmitIo | kernel/drivers/nvme.zig:246-279 | a served command's completion carries its own id and its status, and the device has executed exactly that command |
| NvmeDisk.Controller.ReadSectors | kernel/drivers/nvme.zig:583-627 | the chunked read returns the flat range that starts at the disk sector of the first byte; succeeds exactly when the disk reaches that far, and touches nothing past the request in the buffer |
| NvmeDisk.Controller.WriteSectors | kernel/drivers/nvme.zig:630-676 | the chunked write puts the data where a read looks for it, followed to the end of the last disk sector by what the staging page held; stops after whole pages when the disk is too short |
| NvmeDisk.CommandFits | kernel/drivers/nvme.zig:595-598 | no command exceeds the 4 KiB staging page, for every sector size |
| NvmeDisk.CommandPlace | kernel/drivers/nvme.zig:597 | the commands of a request tile it page by page |
| NvmeDisk.WriteThenRead | kernel/drivers/nvme.zig:583-676 | a write followed by a read of the same range returns the data, for every request the disk reaches |
| NvmeDisk.ReadExactIff | kernel/drivers/nvme.zig:597-598 | a read returns the range asked for, on every disk, if and only if the range starts on a disk sector |
| NvmeDisk.WriteExactIff | kernel/drivers/nvme.zig:653-654 | a write changes the range asked for and nothing else, on every disk and staging page, if and only if the range starts and ends on disk sectors |
| GvnicRx.RxQueue.Take | kernel/drivers/gvnic.zig:1205-1237 | the head is new exactly when the device is ahead, for a generation bit that starts at 0; a packet's buffer is posted again |
| GvnicRx.RxQueue.HandleIrq | kernel/drivers/gvnic.zig:1201-1237 | up to 32 completions in order; buffers of delivered packets are posted again in that order, and exactly those of malformed completions leave circulation |
| GvnicRx.RxQueue.PostRxBuffers | kernel/drivers/gvnic.zig:846-875 | all 128 buffers are put into circulation, each once |
| Elf.ParseKernel | bootloader_x86/elf_loader.zig:89-193 | accepts exactly the acceptable images, header checks included, and names the first reason otherwise; reports the loadable segments in order, the pages they span with both bounds attained, and the physical range |
| Elf.GetPhdr | bootloader_x86/elf_loader.zig:195-199 | a program header is returned exactly when it lies in the file, aligned, without overflow |
| Elf.PlaceSegments | bootloader_x86/elf_loader.zig:144-169 | in the one memory that also holds the file buffer: the kernel's range zeroed, then the segments copied byte by byte; when no segment's file bytes lie in the range, memory holds the byte of the last segment that has one at each place, zero in the rest of the range, and elsewhere what it held |
| Elf.PlacedIff | bootloader_x86/elf_loader.zig:144-169 | segments that do not overlap arrive, whatever the file holds, if and only if none of their file bytes lies in the range that is zeroed first |
| Elf.BufferInside | bootloader_x86/elf_loader.zig:146-151 | a file buffer inside the kernel's range leaves the whole range zero |
| Elf.OwnBytes | bootloader_x86/elf_loader.zig:153-168 | segments that do not overlap each find their own file bytes and no others |
| Paging.Setup | bootloader_x86/paging.zig:66-138 | every 64-bit word of the eight table pages, stored in physical memory low byte first: identity, direct map and kernel window, zero elsewhere; no byte outside the pages changes |
| Paging.WalkIs | bootloader_x86/paging.zig:66-138 | the processor's four-level walk, reading physical memory, for every 64-bit virtual address |
| Paging.DirectMapIff | bootloader_x86/paging.zig:106-120 | HHDM_BASE + p leads to p if and only if p is below max(4 GiB, RAM) in whole gigabytes, capped at 512 GiB |
| Paging.IdentityIff | bootloader_x86/paging.zig:98-104 | in the lowest slot an address leads to itself if and only if it is below 4 GiB |
| Paging.KernelMappedIff | bootloader_x86/paging.zig:122-138 | a kernel linked in slot 511 is mapped at its addresses if and only if its base is a multiple of 1 GiB and it is no larger than that |
| KernelLoad.Load | bootloader_x86/main.zig:162-182 | file buffer, kernel and tables in one physical memory, for segments that do not overlap, a base in slot 511 at 1 GiB alignment and file bytes outside the kernel's range: the processor reads the file's byte, or zero past the file's part, at every address of every segment if and only if the tables spare every byte they lie on; so it does when the table pages are outside the kernel's range |
| KernelLoad.KernelSeenIff | bootloader_x86/elf_loader.zig:139-169 | the same for any memory with these contents |
| KernelLoad.TablesOnKernel | bootloader_x86/paging.zig:75-98 | tables allocated on the kernel's first page: its first byte reads as 3, whatever the file holds, so the kernel is lost unless that byte is 3 |
| KernelLoad.BufferOnKernel | bootloader_x86/main.zig:162-166 | a file buffer allocated inside the kernel's range: the processor reads zeros |

## Left out

- Ext2DirStore.StoreDir: requires that the final entry fits the block it lands in; otherwise the write removes bytes from the image and every later block shifts, which `FinalBlockIff` states.
- Ext2DirStore.WriteDirBlocks: requires the same, for the same reason.
- Ext2Tree.AddTree: requires the same of every directory below.
- Ext2Tree.BuildImage: requires the same of every directory and of the root; the order of the names in the root is that of the nodes, and blocks of the high zone are in no bitmap, as in the script.
- Ext4Dir.EmitBlocks: requires that the final entry fits the block it lands in, as in the ext2 script.
- Ext4DirStore.StoreDir: requires the same, and that blocks not handed out are still zero, which every operation keeps (`FreshKept`).
- TreePath.ResolvePath: symbolic links, mount points and hash-indexed directories are not modelled.
- Ext4Tree.AddTree: requires that every directory's final entry fits the block it lands in.
- Ext4Tree.BuildImage: requires the same of every directory and of the root.
- Fat32.Partition.WriteFile: requires that the clusters exist; `ClusterWriteLength` states what happens to the image otherwise.
- GvnicRx.RxQueue.constructor: requires a ring of at least 128 entries; with fewer the posting loop would overwrite buffers it has just posted.
- Ext4Image.Writer.MakeExtentIblock: says nothing about trees of more than 340 extents; `TreeReadsIff` does.
- NvmeDisk.Controller.ReadSectors: sector numbers whose byte address exceeds 64 bits are not modelled, nor is a device that fails a command within its range.
- Elf.ParseKernel: runtime traps on 64-bit overflow and on a misaligned program header are one error, `Trapped`.
- Timeouts: all polls are modelled for devices that answer; descriptors freed under a device that has not answered are outside the ring theorems.
- Memory fences, doorbells, port and MMIO access, interrupts, cache maintenance, CR3 and the jump to the kernel.
- The kernel's block and page caches, and its write paths: readers see the image directly.
- The ext3 scripts, the journal inode and its blocks, `lost+found` and the fixed demo files of the image scripts (`testdir` gets the literal link count 3, where two entries name it); command-line handling, timestamps and GPT.
- The 128-byte inode variant of the checksum, timestamps and owners of inodes, and the superblock's features, uuid, hash seed and times beyond the fields `ShowsSuper` names.
- The FAT boot sector fields, directory entries and long names.
- Extent trees deeper than the writer makes are followed by the model's lookup only while their depth falls from node to node.
- `rx_ring` hand-off to the network stack, zero-copy receive, and transmit of both network cards.
- Concurrent callers of the NVMe interface and of the pipe; a step is one call.
- KernelLoad.Load: the boot information and memory map, written to pages of their own after the tables, are not modelled; nor is the loader's own code and stack in that memory.
- Elf.PlaceSegments: a file buffer that lies partly in the kernel's range is described byte by byte by `Placed`, and by `PlacedIff` for all contents at once, not by what a given file then reads as.
