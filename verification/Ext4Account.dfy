/** The bookkeeping on disk: bitmaps, group descriptors and superblock as the ext4 writer leaves
    them in the image, and what the kernel reads there. */
module Ext4Account {
  import opened Bytes
  import Rings
  import opened Ext2Format
  import opened Ext2Image
  import opened Ext4Image
  import opened Ext4Groups
  import opened Ext4Inode
  import opened Bitmaps
  import opened Packing
  import InodeChecksum
  import Crc32c

  const DESC_SIZE: nat := 64
  const DESC_SUM: nat := 0x1E

  // ---- Bitmaps ----

  /** Eight bitmaps stand in the blocks from `b`. */
  ghost predicate HoldsMaps(img: seq<byte>, b: nat, maps: seq<Bitmap>) {
    forall g | 0 <= g < |maps| :: HasAt(img, (b + g) * BLOCK_SIZE, Ints(maps[g]))
  }

  lemma {:induction false} MapsMore(img: seq<byte>, img': seq<byte>, b: nat, maps: seq<Bitmap>, m: Bitmap)
    requires HoldsMaps(img, b, maps) && OnlyBlock(img, img', b + |maps|)
    requires HasAt(img', (b + |maps|) * BLOCK_SIZE, Ints(m))
    ensures HoldsMaps(img', b, maps + [m])
  {
    forall g | 0 <= g < |maps + [m]| ensures HasAt(img', (b + g) * BLOCK_SIZE, Ints((maps + [m])[g])) {
      if g < |maps| {
        assert HasAt(img, (b + g) * BLOCK_SIZE, Ints(maps[g]));
      }
    }
  }

  lemma {:induction false} MapsKept(img: seq<byte>, img': seq<byte>, b: nat, maps: seq<Bitmap>, lo: nat, hi: nat)
    requires HoldsMaps(img, b, maps) && OnlyBlocks(img, img', lo, hi) && (hi <= b || b + |maps| <= lo)
    ensures HoldsMaps(img', b, maps)
  {
    forall g | 0 <= g < |maps| ensures HasAt(img', (b + g) * BLOCK_SIZE, Ints(maps[g])) {
      assert HasAt(img, (b + g) * BLOCK_SIZE, Ints(maps[g]));
    }
  }

  method WriteBlockBitmaps(w: Ext4Image.Writer) returns (maps: seq<Bitmap>)
    requires w.Valid()
    modifies w`img
    ensures w.Valid() && |maps| == NUM_GROUPS && HoldsMaps(w.img, BB_START, maps)
    ensures OnlyBlocks(old(w.img), w.img, BB_START, IB_START)
    ensures forall g | 0 <= g < NUM_GROUPS :: Records(maps[g], w.taken, g * GROUP_BLOCKS, GROUP_BLOCKS)
  {
    hide HasAt, Records, BlockWritten;
    maps := [];
    for g := 0 to NUM_GROUPS
      invariant w.Valid() && |maps| == g && HoldsMaps(w.img, BB_START, maps)
      invariant OnlyBlocks(old(w.img), w.img, BB_START, BB_START + g)
      invariant forall j | 0 <= j < g :: Records(maps[j], w.taken, j * GROUP_BLOCKS, GROUP_BLOCKS)
    {
      var m := BlockBitmap(w.taken, g);
      ghost var was := w.img;
      BlockWrittenInPlace(w.img, BB_START + g, Ints(m));
      w.img := BlockWritten(w.img, BB_START + g, Ints(m));
      MapsMore(was, w.img, BB_START, maps, m);
      maps := maps + [m];
    }
  }

  /** The bits of an inode bitmap say which numbers lie below the counter. */
  ghost predicate InodesRecorded(m: Bitmap, nextInode: nat, g: nat) {
    forall k | 0 <= k < GROUP_INODES :: TestBit(m, k) <==> g * GROUP_INODES + 1 + k < nextInode
  }

  method WriteInodeBitmaps(w: Ext4Image.Writer) returns (maps: seq<Bitmap>)
    requires w.Valid()
    modifies w`img
    ensures w.Valid() && |maps| == NUM_GROUPS && HoldsMaps(w.img, IB_START, maps)
    ensures OnlyBlocks(old(w.img), w.img, IB_START, IT_START)
    ensures forall g | 0 <= g < NUM_GROUPS :: InodesRecorded(maps[g], w.nextInode, g)
  {
    hide HasAt, BlockWritten, TestBit;
    maps := [];
    for g := 0 to NUM_GROUPS
      invariant w.Valid() && |maps| == g && HoldsMaps(w.img, IB_START, maps)
      invariant OnlyBlocks(old(w.img), w.img, IB_START, IB_START + g)
      invariant forall j | 0 <= j < g :: InodesRecorded(maps[j], w.nextInode, j)
    {
      var m := InodeBitmap(w.nextInode, g);
      ghost var was := w.img;
      BlockWrittenInPlace(w.img, IB_START + g, Ints(m));
      w.img := BlockWritten(w.img, IB_START + g, Ints(m));
      MapsMore(was, w.img, IB_START, maps, m);
      maps := maps + [m];
    }
  }

  // ---- Descriptors ----

  /** A descriptor record, 64 bytes. */
  type Record64 = s: seq<byte> | |s| == DESC_SIZE witness Zeros(DESC_SIZE)

  /** The kernel's accessors for a 64-byte descriptor, high and low parts together. */
  function BlockBitmapOf(d: Record64): nat { 0x1_0000_0000 * U32At(d, 0x20) + U32At(d, 0x00) }
  function InodeBitmapOf(d: Record64): nat { 0x1_0000_0000 * U32At(d, 0x24) + U32At(d, 0x04) }
  function InodeTableOf(d: Record64): nat { 0x1_0000_0000 * U32At(d, 0x28) + U32At(d, 0x08) }
  function FreeBlocksOf(d: Record64): nat { 0x1_0000 * U16At(d, 0x2C) + U16At(d, 0x0C) }
  function FreeInodesOf(d: Record64): nat { 0x1_0000 * U16At(d, 0x2E) + U16At(d, 0x0E) }
  function UsedDirsOf(d: Record64): nat { 0x1_0000 * U16At(d, 0x30) + U16At(d, 0x10) }

  ghost predicate ShowsGroup(d: Record64, x: Descriptor, dirs: nat) {
    && BlockBitmapOf(d) == x.blockBitmap && InodeBitmapOf(d) == x.inodeBitmap && InodeTableOf(d) == x.inodeTable
    && FreeBlocksOf(d) == x.freeBlocks && FreeInodesOf(d) == x.freeInodes && UsedDirsOf(d) == dirs
  }

  /** `bgd_checksum` before it is cut to 16 bits: uuid, group number, and the record with its
      checksum zeroed. */
  function GroupSum(s: seq<bv8>, g: bv32, uuid: seq<bv8>): Crc32c.Word
    requires |s| == DESC_SIZE
  {
    var seed := Crc32c.Update(Crc32c.Update(Crc32c.ONES, uuid), InodeChecksum.Le(g));
    Crc32c.Xor(Crc32c.Update(seed, s[..DESC_SUM] + [0, 0] + s[DESC_SUM + 2..]), Crc32c.ONES)
  }

  /** The kernel's `verifyChecksum` of a descriptor. */
  ghost predicate GroupVerifies(d: Record64, g: nat, uuid: seq<bv8>)
    requires g < NUM_GROUPS
  {
    var s := Bits(d);
    [s[DESC_SUM], s[DESC_SUM + 1]] == InodeChecksum.Le(GroupSum(s, g as bv32, uuid).bits)[..2]
  }

  function GroupFields(x: Descriptor, dirs: u16): seq<Field> {
    [Field(0x00, Le32(x.blockBitmap)), Field(0x04, Le32(x.inodeBitmap)), Field(0x08, Le32(x.inodeTable)),
     Field(0x0C, Le16(x.freeBlocks)), Field(0x0E, Le16(x.freeInodes)), Field(0x10, Le16(dirs))]
  }

  lemma {:induction false} GroupFieldsShow(d: Record64, x: Descriptor, dirs: u16)
    requires var fs := GroupFields(x, dirs); forall i | 0 <= i < |fs| :: HasAt(d, fs[i].at, fs[i].bytes)
    requires forall k | 0x20 <= k < DESC_SIZE :: At(d, k) == 0
    ensures ShowsGroup(d, x, dirs)
  {
    hide Le16, Le32, HasAt, At;
    var fs := GroupFields(x, dirs);
    assert HasAt(d, fs[0].at, fs[0].bytes) && HasAt(d, fs[1].at, fs[1].bytes) && HasAt(d, fs[2].at, fs[2].bytes);
    assert HasAt(d, fs[3].at, fs[3].bytes) && HasAt(d, fs[4].at, fs[4].bytes) && HasAt(d, fs[5].at, fs[5].bytes);
    WordValue(d, 0x00, x.blockBitmap);
    WordValue(d, 0x04, x.inodeBitmap);
    WordValue(d, 0x08, x.inodeTable);
    HalfValue(d, 0x0C, x.freeBlocks);
    HalfValue(d, 0x0E, x.freeInodes);
    HalfValue(d, 0x10, dirs);
  }

  /** One descriptor: its fields, and the checksum over them. */
  method MakeDescriptor(t: seq<bv32>, x: Descriptor, dirs: u16, g: nat, uuid: seq<bv8>) returns (d: Record64)
    requires g < NUM_GROUPS && Crc32c.IsTable(t)
    ensures ShowsGroup(d, x, dirs) && GroupVerifies(d, g, uuid)
  {
    hide Crc32c.IsTable, Crc32c.Update, InodeChecksum.Le, Le16, Le32, ShowsGroup, Ints, SliceAssign;
    var bare := BareDescriptor(x, dirs);
    var crc := Crc32c.UpdateByTable(t, 0xFFFFFFFF, uuid);
    crc := Crc32c.UpdateByTable(t, crc, InodeChecksum.Le(g as bv32));
    var s := Bits(bare);
    crc := Crc32c.UpdateByTable(t, crc, s[..DESC_SUM] + [0, 0] + s[DESC_SUM + 2..]);
    var sum := crc ^ 0xFFFFFFFF;
    var half := Ints(InodeChecksum.Le(sum)[..2]);
    SliceAssignInPlace(bare, DESC_SUM, half);
    d := SliceAssign(bare, DESC_SUM, DESC_SUM + 2, half);
    SumStored(bare, d, sum, g, uuid);
    FieldsKept(bare, d, x, dirs);
  }

  method BareDescriptor(x: Descriptor, dirs: u16) returns (bare: Record64)
    ensures var fs := GroupFields(x, dirs); forall i | 0 <= i < |fs| :: HasAt(bare, fs[i].at, fs[i].bytes)
    ensures forall k | 0x20 <= k < DESC_SIZE :: At(bare, k) == 0
  {
    hide Le16, Le32, HasAt, PutAll;
    var fs := GroupFields(x, dirs);
    Sorted(fs, DESC_SIZE);
    AllPut(Zeros(DESC_SIZE), fs);
    bare := PutAll(Zeros(DESC_SIZE), fs);
  }

  lemma {:induction false} FieldsKept(bare: Record64, d: Record64, x: Descriptor, dirs: u16)
    requires var fs := GroupFields(x, dirs); forall i | 0 <= i < |fs| :: HasAt(bare, fs[i].at, fs[i].bytes)
    requires forall k | 0x20 <= k < DESC_SIZE :: At(bare, k) == 0
    requires forall k | !(DESC_SUM <= k < DESC_SUM + 2) :: At(d, k) == At(bare, k)
    ensures ShowsGroup(d, x, dirs)
  {
    hide Le16, Le32, ShowsGroup;
    var fs := GroupFields(x, dirs);
    forall i | 0 <= i < |fs| ensures HasAt(d, fs[i].at, fs[i].bytes) {
      assert HasAt(bare, fs[i].at, fs[i].bytes);
    }
    GroupFieldsShow(d, x, dirs);
  }

  lemma {:induction false} SumStored(bare: Record64, d: Record64, sum: bv32, g: nat, uuid: seq<bv8>)
    requires g < NUM_GROUPS && Crc32c.Word(sum) == GroupSum(Bits(bare), g as bv32, uuid)
    requires HasAt(d, DESC_SUM, Ints(InodeChecksum.Le(sum)[..2]))
    requires forall k | !(DESC_SUM <= k < DESC_SUM + 2) :: At(d, k) == At(bare, k)
    ensures GroupVerifies(d, g, uuid)
  {
    hide InodeChecksum.Le, Bits, Ints;
    SameSum(bare, d, g, uuid);
    hide GroupSum;
    HalfStored(d, InodeChecksum.Le(sum));
  }

  /** The checksum does not depend on the checksum field. */
  lemma {:induction false} SameSum(bare: Record64, d: Record64, g: nat, uuid: seq<bv8>)
    requires g < NUM_GROUPS && forall k | !(DESC_SUM <= k < DESC_SUM + 2) :: At(d, k) == At(bare, k)
    ensures GroupSum(Bits(d), g as bv32, uuid) == GroupSum(Bits(bare), g as bv32, uuid)
  {
    hide InodeChecksum.Le, Crc32c.Update, Crc32c.Xor;
    var a, b := Bits(d), Bits(bare);
    forall i | 0 <= i < DESC_SIZE && !(DESC_SUM <= i < DESC_SUM + 2) ensures a[i] == b[i] {
      assert At(d, i) == At(bare, i);
    }
    hide Bits, At;
    assert a[..DESC_SUM] == b[..DESC_SUM] && a[DESC_SUM + 2..] == b[DESC_SUM + 2..];
  }

  lemma {:induction false} HalfStored(d: Record64, le: seq<bv8>)
    requires |le| == 4 && HasAt(d, DESC_SUM, Ints(le[..2]))
    ensures [Bits(d)[DESC_SUM], Bits(d)[DESC_SUM + 1]] == le[..2]
  {
    assert d[DESC_SUM] == At(d, DESC_SUM + 0) && d[DESC_SUM + 1] == At(d, DESC_SUM + 1);
    BackAgain(le[0]);
    BackAgain(le[1]);
  }

  // ---- The descriptor block ----

  /** Descriptor `g` in the image. */
  function GroupOf(img: seq<byte>, g: nat): Record64 {
    Window(img, BLOCK_SIZE + g * DESC_SIZE, DESC_SIZE)
  }

  function DirsOf(dirs: u16, g: nat): u16 { if g == 0 then dirs else 0 }

  /** Record `g` shows descriptor `g`, and verifies. */
  ghost predicate Sound(d: Record64, x: Descriptor, dirs: u16, g: nat, uuid: seq<bv8>)
    requires g < NUM_GROUPS
  {
    ShowsGroup(d, x, DirsOf(dirs, g)) && GroupVerifies(d, g, uuid)
  }

  lemma {:induction false} RecordPut(block: seq<byte>, g: nat, d: Record64)
    requires |block| == BLOCK_SIZE && g < NUM_GROUPS
    ensures var after := SliceAssign(block, g * DESC_SIZE, (g + 1) * DESC_SIZE, d);
      && |after| == BLOCK_SIZE && HasAt(after, g * DESC_SIZE, d)
      && (forall k | k < g * DESC_SIZE :: At(after, k) == At(block, k))
  {
    assert (g + 1) * DESC_SIZE == g * DESC_SIZE + |d|;
    SliceAssignInPlace(block, g * DESC_SIZE, d);
  }

  lemma {:induction false} RecordKeeps(block: seq<byte>, after: seq<byte>, g: nat, j: nat, d: Record64)
    requires j < g && |after| == |block| && HasAt(block, j * DESC_SIZE, d)
    requires forall k | k < g * DESC_SIZE :: At(after, k) == At(block, k)
    ensures HasAt(after, j * DESC_SIZE, d)
  {
    assert (j + 1) * DESC_SIZE <= g * DESC_SIZE;
  }

  method WriteDescriptors(w: Ext4Image.Writer, t: seq<bv32>, ds: seq<Descriptor>, dirs: u16, uuid: seq<bv8>)
    requires w.Valid() && |ds| == NUM_GROUPS && Crc32c.IsTable(t)
    modifies w`img
    ensures w.Valid() && OnlyBlocks(old(w.img), w.img, 1, BB_START)
    ensures forall g | 0 <= g < NUM_GROUPS :: Sound(GroupOf(w.img, g), ds[g], dirs, g, uuid)
  {
    hide Crc32c.IsTable, Sound, HasAt, SliceAssign, BlockWritten;
    var block: seq<byte> := Zeros(BLOCK_SIZE);
    ghost var recs: seq<Record64> := [];
    for g := 0 to NUM_GROUPS
      invariant w.Valid() && w.img == old(w.img) && |block| == BLOCK_SIZE && |recs| == g
      invariant forall j | 0 <= j < g :: HasAt(block, j * DESC_SIZE, recs[j]) && Sound(recs[j], ds[j], dirs, j, uuid)
    {
      var d := OneRecord(t, ds[g], dirs, g, uuid);
      RecordPut(block, g, d);
      ghost var was := block;
      block := SliceAssign(block, g * DESC_SIZE, (g + 1) * DESC_SIZE, d);
      forall j | 0 <= j < g ensures HasAt(block, j * DESC_SIZE, recs[j]) {
        RecordKeeps(was, block, g, j, recs[j]);
      }
      recs := recs + [d];
    }
    BlockWrittenInPlace(w.img, 1, block);
    w.img := BlockWritten(w.img, 1, block);
    forall g | 0 <= g < NUM_GROUPS ensures GroupOf(w.img, g) == recs[g] {
      assert HasAt(block, g * DESC_SIZE, recs[g]);
      RecordRead(w.img, block, g, recs[g]);
    }
  }

  method OneRecord(t: seq<bv32>, x: Descriptor, dirs: u16, g: nat, uuid: seq<bv8>) returns (d: Record64)
    requires g < NUM_GROUPS && Crc32c.IsTable(t)
    ensures Sound(d, x, dirs, g, uuid)
  {
    hide ShowsGroup, GroupVerifies, Crc32c.IsTable;
    d := MakeDescriptor(t, x, DirsOf(dirs, g), g, uuid);
  }

  lemma {:induction false} RecordRead(img: seq<byte>, block: seq<byte>, g: nat, d: Record64)
    requires g < NUM_GROUPS && |block| == BLOCK_SIZE
    requires HasAt(img, BLOCK_SIZE, block) && HasAt(block, g * DESC_SIZE, d)
    ensures GroupOf(img, g) == d
  {
    forall i | 0 <= i < DESC_SIZE ensures GroupOf(img, g)[i] == d[i] {
      assert At(block, g * DESC_SIZE + i) == d[i];
      assert At(img, BLOCK_SIZE + (g * DESC_SIZE + i)) == block[g * DESC_SIZE + i];
    }
  }

  // ---- The superblock ----

  /** What the kernel takes from the superblock: sizes, free counts, magic number, inode size,
      64-bit mode and descriptor size. */
  function SuperFields(freeBlocks: u32, freeInodes: u32): seq<Field> {
    [Field(0x00, Le32(TOTAL_INODES)), Field(0x04, Le32(BLOCKS)),
     Field(0x0C, Le32(freeBlocks)), Field(0x10, Le32(freeInodes)),
     Field(0x18, Le32(2)), Field(0x20, Le32(GROUP_BLOCKS)), Field(0x28, Le32(GROUP_INODES)),
     Field(0x38, Le16(SUPER_MAGIC)), Field(0x54, Le32(11)), Field(0x58, Le16(INODE_BYTES)),
     Field(0x60, Le32(0x2C2)), Field(0xFE, Le16(DESC_SIZE))]
  }

  ghost predicate ShowsSuper(img: seq<byte>, freeBlocks: nat, freeInodes: nat) {
    && SuperWord(img, 0x00) == TOTAL_INODES && SuperWord(img, 0x04) == BLOCKS
    && SuperWord(img, 0x0C) == freeBlocks && SuperWord(img, 0x10) == freeInodes
    && SuperWord(img, 0x20) == GROUP_BLOCKS && SuperWord(img, 0x28) == GROUP_INODES
    && SuperHalf(img, 0x38) == SUPER_MAGIC && SuperHalf(img, 0x58) == INODE_BYTES && SuperHalf(img, 0xFE) == DESC_SIZE
  }

  method WriteSuper(w: Ext4Image.Writer, freeBlocks: u32, freeInodes: u32)
    requires w.Valid()
    modifies w`img
    ensures w.Valid() && OnlyBlocks(old(w.img), w.img, 0, 1) && ShowsSuper(w.img, freeBlocks, freeInodes)
  {
    hide PutAll, Le16, Le32, SliceAssign, HasAt;
    var fs := SuperFields(freeBlocks, freeInodes);
    Sorted(fs, SUPER_SIZE);
    AllPut(Zeros(SUPER_SIZE), fs);
    var sb := PutAll(Zeros(SUPER_SIZE), fs);
    SliceAssignInPlace(w.img, SUPER_AT, sb);
    w.img := SliceAssign(w.img, SUPER_AT, SUPER_AT + SUPER_SIZE, sb);
    hide SuperFields;
    SuperRead(w.img, sb, freeBlocks, freeInodes);
  }

  lemma {:induction false} SuperRead(img: seq<byte>, sb: seq<byte>, freeBlocks: u32, freeInodes: u32)
    requires HasAt(img, SUPER_AT, sb) && |sb| == SUPER_SIZE
    requires var fs := SuperFields(freeBlocks, freeInodes); forall i | 0 <= i < |fs| :: HasAt(sb, fs[i].at, fs[i].bytes)
    ensures ShowsSuper(img, freeBlocks, freeInodes)
  {
    hide Le16, Le32, HasAt, SuperWord, SuperHalf;
    var fs := SuperFields(freeBlocks, freeInodes);
    assert HasAt(sb, fs[0].at, fs[0].bytes) && HasAt(sb, fs[1].at, fs[1].bytes) && HasAt(sb, fs[2].at, fs[2].bytes);
    assert HasAt(sb, fs[3].at, fs[3].bytes) && HasAt(sb, fs[5].at, fs[5].bytes) && HasAt(sb, fs[6].at, fs[6].bytes);
    assert HasAt(sb, fs[7].at, fs[7].bytes) && HasAt(sb, fs[9].at, fs[9].bytes) && HasAt(sb, fs[11].at, fs[11].bytes);
    SuperWordRead(img, sb, 0x00, TOTAL_INODES);
    SuperWordRead(img, sb, 0x04, BLOCKS);
    SuperWordRead(img, sb, 0x0C, freeBlocks);
    SuperWordRead(img, sb, 0x10, freeInodes);
    SuperWordRead(img, sb, 0x20, GROUP_BLOCKS);
    SuperWordRead(img, sb, 0x28, GROUP_INODES);
    SuperHalfRead(img, sb, 0x38, SUPER_MAGIC);
    SuperHalfRead(img, sb, 0x58, INODE_BYTES);
    SuperHalfRead(img, sb, 0xFE, DESC_SIZE);
  }

  // ---- All of it ----

  /** Group `g` as the kernel finds it: the descriptor leads to bitmaps that say which blocks and
      inodes were handed out, and its free counts are their clear bits. */
  ghost predicate GroupAccounted(img: seq<byte>, nextBlock: nat, nextInode: nat, g: nat) {
    var d := GroupOf(img, g);
    var blocks, inodes := BlockBitmapOf(d), InodeBitmapOf(d);
    && InodeTableOf(d) == IT_START + g * TABLE_BLOCKS
    && (forall k | 0 <= k < GROUP_BLOCKS :: BitOnDisk(img, blocks, k) <==> g * GROUP_BLOCKS + k < nextBlock)
    && (forall k | 0 <= k < GROUP_INODES :: BitOnDisk(img, inodes, k) <==> g * GROUP_INODES + 1 + k < nextInode)
    && FreeBlocksOf(d) == ClearBits(img, blocks, GROUP_BLOCKS)
    && FreeInodesOf(d) == ClearBits(img, inodes, GROUP_INODES)
  }

  lemma {:induction false} GroupIs(img: seq<byte>, x: Descriptor, taken: set<nat>, nextBlock: nat, nextInode: nat,
      dirs: nat, g: nat, blocks: Bitmap, inodes: Bitmap)
    requires g < NUM_GROUPS && Accounts(x, taken, nextInode, g) && ShowsGroup(GroupOf(img, g), x, dirs)
    requires (forall b: nat :: b in taken <==> b < nextBlock) && Records(blocks, taken, g * GROUP_BLOCKS, GROUP_BLOCKS)
    requires InodesRecorded(inodes, nextInode, g)
    requires HasAt(img, (BB_START + g) * BLOCK_SIZE, Ints(blocks))
    requires HasAt(img, (IB_START + g) * BLOCK_SIZE, Ints(inodes))
    ensures GroupAccounted(img, nextBlock, nextInode, g)
  {
    CountsMatchBitmaps(x, taken, nextInode, g, blocks, inodes);
    hide TestBit, BitOnDisk, ZeroBits, ClearBits, HasAt, GroupOf, Within, InodesUsed;
    var bb, ib := BB_START + g, IB_START + g;
    DiskClear(img, bb, blocks, GROUP_BLOCKS);
    DiskClear(img, ib, inodes, GROUP_INODES);
    forall k | 0 <= k < GROUP_BLOCKS ensures BitOnDisk(img, bb, k) <==> g * GROUP_BLOCKS + k < nextBlock {
      DiskBit(img, bb, blocks, k);
    }
    forall k | 0 <= k < GROUP_INODES ensures BitOnDisk(img, ib, k) <==> g * GROUP_INODES + 1 + k < nextInode {
      DiskBit(img, ib, inodes, k);
    }
  }

  /** Every group accounts for what the allocators handed out, every descriptor verifies, and the
      superblock's totals are what is left. */
  ghost predicate Accounted(img: seq<byte>, nextBlock: nat, nextInode: nat, dirs: nat, uuid: seq<bv8>) {
    && (forall g | 0 <= g < NUM_GROUPS :: GroupAccounted(img, nextBlock, nextInode, g))
    && (forall g | 0 <= g < NUM_GROUPS :: GroupVerifies(GroupOf(img, g), g, uuid))
    && UsedDirsOf(GroupOf(img, 0)) == dirs
    && nextBlock <= BLOCKS && nextInode <= TOTAL_INODES + 1
    && ShowsSuper(img, BLOCKS - nextBlock, TOTAL_INODES + 1 - nextInode)
  }

  /** The bookkeeping of a finished run, written to blocks 0 to 17 and nowhere else. */
  method Account(w: Ext4Image.Writer, t: seq<bv32>, dirs: u16, uuid: seq<bv8>)
    requires w.Valid() && Crc32c.IsTable(t)
    modifies w`img
    ensures w.Valid() && OnlyBlocks(old(w.img), w.img, 0, IT_START)
    ensures Accounted(w.img, w.nextBlock, w.nextInode, dirs, uuid)
  {
    hide Crc32c.IsTable, Accounts, Records, InodesRecorded, SumBlocks, SumInodes, Sound, GroupAccounted, GroupVerifies;
    hide HoldsMaps, ShowsSuper, GroupOf;
    var blocks := WriteBlockBitmaps(w);
    ghost var img1 := w.img;
    var inodes := WriteInodeBitmaps(w);
    ghost var img2 := w.img;
    MapsKept(img1, img2, BB_START, blocks, IB_START, IT_START);
    var ds, freeBlocks, freeInodes := Describe(w.taken, w.nextInode);
    WriterTotals(ds, w.nextBlock, w.nextInode);
    WriteDescriptors(w, t, ds, dirs, uuid);
    ghost var img3 := w.img;
    MapsKept(img2, img3, BB_START, blocks, 1, BB_START);
    MapsKept(img2, img3, IB_START, inodes, 1, BB_START);
    WriteSuper(w, freeBlocks, freeInodes);
    MapsKept(img3, w.img, BB_START, blocks, 0, 1);
    MapsKept(img3, w.img, IB_START, inodes, 0, 1);
    forall g | 0 <= g < NUM_GROUPS
      ensures GroupAccounted(w.img, w.nextBlock, w.nextInode, g) && GroupVerifies(GroupOf(w.img, g), g, uuid)
      ensures UsedDirsOf(GroupOf(w.img, g)) == DirsOf(dirs, g)
    {
      GroupKept(img3, w.img, g);
      GroupDone(w.img, ds, w.taken, w.nextBlock, w.nextInode, dirs, g, blocks, inodes, uuid);
    }
    assert UsedDirsOf(GroupOf(w.img, 0)) == DirsOf(dirs, 0);
  }

  lemma {:induction false} GroupKept(img: seq<byte>, img': seq<byte>, g: nat)
    requires OnlyBlocks(img, img', 0, 1)
    ensures GroupOf(img', g) == GroupOf(img, g)
  {
    hide At;
  }

  lemma {:induction false} GroupDone(img: seq<byte>, ds: seq<Descriptor>, taken: set<nat>, nextBlock: nat,
      nextInode: nat, dirs: u16, g: nat, blocks: seq<Bitmap>, inodes: seq<Bitmap>, uuid: seq<bv8>)
    requires g < NUM_GROUPS == |ds| == |blocks| == |inodes| && taken == Rings.Upto(nextBlock)
    requires Accounts(ds[g], taken, nextInode, g) && Sound(GroupOf(img, g), ds[g], dirs, g, uuid)
    requires Records(blocks[g], taken, g * GROUP_BLOCKS, GROUP_BLOCKS) && InodesRecorded(inodes[g], nextInode, g)
    requires HoldsMaps(img, BB_START, blocks) && HoldsMaps(img, IB_START, inodes)
    ensures GroupAccounted(img, nextBlock, nextInode, g) && GroupVerifies(GroupOf(img, g), g, uuid)
    ensures UsedDirsOf(GroupOf(img, g)) == DirsOf(dirs, g)
  {
    hide Accounts, Records, InodesRecorded, GroupVerifies, HasAt, GroupOf, GroupAccounted;
    GroupIs(img, ds[g], taken, nextBlock, nextInode, DirsOf(dirs, g), g, blocks[g], inodes[g]);
  }

  /** The bookkeeping leaves every stored file as it is. */
  lemma {:induction false} HeldAccounted(img: seq<byte>, img': seq<byte>, ino: nat, f: File4, uuid: seq<bv8>, next: nat)
    requires 1 <= ino <= TOTAL_INODES && Held(img, ino, f, uuid) && Lies(f, next) && OnlyBlocks(img, img', 0, IT_START)
    ensures Held(img', ino, f, uuid)
  {
    hide At, TreeOf, Shows, InodeChecksum.Verifies, Slot;
    SlotsInOrder(ino);
    hide SlotOffset;
    SlotKept(img, img', ino);
    TreeKept(img, img', f.stat.root, Consecutive(f.start, CeilDiv(|f.data|, BLOCK_SIZE)), f.exts, f.leaf, 0, IT_START);
  }
}
