/** The bookkeeping of the ext2 image: bitmaps, the one group descriptor and the superblock as the
    writer leaves them, and what the kernel reads there. */
module Ext2Account {
  import opened Bytes
  import opened Bitmaps
  import opened Packing
  import opened Ext2Format
  import opened Ext2Image

  const BLOCK_MAP: u32 := 2
  const INODE_MAP: u32 := 3
  const INODE_TABLE: u32 := 4
  const GROUP_AT: nat := BLOCK_SIZE
  const GROUP_SIZE: nat := 32

  /** The first `n` numbers are taken. */
  ghost predicate Prefix(m: Bitmap, n: nat) {
    forall k | 0 <= k < BITMAP_CAPACITY :: TestBit(m, k) <==> k < n
  }

  lemma {:induction false} PrefixMore(m: Bitmap, n: nat)
    requires Prefix(m, n) && n < BITMAP_CAPACITY
    ensures Prefix(SetBit(m, n), n + 1)
  {
    hide TestBit, SetBit;
    forall k | 0 <= k < BITMAP_CAPACITY ensures TestBit(SetBit(m, n), k) <==> k < n + 1 {
      BitSet(m, n, k);
    }
  }

  lemma {:induction false} PrefixClear(m: Bitmap, n: nat, c: nat)
    requires Prefix(m, c) && n <= BITMAP_CAPACITY
    ensures ZeroBits(m, n) == Max(0, n - c)
  {
    hide TestBit;
    if n > 0 {
      PrefixClear(m, n - 1, c);
    }
  }

  /** The pass that marks the blocks of the low zone. */
  method BlockMap(nextBlock: nat) returns (m: Bitmap)
    requires nextBlock <= BITMAP_CAPACITY
    ensures Prefix(m, nextBlock)
  {
    hide TestBit, SetBit;
    m := BLANK;
    forall k | 0 <= k < BITMAP_CAPACITY ensures !TestBit(m, k) {
      BlankBit(k);
    }
    for b := 0 to Min(nextBlock, BITMAP_CAPACITY)
      invariant Prefix(m, b)
    {
      PrefixMore(m, b);
      m := SetBit(m, b);
    }
  }

  /** Inodes 1 to 11, set byte by byte. */
  const RESERVED: Bitmap := BLANK[0 := 0xFF][1 := 0x07]

  lemma {:induction false} ReservedBits()
    ensures Prefix(RESERVED, 11)
  {
    forall k | 0 <= k < BITMAP_CAPACITY ensures TestBit(RESERVED, k) <==> k < 11 {
      if k >= 16 {
        assert RESERVED[k / 8] == BLANK[k / 8] == 0;
      }
    }
  }

  method InodeMap(nextInode: nat) returns (m: Bitmap)
    requires 12 <= nextInode <= INODES_PER_GROUP + 1
    ensures Prefix(m, nextInode - 1)
  {
    hide TestBit, SetBit;
    ReservedBits();
    m := RESERVED;
    for ino := 12 to nextInode
      invariant Prefix(m, ino - 1)
    {
      PrefixMore(m, ino - 1);
      m := SetBit(m, ino - 1);
    }
  }

  // ---- What the kernel reads ----

  function FreeBlocks(img: seq<byte>): u16 { U16At(img, GROUP_AT + 0x0C) }

  function FreeInodes(img: seq<byte>): u16 { U16At(img, GROUP_AT + 0x0E) }

  function UsedDirs(img: seq<byte>): u16 { U16At(img, GROUP_AT + 0x10) }

  /** The group descriptor leads to bitmaps that say which blocks of the low zone and which inodes
      were handed out; its free counts and the superblock's are their clear bits. */
  ghost predicate Accounted(img: seq<byte>, nextBlock: nat, nextInode: nat, dirs: nat) {
    var blocks, inodes := U32At(img, GROUP_AT), U32At(img, GROUP_AT + 4);
    && U32At(img, GROUP_AT + 8) == INODE_TABLE && UsedDirs(img) == dirs
    && (forall k | 0 <= k < BITMAP_CAPACITY :: BitOnDisk(img, blocks, k) <==> k < nextBlock)
    && (forall k | 0 <= k < INODES_PER_GROUP :: BitOnDisk(img, inodes, k) <==> k + 1 < nextInode)
    && FreeBlocks(img) == SuperWord(img, 0x0C) == ClearBits(img, blocks, BITMAP_CAPACITY)
    && FreeInodes(img) == SuperWord(img, 0x10) == ClearBits(img, inodes, INODES_PER_GROUP)
    && SuperWord(img, 0x00) == INODES_PER_GROUP && SuperWord(img, 0x04) == TOTAL_BLOCKS
    && SuperWord(img, 0x20) == BITMAP_CAPACITY && SuperWord(img, 0x28) == INODES_PER_GROUP
    && SuperHalf(img, 0x38) == SUPER_MAGIC && SuperHalf(img, 0x58) == INODE_SIZE
  }

  function GroupFields(freeBlocks: u16, freeInodes: u16, dirs: u16): seq<Field> {
    [Field(0x00, Le32(BLOCK_MAP)), Field(0x04, Le32(INODE_MAP)), Field(0x08, Le32(INODE_TABLE)),
     Field(0x0C, Le16(freeBlocks)), Field(0x0E, Le16(freeInodes)), Field(0x10, Le16(dirs))]
  }

  function SuperFields(freeBlocks: u32, freeInodes: u32): seq<Field> {
    [Field(0x00, Le32(INODES_PER_GROUP)), Field(0x04, Le32(TOTAL_BLOCKS)),
     Field(0x0C, Le32(freeBlocks)), Field(0x10, Le32(freeInodes)),
     Field(0x18, Le32(2)), Field(0x20, Le32(BITMAP_CAPACITY)), Field(0x28, Le32(INODES_PER_GROUP)),
     Field(0x38, Le16(SUPER_MAGIC)), Field(0x4C, Le32(1)), Field(0x54, Le32(11)), Field(0x58, Le16(INODE_SIZE))]
  }

  ghost predicate HoldsFields(img: seq<byte>, at: nat, fs: seq<Field>) {
    forall i | 0 <= i < |fs| :: HasAt(img, at + fs[i].at, fs[i].bytes)
  }

  lemma {:induction false} FieldsInside(img: seq<byte>, at: nat, data: seq<byte>, fs: seq<Field>)
    requires HasAt(img, at, data) && forall i | 0 <= i < |fs| :: HasAt(data, fs[i].at, fs[i].bytes)
    ensures HoldsFields(img, at, fs)
  {
    forall i | 0 <= i < |fs| ensures HasAt(img, at + fs[i].at, fs[i].bytes) {
      var off, piece := fs[i].at, fs[i].bytes;
      assert HasAt(data, off, piece);
      forall k | 0 <= k < |piece| ensures At(img, at + off + k) == piece[k] {
        assert At(img, at + (off + k)) == data[off + k] == At(data, off + k);
      }
    }
  }

  /** A record of these fields, zero elsewhere. */
  method PackRecord(fs: seq<Field>, size: nat) returns (data: seq<byte>)
    requires InOrder(fs, size)
    ensures |data| == size && forall i | 0 <= i < |fs| :: HasAt(data, fs[i].at, fs[i].bytes)
  {
    AllPut(Zeros(size), fs);
    data := PutAll(Zeros(size), fs);
  }

  method WriteGroup(w: Ext2Image.Writer, freeBlocks: u16, freeInodes: u16, dirs: u16)
    requires |w.img| == IMAGE_BYTES
    modifies w`img
    ensures OnlyBlocks(old(w.img), w.img, 1, 2)
    ensures HoldsFields(w.img, GROUP_AT, GroupFields(freeBlocks, freeInodes, dirs))
  {
    hide Le16, Le32, HasAt, BlockWritten;
    var fs := GroupFields(freeBlocks, freeInodes, dirs);
    Sorted(fs, GROUP_SIZE);
    var data := PackRecord(fs, GROUP_SIZE);
    BlockWrittenInPlace(w.img, 1, data);
    w.WriteBlock(1, data);
    FieldsInside(w.img, GROUP_AT, data, fs);
  }

  method WriteSuper(w: Ext2Image.Writer, freeBlocks: u32, freeInodes: u32)
    requires |w.img| == IMAGE_BYTES
    modifies w`img
    ensures OnlyBlocks(old(w.img), w.img, 0, 1) && HoldsFields(w.img, SUPER_AT, SuperFields(freeBlocks, freeInodes))
  {
    hide Le16, Le32, HasAt, SliceAssign;
    var fs := SuperFields(freeBlocks, freeInodes);
    Sorted(fs, SUPER_SIZE);
    var sb := PackRecord(fs, SUPER_SIZE);
    SliceAssignInPlace(w.img, SUPER_AT, sb);
    w.img := SliceAssign(w.img, SUPER_AT, SUPER_AT + SUPER_SIZE, sb);
    FieldsInside(w.img, SUPER_AT, sb, fs);
  }

  method WriteMap(w: Ext2Image.Writer, b: nat, m: Bitmap)
    requires |w.img| == IMAGE_BYTES && b < INODE_TABLE
    modifies w`img
    ensures OnlyBlocks(old(w.img), w.img, b, b + 1) && HasAt(w.img, b * BLOCK_SIZE, Ints(m))
  {
    hide HasAt, BlockWritten;
    BlockWrittenInPlace(w.img, b, Ints(m));
    w.WriteBlock(b, Ints(m));
  }

  lemma {:induction false} GroupRead(img: seq<byte>, freeBlocks: u16, freeInodes: u16, dirs: u16)
    requires HoldsFields(img, GROUP_AT, GroupFields(freeBlocks, freeInodes, dirs))
    ensures U32At(img, GROUP_AT) == BLOCK_MAP && U32At(img, GROUP_AT + 4) == INODE_MAP
    ensures U32At(img, GROUP_AT + 8) == INODE_TABLE && FreeBlocks(img) == freeBlocks && FreeInodes(img) == freeInodes
    ensures UsedDirs(img) == dirs
  {
    hide Le16, Le32, HasAt, U16At, U32At;
    var fs, at := GroupFields(freeBlocks, freeInodes, dirs), GROUP_AT;
    assert HasAt(img, at + fs[0].at, fs[0].bytes) && HasAt(img, at + fs[1].at, fs[1].bytes);
    assert HasAt(img, at + fs[2].at, fs[2].bytes) && HasAt(img, at + fs[3].at, fs[3].bytes);
    assert HasAt(img, at + fs[4].at, fs[4].bytes) && HasAt(img, at + fs[5].at, fs[5].bytes);
    WordValue(img, at, BLOCK_MAP);
    WordValue(img, at + 4, INODE_MAP);
    WordValue(img, at + 8, INODE_TABLE);
    HalfValue(img, at + 0x0C, freeBlocks);
    HalfValue(img, at + 0x0E, freeInodes);
    HalfValue(img, at + 0x10, dirs);
  }

  lemma {:induction false} SuperRead(img: seq<byte>, freeBlocks: u32, freeInodes: u32)
    requires HoldsFields(img, SUPER_AT, SuperFields(freeBlocks, freeInodes))
    ensures SuperWord(img, 0x00) == INODES_PER_GROUP && SuperWord(img, 0x04) == TOTAL_BLOCKS
    ensures SuperWord(img, 0x0C) == freeBlocks && SuperWord(img, 0x10) == freeInodes
    ensures SuperWord(img, 0x20) == BITMAP_CAPACITY && SuperWord(img, 0x28) == INODES_PER_GROUP
    ensures SuperHalf(img, 0x38) == SUPER_MAGIC && SuperHalf(img, 0x58) == INODE_SIZE
  {
    hide Le16, Le32, HasAt, U16At, U32At;
    var fs, at := SuperFields(freeBlocks, freeInodes), SUPER_AT;
    assert HasAt(img, at + fs[0].at, fs[0].bytes) && HasAt(img, at + fs[1].at, fs[1].bytes);
    assert HasAt(img, at + fs[2].at, fs[2].bytes) && HasAt(img, at + fs[3].at, fs[3].bytes);
    assert HasAt(img, at + fs[5].at, fs[5].bytes) && HasAt(img, at + fs[6].at, fs[6].bytes);
    assert HasAt(img, at + fs[7].at, fs[7].bytes) && HasAt(img, at + fs[10].at, fs[10].bytes);
    WordValue(img, at, INODES_PER_GROUP);
    WordValue(img, at + 4, TOTAL_BLOCKS);
    WordValue(img, at + 0x0C, freeBlocks);
    WordValue(img, at + 0x10, freeInodes);
    WordValue(img, at + 0x20, BITMAP_CAPACITY);
    WordValue(img, at + 0x28, INODES_PER_GROUP);
    HalfValue(img, at + 0x38, SUPER_MAGIC);
    HalfValue(img, at + 0x58, INODE_SIZE);
  }

  // ---- All of it ----

  lemma {:induction false} MapRead(img: seq<byte>, b: nat, m: Bitmap, n: nat)
    requires HasAt(img, b * BLOCK_SIZE, Ints(m)) && Prefix(m, n) && n <= BITMAP_CAPACITY
    ensures forall k | 0 <= k < BITMAP_CAPACITY :: BitOnDisk(img, b, k) <==> k < n
    ensures ClearBits(img, b, BITMAP_CAPACITY) == BITMAP_CAPACITY - n
  {
    hide HasAt, BitOnDisk, TestBit, ClearBits, ZeroBits;
    DiskClear(img, b, m, BITMAP_CAPACITY);
    PrefixClear(m, BITMAP_CAPACITY, n);
    forall k | 0 <= k < BITMAP_CAPACITY ensures BitOnDisk(img, b, k) <==> k < n {
      DiskBit(img, b, m, k);
    }
  }

  /** Blocks 0 to 3 belong to no record. */
  lemma {:induction false} RecordsKept(img: seq<byte>, img': seq<byte>, nextBlock: nat, highBlock: nat, nextInode: nat,
      files: map<nat, Ext2Image.Record>)
    requires InRange(nextBlock, highBlock, nextInode) && Placed(nextBlock, highBlock, nextInode, files)
    requires OnlyBlocks(img, img', 0, INODE_TABLE) && AllHold(img, files)
    ensures AllHold(img', files)
  {
    hide Holds, OnlyBlocks;
    forall ino | ino in files ensures Holds(img', ino, files[ino]) {
      assert HandedOut(files[ino], nextBlock, highBlock);
      RecordBelow(img, img', ino, files[ino]);
    }
  }

  lemma {:induction false} RecordBelow(img: seq<byte>, img': seq<byte>, ino: nat, r: Ext2Image.Record)
    requires OnlyBlocks(img, img', 0, INODE_TABLE) && Holds(img, ino, r)
    requires 1 <= ino && FIRST_DATA_BLOCK <= r.start && r.End() <= TOTAL_BLOCKS
    ensures Holds(img', ino, r)
  {
    if r.Record? {
      StoredFrame(img, img', ino, r.start, r.data);
    } else {
      RowFrame(img, img', ino, r.start, r.data);
    }
  }

  lemma {:induction false} HasAtKept(img: seq<byte>, img': seq<byte>, lo: nat, hi: nat, at: nat, piece: seq<byte>)
    requires HasAt(img, at, piece) && OnlyBlocks(img, img', lo, hi)
    requires at + |piece| <= lo * BLOCK_SIZE || hi * BLOCK_SIZE <= at
    ensures HasAt(img', at, piece)
  {
  }

  lemma {:induction false} FieldsKept(img: seq<byte>, img': seq<byte>, lo: nat, hi: nat, at: nat, fs: seq<Field>,
      size: nat)
    requires HoldsFields(img, at, fs) && InOrder(fs, size) && OnlyBlocks(img, img', lo, hi)
    requires at + size <= lo * BLOCK_SIZE || hi * BLOCK_SIZE <= at
    ensures HoldsFields(img', at, fs)
  {
    hide HasAt, OnlyBlocks;
    forall i | 0 <= i < |fs| ensures HasAt(img', at + fs[i].at, fs[i].bytes) {
      HasAtKept(img, img', lo, hi, at + fs[i].at, fs[i].bytes);
    }
  }

  /** Bitmaps, descriptor and superblock, written to blocks 0 to 3 and nowhere else. */
  method Account(w: Ext2Image.Writer, dirs: u16)
    requires w.Valid()
    modifies w`img
    ensures w.Valid() && OnlyBlocks(old(w.img), w.img, 0, INODE_TABLE)
    ensures Accounted(w.img, w.nextBlock, w.nextInode, dirs)
  {
    hide HasAt, Prefix, GroupFields, SuperFields, HoldsFields, AllHold, Placed, BitOnDisk, ClearBits;
    var blocks := BlockMap(w.nextBlock);
    WriteMap(w, BLOCK_MAP, blocks);
    ghost var img1 := w.img;
    var inodes := InodeMap(w.nextInode);
    WriteMap(w, INODE_MAP, inodes);
    ghost var img2 := w.img;
    HasAtKept(img1, img2, INODE_MAP, INODE_MAP + 1, BLOCK_MAP * BLOCK_SIZE, Ints(blocks));
    var freeBlocks, freeInodes := BITMAP_CAPACITY - w.nextBlock, INODES_PER_GROUP - w.nextInode + 1;
    WriteGroup(w, freeBlocks % 0x1_0000, freeInodes % 0x1_0000, dirs);
    ghost var img3 := w.img;
    HasAtKept(img2, img3, 1, 2, BLOCK_MAP * BLOCK_SIZE, Ints(blocks));
    HasAtKept(img2, img3, 1, 2, INODE_MAP * BLOCK_SIZE, Ints(inodes));
    WriteSuper(w, freeBlocks, freeInodes);
    HasAtKept(img3, w.img, 0, 1, BLOCK_MAP * BLOCK_SIZE, Ints(blocks));
    HasAtKept(img3, w.img, 0, 1, INODE_MAP * BLOCK_SIZE, Ints(inodes));
    GroupInOrder(freeBlocks, freeInodes, dirs);
    FieldsKept(img3, w.img, 0, 1, GROUP_AT, GroupFields(freeBlocks, freeInodes, dirs), GROUP_SIZE);
    RecordsKept(old(w.img), w.img, w.nextBlock, w.highBlock, w.nextInode, w.files);
    GroupRead(w.img, freeBlocks, freeInodes, dirs);
    SuperRead(w.img, freeBlocks, freeInodes);
    MapRead(w.img, BLOCK_MAP, blocks, w.nextBlock);
    MapRead(w.img, INODE_MAP, inodes, w.nextInode - 1);
  }

  lemma {:induction false} GroupInOrder(freeBlocks: u16, freeInodes: u16, dirs: u16)
    ensures InOrder(GroupFields(freeBlocks, freeInodes, dirs), GROUP_SIZE)
  {
    hide Le16, Le32;
    Sorted(GroupFields(freeBlocks, freeInodes, dirs), GROUP_SIZE);
  }

  /** No block of a stored file or directory is free for the kernel to hand out again: its bit is
      set, or it lies beyond what the bitmap covers. */
  lemma {:induction false} NoneFree(img: seq<byte>, nextBlock: nat, highBlock: nat, nextInode: nat, dirs: nat,
      files: map<nat, Ext2Image.Record>, ino: nat, b: nat)
    requires Accounted(img, nextBlock, nextInode, dirs) && Placed(nextBlock, highBlock, nextInode, files)
    requires ino in files && files[ino].start <= b < files[ino].End() && ino < nextInode <= INODES_PER_GROUP + 1
    ensures b >= BITMAP_CAPACITY || BitOnDisk(img, U32At(img, GROUP_AT), b)
    ensures BitOnDisk(img, U32At(img, GROUP_AT + 4), ino - 1)
  {
    hide BitOnDisk, ClearBits;
    assert HandedOut(files[ino], nextBlock, highBlock);
  }
}
