/** ext4 inodes: the 256-byte record packed field by field, sealed with its checksum and put in
    its slot, and the kernel's view of a file from its inode on. */
module Ext4Inode {
  import opened Bytes
  import opened Rings
  import opened Ext2Format
  import opened Ext2Image
  import opened Ext4Extents
  import opened Ext4Image
  import opened Ext4Groups
  import opened Bitmaps
  import opened Packing
  import InodeChecksum
  import Crc32c

  const EXTENTS_FL: u32 := 0x0008_0000

  /** What goes into an inode. */
  datatype Stat = Stat(mode: u16, size: nat, links: u16, blocks: nat, root: seq<byte>)

  predicate Plain(s: Stat) {
    s.size < 0x1_0000_0000_0000_0000 && 8 * s.blocks < 0x1_0000_0000 && |s.root| == IBLOCK_SIZE
  }

  /** The fields `write_inode_ext4` packs, in the order of their offsets. */
  function Fields(s: Stat, now: u32): seq<Field>
    requires Plain(s)
  {
    [Field(0x00, Le16(s.mode) + Le16(0) + Le32(s.size % 0x1_0000_0000)),
     Field(0x08, Le32(now) + Le32(now) + Le32(now) + Le32(0)),
     Field(0x18, Le16(0) + Le16(s.links) + Le32(8 * s.blocks)),
     Field(0x20, Le32(EXTENTS_FL) + Le32(0)),
     Field(0x28, s.root),
     Field(0x64, Le32(0)),
     Field(0x6C, Le32(s.size / 0x1_0000_0000)),
     Field(0x80, Le16(28)),
     Field(0x84, Le32(0)), Field(0x88, Le32(0)), Field(0x8C, Le32(0)),
     Field(0x90, Le32(now)), Field(0x94, Le32(0))]
  }

  lemma {:induction false} FieldsInOrder(s: Stat, now: u32)
    requires Plain(s)
    ensures InOrder(Fields(s, now), INODE_BYTES)
  {
    hide Le16, Le32;
    var fs := Fields(s, now);
    hide Fields;
    Sorted(fs, INODE_BYTES);
  }

  // ---- The kernel's fields ----

  function ModeOf(slot: seq<byte>): u16 { U16At(slot, 0) }

  function SizeOf(slot: seq<byte>): u32 { U32At(slot, 4) }

  function LinksOf(slot: seq<byte>): u16 { U16At(slot, 0x1A) }

  /** Blocks in units of 512 bytes. */
  function SectorsOf(slot: seq<byte>): u32 { U32At(slot, 0x1C) }

  function FlagsOf(slot: seq<byte>): u32 { U32At(slot, 0x20) }

  function RootOf(slot: seq<byte>): seq<byte> { Window(slot, 0x28, IBLOCK_SIZE) }

  /** The kernel reads these values from the slot. */
  ghost predicate Shows(slot: seq<byte>, s: Stat) {
    && ModeOf(slot) == s.mode && SizeOf(slot) == s.size % 0x1_0000_0000 && LinksOf(slot) == s.links
    && SectorsOf(slot) == 8 * s.blocks && FlagsOf(slot) == EXTENTS_FL && RootOf(slot) == s.root
  }

  /** A record that holds the first fields shows them. */
  lemma {:induction false} FieldsShow(slot: seq<byte>, s: Stat, now: u32)
    requires Plain(s) && HasAt(slot, 0, Le16(s.mode) + Le16(0) + Le32(s.size % 0x1_0000_0000))
    requires HasAt(slot, 0x18, Le16(0) + Le16(s.links) + Le32(8 * s.blocks))
    requires HasAt(slot, 0x20, Le32(EXTENTS_FL) + Le32(0)) && HasAt(slot, 0x28, s.root)
    ensures Shows(slot, s)
  {
    hide Le16, Le32, U16At, U32At, At;
    var a, b := Le16(s.mode), Le16(0);
    HasAtBoth(slot, 0, a + b, Le32(s.size % 0x1_0000_0000));
    HasAtBoth(slot, 0, a, b);
    HalfValue(slot, 0, s.mode);
    WordValue(slot, 4, s.size % 0x1_0000_0000);
    HasAtBoth(slot, 0x18, b + Le16(s.links), Le32(8 * s.blocks));
    HasAtBoth(slot, 0x18, b, Le16(s.links));
    HalfValue(slot, 0x1A, s.links);
    WordValue(slot, 0x1C, 8 * s.blocks);
    HasAtBoth(slot, 0x20, Le32(EXTENTS_FL), Le32(0));
    WordValue(slot, 0x20, EXTENTS_FL);
    assert RootOf(slot) == s.root;
  }

  // ---- The checksum ----

  /** The two halves of the checksum, as they are packed. */
  function SumFields(sum: bv32): seq<Field> {
    [Field(InodeChecksum.CSUM_LO, Ints(InodeChecksum.Le(sum)[..2])),
     Field(InodeChecksum.CSUM_HI, Ints(InodeChecksum.Le(sum)[2..]))]
  }

  /** Packing the halves is what `InodeChecksum` calls storing the sum. */
  lemma {:induction false} SumPut(data: seq<byte>, sum: bv32)
    requires |data| == INODE_BYTES
    ensures |PutAll(data, SumFields(sum))| == INODE_BYTES
    ensures Bits(PutAll(data, SumFields(sum))) == InodeChecksum.WithSum(Bits(data), sum)
    ensures forall k | k != 0x7C && k != 0x7D && k != 0x82 && k != 0x83 ::
      At(PutAll(data, SumFields(sum)), k) == At(data, k)
  {
    hide At, PutAll, InodeChecksum.Le;
    var fs, le := SumFields(sum), InodeChecksum.Le(sum);
    assert InOrder(fs, INODE_BYTES);
    AllPut(data, fs);
    var put := PutAll(data, fs);
    assert HasAt(put, fs[0].at, fs[0].bytes) && HasAt(put, fs[1].at, fs[1].bytes);
    forall k | k != 0x7C && k != 0x7D && k != 0x82 && k != 0x83 ensures At(put, k) == At(data, k) {
    }
    SumBytes(put, data, sum);
  }

  lemma {:induction false} SumBytes(put: seq<byte>, data: seq<byte>, sum: bv32)
    requires |put| == |data| == INODE_BYTES
    requires HasAt(put, InodeChecksum.CSUM_LO, Ints(InodeChecksum.Le(sum)[..2]))
      && HasAt(put, InodeChecksum.CSUM_HI, Ints(InodeChecksum.Le(sum)[2..]))
    requires forall k | k != 0x7C && k != 0x7D && k != 0x82 && k != 0x83 :: At(put, k) == At(data, k)
    ensures Bits(put) == InodeChecksum.WithSum(Bits(data), sum)
  {
    hide InodeChecksum.Le;
    var le, a, b := InodeChecksum.Le(sum), Bits(put), InodeChecksum.WithSum(Bits(data), sum);
    assert put[0x7C] == At(put, 0x7C + 0) && put[0x7D] == At(put, 0x7C + 1)
      && put[0x82] == At(put, 0x82 + 0) && put[0x83] == At(put, 0x82 + 1);
    BackAgain(le[0]);
    BackAgain(le[1]);
    BackAgain(le[2]);
    BackAgain(le[3]);
    forall i | 0 <= i < INODE_BYTES ensures a[i] == b[i] {
      if i != 0x7C && i != 0x7D && i != 0x82 && i != 0x83 {
        assert At(put, i) == At(data, i);
      }
    }
  }

  /** `write_inode_ext4` up to the image: the record with its fields, sealed. */
  method MakeInode(t: seq<bv32>, ino: u32, s: Stat, now: u32, uuid: seq<bv8>) returns (data: seq<byte>)
    requires Plain(s) && Crc32c.IsTable(t)
    ensures |data| == INODE_BYTES && Shows(data, s)
    ensures InodeChecksum.Verifies(Bits(data), ino as bv32, uuid)
  {
    hide PutAll, Crc32c.IsTable, InodeChecksum.Checksum, InodeChecksum.WithSum;
    hide InodeChecksum.Verifies, Shows, Fields, SumFields;
    FieldsInOrder(s, now);
    AllPut(Zeros(INODE_BYTES), Fields(s, now));
    var bare := PutAll(Zeros(INODE_BYTES), Fields(s, now));
    var sum := InodeChecksum.ByCopy(t, Bits(bare), ino as bv32, uuid);
    SumPut(bare, sum);
    data := PutAll(bare, SumFields(sum));
    InodeChecksum.SumVerifies(Bits(bare), sum, ino as bv32, uuid);
    StillShows(bare, data, s, now);
  }

  lemma {:induction false} StillShows(bare: seq<byte>, data: seq<byte>, s: Stat, now: u32)
    requires Plain(s) && |bare| == |data| == INODE_BYTES
    requires var fs := Fields(s, now); forall i | 0 <= i < |fs| :: HasAt(bare, fs[i].at, fs[i].bytes)
    requires forall k | k != 0x7C && k != 0x7D && k != 0x82 && k != 0x83 :: At(data, k) == At(bare, k)
    ensures Shows(data, s)
  {
    hide At, Le16, Le32, Shows;
    var fs := Fields(s, now);
    assert HasAt(bare, fs[0].at, fs[0].bytes) && HasAt(bare, fs[2].at, fs[2].bytes);
    assert HasAt(bare, fs[3].at, fs[3].bytes) && HasAt(bare, fs[4].at, fs[4].bytes);
    FieldsShow(data, s, now);
  }

  // ---- Files in the image ----

  function Slot(img: seq<byte>, ino: nat): seq<byte>
    requires ino > 0
  {
    Window(img, SlotOffset(ino), INODE_BYTES)
  }

  ghost predicate OnlySlot4(img: seq<byte>, img': seq<byte>, ino: nat)
    requires ino > 0
  {
    |img'| == |img| && forall k | !(SlotOffset(ino) <= k < SlotOffset(ino) + INODE_BYTES) :: At(img', k) == At(img, k)
  }

  /** What the kernel reads of a file: the bytes its tree leads to, zero in a hole. */
  function FileContents4(img: seq<byte>, ino: nat): seq<byte>
    requires ino > 0
  {
    var slot := Slot(img, ino);
    seq<byte>(SizeOf(slot),
      k requires 0 <= k => var b := ByteThrough(img, RootOf(slot), k); if b.Some? then b.value else 0)
  }

  /** A file and where it lies. */
  datatype File4 = File4(stat: Stat, data: seq<byte>, start: nat, exts: seq<Extent>, leaf: nat)

  /** The inode shows the file and verifies, and its tree holds the bytes. */
  ghost predicate Held(img: seq<byte>, ino: nat, f: File4, uuid: seq<bv8>)
    requires 0 < ino < 0x1_0000_0000
  {
    && Shows(Slot(img, ino), f.stat) && InodeChecksum.Verifies(Bits(Slot(img, ino)), ino as bv32, uuid)
    && Stored4(img, f.stat.root, f.data, f.start, f.exts, f.leaf)
    && f.stat.size == |f.data| < 0x1_0000_0000 && f.stat.blocks == CeilDiv(|f.data|, BLOCK_SIZE)
  }

  /** A held file reads back. */
  lemma {:induction false} HeldReads(img: seq<byte>, ino: nat, f: File4, uuid: seq<bv8>)
    requires 0 < ino < 0x1_0000_0000 && Held(img, ino, f, uuid)
    ensures FileContents4(img, ino) == f.data && ModeOf(Slot(img, ino)) == f.stat.mode
    ensures SectorsOf(Slot(img, ino)) == 8 * CeilDiv(|f.data|, BLOCK_SIZE)
  {
    hide Stored4, ByteThrough, Slot, InodeChecksum.Verifies, ModeOf, LinksOf, FlagsOf, RootOf;
    forall k: nat | k < |f.data| ensures ByteThrough(img, f.stat.root, k) == Some(f.data[k]) {
      StoredReads4(img, f.stat.root, f.data, f.start, f.exts, f.leaf, k);
    }
  }

  /** The file lies between the metadata and block `next`. */
  predicate Lies(f: File4, next: nat) {
    && METADATA_END <= f.start && f.start + CeilDiv(|f.data|, BLOCK_SIZE) <= next
    && METADATA_END <= f.leaf && (|f.exts| > IN_INODE ==> f.leaf < next)
  }

  lemma {:induction false} SlotKept(img: seq<byte>, img': seq<byte>, ino: nat)
    requires 0 < ino && |img'| == |img|
    requires forall k | SlotOffset(ino) <= k < SlotOffset(ino) + INODE_BYTES :: At(img', k) == At(img, k)
    ensures Slot(img', ino) == Slot(img, ino)
  {
    hide At;
  }

  /** New blocks and another inode leave a held file as it is. */
  lemma {:induction false} HeldKept(img: seq<byte>, mid: seq<byte>, img': seq<byte>, ino: nat, f: File4,
      uuid: seq<bv8>, lo: nat, hi: nat, other: nat)
    requires 1 <= ino <= TOTAL_INODES && 1 <= other <= TOTAL_INODES && ino != other
      && Held(img, ino, f, uuid) && Lies(f, lo)
    requires OnlyBlocks(img, mid, lo, hi) && METADATA_END <= lo && OnlySlot4(mid, img', other)
    ensures Held(img', ino, f, uuid)
  {
    hide At, Stored4, Shows, InodeChecksum.Verifies, Slot;
    SlotsInOrder(ino);
    SlotsInOrder(other);
    hide SlotOffset;
    SlotKept(img, mid, ino);
    SlotKept(mid, img', ino);
    StoredKept(img, mid, f.stat.root, f.data, f.start, f.exts, f.leaf, lo, hi);
    StoredBeyondSlots(mid, img', f, other);
  }

  lemma {:induction false} StoredBeyondSlots(img: seq<byte>, img': seq<byte>, f: File4, ino: nat)
    requires 1 <= ino <= TOTAL_INODES && OnlySlot4(img, img', ino)
    requires Stored4(img, f.stat.root, f.data, f.start, f.exts, f.leaf) && METADATA_END <= f.start
      && METADATA_END <= f.leaf
    ensures Stored4(img', f.stat.root, f.data, f.start, f.exts, f.leaf)
  {
    hide At, TreeOf;
    SlotsInOrder(ino);
    hide SlotOffset;
    assert OnlyBlocks(img, img', IT_START, METADATA_END);
    var blocks := Consecutive(f.start, CeilDiv(|f.data|, BLOCK_SIZE));
    TreeKept(img, img', f.stat.root, blocks, f.exts, f.leaf, IT_START, METADATA_END);
  }

  /** `write_inode_ext4`: the kernel finds the fields in the slot, the checksum verifies, and no
      other byte of the image changes. */
  method WriteInode(w: Ext4Image.Writer, t: seq<bv32>, ino: u32, s: Stat, now: u32, uuid: seq<bv8>)
    requires w.Valid() && 1 <= ino <= TOTAL_INODES && Plain(s) && Crc32c.IsTable(t)
    modifies w`img
    ensures w.Valid() && OnlySlot4(old(w.img), w.img, ino)
    ensures Shows(Slot(w.img, ino), s) && InodeChecksum.Verifies(Bits(Slot(w.img, ino)), ino as bv32, uuid)
  {
    hide Shows, InodeChecksum.Verifies, Crc32c.IsTable, Plain, At, SliceAssign;
    SlotsInOrder(ino);
    hide SlotOffset;
    var data := MakeInode(t, ino, s, now, uuid);
    var off := SlotOffset(ino);
    SliceAssignInPlace(w.img, off, data);
    w.img := SliceAssign(w.img, off, off + INODE_BYTES, data);
    SlotIs(w.img, ino, data);
  }

  lemma {:induction false} SlotIs(img: seq<byte>, ino: nat, data: seq<byte>)
    requires 0 < ino && |data| == INODE_BYTES && HasAt(img, SlotOffset(ino), data)
    ensures Slot(img, ino) == data
  {
    hide SlotOffset, At;
  }

  lemma {:induction false} SmallFile(size: nat)
    requires Needed(size) <= BLOCKS
    ensures size <= BLOCKS * BLOCK_SIZE && CeilDiv(size, BLOCK_SIZE) <= BLOCKS
  {
  }

  /** One file of a tree: inode, blocks, tree and record. */
  method AddFile(w: Ext4Image.Writer, t: seq<bv32>, mode: u16, data: seq<byte>, now: u32, uuid: seq<bv8>)
    returns (ino: Option<nat>, ghost f: File4, ghost mid: seq<byte>)
    requires w.Valid() && Crc32c.IsTable(t)
    modifies w
    ensures ino.None? <==> old(w.nextInode) > TOTAL_INODES || old(w.nextBlock) + Needed(|data|) > BLOCKS
    ensures ino.Some? ==> w.Valid() && ino.value == old(w.nextInode) && w.nextInode == ino.value + 1
    ensures ino.Some? ==> w.nextBlock == old(w.nextBlock) + Needed(|data|)
    ensures ino.Some? ==> Held(w.img, ino.value, f, uuid) && f.data == data && f.stat.mode == mode
    ensures ino.Some? ==> f.stat.links == 1 && Lies(f, w.nextBlock)
    ensures ino.Some? ==> OnlyBlocks(old(w.img), mid, old(w.nextBlock), w.nextBlock) && OnlySlot4(mid, w.img, ino.value)
  {
    hide Stored4, Shows, InodeChecksum.Verifies, Crc32c.IsTable, Upto, SlotOffset, TreeOf;
    f, mid := File4(Stat(mode, 0, 1, 0, []), data, 0, [], 0), w.img;
    ghost var s := w.nextBlock;
    ino := w.AllocInode();
    if ino.None? {
      return;
    }
    var root; ghost var exts, leaf;
    root, exts, leaf := w.StoreFile(data);
    if root.None? {
      ino := None;
      return;
    }
    mid := w.img;
    var stat := Stat(mode, |data|, 1, CeilDiv(|data|, BLOCK_SIZE), root.value);
    f := File4(stat, data, s, exts, leaf);
    SmallFile(|data|);
    WriteInode(w, t, ino.value, stat, now, uuid);
    StoredBeyondSlots(mid, w.img, f, ino.value);
  }
}
