/** The bookkeeping the ext4 writer derives at the end: bitmaps, free counts per group, totals,
    and where each inode's slot lies. */
module Ext4Groups {
  import opened Bytes
  import opened Rings
  import opened Bitmaps
  import opened Ext2Format
  import opened Ext4Image

  // ---- Blocks ----

  /** One group's block bitmap: a pass over the set of allocated blocks, in any order. */
  method BlockBitmap(taken: set<nat>, g: nat) returns (bitmap: Bitmap)
    requires g < NUM_GROUPS
    ensures Records(bitmap, taken, g * GROUP_BLOCKS, GROUP_BLOCKS)
  {
    hide TestBit, SetBit;
    bitmap := BLANK;
    var start := g * GROUP_BLOCKS;
    var rest := taken;
    forall k | 0 <= k < GROUP_BLOCKS ensures !TestBit(bitmap, k) {
      BlankBit(k);
    }
    assert taken - rest == {};
    while rest != {}
      invariant rest <= taken && Records(bitmap, taken - rest, start, GROUP_BLOCKS)
      decreases |rest|
    {
      var b :| b in rest;
      RecordsMore(bitmap, taken - rest, start, GROUP_BLOCKS, b);
      if start <= b < start + GROUP_BLOCKS {
        bitmap := SetBit(bitmap, b - start);
      }
      assert taken - (rest - {b}) == (taken - rest) + {b};
      rest := rest - {b};
    }
    assert taken - {} == taken;
  }

  method CountIn(taken: set<nat>, lo: nat, hi: nat) returns (n: nat)
    ensures n == |Within(taken, lo, hi)|
  {
    n := 0;
    var rest := taken;
    while rest != {}
      invariant rest <= taken && n == |Within(taken - rest, lo, hi)|
      decreases |rest|
    {
      var b :| b in rest;
      ghost var before, after := Within(taken - rest, lo, hi), Within(taken - (rest - {b}), lo, hi);
      if lo <= b < hi {
        assert after == before + {b};
        n := n + 1;
      } else {
        assert after == before;
      }
      rest := rest - {b};
    }
    assert taken - {} == taken;
  }

  // ---- Inodes ----

  /** One group's inode bitmap: the reserved inodes and the ones handed out. */
  method InodeBitmap(nextInode: nat, g: nat) returns (bitmap: Bitmap)
    requires g < NUM_GROUPS && FIRST_INODE <= nextInode
    ensures forall k | 0 <= k < GROUP_INODES :: TestBit(bitmap, k) <==> g * GROUP_INODES + 1 + k < nextInode
  {
    hide TestBit, SetBit;
    bitmap := BLANK;
    var first, last := g * GROUP_INODES + 1, (g + 1) * GROUP_INODES;
    forall k | 0 <= k < GROUP_INODES ensures !TestBit(bitmap, k) {
      BlankBit(k);
    }
    var ino := if g == 0 then 1 else Max(FIRST_INODE, first);
    var end := Min(nextInode, last + 1);
    while ino < end
      invariant first <= ino && (ino <= end || ino == first)
      invariant forall k | 0 <= k < GROUP_INODES :: TestBit(bitmap, k) <==> first + k < ino
    {
      var i := ino - first;
      forall k | 0 <= k < GROUP_INODES ensures TestBit(SetBit(bitmap, i), k) <==> k == i || TestBit(bitmap, k) {
        BitSet(bitmap, i, k);
      }
      bitmap := SetBit(bitmap, i);
      ino := ino + 1;
    }
  }

  /** The inodes of group `g` in use, as the descriptor loop computes it. */
  function UsedInodes(nextInode: nat, g: nat): int {
    var first, last := g * GROUP_INODES + 1, (g + 1) * GROUP_INODES;
    if g == 0 then Min(nextInode, last + 1) - 1 else Max(0, Min(nextInode, last + 1) - first)
  }

  /** The numbers of the inodes in use. */
  ghost function InodesUsed(nextInode: nat): (r: set<nat>)
    ensures forall i: nat :: i in r <==> 1 <= i < nextInode
  {
    Upto(nextInode) - {0}
  }

  lemma {:induction false} UsedInodesCount(nextInode: nat, g: nat)
    requires g < NUM_GROUPS && FIRST_INODE <= nextInode
    ensures UsedInodes(nextInode, g) ==
      |Within(InodesUsed(nextInode), g * GROUP_INODES + 1, (g + 1) * GROUP_INODES + 1)|
  {
    var first, end := g * GROUP_INODES + 1, (g + 1) * GROUP_INODES + 1;
    var inUse := Within(InodesUsed(nextInode), first, end);
    IntervalSize(first, Max(first, Min(nextInode, end)), inUse);
  }

  lemma {:induction false} IntervalSize(lo: nat, hi: nat, s: set<nat>)
    requires lo <= hi && forall i: nat :: i in s <==> lo <= i < hi
    ensures |s| == hi - lo
  {
    if lo < hi {
      IntervalSize(lo, hi - 1, s - {hi - 1});
    } else {
      assert s == {};
    }
  }

  // ---- Descriptors and totals ----

  datatype Descriptor = Descriptor(
    blockBitmap: u32, inodeBitmap: u32, inodeTable: u32, freeBlocks: u16, freeInodes: u16)

  function SumBlocks(ds: seq<Descriptor>): nat {
    if ds == [] then 0 else SumBlocks(ds[..|ds| - 1]) + ds[|ds| - 1].freeBlocks
  }

  function SumInodes(ds: seq<Descriptor>): nat {
    if ds == [] then 0 else SumInodes(ds[..|ds| - 1]) + ds[|ds| - 1].freeInodes
  }

  /** A descriptor's counts are the clear bits of any bitmaps that record the group. */
  ghost predicate Accounts(d: Descriptor, taken: set<nat>, nextInode: nat, g: nat) {
    && d.freeBlocks == GROUP_BLOCKS - |Within(taken, g * GROUP_BLOCKS, (g + 1) * GROUP_BLOCKS)|
    && d.freeInodes == GROUP_INODES - |Within(InodesUsed(nextInode), g * GROUP_INODES + 1, (g + 1) * GROUP_INODES + 1)|
    && d.blockBitmap == BB_START + g && d.inodeBitmap == IB_START + g && d.inodeTable == IT_START + g * TABLE_BLOCKS
  }

  method OneDescriptor(taken: set<nat>, nextInode: nat, g: nat) returns (d: Descriptor)
    requires g < NUM_GROUPS && FIRST_INODE <= nextInode
    ensures Accounts(d, taken, nextInode, g)
  {
    hide Within, InodesUsed;
    var start := g * GROUP_BLOCKS;
    var used := CountIn(taken, start, start + GROUP_BLOCKS);
    UsedInodesCount(nextInode, g);
    AtMost(Within(taken, start, start + GROUP_BLOCKS), start, start + GROUP_BLOCKS);
    var first, end := g * GROUP_INODES + 1, (g + 1) * GROUP_INODES + 1;
    AtMost(Within(InodesUsed(nextInode), first, end), first, end);
    var free, freeInodes := GROUP_BLOCKS - used, GROUP_INODES - UsedInodes(nextInode, g);
    d := Descriptor(BB_START + g, IB_START + g, IT_START + g * TABLE_BLOCKS, free % 0x1_0000, freeInodes % 0x1_0000);
  }

  lemma {:induction false} AtMost(s: set<nat>, lo: nat, hi: nat)
    requires lo <= hi && forall i: nat | i in s :: lo <= i < hi
    ensures |s| <= hi - lo
  {
    if lo == hi {
      assert s == {};
    } else {
      AtMost(s - {hi - 1}, lo, hi - 1);
    }
  }

  /** The descriptor table and the superblock's totals. */
  method Describe(taken: set<nat>, nextInode: nat) returns (ds: seq<Descriptor>, freeBlocks: nat, freeInodes: nat)
    requires FIRST_INODE <= nextInode
    ensures |ds| == NUM_GROUPS && forall g | 0 <= g < NUM_GROUPS :: Accounts(ds[g], taken, nextInode, g)
    ensures freeBlocks == SumBlocks(ds) && freeInodes == SumInodes(ds)
  {
    hide Accounts;
    ds, freeBlocks, freeInodes := [], 0, 0;
    for g := 0 to NUM_GROUPS
      invariant |ds| == g && forall j | 0 <= j < g :: Accounts(ds[j], taken, nextInode, j)
      invariant freeBlocks == SumBlocks(ds) && freeInodes == SumInodes(ds)
    {
      var d := OneDescriptor(taken, nextInode, g);
      assert (ds + [d])[..g] == ds;
      ds, freeBlocks, freeInodes := ds + [d], freeBlocks + d.freeBlocks, freeInodes + d.freeInodes;
    }
  }

  /** Each descriptor's counts are the clear bits of its group's bitmaps. */
  lemma {:induction false} CountsMatchBitmaps(d: Descriptor, taken: set<nat>, nextInode: nat, g: nat, blocks: Bitmap,
      inodes: Bitmap)
    requires g < NUM_GROUPS && Accounts(d, taken, nextInode, g)
    requires Records(blocks, taken, g * GROUP_BLOCKS, GROUP_BLOCKS)
    requires forall k | 0 <= k < GROUP_INODES :: TestBit(inodes, k) <==> g * GROUP_INODES + 1 + k < nextInode
    ensures d.freeBlocks == ZeroBits(blocks, GROUP_BLOCKS) && d.freeInodes == ZeroBits(inodes, GROUP_INODES)
  {
    hide TestBit, ZeroBits;
    ZeroBitsCount(blocks, taken, g * GROUP_BLOCKS, GROUP_BLOCKS);
    var first := g * GROUP_INODES + 1;
    assert Records(inodes, InodesUsed(nextInode), first, GROUP_INODES);
    ZeroBitsCount(inodes, InodesUsed(nextInode), first, GROUP_INODES);
  }

  /** The totals are what the two allocators have left. */
  lemma {:induction false} TotalsAreWhatIsLeft(ds: seq<Descriptor>, taken: set<nat>, nextInode: nat, g: nat)
    requires g <= |ds| == NUM_GROUPS && forall j | 0 <= j < NUM_GROUPS :: Accounts(ds[j], taken, nextInode, j)
    ensures SumBlocks(ds[..g]) == g * GROUP_BLOCKS - |Within(taken, 0, g * GROUP_BLOCKS)|
    ensures SumInodes(ds[..g]) == g * GROUP_INODES - |Within(InodesUsed(nextInode), 0, g * GROUP_INODES + 1)|
  {
    var used := InodesUsed(nextInode);
    hide InodesUsed;
    if g == 0 {
      assert Within(taken, 0, 0) == {};
      assert Within(used, 0, 1) == {} by {
        assert 0 !in used;
      }
    } else {
      TotalsAreWhatIsLeft(ds, taken, nextInode, g - 1);
      assert ds[..g][..g - 1] == ds[..g - 1];
      assert Accounts(ds[g - 1], taken, nextInode, g - 1);
      Adjacent(taken, 0, (g - 1) * GROUP_BLOCKS, g * GROUP_BLOCKS);
      Adjacent(used, 0, (g - 1) * GROUP_INODES + 1, g * GROUP_INODES + 1);
    }
  }

  lemma {:induction false} Adjacent(s: set<nat>, lo: nat, mid: nat, hi: nat)
    requires lo <= mid <= hi
    ensures |Within(s, lo, hi)| == |Within(s, lo, mid)| + |Within(s, mid, hi)|
  {
    hide Within;
    assert Within(s, lo, hi) == Within(s, lo, mid) + Within(s, mid, hi);
    assert Within(s, lo, mid) !! Within(s, mid, hi);
  }

  /** For the writer's own state: blocks and inodes left, counted from the allocators. */
  lemma {:induction false} WriterTotals(ds: seq<Descriptor>, nextBlock: nat, nextInode: nat)
    requires nextBlock <= BLOCKS && FIRST_INODE <= nextInode <= TOTAL_INODES + 1
    requires |ds| == NUM_GROUPS && forall j | 0 <= j < NUM_GROUPS :: Accounts(ds[j], Upto(nextBlock), nextInode, j)
    ensures SumBlocks(ds) == BLOCKS - nextBlock && SumInodes(ds) == TOTAL_INODES - (nextInode - 1)
  {
    hide Accounts;
    TotalsAreWhatIsLeft(ds, Upto(nextBlock), nextInode, NUM_GROUPS);
    assert ds[..NUM_GROUPS] == ds;
    IntervalSize(0, nextBlock, Within(Upto(nextBlock), 0, BLOCKS));
    IntervalSize(1, nextInode, Within(InodesUsed(nextInode), 0, TOTAL_INODES + 1));
  }

  // ---- Inode slots ----

  const INODE_BYTES: nat := 256

  function SlotOffset(ino: nat): nat
    requires ino > 0
  {
    var group, local := (ino - 1) / GROUP_INODES, (ino - 1) % GROUP_INODES;
    (IT_START + group * TABLE_BLOCKS) * BLOCK_SIZE + local * INODE_BYTES
  }

  /** The tables of the groups form one array of slots inside the metadata. */
  lemma {:induction false} SlotsInOrder(ino: nat)
    requires 1 <= ino <= TOTAL_INODES
    ensures SlotOffset(ino) == IT_START * BLOCK_SIZE + (ino - 1) * INODE_BYTES
    ensures IT_START * BLOCK_SIZE <= SlotOffset(ino) && SlotOffset(ino) + INODE_BYTES <= METADATA_END * BLOCK_SIZE
  {
  }

  lemma {:induction false} SlotsApart(i: nat, j: nat)
    requires 1 <= i < j <= TOTAL_INODES
    ensures SlotOffset(i) + INODE_BYTES <= SlotOffset(j)
  {
    SlotsInOrder(i);
    SlotsInOrder(j);
    hide SlotOffset;
  }
}
