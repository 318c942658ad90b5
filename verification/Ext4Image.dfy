/** The ext4 image writer: one bump allocator for blocks, one for inodes, files stored as
    consecutive blocks under an extent tree. */
module Ext4Image {
  import opened Bytes
  import opened Rings
  import opened Ext2Format
  import opened Ext2Image
  import opened Ext4Extents

  const BLOCKS: nat := 262144
  const NUM_GROUPS: nat := 8
  const GROUP_BLOCKS: nat := 32768
  const GROUP_INODES: nat := 4096
  const TOTAL_INODES: nat := 32768
  const BB_START: nat := 2
  const IB_START: nat := 10
  const IT_START: nat := 18
  const TABLE_BLOCKS: nat := 256
  const METADATA_END: nat := 2066
  const FIRST_INODE: nat := 12

  /** Blocks handed out one after the other. */
  function Consecutive(s: nat, n: nat): (b: seq<nat>)
    ensures |b| == n && forall k | 0 <= k < n :: b[k] == s + k
  {
    seq<nat>(n, k requires 0 <= k < n => s + k)
  }

  /** The tree in `root`, with its leaf if it has one, maps the blocks. */
  ghost predicate TreeOf(img: seq<byte>, root: seq<byte>, blocks: seq<nat>, exts: seq<Extent>, leaf: nat) {
    && Tiles(exts, blocks, |blocks|)
    && if |exts| <= IN_INODE then HoldsLeaf(root, exts, IN_INODE)
      else
        && |exts| <= IN_BLOCK && leaf < 0x1_0000_0000_0000 && (leaf + 1) * BLOCK_SIZE <= |img|
        && root == Index(leaf) && HoldsLeaf(LeafBlock(img, leaf), exts, IN_BLOCK)
  }

  lemma {:induction false} TreeMaps(img: seq<byte>, root: seq<byte>, blocks: seq<nat>, exts: seq<Extent>, leaf: nat,
      k: nat)
    requires TreeOf(img, root, blocks, exts, leaf)
    ensures Descend(root, img, k) == Mapped(blocks, k)
  {
    hide Tiles, Descend, Index, Window;
    if |exts| <= IN_INODE {
      LeafReads(root, img, exts, IN_INODE, blocks, k);
    } else {
      HeaderFields(LeafBlock(img, leaf), |exts|, IN_BLOCK, 0);
      IndexReads(leaf, img, k);
      LeafReads(LeafBlock(img, leaf), img, exts, IN_BLOCK, blocks, k);
    }
  }

  lemma {:induction false} TreeKept(img: seq<byte>, img': seq<byte>, root: seq<byte>, blocks: seq<nat>,
      exts: seq<Extent>, leaf: nat, lo: nat, hi: nat)
    requires TreeOf(img, root, blocks, exts, leaf) && OnlyBlocks(img, img', lo, hi)
    requires |exts| > IN_INODE ==> leaf < lo || hi <= leaf
    ensures TreeOf(img', root, blocks, exts, leaf)
  {
    hide Tiles, HoldsLeaf, Index;
    if |exts| > IN_INODE {
      assert LeafBlock(img', leaf) == LeafBlock(img, leaf);
    }
  }

  /** A stored file: its bytes are consecutive from block `s`, and its tree maps the blocks. */
  ghost predicate Stored4(img: seq<byte>, root: seq<byte>, data: seq<byte>, s: nat, exts: seq<Extent>, leaf: nat) {
    TreeOf(img, root, Consecutive(s, CeilDiv(|data|, BLOCK_SIZE)), exts, leaf) && HasAt(img, s * BLOCK_SIZE, data)
  }

  /** Byte `k` of a file, looked up through the tree. */
  function ByteThrough(img: seq<byte>, root: seq<byte>, k: nat): Option<byte> {
    var b := Descend(root, img, k / BLOCK_SIZE);
    if b.None? then None else Some(At(img, b.value * BLOCK_SIZE + k % BLOCK_SIZE))
  }

  lemma {:induction false} StoredReads4(img: seq<byte>, root: seq<byte>, data: seq<byte>, s: nat, exts: seq<Extent>,
      leaf: nat, k: nat)
    requires Stored4(img, root, data, s, exts, leaf) && k < |data|
    ensures ByteThrough(img, root, k) == Some(data[k])
  {
    hide TreeOf, Descend;
    var n := CeilDiv(|data|, BLOCK_SIZE);
    var i := k / BLOCK_SIZE;
    assert i < n;
    TreeMaps(img, root, Consecutive(s, n), exts, leaf, i);
    assert (s + i) * BLOCK_SIZE + k % BLOCK_SIZE == s * BLOCK_SIZE + k;
  }

  lemma {:induction false} StoredKept(img: seq<byte>, img': seq<byte>, root: seq<byte>, data: seq<byte>, s: nat,
      exts: seq<Extent>, leaf: nat, lo: nat, hi: nat)
    requires Stored4(img, root, data, s, exts, leaf) && OnlyBlocks(img, img', lo, hi)
    requires s + CeilDiv(|data|, BLOCK_SIZE) <= lo && (|exts| > IN_INODE ==> leaf < lo)
    ensures Stored4(img', root, data, s, exts, leaf)
  {
    hide TreeOf;
    TreeKept(img, img', root, Consecutive(s, CeilDiv(|data|, BLOCK_SIZE)), exts, leaf, lo, hi);
    assert s * BLOCK_SIZE + |data| <= lo * BLOCK_SIZE;
  }

  class Writer {
    var img: seq<byte>
    var nextBlock: nat
    var nextInode: nat
    var taken: set<nat>

    ghost predicate Valid()
      reads this
    {
      && |img| == BLOCKS * BLOCK_SIZE
      && METADATA_END <= nextBlock <= BLOCKS && FIRST_INODE <= nextInode <= TOTAL_INODES + 1
      && taken == Upto(nextBlock)
    }

    constructor ()
      ensures Valid() && nextBlock == METADATA_END && nextInode == FIRST_INODE && img == Zeros(BLOCKS * BLOCK_SIZE)
    {
      img := Zeros(BLOCKS * BLOCK_SIZE);
      nextBlock, nextInode := METADATA_END, FIRST_INODE;
      var used: set<nat> := {};
      for b := 0 to METADATA_END
        invariant used == Upto(b)
      {
        used := used + {b};
      }
      taken := used;
    }

    /** The run ends when this finds no block. */
    method AllocBlock() returns (b: Option<nat>)
      requires Valid()
      modifies `nextBlock, `taken
      ensures b.None? <==> old(nextBlock) == BLOCKS
      ensures b.Some? ==> Valid() && b.value == old(nextBlock) && nextBlock == b.value + 1
    {
      var c := nextBlock;
      nextBlock := nextBlock + 1;
      if c >= BLOCKS {
        return None;
      }
      taken := taken + {c};
      b := Some(c);
    }

    method AllocInode() returns (i: Option<nat>)
      requires Valid()
      modifies `nextInode
      ensures i.None? <==> old(nextInode) == TOTAL_INODES + 1
      ensures i.Some? ==> Valid() && i.value == old(nextInode) && nextInode == i.value + 1
    {
      var c := nextInode;
      nextInode := nextInode + 1;
      i := if c > TOTAL_INODES then None else Some(c);
    }

    method AllocFileBlocks(size: nat) returns (blocks: Option<seq<nat>>)
      requires Valid()
      modifies `nextBlock, `taken
      ensures var n := CeilDiv(size, BLOCK_SIZE);
        && (blocks.None? <==> old(nextBlock) + n > BLOCKS)
        && (blocks.Some? ==> Valid() && blocks.value == Consecutive(old(nextBlock), n))
        && (blocks.Some? ==> nextBlock == old(nextBlock) + n)
    {
      hide Upto;
      var n := CeilDiv(size, BLOCK_SIZE);
      ghost var s := nextBlock;
      var list: seq<nat> := [];
      for i := 0 to n
        invariant Valid() && nextBlock == s + i && list == Consecutive(s, i)
      {
        var b := AllocBlock();
        if b.None? {
          return None;
        }
        list := list + [b.value];
      }
      blocks := Some(list);
    }

    method WriteFileData(data: seq<byte>, blocks: seq<nat>, ghost s: nat)
      requires Valid() && blocks == Consecutive(s, CeilDiv(|data|, BLOCK_SIZE)) && s + |blocks| <= BLOCKS
      modifies `img
      ensures Valid() && OnlyBlocks(old(img), img, s, s + |blocks|) && HasAt(img, s * BLOCK_SIZE, data)
    {
      hide Upto;
      ghost var before := img;
      for i := 0 to |blocks|
        invariant Valid() && OnlyBlocks(before, img, s, s + i)
        invariant HasAt(img, s * BLOCK_SIZE, data[..Min(i * BLOCK_SIZE, |data|)])
      {
        var start := i * BLOCK_SIZE;
        var end := Min(start + BLOCK_SIZE, |data|);
        assert start < |data|;
        ghost var was := img;
        var piece := data[start..end];
        img := BlockWritten(img, blocks[i], piece);
        BlockWrittenInPlace(was, s + i, piece);
        PieceWritten(before, was, img, s, i, data, start, end);
      }
      assert data[..Min(|blocks| * BLOCK_SIZE, |data|)] == data;
    }

    /** `make_extent_iblock` */
    method MakeExtentIblock(blocks: seq<nat>) returns (root: Option<seq<byte>>, ghost exts: seq<Extent>)
      requires Valid() && |blocks| < 0x1_0000_0000 && forall k | 0 <= k < |blocks| :: blocks[k] < nextBlock
      modifies this
      ensures Tiles(exts, blocks, |blocks|) && Greedy(exts)
      ensures root.None? <==> |exts| > IN_INODE && (old(nextBlock) == BLOCKS || |exts| >= 0x1_0000)
      ensures |exts| <= IN_BLOCK && (|exts| <= IN_INODE || old(nextBlock) < BLOCKS) ==>
        && root.Some? && |root.value| == IBLOCK_SIZE && Valid() && nextInode == old(nextInode)
        && nextBlock == old(nextBlock) + (if |exts| <= IN_INODE then 0 else 1)
        && TreeOf(img, root.value, blocks, exts, old(nextBlock)) && OnlyBlocks(old(img), img, old(nextBlock), nextBlock)
    {
      hide Upto, Leaf, Index, Tiles, Greedy, HoldsLeaf, AllPackable;
      if blocks == [] {
        exts := [];
        NoExtents();
        LeafHeld([], IN_INODE, IBLOCK_SIZE);
        return Some(Leaf([], IN_INODE, IBLOCK_SIZE)), [];
      }
      var found := FindRuns(blocks);
      exts := found;
      RunsPackable(found, blocks);
      if |found| <= IN_INODE {
        LeafHeld(found, IN_INODE, IBLOCK_SIZE);
        root := Some(Leaf(found, IN_INODE, IBLOCK_SIZE));
      } else {
        root := WriteLeaf(found, blocks);
      }
    }

    /** The external leaf and the root that points at it. */
    method WriteLeaf(exts: seq<Extent>, ghost blocks: seq<nat>) returns (root: Option<seq<byte>>)
      requires Valid() && AllPackable(exts) && |exts| > IN_INODE && Tiles(exts, blocks, |blocks|)
      modifies this
      ensures root.None? <==> old(nextBlock) == BLOCKS || |exts| >= 0x1_0000
      ensures |exts| <= IN_BLOCK && old(nextBlock) < BLOCKS ==>
        && |root.value| == IBLOCK_SIZE && Valid() && nextInode == old(nextInode) && nextBlock == old(nextBlock) + 1
        && TreeOf(img, root.value, blocks, exts, old(nextBlock)) && OnlyBlocks(old(img), img, old(nextBlock), nextBlock)
    {
      hide Upto, Leaf, Index, Tiles, BlockWritten, LeafBlock, HoldsLeaf, AllPackable;
      var leaf := AllocBlock();
      if leaf.None? || |exts| >= 0x1_0000 {
        return None;
      }
      ghost var was := img;
      var data := Leaf(exts, IN_BLOCK, BLOCK_SIZE);
      LeafWritten(was, leaf.value, exts);
      if |exts| <= IN_BLOCK {
        BlockWrittenInPlace(was, leaf.value, data);
      }
      img := BlockWritten(img, leaf.value, data);
      root := Some(Index(leaf.value));
    }

    /** A file of a tree, as `add_tree` stores one: placed, written and mapped. The file reads
        back through its tree, and nothing below the blocks it took has changed. */
    method StoreFile(data: seq<byte>) returns (root: Option<seq<byte>>, ghost exts: seq<Extent>, ghost leaf: nat)
      requires Valid()
      modifies this
      ensures root.None? <==> old(nextBlock) + Needed(|data|) > BLOCKS
      ensures root.Some? ==> Valid() && nextInode == old(nextInode) && nextBlock == old(nextBlock) + Needed(|data|)
      ensures root.Some? ==> |root.value| == IBLOCK_SIZE
      ensures root.Some? ==> Stored4(img, root.value, data, old(nextBlock), exts, leaf)
      ensures root.Some? ==> OnlyBlocks(old(img), img, old(nextBlock), nextBlock)
      ensures root.Some? ==> |exts| == CeilDiv(CeilDiv(|data|, BLOCK_SIZE), MAX_LEN) <= 8 && old(nextBlock) <= leaf
      ensures root.Some? ==> (|exts| > IN_INODE ==> leaf < nextBlock)
    {
      hide Upto, TreeOf, Tiles, Greedy;
      exts, leaf := [], nextBlock;
      ghost var s, before, n := nextBlock, img, CeilDiv(|data|, BLOCK_SIZE);
      var blocks := AllocFileBlocks(|data|);
      if blocks.None? {
        return None, exts, leaf;
      }
      WriteFileData(data, blocks.value, s);
      ghost var mid := img;
      leaf := nextBlock;
      root, exts := MakeExtentIblock(blocks.value);
      ContiguousRuns(exts, blocks.value);
      FewRuns(n);
      if root.Some? {
        DataKept(before, mid, img, s, s + n, nextBlock, data);
      }
    }
  }

  /** The blocks a file takes: its data, and a leaf when it has more than four extents. */
  function Needed(size: nat): nat {
    var n := CeilDiv(size, BLOCK_SIZE);
    n + if CeilDiv(n, MAX_LEN) <= IN_INODE then 0 else 1
  }

  lemma {:induction false} FewRuns(n: nat)
    requires n <= BLOCKS
    ensures CeilDiv(n, MAX_LEN) <= 8
  {
  }

  lemma {:induction false} NoExtents()
    ensures Tiles([], [], 0) && Greedy([]) && AllPackable([])
  {
  }

  lemma {:induction false} RunsPackable(exts: seq<Extent>, blocks: seq<nat>)
    requires Tiles(exts, blocks, |blocks|) && |blocks| < 0x1_0000_0000
    requires forall k | 0 <= k < |blocks| :: blocks[k] <= BLOCKS
    ensures AllPackable(exts)
  {
    forall i | 0 <= i < |exts| ensures Packable(exts[i]) {
      assert IsRun(blocks, exts[i]);
      assert blocks[exts[i].logical] == exts[i].start;
    }
  }

  lemma {:induction false} PieceWritten(before: seq<byte>, was: seq<byte>, img: seq<byte>, s: nat, i: nat,
      data: seq<byte>, start: nat, end: nat)
    requires OnlyBlocks(before, was, s, s + i) && OnlyBlock(was, img, s + i)
    requires start == i * BLOCK_SIZE < |data| && end == Min(start + BLOCK_SIZE, |data|)
    requires HasAt(was, s * BLOCK_SIZE, data[..start]) && HasAt(img, (s + i) * BLOCK_SIZE, data[start..end])
    ensures OnlyBlocks(before, img, s, s + i + 1) && HasAt(img, s * BLOCK_SIZE, data[..end])
  {
    assert data[..end] == data[..start] + data[start..end];
    assert HasAt(img, s * BLOCK_SIZE, data[..start]);
    HasAtBoth(img, s * BLOCK_SIZE, data[..start], data[start..end]);
  }

  lemma {:induction false} DataKept(before: seq<byte>, mid: seq<byte>, img: seq<byte>, s: nat, e: nat, end: nat,
      data: seq<byte>)
    requires OnlyBlocks(before, mid, s, e) && OnlyBlocks(mid, img, e, end) && s <= e <= end
    requires HasAt(mid, s * BLOCK_SIZE, data) && s * BLOCK_SIZE + |data| <= e * BLOCK_SIZE
    ensures OnlyBlocks(before, img, s, end) && HasAt(img, s * BLOCK_SIZE, data)
  {
  }
}
