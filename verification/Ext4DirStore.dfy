/** ext4 directories in the image: the writer's strings in freshly allocated blocks, the inode and
    extent tree over them, and what the kernel lists through both. */
module Ext4DirStore {
  import opened Bytes
  import opened Rings
  import opened Ext2Format
  import opened Ext2Image
  import opened Ext2Dir
  import HostTree
  import Ext4Dir
  import opened Ext4Extents
  import opened Ext4Image
  import opened Ext4Groups
  import opened Ext4Inode
  import InodeChecksum
  import Crc32c

  /** Blocks that were not handed out are still as the image began. */
  ghost predicate Fresh(img: seq<byte>, nextBlock: nat) {
    forall k | nextBlock * BLOCK_SIZE <= k :: At(img, k) == 0
  }

  lemma {:induction false} FreshLater(img: seq<byte>, img': seq<byte>, lo: nat, hi: nat)
    requires Fresh(img, lo) && lo <= hi && OnlyBlocks(img, img', lo, hi)
    ensures Fresh(img', hi)
  {
  }

  /** A file or directory added, as by `AddFile` or `StoreDir`, leaves the later blocks fresh. */
  lemma {:induction false} FreshKept(img: seq<byte>, mid: seq<byte>, img': seq<byte>, lo: nat, hi: nat, ino: nat)
    requires Fresh(img, lo) && METADATA_END <= lo <= hi && OnlyBlocks(img, mid, lo, hi)
    requires 1 <= ino <= TOTAL_INODES && OnlySlot4(mid, img', ino)
    ensures Fresh(img', hi)
  {
    FreshLater(img, mid, lo, hi);
    SlotsInOrder(ino);
    hide SlotOffset;
  }

  /** The strings stand in the blocks from `s`, zero-filled. */
  ghost predicate HoldsStrings(img: seq<byte>, s: nat, strings: seq<seq<byte>>) {
    && (forall i | 0 <= i < |strings| :: |strings[i]| <= BLOCK_SIZE)
    && forall i | 0 <= i < |strings| :: HasAt(img, (s + i) * BLOCK_SIZE, Ext4Dir.OnDisk(strings[i]))
  }

  lemma {:induction false} StringWritten(img: seq<byte>, b: nat, data: seq<byte>)
    requires Fresh(img, b) && |data| <= BLOCK_SIZE && (b + 1) * BLOCK_SIZE <= |img|
    ensures OnlyBlock(img, BlockWritten(img, b, data), b)
    ensures HasAt(BlockWritten(img, b, data), b * BLOCK_SIZE, Ext4Dir.OnDisk(data))
  {
    BlockWrittenInPlace(img, b, data);
    var img' := BlockWritten(img, b, data);
    assert data[..Min(BLOCK_SIZE, |data|)] == data;
    SliceAssignInPlace(img, b * BLOCK_SIZE, data);
    forall k | 0 <= k < BLOCK_SIZE ensures At(img', b * BLOCK_SIZE + k) == Ext4Dir.OnDisk(data)[k] {
    }
  }

  lemma {:induction false} StringsMore(img: seq<byte>, img': seq<byte>, s: nat, strings: seq<seq<byte>>,
      data: seq<byte>)
    requires HoldsStrings(img, s, strings) && |data| <= BLOCK_SIZE && OnlyBlock(img, img', s + |strings|)
    requires HasAt(img', (s + |strings|) * BLOCK_SIZE, Ext4Dir.OnDisk(data))
    ensures HoldsStrings(img', s, strings + [data])
  {
    var more := strings + [data];
    forall i | 0 <= i < |more| ensures HasAt(img', (s + i) * BLOCK_SIZE, Ext4Dir.OnDisk(more[i])) {
      if i < |strings| {
        assert HasAt(img, (s + i) * BLOCK_SIZE, Ext4Dir.OnDisk(strings[i]));
      }
    }
  }

  /** Every string gets a block of its own. */
  method WriteStrings(w: Ext4Image.Writer, strings: seq<seq<byte>>) returns (blocks: Option<seq<nat>>)
    requires w.Valid() && Fresh(w.img, w.nextBlock) && forall i | 0 <= i < |strings| :: |strings[i]| <= BLOCK_SIZE
    modifies w
    ensures blocks.None? <==> old(w.nextBlock) + |strings| > BLOCKS
    ensures blocks.Some? ==> w.Valid() && w.nextInode == old(w.nextInode) && Fresh(w.img, w.nextBlock)
    ensures blocks.Some? ==>
      blocks.value == Consecutive(old(w.nextBlock), |strings|) && w.nextBlock == old(w.nextBlock) + |strings|
    ensures blocks.Some? ==>
      OnlyBlocks(old(w.img), w.img, old(w.nextBlock), w.nextBlock) && HoldsStrings(w.img, old(w.nextBlock), strings)
  {
    hide Upto, HasAt, BlockWritten, Fresh;
    ghost var s, before := w.nextBlock, w.img;
    var list: seq<nat> := [];
    assert strings[..0] == [] && strings[..|strings|] == strings;
    for i := 0 to |strings|
      invariant w.Valid() && w.nextBlock == s + i && w.nextInode == old(w.nextInode) && list == Consecutive(s, i)
      invariant Fresh(w.img, w.nextBlock) && OnlyBlocks(before, w.img, s, s + i)
      invariant HoldsStrings(w.img, s, strings[..i])
    {
      var b := w.AllocBlock();
      if b.None? {
        return None;
      }
      ghost var was := w.img;
      StringWritten(was, s + i, strings[i]);
      w.img := BlockWritten(w.img, b.value, strings[i]);
      StringsMore(was, w.img, s, strings[..i], strings[i]);
      assert strings[..i + 1] == strings[..i] + [strings[i]];
      FreshLater(was, w.img, s + i, s + i + 1);
      list := list + [b.value];
    }
    blocks := Some(list);
  }

  // ---- What stands in the blocks ----

  function Region(img: seq<byte>, s: nat, n: nat): seq<byte> {
    Window(img, s * BLOCK_SIZE, n * BLOCK_SIZE)
  }

  /** The strings of the groups, in the image, are the contents of a directory. */
  lemma {:induction false} RegionContents(img: seq<byte>, s: nat, gs: seq<seq<Entry>>, strings: seq<seq<byte>>)
    requires gs != [] && AllFit(gs) && |strings| == |gs| && HoldsStrings(img, s, strings)
    requires forall i | 0 <= i < |gs| :: strings[i] == Ext4Dir.Emitted(gs[i], i == |gs| - 1)
    ensures Ext4Dir.Contents(Region(img, s, |gs|), gs)
  {
    hide Ext4Dir.Closed, Block, Size, HasAt;
    var data, n := Region(img, s, |gs|), |gs|;
    forall i | 0 <= i < n - 1 ensures HasAt(data, BLOCK_SIZE * i, Ext4Dir.OnDisk(Ext4Dir.Closed(gs[i]))) {
      assert Fits(gs[i]) && strings[i] == Ext4Dir.Closed(gs[i]);
      RegionPart(img, s, n, i, Ext4Dir.OnDisk(strings[i]));
    }
    var last := gs[n - 1];
    assert Fits(last);
    LastPadded(last);
    RegionPart(img, s, n, n - 1, Ext4Dir.OnDisk(strings[n - 1]));
  }

  lemma {:induction false} LastPadded(g: seq<Entry>)
    requires Fits(g)
    ensures |Block(g)| == BLOCK_SIZE && Ext4Dir.OnDisk(Block(g)) == Block(g)
  {
    BlockLength(g);
    hide Block;
    assert Block(g) + [] == Block(g);
  }

  lemma {:induction false} RegionPart(img: seq<byte>, s: nat, n: nat, i: nat, block: seq<byte>)
    requires i < n && |block| == BLOCK_SIZE && HasAt(img, (s + i) * BLOCK_SIZE, block)
    ensures HasAt(Region(img, s, n), BLOCK_SIZE * i, block)
  {
    var data := Region(img, s, n);
    assert BLOCK_SIZE * i + BLOCK_SIZE <= n * BLOCK_SIZE;
    forall k | 0 <= k < BLOCK_SIZE ensures At(data, BLOCK_SIZE * i + k) == block[k] {
      assert At(img, (s + i) * BLOCK_SIZE + k) == block[k];
    }
  }

  lemma {:induction false} EmittedShort(g: seq<Entry>, last: bool)
    requires Fits(g)
    ensures |Ext4Dir.Emitted(g, last)| <= BLOCK_SIZE
  {
    BlockLength(g);
  }

  // ---- A directory ----

  /** What the kernel lists for directory `ino`. */
  function ReadDir4(img: seq<byte>, ino: nat): seq<Entry>
    requires ino > 0
  {
    Walk(FileContents4(img, ino), 0)
  }

  /** No block but the last is closed with a tail of 4 or 8 bytes. */
  ghost predicate Gapless(gs: seq<seq<Entry>>) {
    forall i | 0 <= i < |gs| - 1 :: !Ext4Dir.Gap(gs[i])
  }

  /** A directory's blocks and the tree over them. */
  method PlaceDir(w: Ext4Image.Writer, es: seq<Entry>) returns (root: Option<seq<byte>>, n: nat, ghost f: File4)
    requires w.Valid() && Fresh(w.img, w.nextBlock) && es != [] && AllGood(es) && FinalFits(es)
    modifies w
    ensures n == |Pack([], es)| && (root.None? <==> old(w.nextBlock) + Needed(BLOCK_SIZE * n) > BLOCKS)
    ensures root.Some? ==> w.Valid() && w.nextInode == old(w.nextInode) && |root.value| == IBLOCK_SIZE
    ensures root.Some? ==> w.nextBlock == old(w.nextBlock) + Needed(BLOCK_SIZE * |Pack([], es)|)
    ensures root.Some? ==> OnlyBlocks(old(w.img), w.img, old(w.nextBlock), w.nextBlock) && Lies(f, w.nextBlock)
    ensures root.Some? ==> |f.data| == BLOCK_SIZE * |Pack([], es)| && Ext4Dir.Contents(f.data, Pack([], es))
    ensures root.Some? ==> Stored4(w.img, root.value, f.data, f.start, f.exts, f.leaf)
  {
    hide Upto, TreeOf, Tiles, Greedy, Pack, FinalFits, Ext4Dir.Contents, Region, HoldsStrings, Ext4Dir.Emitted, Fresh;
    ghost var s := w.nextBlock;
    f := File4(Stat(HostTree.MODE_DIR, 0, 0, 0, []), [], s, [], s);
    var strings := Ext4Dir.EmitBlocks(es);
    n := |strings|;
    WholeBlocks(n);
    forall i | 0 <= i < |strings| ensures |strings[i]| <= BLOCK_SIZE {
      assert Fits(Pack([], es)[i]);
      EmittedShort(Pack([], es)[i], i == |strings| - 1);
    }
    var blocks := WriteStrings(w, strings);
    if blocks.None? {
      return None, n, f;
    }
    ghost var mid, leaf := w.img, w.nextBlock;
    PackFits([], es);
    RegionContents(mid, s, Pack([], es), strings);
    ghost var data := Region(mid, s, n);
    RegionHeld(mid, s, n);
    ghost var exts;
    root, exts := w.MakeExtentIblock(blocks.value);
    ContiguousRuns(exts, blocks.value);
    FewRuns(n);
    f := File4(Stat(HostTree.MODE_DIR, 0, 0, 0, []), data, s, exts, leaf);
    if root.Some? {
      DataKept(old(w.img), mid, w.img, s, s + n, w.nextBlock, data);
    }
  }

  lemma {:induction false} WholeBlocks(n: nat)
    ensures CeilDiv(BLOCK_SIZE * n, BLOCK_SIZE) == n
  {
  }

  lemma {:induction false} RegionHeld(img: seq<byte>, s: nat, n: nat)
    requires (s + n) * BLOCK_SIZE <= |img|
    ensures |Region(img, s, n)| == BLOCK_SIZE * n && HasAt(img, s * BLOCK_SIZE, Region(img, s, n))
  {
  }

  /** A directory under `ino`: the kernel, through inode and extent tree, lists its entries in full
      exactly when no block but the last was closed with a gap, and otherwise up to the first gap. */
  method StoreDir(w: Ext4Image.Writer, t: seq<bv32>, ino: u32, es: seq<Entry>, links: u16, now: u32, uuid: seq<bv8>)
    returns (ok: bool, ghost f: File4, ghost mid: seq<byte>)
    requires w.Valid() && Fresh(w.img, w.nextBlock) && 1 <= ino < w.nextInode && Crc32c.IsTable(t)
    requires es != [] && AllGood(es) && FinalFits(es)
    modifies w
    ensures ok <==> old(w.nextBlock) + Needed(BLOCK_SIZE * |Pack([], es)|) <= BLOCKS
    ensures ok ==> w.Valid() && w.nextInode == old(w.nextInode) && Fresh(w.img, w.nextBlock)
    ensures ok ==> OnlyBlocks(old(w.img), mid, old(w.nextBlock), w.nextBlock) && OnlySlot4(mid, w.img, ino)
    ensures ok ==> Held(w.img, ino, f, uuid) && Lies(f, w.nextBlock) && f.stat.mode == HostTree.MODE_DIR
    ensures ok ==> f.stat.links == links
    ensures ok ==> Ext4Dir.Contents(f.data, Pack([], es))
    ensures ok ==> w.nextBlock == old(w.nextBlock) + Needed(BLOCK_SIZE * |Pack([], es)|)
    ensures ok ==> ReadDir4(w.img, ino) == Ext4Dir.Shown(Pack([], es))
    ensures ok ==> (ReadDir4(w.img, ino) == es <==> Gapless(Pack([], es)))
  {
    hide Stored4, Shows, InodeChecksum.Verifies, Crc32c.IsTable, Upto, SlotOffset, Pack, FinalFits, Ext4Dir.Contents;
    hide FileContents4, Walk, Ext4Dir.Shown, Gapless, Fresh;
    mid := w.img;
    var root, n;
    root, n, f := PlaceDir(w, es);
    if root.None? {
      return false, f, mid;
    }
    ok, mid := true, w.img;
    WholeBlocks(n);
    SmallFile(BLOCK_SIZE * n);
    var stat := Stat(HostTree.MODE_DIR, BLOCK_SIZE * n, links, n, root.value);
    f := f.(stat := stat);
    WriteInode(w, t, ino, stat, now, uuid);
    StoredBeyondSlots(mid, w.img, f, ino);
    FreshKept(old(w.img), mid, w.img, old(w.nextBlock), w.nextBlock, ino);
    Listed(w.img, ino, f, es, uuid);
  }

  lemma {:induction false} Listed(img: seq<byte>, ino: nat, f: File4, es: seq<Entry>, uuid: seq<bv8>)
    requires 0 < ino < 0x1_0000_0000 && Held(img, ino, f, uuid) && Ext4Dir.Contents(f.data, Pack([], es))
    requires es != [] && AllGood(es)
    ensures ReadDir4(img, ino) == Ext4Dir.Shown(Pack([], es))
    ensures ReadDir4(img, ino) == es <==> Gapless(Pack([], es))
  {
    hide Held, FileContents4, Walk, Pack, Ext4Dir.Contents, Ext4Dir.Shown, Ext4Dir.Gap;
    HeldReads(img, ino, f, uuid);
    Ext4Dir.ListedIff(es, f.data);
  }
}
