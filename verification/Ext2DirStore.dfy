/** Directories in the image: packed blocks written through the block allocator, the inode
    over them, and what the kernel lists. */
module Ext2DirStore {
  import opened Bytes
  import opened Ext2Format
  import opened Ext2Dir
  import opened HostTree
  import Ext2Image

  // ---- Directory blocks in the image ----

  lemma {:induction false} DirBytesMore(done: seq<seq<Entry>>, g: seq<Entry>)
    requires AllFit(done) && Fits(g)
    ensures AllFit(done + [g]) && DirBytes(done + [g]) == DirBytes(done) + Block(g)
  {
    assert (done + [g])[..|done|] == done;
    BlocksMore(done, g);
    assert (Blocks(done) + [Block(g)])[..|done|] == Blocks(done);
  }

  lemma {:induction false} BlocksMore(done: seq<seq<Entry>>, g: seq<Entry>)
    requires AllFit(done) && Fits(g)
    ensures Blocks(done + [g]) == Blocks(done) + [Block(g)]
  {
    assert (done + [g])[..|done|] == done;
  }

  /** One more directory block behind those already written. */
  lemma {:induction false} RegionMore(img: seq<byte>, img': seq<byte>, s: nat, have: seq<byte>, n: nat,
      block: seq<byte>)
    requires |have| == n * BLOCK_SIZE && |block| == BLOCK_SIZE
    requires HasAt(img, s * BLOCK_SIZE, have)
    requires Ext2Image.OnlyBlock(img, img', s + n) && HasAt(img', (s + n) * BLOCK_SIZE, block)
    ensures HasAt(img', s * BLOCK_SIZE, have + block)
  {
    assert HasAt(img', s * BLOCK_SIZE, have);
    HasAtBoth(img', s * BLOCK_SIZE, have, block);
  }

  /** One more block is allocated, listed and written. */
  method EmitBlock(w: Ext2Image.Writer, blocks: seq<u32>, block: seq<byte>, ghost s: nat, ghost have: seq<byte>)
    returns (ok: bool, more: seq<u32>)
    requires w.Counters() && |block| == BLOCK_SIZE && w.Cursor() == s + |blocks|
    requires forall i | 0 <= i < |blocks| :: blocks[i] == s + i
    requires |have| == |blocks| * BLOCK_SIZE && HasAt(w.img, s * BLOCK_SIZE, have)
    modifies w`img, w`nextBlock, w`highBlock
    ensures ok == (s + |blocks| < w.Limit())
    ensures ok ==> w.Counters() && w.Cursor() == s + |more| && |more| == |blocks| + 1
    ensures ok ==> forall i | 0 <= i < |more| :: more[i] == s + i
    ensures ok ==> HasAt(w.img, s * BLOCK_SIZE, have + block) && Ext2Image.OnlyBlock(old(w.img), w.img, s + |blocks|)
    ensures if w.useHighZone then w.nextBlock == old(w.nextBlock) else w.highBlock == old(w.highBlock)
  {
    var b;
    ok, b := w.AllocBlock();
    more := blocks;
    if ok {
      more := blocks + [b];
      Ext2Image.BlockWrittenInPlace(w.img, b, block);
      w.WriteBlock(b, block);
      RegionMore(old(w.img), w.img, s, have, |blocks|, block);
    }
  }

  lemma {:induction false} RecordsMore(cur: seq<Entry>, e: Entry)
    requires AllShort(cur) && |e.name| <= 255
    ensures Records(cur + [e]) == Records(cur) + Record(e, MinSize(e))
  {
    assert (cur + [e])[..|cur|] == cur;
  }

  /** The final entry takes the rest of its block. */
  lemma {:induction false} FinalBlock(cur: seq<Entry>, e: Entry)
    requires AllGood(cur) && Good(e) && Size(cur + [e]) <= BLOCK_SIZE
    ensures Fits(cur + [e]) && Block(cur + [e]) == Records(cur) + Record(e, BLOCK_SIZE - Size(cur))
    ensures |Block(cur + [e])| == BLOCK_SIZE
  {
    assert (cur + [e])[..|cur|] == cur;
    SizeSnoc(cur, e);
    BlockLength(cur + [e]);
  }

  /** What `write_dir_blocks` has done with the entries before `rest`: the groups in `done`
      are in the image, the entries in `cur` wait in the current block. */
  ghost predicate Packing(es: seq<Entry>, done: seq<seq<Entry>>, cur: seq<Entry>, rest: seq<Entry>) {
    && AllGood(rest) && (cur == [] || Fits(cur)) && AllFit(done)
    && done + Pack(cur, rest) == Pack([], es)
  }

  lemma {:induction false} PackingStep(es: seq<Entry>, done: seq<seq<Entry>>, cur: seq<Entry>, rest: seq<Entry>)
    requires Packing(es, done, cur, rest) && |rest| > 1
    ensures Good(rest[0])
    ensures if cur != [] && Size(cur) + MinSize(rest[0]) > BLOCK_SIZE
            then Packing(es, done + [cur], [rest[0]], rest[1..])
            else Packing(es, done, cur + [rest[0]], rest[1..])
  {
    hide Size, MinSize;
    var e := rest[0];
    if cur != [] && Size(cur) + MinSize(e) > BLOCK_SIZE {
      RoomForMore([], e);
      assert [] + [e] == [e];
      assert done + ([cur] + Pack([e], rest[1..])) == done + [cur] + Pack([e], rest[1..]);
    } else {
      RoomForMore(cur, e);
    }
  }

  lemma {:induction false} PackingEnd(es: seq<Entry>, done: seq<seq<Entry>>, cur: seq<Entry>, e: Entry)
    requires Packing(es, done, cur, [e]) && FinalFits(es)
    ensures done + [cur + [e]] == Pack([], es) && Size(cur + [e]) <= BLOCK_SIZE && AllGood(cur) && Good(e)
  {
    assert [e][0] == e;
    var gs := Pack([], es);
    assert Pack(cur, [e]) == [cur + [e]];
    assert gs[|gs| - 1] == cur + [e];
  }

  lemma {:induction false} PackingLeft(es: seq<Entry>, done: seq<seq<Entry>>, cur: seq<Entry>, rest: seq<Entry>)
    requires Packing(es, done, cur, rest) && rest != []
    ensures |done| < |Pack([], es)|
  {
    PackFits(cur, rest);
  }

  /** The groups in `done` are in the image, in the blocks from `s`. */
  ghost predicate Written(w: Ext2Image.Writer, img0: seq<byte>, s: nat, blocks: seq<u32>, done: seq<seq<Entry>>)
    reads w
  {
    && w.Counters() && w.Cursor() == s + |blocks| && |blocks| == |done| && AllFit(done)
    && (forall i | 0 <= i < |blocks| :: blocks[i] == s + i)
    && HasAt(w.img, s * BLOCK_SIZE, DirBytes(done))
    && Ext2Image.OnlyBlocks(img0, w.img, s, s + |done|)
  }

  method EmitGroup(w: Ext2Image.Writer, blocks: seq<u32>, block: seq<byte>, ghost img0: seq<byte>, ghost s: nat,
                   ghost done: seq<seq<Entry>>, ghost g: seq<Entry>) returns (ok: bool, more: seq<u32>)
    requires Written(w, img0, s, blocks, done) && Fits(g) && block == Block(g)
    modifies w`img, w`nextBlock, w`highBlock
    ensures ok == (s + |done| < w.Limit())
    ensures ok ==> Written(w, img0, s, more, done + [g])
    ensures if w.useHighZone then w.nextBlock == old(w.nextBlock) else w.highBlock == old(w.highBlock)
  {
    BlockLength(g);
    DirBytesMore(done, g);
    hide DirBytes, Block;
    ok, more := EmitBlock(w, blocks, block, s, DirBytes(done));
  }

  /** `write_dir_blocks`. The blocks come from one zone in a row. */
  method WriteDirBlocks(w: Ext2Image.Writer, es: seq<Entry>) returns (ok: bool, blocks: seq<u32>)
    requires w.Counters() && es != [] && AllGood(es) && FinalFits(es)
    modifies w`img, w`nextBlock, w`highBlock
    ensures ok == (old(w.Cursor()) + |Pack([], es)| <= w.Limit())
    ensures ok ==> Written(w, old(w.img), old(w.Cursor()), blocks, Pack([], es))
    ensures if w.useHighZone then w.nextBlock == old(w.nextBlock) else w.highBlock == old(w.highBlock)
  {
    hide Pack, Record, Records, Block, Size, MinSize, DirBytes, HasAt, FinalFits;
    ghost var s := w.Cursor();
    ghost var done: seq<seq<Entry>>, cur: seq<Entry> := [], [];
    var current: seq<byte> := [];
    blocks := [];
    PackingStart(w, es);
    for idx := 0 to |es| - 1
      invariant Packing(es, done, cur, es[idx..]) && AllShort(cur) && current == Records(cur)
      invariant Written(w, old(w.img), s, blocks, done)
      invariant if w.useHighZone then w.nextBlock == old(w.nextBlock) else w.highBlock == old(w.highBlock)
    {
      var e := es[idx];
      PackingStep(es, done, cur, es[idx..]);
      PackingLeft(es, done, cur, es[idx..]);
      assert es[idx..][1..] == es[idx + 1..];
      NonEmpty(cur);
      if |current| + MinSize(e) > BLOCK_SIZE && current != [] {
        var block := SealBlock(current, cur);
        ok, blocks := EmitGroup(w, blocks, block, old(w.img), s, done, cur);
        if !ok {
          return;
        }
        done, cur, current := done + [cur], [], [];
        assert cur + [e] == [e];
      }
      RecordsMore(cur, e);
      current := current + Record(e, MinSize(e));
      cur := cur + [e];
    }
    var e := es[|es| - 1];
    assert es[|es| - 1..] == [e];
    PackingEnd(es, done, cur, e);
    FinalBlock(cur, e);
    var block := current + Record(e, BLOCK_SIZE - |current|);
    ok, blocks := EmitGroup(w, blocks, block, old(w.img), s, done, cur + [e]);
  }

  lemma {:induction false} PackingStart(w: Ext2Image.Writer, es: seq<Entry>)
    requires w.Counters() && AllGood(es)
    ensures Packing(es, [], [], es[0..]) && Records([]) == []
    ensures Written(w, w.img, w.Cursor(), [], [])
  {
    assert es[0..] == es && [] + Pack([], es) == Pack([], es);
  }

  lemma {:induction false} NonEmpty(cur: seq<Entry>)
    requires AllShort(cur)
    ensures Records(cur) == [] <==> cur == []
    ensures Records([]) == []
  {
  }

  // ---- A directory as a file ----

  /** What the kernel lists for directory `ino`. */
  function ReadDir(img: seq<byte>, ino: nat): seq<Entry> {
    Walk(FileContents(img, ino), 0)
  }

  lemma {:induction false} DirectBlock(img: seq<byte>, ino: nat, s: nat, dir: seq<byte>, i: nat, block: seq<byte>)
    requires 0 < s && i < DIRECT && InodePointer(img, ino, i) == s + i
    requires HasAt(img, s * BLOCK_SIZE, dir) && HasAt(dir, BLOCK_SIZE * i, block) && |block| == BLOCK_SIZE
    requires InodeSize(img, ino) == |dir|
    ensures HasAt(FileContents(img, ino), BLOCK_SIZE * i, block)
  {
    var data := FileContents(img, ino);
    forall k | 0 <= k < |block| ensures At(data, BLOCK_SIZE * i + k) == block[k] {
      var p := BLOCK_SIZE * i + k;
      assert p / BLOCK_SIZE == i && p % BLOCK_SIZE == k;
      assert At(img, s * BLOCK_SIZE + p) == dir[p];
      assert FileByte(img, ino, p) == At(img, (s + i) * BLOCK_SIZE + k);
    }
  }

  lemma {:induction false} FlattenSplit<T>(a: seq<seq<T>>, b: seq<seq<T>>)
    ensures Flatten(a + b) == Flatten(a) + Flatten(b)
  {
    if a == [] {
      assert a + b == b;
    } else {
      FlattenSplit(a[1..], b);
      assert (a + b)[1..] == a[1..] + b;
      Associate(a[0], Flatten(a[1..]), Flatten(b));
    }
  }

  /** A listing is complete exactly when its blocks are all direct. */
  lemma {:induction false} ShownIsAll(gs: seq<seq<Entry>>)
    requires AllFit(gs)
    ensures Flatten(gs[..Min(|gs|, DIRECT)]) == Flatten(gs) <==> |gs| <= DIRECT
  {
    if |gs| <= DIRECT {
      assert gs[..|gs|] == gs;
    } else {
      var shown, hidden := gs[..DIRECT], gs[DIRECT..];
      assert gs == shown + hidden;
      FlattenSplit(shown, hidden);
      assert Fits(gs[DIRECT]) && hidden[0] == gs[DIRECT];
    }
  }

  /** The directory's record once its blocks `gs` are written from `s` on. */
  function DirRecord(s: nat, gs: seq<seq<Entry>>, links: nat): Ext2Image.Record
    requires AllFit(gs)
  {
    Ext2Image.Listing(MODE_DIR, links, s, DirBytes(gs))
  }

  /** The entries in the first twelve blocks. */
  function Shown(es: seq<Entry>): seq<Entry> {
    var gs := Pack([], es);
    Flatten(gs[..Min(|gs|, DIRECT)])
  }

  /** The entries in the blocks behind them, which no pointer reaches. */
  function CutOff(es: seq<Entry>): seq<Entry> {
    var gs := Pack([], es);
    Flatten(gs[Min(|gs|, DIRECT)..])
  }

  lemma {:induction false} ShownThenCut(es: seq<Entry>)
    requires es != []
    ensures Shown(es) + CutOff(es) == es
  {
    hide Pack, Flatten;
    var gs := Pack([], es);
    var n := Min(|gs|, DIRECT);
    assert gs[..n] + gs[n..] == gs;
    FlattenSplit(gs[..n], gs[n..]);
    PackKeepsEntries([], es);
    assert [] + es == es;
  }

  lemma {:induction false} NothingCut(es: seq<Entry>)
    requires |Pack([], es)| <= DIRECT
    ensures CutOff(es) == []
  {
  }

  /** The inode names the first twelve blocks and no others, so the listing stops there. */
  lemma {:induction false} RowListing(img: seq<byte>, ino: nat, s: nat, gs: seq<seq<Entry>>)
    requires AllFit(gs) && 0 < s && Ext2Image.InARow(img, ino, s, DirBytes(gs))
    ensures ReadDir(img, ino) == Flatten(gs[..Min(|gs|, DIRECT)])
  {
    hide Flatten, FileContents, Walk, HasAt, Block, DirBytes;
    var data, n := FileContents(img, ino), Min(|gs|, DIRECT);
    var shown := gs[..n];
    DirBytesHold(gs);
    assert AllFit(shown);
    forall i: nat | i < n ensures HasAt(data, BLOCK_SIZE * i, Block(shown[i])) {
      RowBlock(img, ino, s, gs, i);
    }
    WalkBlocks(data, shown);
    RowEnd(img, ino, |gs|);
  }

  lemma {:induction false} RowBlock(img: seq<byte>, ino: nat, s: nat, gs: seq<seq<Entry>>, i: nat)
    requires AllFit(gs) && 0 < s && Ext2Image.InARow(img, ino, s, DirBytes(gs)) && HoldsBlocks(DirBytes(gs), gs)
    requires i < |gs| && i < DIRECT
    ensures HasAt(FileContents(img, ino), BLOCK_SIZE * i, Block(gs[i]))
  {
    hide FileContents, DirBytes, Block, HasAt;
    assert Fits(gs[i]);
    BlockLength(gs[i]);
    DirectBlock(img, ino, s, DirBytes(gs), i, Block(gs[i]));
  }

  /** Behind its last direct block a directory ends, or reads as zeros. */
  lemma {:induction false} RowEnd(img: seq<byte>, ino: nat, n: nat)
    requires InodeSize(img, ino) == BLOCK_SIZE * n && InodePointer(img, ino, 12) == 0
    ensures Walk(FileContents(img, ino), BLOCK_SIZE * Min(n, DIRECT)) == []
  {
    var data, end := FileContents(img, ino), DIRECT * BLOCK_SIZE;
    if n > DIRECT {
      assert GetFileBlock(img, ino, (end + 4) / BLOCK_SIZE) == None;
      assert GetFileBlock(img, ino, (end + 5) / BLOCK_SIZE) == None;
      assert At(data, end + 4) == 0 && At(data, end + 5) == 0;
    }
  }

  /** A stored directory shows its first twelve blocks. */
  lemma {:induction false} DirectoryShown(img: seq<byte>, ino: nat, s: nat, es: seq<Entry>, links: nat)
    requires es != [] && AllGood(es) && FinalFits(es) && AllFit(Pack([], es))
    requires 0 < s && Ext2Image.Holds(img, ino, DirRecord(s, Pack([], es), links))
    ensures ReadDir(img, ino) == Shown(es)
  {
    hide Pack, DirBytes, Flatten;
    RowListing(img, ino, s, Pack([], es));
  }

  /** The kernel lists the entries exactly when they fit twelve blocks. */
  lemma {:induction false} ListingIff(img: seq<byte>, ino: nat, s: nat, es: seq<Entry>, links: nat)
    requires es != [] && AllGood(es) && FinalFits(es) && AllFit(Pack([], es))
    requires 0 < s && Ext2Image.Holds(img, ino, DirRecord(s, Pack([], es), links))
    ensures ReadDir(img, ino) == es <==> |Pack([], es)| <= DIRECT
  {
    hide Pack, DirBytes, Walk, FinalFits, Flatten, Ext2Image.Holds;
    DirectoryShown(img, ino, s, es, links);
    ShownIsAll(Pack([], es));
    PackKeepsEntries([], es);
    assert [] + es == es;
  }

  lemma {:induction false} RowAssembled(mid: seq<byte>, img: seq<byte>, ino: nat, s: nat, data: seq<byte>,
      n: nat, direct: seq<u32>)
    requires |data| == BLOCK_SIZE * n && FIRST_DATA_BLOCK <= s && 1 <= ino <= INODES_PER_GROUP
    requires HasAt(mid, s * BLOCK_SIZE, data) && Ext2Image.OnlySlot(mid, img, ino)
    requires |direct| == Min(n, DIRECT) && (forall i | 0 <= i < |direct| :: direct[i] == s + i)
    requires InodeSize(img, ino) == |data| && InodeSectors(img, ino) == 8 * n
    requires forall i: nat | i < 15 :: InodePointer(img, ino, i) == Ext2Image.BlockPointer(direct, 0, 0, i)
    ensures Ext2Image.InARow(img, ino, s, data)
  {
    assert BlocksFor(|data|) == n;
  }

  /** `write_dir_blocks` followed by `write_inode` with the first twelve blocks. */
  method PlaceDir(w: Ext2Image.Writer, ino: nat, es: seq<Entry>, links: u16) returns (ok: bool, ghost mid: seq<byte>)
    requires w.Counters() && 1 <= ino < w.nextInode && es != [] && AllGood(es) && FinalFits(es)
    modifies w`img, w`nextBlock, w`highBlock
    ensures ok == (old(w.Cursor()) + |Pack([], es)| <= w.Limit())
    ensures ok ==> w.Counters() && w.Cursor() == old(w.Cursor()) + |Pack([], es)|
    ensures ok ==> Ext2Image.OnlyBlocks(old(w.img), mid, old(w.Cursor()), w.Cursor())
    ensures ok ==> Ext2Image.OnlySlot(mid, w.img, ino) && AllFit(Pack([], es))
    ensures ok ==> Ext2Image.Holds(w.img, ino, DirRecord(old(w.Cursor()), Pack([], es), links))
    ensures if w.useHighZone then w.nextBlock == old(w.nextBlock) else w.highBlock == old(w.highBlock)
  {
    hide Pack, DirBytes, FinalFits;
    var blocks;
    mid := w.img;
    ok, blocks := WriteDirBlocks(w, es);
    if ok {
      mid := w.img;
      var direct := blocks[..Min(|blocks|, DIRECT)];
      w.WriteInode(ino, MODE_DIR, |blocks| * BLOCK_SIZE, |blocks|, direct, links, 0, 0);
      RowAssembled(mid, w.img, ino, old(w.Cursor()), DirBytes(Pack([], es)), |blocks|, direct);
    }
  }

  /** A directory of any length, recorded under `ino`: the kernel lists its first twelve blocks,
      and everything stored before is still there. */
  method StoreDir(w: Ext2Image.Writer, ino: nat, es: seq<Entry>, links: u16) returns (ok: bool)
    requires w.Valid() && 1 <= ino < w.nextInode && ino !in w.files
    requires es != [] && AllGood(es) && FinalFits(es)
    modifies w`img, w`nextBlock, w`highBlock, w`files
    ensures ok == (old(w.Cursor()) + |Pack([], es)| <= w.Limit())
    ensures ok ==> ReadDir(w.img, ino) == Shown(es)
    ensures ok ==> (ReadDir(w.img, ino) == es <==> |Pack([], es)| <= DIRECT)
    ensures ok ==> AllFit(Pack([], es)) && w.Cursor() == old(w.Cursor()) + |Pack([], es)|
    ensures ok ==> w.Valid() && w.files == old(w.files)[ino := DirRecord(old(w.Cursor()), Pack([], es), links)]
    ensures if w.useHighZone then w.nextBlock == old(w.nextBlock) else w.highBlock == old(w.highBlock)
  {
    hide Pack, DirBytes, Walk, FinalFits, ReadDir, Shown, Ext2Image.Holds;
    ghost var s := w.Cursor();
    ghost var mid;
    ok, mid := PlaceDir(w, ino, es, links);
    if ok {
      ghost var r := DirRecord(s, Pack([], es), links);
      DirectoryShown(w.img, ino, s, es, links);
      ListingIff(w.img, ino, s, es, links);
      Ext2Image.PlacedMore(old(w.nextBlock), old(w.highBlock), w.nextBlock, w.highBlock, w.nextInode, w.files, ino, r);
      Ext2Image.HeldMore(old(w.img), mid, w.img, old(w.nextBlock), old(w.highBlock), w.nextInode, w.files, ino, r);
      w.files := w.files[ino := r];
    }
  }

  /** The final entry is never moved to a new block: writing the block it lands in keeps the
      image's length, and with it every later block, exactly when that block has room for it. */
  lemma {:induction false} FinalBlockIff(img: seq<byte>, b: nat, es: seq<Entry>, last: seq<Entry>)
    requires es != [] && AllGood(es) && Pack([], es) != [] && last == Pack([], es)[|Pack([], es)| - 1]
    requires FitsButLast(last, es[|es| - 1]) && b * BLOCK_SIZE + |Block(last)| <= |img|
    ensures |Ext2Image.BlockWritten(img, b, Block(last))| == |img| <==> FinalFits(es)
  {
    hide Pack, Block, Size, Ext2Image.BlockWritten;
    BlockLength(last);
    Ext2Image.BlockWrittenLength(img, b, Block(last));
  }
}
