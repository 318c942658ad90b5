/** The ext2 image writer: one byte array filled in place by two bump allocators. */
module Ext2Image {
  import opened Bytes
  import opened Ext2Format

  // ---- Block writes ----

  /** `write_block`: the slice is as long as `data`, but at most one block of it is copied. */
  function BlockWritten(img: seq<byte>, b: nat, data: seq<byte>): seq<byte> {
    SliceAssign(img, b * BLOCK_SIZE, b * BLOCK_SIZE + |data|, data[..Min(BLOCK_SIZE, |data|)])
  }

  /** Nothing outside block `b` differs. */
  ghost predicate OnlyBlock(img: seq<byte>, img': seq<byte>, b: nat) {
    |img'| == |img| && (forall k | !(b * BLOCK_SIZE <= k < (b + 1) * BLOCK_SIZE) :: At(img', k) == At(img, k))
  }

  /** Nothing outside blocks `[lo, hi)` differs. */
  ghost predicate OnlyBlocks(img: seq<byte>, img': seq<byte>, lo: nat, hi: nat) {
    |img'| == |img| && (forall k | !(lo * BLOCK_SIZE <= k < hi * BLOCK_SIZE) :: At(img', k) == At(img, k))
  }

  lemma {:induction false} BlockWrittenInPlace(img: seq<byte>, b: nat, data: seq<byte>)
    requires (b + 1) * BLOCK_SIZE <= |img| && |data| <= BLOCK_SIZE
    ensures OnlyBlock(img, BlockWritten(img, b, data), b)
    ensures HasAt(BlockWritten(img, b, data), b * BLOCK_SIZE, data)
  {
    assert data[..Min(BLOCK_SIZE, |data|)] == data;
    SliceAssignInPlace(img, b * BLOCK_SIZE, data);
  }

  /** The image keeps its length exactly when what is written fits one block; a longer
      string removes bytes and shifts every later block down. */
  lemma {:induction false} BlockWrittenLength(img: seq<byte>, b: nat, data: seq<byte>)
    requires b * BLOCK_SIZE + |data| <= |img|
    ensures |BlockWritten(img, b, data)| == |img| <==> |data| <= BLOCK_SIZE
    ensures |data| > BLOCK_SIZE ==> |BlockWritten(img, b, data)| == |img| - (|data| - BLOCK_SIZE)
  {
  }

  /** A pointer block: the words, zero-filled to a block. */
  function PointerBlock(ws: seq<u32>): (s: seq<byte>)
    requires |ws| <= FANOUT
    ensures |s| == BLOCK_SIZE
  {
    PackWords(ws) + Zeros(BLOCK_SIZE - 4 * |ws|)
  }

  lemma {:induction false} BlockWrittenWord(img: seq<byte>, b: nat, data: seq<byte>, j: nat)
    requires (b + 1) * BLOCK_SIZE <= |img| && 4 * j + 4 <= |data| <= BLOCK_SIZE
    ensures BlockWord(BlockWritten(img, b, data), b, j) == U32At(data, 4 * j)
  {
    BlockWrittenInPlace(img, b, data);
    HasAtWord(BlockWritten(img, b, data), b * BLOCK_SIZE, data, 4 * j);
  }

  lemma {:induction false} PointerBlockWords(img: seq<byte>, b: nat, ws: seq<u32>)
    requires (b + 1) * BLOCK_SIZE <= |img|
    requires |ws| <= FANOUT
    ensures forall j: nat | j < |ws| :: BlockWord(BlockWritten(img, b, PointerBlock(ws)), b, j) == ws[j]
  {
    forall j: nat | j < |ws| ensures BlockWord(BlockWritten(img, b, PointerBlock(ws)), b, j) == ws[j] {
      BlockWrittenWord(img, b, PointerBlock(ws), j);
      WordInPrefix(PackWords(ws), Zeros(BLOCK_SIZE - 4 * |ws|), 4 * j);
      PackedWordAt(ws, j);
    }
  }

  // ---- One file's pieces, piece by piece ----

  lemma {:induction false} HasDataKept(img: seq<byte>, img': seq<byte>, s: nat, data: seq<byte>, b: nat)
    requires HasData(img, s, data) && OnlyBlock(img, img', b)
    requires forall i: nat | i < BlocksFor(|data|) :: DataBlock(s, i) != b
    ensures HasData(img', s, data)
  {
    forall k | 0 <= k < |data| ensures At(img', DataAddress(s, k)) == data[k] {
      assert k / BLOCK_SIZE < BlocksFor(|data|);
      assert DataBlock(s, k / BLOCK_SIZE) != b;
    }
  }

  /** Writing data block `i` extends the stored prefix of the file by that block. */
  lemma {:induction false} DataBlockWritten(img: seq<byte>, s: nat, data: seq<byte>, i: nat)
    requires i < BlocksFor(|data|) && (DataBlock(s, i) + 1) * BLOCK_SIZE <= |img|
    requires HasData(img, s, data[..i * BLOCK_SIZE])
    ensures var end := Min((i + 1) * BLOCK_SIZE, |data|);
      HasData(BlockWritten(img, DataBlock(s, i), data[i * BLOCK_SIZE..end]), s, data[..end])
  {
    var start, end, b := i * BLOCK_SIZE, Min((i + 1) * BLOCK_SIZE, |data|), DataBlock(s, i);
    var piece := data[start..end];
    var img' := BlockWritten(img, b, piece);
    BlockWrittenInPlace(img, b, piece);
    forall k | 0 <= k < end ensures At(img', DataAddress(s, k)) == data[..end][k] {
      if k < start {
        assert data[..start][k] == data[k];
      } else {
        assert k / BLOCK_SIZE == i;
        assert piece[k - start] == data[k];
      }
    }
  }

  // ---- Inodes ----

  lemma {:induction false} FieldsOfWords(ws: seq<u32>)
    requires |ws| == 32
    ensures var d := PackWords(ws);
      && U16At(d, 0) == ws[0] % 0x1_0000 && U32At(d, 4) == ws[1]
      && U16At(d, 26) == ws[6] / 0x1_0000 && U32At(d, 28) == ws[7]
      && (forall j: nat | j < 15 :: U32At(d, 40 + 4 * j) == ws[10 + j])
  {
    var d := PackWords(ws);
    PackedWordAt(ws, 0);
    PackedWordAt(ws, 1);
    PackedWordAt(ws, 6);
    PackedWordAt(ws, 7);
    WordHalves(d, 0);
    WordHalves(d, 24);
    forall j: nat | j < 15 ensures U32At(d, 40 + 4 * j) == ws[10 + j] {
      PackedWordAt(ws, 10 + j);
    }
  }

  /** The fields the kernel reads, from an inode slot that holds 32 packed words. */
  lemma {:induction false} SlotReads(img: seq<byte>, ino: nat, ws: seq<u32>)
    requires 1 <= ino && |ws| == 32
    requires HasAt(img, InodeOffset(ino), PackWords(ws))
    ensures InodeMode(img, ino) == ws[0] % 0x1_0000 && InodeSize(img, ino) == ws[1]
    ensures InodeLinks(img, ino) == ws[6] / 0x1_0000 && InodeSectors(img, ino) == ws[7]
    ensures forall i: nat | i < 15 :: InodePointer(img, ino, i) == ws[10 + i]
  {
    var off, data := InodeOffset(ino), PackWords(ws);
    FieldsOfWords(ws);
    HasAtHalf(img, off, data, 0);
    HasAtHalf(img, off, data, 26);
    HasAtWord(img, off, data, 4);
    HasAtWord(img, off, data, 28);
    forall i: nat | i < 15 ensures InodePointer(img, ino, i) == ws[10 + i] {
      HasAtWord(img, off, data, 40 + 4 * i);
    }
  }

  /** Word `i` of `i_block`. */
  function BlockPointer(ptrs: seq<u32>, single: u32, double: u32, i: nat): u32 {
    if i < DIRECT then (if i < |ptrs| then ptrs[i] else 0)
    else if i == 12 then single
    else if i == 13 then double
    else 0
  }

  /** Nothing outside inode slot `ino` differs. */
  ghost predicate OnlySlot(img: seq<byte>, img': seq<byte>, ino: nat) {
    |img'| == |img|
    && forall k | !(InodeOffset(ino) <= k < InodeOffset(ino) + INODE_SIZE) :: At(img', k) == At(img, k)
  }

  // ---- The writer ----

  /** What was put into the image under one inode number, and where: a file with its pointer
      blocks, or the blocks of a directory in a row, which get no pointer blocks. */
  datatype Record =
    | Record(mode: nat, links: nat, start: nat, data: seq<byte>)
    | Listing(mode: nat, links: nat, start: nat, data: seq<byte>)
  {
    function End(): nat { start + if Record? then Footprint(BlocksFor(|data|)) else BlocksFor(|data|) }
  }

  /** Inode `ino` names the first twelve of the blocks from `s`, which hold `data`. */
  ghost predicate InARow(img: seq<byte>, ino: nat, s: nat, data: seq<byte>) {
    && HasAt(img, s * BLOCK_SIZE, data)
    && InodeSize(img, ino) == |data| && InodeSectors(img, ino) == 8 * BlocksFor(|data|)
    && (forall i: nat | i < DIRECT && i < BlocksFor(|data|) :: InodePointer(img, ino, i) == s + i)
    && InodePointer(img, ino, 12) == 0 && InodePointer(img, ino, 13) == 0
  }

  ghost predicate InRange(nextBlock: nat, highBlock: nat, nextInode: nat) {
    && FIRST_DATA_BLOCK <= nextBlock <= BITMAP_CAPACITY
    && BITMAP_CAPACITY <= highBlock <= TOTAL_BLOCKS
    && 12 <= nextInode <= INODES_PER_GROUP + 1
  }

  /** The blocks of a record lie in the part of one zone that has been handed out. */
  ghost predicate HandedOut(r: Record, nextBlock: nat, highBlock: nat) {
    (FIRST_DATA_BLOCK <= r.start && r.End() <= nextBlock) || (BITMAP_CAPACITY <= r.start && r.End() <= highBlock)
  }

  ghost predicate Holds(img: seq<byte>, ino: nat, r: Record) {
    && (if r.Record? then Stored(img, ino, r.start, r.data) else InARow(img, ino, r.start, r.data))
    && InodeMode(img, ino) == r.mode && InodeLinks(img, ino) == r.links
  }

  ghost predicate Disjoint(a: Record, b: Record) {
    a.End() <= b.start || b.End() <= a.start
  }

  /** Records use known inode numbers and blocks that were handed out, and share none. */
  ghost predicate Placed(nextBlock: nat, highBlock: nat, nextInode: nat, files: map<nat, Record>) {
    && (forall ino | ino in files :: 1 <= ino < nextInode && HandedOut(files[ino], nextBlock, highBlock))
    && (forall a, b | a in files && b in files && a != b :: Disjoint(files[a], files[b]))
  }

  ghost predicate AllHold(img: seq<byte>, files: map<nat, Record>) {
    forall ino | ino in files :: Holds(img, ino, files[ino])
  }

  /** `r` takes the next blocks of one zone. */
  ghost predicate Takes(r: Record, nextBlock: nat, highBlock: nat, nextBlock': nat, highBlock': nat) {
    || (r.start == nextBlock && r.End() == nextBlock' && highBlock' == highBlock)
    || (r.start == highBlock && r.End() == highBlock' && nextBlock' == nextBlock)
  }

  lemma {:induction false} PlacedMore(nextBlock: nat, highBlock: nat, nextBlock': nat, highBlock': nat,
      nextInode: nat, files: map<nat, Record>, ino: nat, r: Record)
    requires InRange(nextBlock, highBlock, nextInode) && InRange(nextBlock', highBlock', nextInode)
    requires Placed(nextBlock, highBlock, nextInode, files) && Takes(r, nextBlock, highBlock, nextBlock', highBlock')
    requires 1 <= ino < nextInode && ino !in files
    ensures Placed(nextBlock', highBlock', nextInode, files[ino := r])
    ensures forall other | other in files :: Disjoint(files[other], r)
  {
  }

  /** One more file, in blocks not handed out before and under a new inode, disturbs no earlier one. */
  lemma {:induction false} HeldMore(img: seq<byte>, mid: seq<byte>, img': seq<byte>, nextBlock: nat,
      highBlock: nat, nextInode: nat, files: map<nat, Record>, ino: nat, r: Record)
    requires InRange(nextBlock, highBlock, nextInode) && Placed(nextBlock, highBlock, nextInode, files)
    requires FIRST_DATA_BLOCK <= r.start && 1 <= ino < nextInode && ino !in files
    requires forall other | other in files :: Disjoint(files[other], r)
    requires OnlyBlocks(img, mid, r.start, r.End()) && OnlySlot(mid, img', ino)
    requires AllHold(img, files) && Holds(img', ino, r)
    ensures AllHold(img', files[ino := r])
  {
    var files' := files[ino := r];
    forall other | other in files' ensures Holds(img', other, files'[other]) {
      if other != ino {
        RecordKept(img, mid, img', ino, r.start, r.End(), other, files[other]);
      }
    }
  }

  class Writer {
    const now: u32
    var img: seq<byte>
    var nextBlock: nat
    var highBlock: nat
    var useHighZone: bool
    var nextInode: nat
    /** Everything stored so far, by inode number. */
    ghost var files: map<nat, Record>

    ghost predicate Counters()
      reads this
    {
      |img| == IMAGE_BYTES && InRange(nextBlock, highBlock, nextInode)
    }

    /** Every file stored so far is still there, and no two share a block. */
    ghost predicate Valid()
      reads this
    {
      Counters() && Placed(nextBlock, highBlock, nextInode, files) && AllHold(img, files)
    }

    function Cursor(): nat
      reads this
    {
      if useHighZone then highBlock else nextBlock
    }

    function Limit(): nat
      reads this
    {
      if useHighZone then TOTAL_BLOCKS else BITMAP_CAPACITY
    }

    constructor (now: u32)
      ensures Valid() && files == map[] && !useHighZone && nextInode == 12
      ensures nextBlock == FIRST_DATA_BLOCK && highBlock == BITMAP_CAPACITY
    {
      this.now := now;
      img := Zeros(IMAGE_BYTES);
      nextBlock, highBlock, useHighZone, nextInode := FIRST_DATA_BLOCK, BITMAP_CAPACITY, false, 12;
      files := map[];
    }

    /** `alloc_block`; `ok` is false where the script reports exhaustion and exits. */
    method AllocBlock() returns (ok: bool, b: nat)
      requires Counters()
      modifies this`nextBlock, this`highBlock
      ensures b == old(Cursor()) && ok == (b < Limit())
      ensures ok ==> Counters() && Cursor() == b + 1
      ensures if useHighZone then nextBlock == old(nextBlock) else highBlock == old(highBlock)
    {
      if useHighZone {
        b := highBlock;
        highBlock := highBlock + 1;
        ok := b < TOTAL_BLOCKS;
      } else {
        b := nextBlock;
        nextBlock := nextBlock + 1;
        ok := b < BITMAP_CAPACITY;
      }
    }

    method AllocInode() returns (ok: bool, i: nat)
      requires Valid()
      modifies this`nextInode
      ensures i == old(nextInode) && ok == (i <= INODES_PER_GROUP)
      ensures ok ==> Valid() && nextInode == i + 1 && i !in files
    {
      i := nextInode;
      nextInode := nextInode + 1;
      ok := i <= INODES_PER_GROUP;
    }

    /** As many blocks as asked for, one after the other. */
    method AllocRun(count: nat) returns (ok: bool, blocks: seq<nat>)
      requires Counters()
      modifies this`nextBlock, this`highBlock
      ensures ok == (old(Cursor()) + count <= Limit())
      ensures ok ==> Counters() && Cursor() == old(Cursor()) + count && |blocks| == count
      ensures ok ==> forall i | 0 <= i < count :: blocks[i] == old(Cursor()) + i
      ensures if useHighZone then nextBlock == old(nextBlock) else highBlock == old(highBlock)
    {
      blocks := [];
      for n := 0 to count
        invariant Counters() && Cursor() == old(Cursor()) + n && |blocks| == n
        invariant forall i | 0 <= i < n :: blocks[i] == old(Cursor()) + i
        invariant if useHighZone then nextBlock == old(nextBlock) else highBlock == old(highBlock)
      {
        var got, b := AllocBlock();
        if !got {
          return false, blocks;
        }
        blocks := blocks + [b];
      }
      ok := true;
    }

    /** `alloc_file_blocks`. A pointer block that is not needed comes back as 0 (`None`). */
    method AllocFileBlocks(size: nat) returns (ok: bool, blocks: seq<nat>, single: nat, double: nat)
      requires Counters()
      modifies this`nextBlock, this`highBlock
      ensures var n, s := BlocksFor(size), old(Cursor());
        && ok == (s + Footprint(n) - SubTables(n) <= Limit())
        && (ok ==>
          && Counters() && Cursor() == s + Footprint(n) - SubTables(n)
          && |blocks| == n && (forall i | 0 <= i < n :: blocks[i] == DataBlock(s, i))
          && single == (if n > DIRECT then SingleBlock(s) else 0)
          && double == (if n > SINGLE_LIMIT then DoubleBlock(s) else 0))
      ensures if useHighZone then nextBlock == old(nextBlock) else highBlock == old(highBlock)
    {
      var n := BlocksFor(size);
      single, double := 0, 0;
      ok, blocks := AllocRun(Min(n, DIRECT));
      if !ok {
        return;
      }
      if n > DIRECT {
        ok, single := AllocBlock();
        if !ok {
          return;
        }
        var more;
        ok, more := AllocRun(Min(n - DIRECT, FANOUT));
        if !ok {
          return;
        }
        blocks := blocks + more;
      }
      if n > SINGLE_LIMIT {
        ok, double := AllocBlock();
        if !ok {
          return;
        }
        var more;
        ok, more := AllocRun(n - SINGLE_LIMIT);
        if !ok {
          return;
        }
        blocks := blocks + more;
      }
    }

    method WriteBlock(b: nat, data: seq<byte>)
      modifies this`img
      ensures img == BlockWritten(old(img), b, data)
    {
      img := SliceAssign(img, b * BLOCK_SIZE, b * BLOCK_SIZE + |data|, data[..Min(BLOCK_SIZE, |data|)]);
    }

    /** The data loop of `write_file_data`. */
    method WriteData(data: seq<byte>, blocks: seq<nat>, ghost s: nat)
      requires |img| == IMAGE_BYTES && |blocks| == BlocksFor(|data|)
      requires forall i | 0 <= i < |blocks| :: blocks[i] == DataBlock(s, i)
      requires forall i | 0 <= i < |blocks| :: blocks[i] < TOTAL_BLOCKS
      modifies this`img
      ensures HasData(img, s, data) && OnlyBlocks(old(img), img, s, s + Footprint(|blocks|))
    {
      for i := 0 to |blocks|
        invariant OnlyBlocks(old(img), img, s, s + Footprint(|blocks|))
        invariant HasData(img, s, data[..Min(i * BLOCK_SIZE, |data|)])
      {
        var start := i * BLOCK_SIZE;
        var end := Min(start + BLOCK_SIZE, |data|);
        if start < |data| {
          BlockWrittenInPlace(img, blocks[i], data[start..end]);
          DataBlockWritten(img, s, data, i);
          WriteBlock(blocks[i], data[start..end]);
        }
      }
      assert data[..|data|] == data;
    }

    /** One pointer block, built word by word and zero-filled. */
    method WritePointers(b: nat, ws: seq<u32>)
      requires (b + 1) * BLOCK_SIZE <= |img| && |ws| <= FANOUT
      modifies this`img
      ensures OnlyBlock(old(img), img, b)
      ensures forall j: nat | j < |ws| :: BlockWord(img, b, j) == ws[j]
    {
      var data := [];
      for i := 0 to |ws|
        invariant data == PackWords(ws[..i])
      {
        assert ws[..i + 1][..i] == ws[..i];
        data := data + Le32(ws[i]);
      }
      assert ws[..|ws|] == ws;
      data := data + Zeros(BLOCK_SIZE - |data|);
      assert data == PointerBlock(ws);
      BlockWrittenInPlace(img, b, data);
      PointerBlockWords(img, b, ws);
      WriteBlock(b, data);
    }

    /** The second-level blocks under a double-indirect block, allocated as they are written. */
    method WriteSubTables(blocks: seq<u32>, ghost s: nat) returns (ok: bool, ptrs: seq<u32>)
      requires Counters() && SINGLE_LIMIT < |blocks|
      requires forall i | 0 <= i < |blocks| :: blocks[i] == DataBlock(s, i)
      requires Cursor() == s + |blocks| + 2
      modifies this`img, this`nextBlock, this`highBlock
      ensures ok == (s + Footprint(|blocks|) <= Limit())
      ensures ok ==> Counters() && Cursor() == s + Footprint(|blocks|) && |ptrs| == SubTables(|blocks|)
      ensures ok ==> forall i | 0 <= i < |ptrs| :: ptrs[i] == SubBlock(s, |blocks|, i)
      ensures ok ==> forall i: nat | i < |ptrs| :: HasSub(img, s, |blocks|, i)
      ensures ok ==> OnlyBlocks(old(img), img, s + |blocks| + 2, s + Footprint(|blocks|))
      ensures if useHighZone then nextBlock == old(nextBlock) else highBlock == old(highBlock)
    {
      var n := |blocks|;
      ptrs := [];
      for g := 0 to CeilDiv(n - SINGLE_LIMIT, FANOUT)
        invariant Counters() && Cursor() == s + n + 2 + g
        invariant |ptrs| == g && forall i | 0 <= i < g :: ptrs[i] == SubBlock(s, n, i)
        invariant OnlyBlocks(old(img), img, s + n + 2, s + n + 2 + g)
        invariant forall i: nat | i < g :: HasSub(img, s, n, i)
        invariant if useHighZone then nextBlock == old(nextBlock) else highBlock == old(highBlock)
      {
        var got, b := AllocBlock();
        if !got {
          return false, ptrs;
        }
        var lo := SINGLE_LIMIT + g * FANOUT;
        ghost var before := img;
        WritePointers(b, blocks[lo..Min(lo + FANOUT, n)]);
        SubTableWritten(before, img, s, n, g, blocks);
        ptrs := ptrs + [b];
      }
      ok := true;
    }

    /** The double-indirect half of `write_file_data`. */
    method WriteDouble(blocks: seq<u32>, double: nat, ghost s: nat) returns (ok: bool)
      requires Counters() && SINGLE_LIMIT < |blocks| && double == DoubleBlock(s)
      requires forall i | 0 <= i < |blocks| :: blocks[i] == DataBlock(s, i)
      requires Cursor() == s + |blocks| + 2
      modifies this`img, this`nextBlock, this`highBlock
      ensures ok == (s + Footprint(|blocks|) <= Limit())
      ensures ok ==> Counters() && Cursor() == s + Footprint(|blocks|)
      ensures ok ==> HasDouble(img, s, |blocks|)
      ensures ok ==> OnlyBlocks(old(img), img, s + 1037, s + Footprint(|blocks|))
      ensures ok ==> SameBlocks(old(img), img, s + 1038, s + |blocks| + 2)
      ensures if useHighZone then nextBlock == old(nextBlock) else highBlock == old(highBlock)
    {
      var ptrs;
      ok, ptrs := WriteSubTables(blocks, s);
      if ok {
        ghost var before := img;
        WritePointers(double, ptrs);
        RootWritten(before, img, s, |blocks|, ptrs);
      }
    }

    /** `write_file_data`: the data blocks, then the pointer blocks over them. */
    method WriteFileData(data: seq<byte>, blocks: seq<u32>, single: nat, double: nat, ghost s: nat) returns (ok: bool)
      requires var n := BlocksFor(|data|);
        && Counters() && |blocks| == n && (forall i | 0 <= i < n :: blocks[i] == DataBlock(s, i))
        && single == (if n > DIRECT then SingleBlock(s) else 0)
        && double == (if n > SINGLE_LIMIT then DoubleBlock(s) else 0)
        && 0 < s && Cursor() == s + Footprint(n) - SubTables(n)
      modifies this`img, this`nextBlock, this`highBlock
      ensures var n := BlocksFor(|data|);
        && ok == (s + Footprint(n) <= Limit())
        && (ok ==>
          && Counters() && Cursor() == s + Footprint(n)
          && HasBody(img, s, data)
          && OnlyBlocks(old(img), img, s, s + Footprint(n)))
      ensures if useHighZone then nextBlock == old(nextBlock) else highBlock == old(highBlock)
    {
      var n := |blocks|;
      WriteData(data, blocks, s);
      if single != 0 {
        ghost var before := img;
        var ws := blocks[DIRECT..Min(DIRECT + FANOUT, n)];
        WritePointers(single, ws);
        HasDataKept(before, img, s, data, single);
        assert forall j: nat | j < |ws| :: ws[j] == blocks[DIRECT + j];
      }
      ok := true;
      if double != 0 {
        ghost var before := img;
        ok := WriteDouble(blocks, double, s);
        if ok {
          HasDataKeptByDouble(before, img, s, data);
          SameSingle(before, img, s, n);
        }
      }
    }

    /** The 128 bytes of an inode as 32 words; `struct.pack('<HH', a, b)` is one word. */
    method InodeWords(mode: u16, size: u32, sectors: u32, ptrs: seq<u32>, links: u16, single: u32, double: u32)
      returns (ws: seq<u32>)
      ensures |ws| == 32
      ensures ws[0] == mode && ws[1] == size && ws[6] == 0x1_0000 * links && ws[7] == sectors
      ensures Le32(ws[0]) == Le16(mode) + Le16(0) && Le32(ws[6]) == Le16(0) + Le16(links)
      ensures forall i: nat | i < 15 :: ws[10 + i] == BlockPointer(ptrs, single, double, i)
    {
      var uid, gid := 0, 0;
      HalvesPackAsWord(mode, uid);
      HalvesPackAsWord(gid, links);
      hide Le16, Le32;
      ws := [mode + 0x1_0000 * uid, size, now, now, now, 0, gid + 0x1_0000 * links, sectors, 0, 0];
      for i := 0 to 15
        invariant |ws| == 10 + i
        invariant ws[0] == mode && ws[1] == size && ws[6] == 0x1_0000 * links && ws[7] == sectors
        invariant forall j | 10 <= j < 10 + i :: ws[j] == BlockPointer(ptrs, single, double, j - 10)
      {
        ws := ws + [BlockPointer(ptrs, single, double, i)];
      }
      ws := ws + [0, 0, 0, 0, 0, 0, 0];
    }

    method WriteSlot(ino: nat, ws: seq<u32>)
      requires |img| == IMAGE_BYTES && 1 <= ino <= INODES_PER_GROUP && |ws| == 32
      modifies this`img
      ensures OnlySlot(old(img), img, ino)
      ensures InodeMode(img, ino) == ws[0] % 0x1_0000 && InodeSize(img, ino) == ws[1]
      ensures InodeLinks(img, ino) == ws[6] / 0x1_0000 && InodeSectors(img, ino) == ws[7]
      ensures forall i: nat | i < 15 :: InodePointer(img, ino, i) == ws[10 + i]
    {
      var data := PackWords(ws);
      SliceAssignInPlace(img, InodeOffset(ino), data);
      img := SliceAssign(img, InodeOffset(ino), InodeOffset(ino) + INODE_SIZE, data);
      SlotReads(img, ino, ws);
    }

    /** `write_inode`; `blocks` counts data blocks, `ptrs` holds the direct pointers. */
    method WriteInode(ino: nat, mode: u16, size: u32, blocks: nat, ptrs: seq<u32>, links: u16, single: u32, double: u32)
      requires |img| == IMAGE_BYTES && 1 <= ino <= INODES_PER_GROUP && blocks <= TOTAL_BLOCKS
      modifies this`img
      ensures OnlySlot(old(img), img, ino)
      ensures InodeMode(img, ino) == mode && InodeSize(img, ino) == size && InodeLinks(img, ino) == links
      ensures InodeSectors(img, ino) == 8 * (blocks + (if single != 0 then 1 else 0)
                                             + (if double != 0 then 1 + SubTables(blocks) else 0))
      ensures forall i: nat | i < 15 :: InodePointer(img, ino, i) == BlockPointer(ptrs, single, double, i)
    {
      var total := blocks;
      if single != 0 {
        total := total + 1;
      }
      if double != 0 {
        total := total + 1 + CeilDiv(if blocks > SINGLE_LIMIT then blocks - SINGLE_LIMIT else 0, FANOUT);
      }
      var ws := InodeWords(mode, size, total * (BLOCK_SIZE / 512), ptrs, links, single, double);
      WriteSlot(ino, ws);
    }

    /** Blocks, data, pointer blocks and inode of one file; `mid` is the image before the inode. */
    method PlaceFile(ino: nat, mode: u16, data: seq<byte>, links: u16) returns (ok: bool, ghost mid: seq<byte>)
      requires Counters() && 1 <= ino < nextInode
      modifies this`img, this`nextBlock, this`highBlock
      ensures var r := Record(mode, links, old(Cursor()), data);
        && ok == (r.End() <= Limit())
        && (ok ==>
          && Counters() && Cursor() == r.End() && Holds(img, ino, r)
          && OnlyBlocks(old(img), mid, r.start, r.End()) && OnlySlot(mid, img, ino))
      ensures if useHighZone then nextBlock == old(nextBlock) else highBlock == old(highBlock)
    {
      ghost var r := Record(mode, links, Cursor(), data);
      mid := img;
      var blocks, single, double;
      ok, blocks, single, double := AllocFileBlocks(|data|);
      if !ok {
        return;
      }
      ok := WriteFileData(data, blocks, single, double, r.start);
      if !ok {
        return;
      }
      mid := img;
      var direct := blocks[..Min(|blocks|, DIRECT)];
      WriteInode(ino, mode, |data|, |blocks|, direct, links, single, double);
      Assembled(mid, img, ino, r, direct, single, double);
    }

    /** One file, recorded under `ino`. `ok` is false exactly when the zone in use is too
        small, where the script exits. */
    method StoreFile(ino: nat, mode: u16, data: seq<byte>, links: u16) returns (ok: bool)
      requires Valid() && 1 <= ino < nextInode && ino !in files
      modifies this`img, this`nextBlock, this`highBlock, this`files
      ensures ok == (old(Cursor()) + Footprint(BlocksFor(|data|)) <= Limit())
      ensures ok ==> Valid() && files == old(files)[ino := Record(mode, links, old(Cursor()), data)]
      ensures ok ==> Cursor() == old(Cursor()) + Footprint(BlocksFor(|data|))
      ensures if useHighZone then nextBlock == old(nextBlock) else highBlock == old(highBlock)
    {
      ghost var r := Record(mode, links, Cursor(), data);
      ghost var mid;
      ok, mid := PlaceFile(ino, mode, data, links);
      if ok {
        PlacedMore(old(nextBlock), old(highBlock), nextBlock, highBlock, nextInode, files, ino, r);
        HeldMore(old(img), mid, img, old(nextBlock), old(highBlock), nextInode, files, ino, r);
        files := files[ino := r];
      }
    }
  }

  /** Writing blocks `[lo, hi)` and inode `ino` leaves every other record in place. */
  lemma {:induction false} RecordKept(img: seq<byte>, mid: seq<byte>, img': seq<byte>, ino: nat, lo: nat, hi: nat,
      other: nat, r: Record)
    requires OnlyBlocks(img, mid, lo, hi) && OnlySlot(mid, img', ino)
    requires 1 <= ino <= INODES_PER_GROUP && 1 <= other <= INODES_PER_GROUP && other != ino
    requires FIRST_DATA_BLOCK <= lo && FIRST_DATA_BLOCK <= r.start && r.End() <= TOTAL_BLOCKS
    requires r.End() <= lo || hi <= r.start
    requires Holds(img, other, r)
    ensures Holds(img', other, r)
  {
    if r.Record? {
      StoredFrame(img, img', other, r.start, r.data);
    } else {
      RowFrame(img, img', other, r.start, r.data);
    }
  }

  lemma {:induction false} RowFrame(img: seq<byte>, img': seq<byte>, ino: nat, s: nat, data: seq<byte>)
    requires InARow(img, ino, s, data) && SameSlot(img, img', ino) && |img'| == |img|
    requires SameBlocks(img, img', s, s + BlocksFor(|data|))
    ensures InARow(img', ino, s, data)
    ensures InodeMode(img', ino) == InodeMode(img, ino) && InodeLinks(img', ino) == InodeLinks(img, ino)
  {
    forall i: nat | i < 15 ensures InodePointer(img', ino, i) == InodePointer(img, ino, i) {
    }
    assert |data| <= BlocksFor(|data|) * BLOCK_SIZE;
  }

  /** A file's blocks, and an inode that points at them, are that file. */
  lemma {:induction false} Assembled(mid: seq<byte>, img: seq<byte>, ino: nat, r: Record, ptrs: seq<u32>,
      single: u32, double: u32)
    requires var n := BlocksFor(|r.data|);
      && |ptrs| == Min(n, DIRECT) && (forall i | 0 <= i < |ptrs| :: ptrs[i] == DataBlock(r.start, i))
      && single == (if n > DIRECT then SingleBlock(r.start) else 0)
      && double == (if n > SINGLE_LIMIT then DoubleBlock(r.start) else 0)
      && InodeSectors(img, ino) == 8 * (n + (if single != 0 then 1 else 0)
                                        + (if double != 0 then 1 + SubTables(n) else 0))
    requires HasBody(mid, r.start, r.data) && OnlySlot(mid, img, ino)
    requires 1 <= ino <= INODES_PER_GROUP && FIRST_DATA_BLOCK <= r.start && r.End() <= TOTAL_BLOCKS
    requires r.Record? && InodeMode(img, ino) == r.mode && InodeLinks(img, ino) == r.links
    requires InodeSize(img, ino) == |r.data|
    requires forall i: nat | i < 15 :: InodePointer(img, ino, i) == BlockPointer(ptrs, single, double, i)
    ensures Holds(img, ino, r)
  {
    BodyFrame(mid, img, r.start, r.data);
  }

  lemma {:induction false} HasDataKeptByDouble(img: seq<byte>, img': seq<byte>, s: nat, data: seq<byte>)
    requires HasData(img, s, data) && SINGLE_LIMIT < BlocksFor(|data|)
    requires OnlyBlocks(img, img', s + 1037, s + Footprint(BlocksFor(|data|)))
    requires SameBlocks(img, img', s + 1038, s + BlocksFor(|data|) + 2)
    ensures HasData(img', s, data)
  {
    forall k | 0 <= k < |data| ensures At(img', DataAddress(s, k)) == data[k] {
      assert k / BLOCK_SIZE < BlocksFor(|data|);
      var b := DataBlock(s, k / BLOCK_SIZE);
      assert b < s + 1037 || s + 1038 <= b < s + BlocksFor(|data|) + 2;
    }
  }

  /** Second-level table `g` has just been written; the earlier ones stay. */
  lemma {:induction false} SubTableWritten(img: seq<byte>, img': seq<byte>, s: nat, n: nat, g: nat, blocks: seq<u32>)
    requires SINGLE_LIMIT < n == |blocks| && g < SubTables(n)
    requires forall i | 0 <= i < n :: blocks[i] == DataBlock(s, i)
    requires OnlyBlock(img, img', SubBlock(s, n, g))
    requires forall i: nat | i < g :: HasSub(img, s, n, i)
    requires var lo := SINGLE_LIMIT + g * FANOUT; var ws := blocks[lo..Min(lo + FANOUT, n)];
      forall j: nat | j < |ws| :: BlockWord(img', SubBlock(s, n, g), j) == ws[j]
    ensures forall i: nat | i < g + 1 :: HasSub(img', s, n, i)
  {
    forall i: nat | i < g + 1 ensures HasSub(img', s, n, i) {
      if i < g {
        assert HasSub(img, s, n, i);
        SameSub(img, img', s, n, i);
      } else {
        var lo := SINGLE_LIMIT + g * FANOUT;
        var ws := blocks[lo..Min(lo + FANOUT, n)];
        assert forall j: nat | j < |ws| :: ws[j] == blocks[lo + j];
      }
    }
  }

  /** The double-indirect root has just been written over its complete second level. */
  lemma {:induction false} RootWritten(img: seq<byte>, img': seq<byte>, s: nat, n: nat, ptrs: seq<u32>)
    requires SINGLE_LIMIT < n && |ptrs| == SubTables(n) && OnlyBlock(img, img', DoubleBlock(s))
    requires forall i | 0 <= i < |ptrs| :: ptrs[i] == SubBlock(s, n, i)
    requires forall i: nat | i < SubTables(n) :: HasSub(img, s, n, i)
    requires forall j: nat | j < |ptrs| :: BlockWord(img', DoubleBlock(s), j) == ptrs[j]
    ensures HasDouble(img', s, n)
  {
    forall g: nat | g < SubTables(n) ensures HasSub(img', s, n, g) {
      assert HasSub(img, s, n, g);
      SameSub(img, img', s, n, g);
    }
  }
}
