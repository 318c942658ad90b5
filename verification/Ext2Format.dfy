/** The ext2 on-disk format: the kernel's read path over an image, the shape in which the
    image writer lays out one file, and the proof that the first reads back the second. */
module Ext2Format {
  import opened Bytes

  const BLOCK_SIZE: nat := 4096
  const TOTAL_BLOCKS: nat := 262144
  const IMAGE_BYTES: nat := TOTAL_BLOCKS * BLOCK_SIZE
  const INODES_PER_GROUP: nat := 32768
  const INODE_SIZE: nat := 128
  const FIRST_DATA_BLOCK: nat := 1028
  const BITMAP_CAPACITY: nat := 32768
  const DIRECT: nat := 12
  const FANOUT: nat := 1024
  const SINGLE_LIMIT: nat := 1036

  // ---- The kernel's reader ----

  function InodeOffset(ino: nat): int {
    4 * BLOCK_SIZE + (ino - 1) * INODE_SIZE
  }

  /** `readU32FromBlock(block, 4 * j)` */
  function BlockWord(img: seq<byte>, b: nat, j: nat): nat {
    U32At(img, b * BLOCK_SIZE + 4 * j)
  }

  function InodeMode(img: seq<byte>, ino: nat): nat { U16At(img, InodeOffset(ino)) }
  function InodeSize(img: seq<byte>, ino: nat): nat { U32At(img, InodeOffset(ino) + 4) }
  function InodeLinks(img: seq<byte>, ino: nat): nat { U16At(img, InodeOffset(ino) + 26) }
  function InodeSectors(img: seq<byte>, ino: nat): nat { U32At(img, InodeOffset(ino) + 28) }
  function InodePointer(img: seq<byte>, ino: nat, i: nat): nat {
    U32At(img, InodeOffset(ino) + 40 + 4 * i)
  }

  function NonZero(b: nat): Option<nat> { if b == 0 then None else Some(b) }

  /** `getFileBlock`: direct, single-indirect and double-indirect address translation. */
  function GetFileBlock(img: seq<byte>, ino: nat, l: nat): Option<nat> {
    if l < DIRECT then NonZero(InodePointer(img, ino, l))
    else if l < SINGLE_LIMIT then
      var single := InodePointer(img, ino, 12);
      if single == 0 then None else NonZero(BlockWord(img, single, l - DIRECT))
    else if l < SINGLE_LIMIT + FANOUT * FANOUT then
      var double := InodePointer(img, ino, 13);
      if double == 0 then None else
        var single := BlockWord(img, double, (l - SINGLE_LIMIT) / FANOUT);
        if single == 0 then None else NonZero(BlockWord(img, single, (l - SINGLE_LIMIT) % FANOUT))
    else None
  }

  /** The byte at offset `k` of a file; an unmapped block reads as zeros. */
  function FileByte(img: seq<byte>, ino: nat, k: nat): byte {
    match GetFileBlock(img, ino, k / BLOCK_SIZE)
    case None => 0
    case Some(b) => At(img, b * BLOCK_SIZE + k % BLOCK_SIZE)
  }

  function FileContents(img: seq<byte>, ino: nat): seq<byte> {
    seq(InodeSize(img, ino), k requires 0 <= k => FileByte(img, ino, k))
  }

  /** `ext2Read`: block by block, at most up to the end of the file. */
  method Read(img: seq<byte>, ino: nat, offset: nat, count: nat) returns (buf: seq<byte>)
    ensures var size := InodeSize(img, ino);
      buf == FileContents(img, ino)[Min(offset, size)..Min(offset + count, size)]
  {
    hide GetFileBlock, InodeSize;
    buf := [];
    var size := InodeSize(img, ino);
    if offset >= size {
      return;
    }
    var wanted := Min(count, size - offset);
    while |buf| < wanted
      invariant |buf| <= wanted && forall i | 0 <= i < |buf| :: buf[i] == FileByte(img, ino, offset + i)
    {
      var at := offset + |buf|;
      var inBlock := at % BLOCK_SIZE;
      var chunk := Min(wanted - |buf|, BLOCK_SIZE - inBlock);
      var piece := match GetFileBlock(img, ino, at / BLOCK_SIZE)
        case None => Zeros(chunk)
        case Some(b) => Window(img, b * BLOCK_SIZE + inBlock, chunk);
      forall i | 0 <= i < chunk ensures piece[i] == FileByte(img, ino, at + i) {
        assert (at + i) / BLOCK_SIZE == at / BLOCK_SIZE && (at + i) % BLOCK_SIZE == inBlock + i;
      }
      buf := buf + piece;
    }
  }

  /** The kernel finds an inode by two divisions, into groups and into blocks of the group's table,
      which starts at block 4 for group 0; the writer by one multiplication. */
  lemma {:induction false} InodeSlotAgrees(ino: nat)
    requires 1 <= ino <= INODES_PER_GROUP
    ensures (ino - 1) / INODES_PER_GROUP == 0
    ensures var index, perBlock := (ino - 1) % INODES_PER_GROUP, BLOCK_SIZE / INODE_SIZE;
      && (4 + index / perBlock) * BLOCK_SIZE + index % perBlock * INODE_SIZE == InodeOffset(ino)
      && index % perBlock * INODE_SIZE + INODE_SIZE <= BLOCK_SIZE && 4 + index / perBlock < FIRST_DATA_BLOCK
  {
  }

  // ---- The writer's layout ----

  function BlocksFor(size: nat): nat { CeilDiv(size, BLOCK_SIZE) }

  /** How many second-level pointer blocks hang off the double-indirect block. */
  function SubTables(n: nat): nat {
    if n > SINGLE_LIMIT then CeilDiv(n - SINGLE_LIMIT, FANOUT) else 0
  }

  /** All blocks a file of `n` data blocks takes, pointer blocks included. */
  function Footprint(n: nat): nat {
    n + (if n > DIRECT then 1 else 0) + (if n > SINGLE_LIMIT then 1 + SubTables(n) else 0)
  }

  /** Where data block `i` of a file that starts at block `s` goes: the pointer blocks are
      allocated in between, so the run is broken after blocks 11 and 1035. */
  function DataBlock(s: nat, i: nat): nat {
    if i < DIRECT then s + i else if i < SINGLE_LIMIT then s + i + 1 else s + i + 2
  }

  function SingleBlock(s: nat): nat { s + 12 }
  function DoubleBlock(s: nat): nat { s + 1037 }
  function SubBlock(s: nat, n: nat, g: nat): nat { s + n + 2 + g }

  function DataAddress(s: nat, k: nat): nat {
    DataBlock(s, k / BLOCK_SIZE) * BLOCK_SIZE + k % BLOCK_SIZE
  }

  ghost predicate HasData(img: seq<byte>, s: nat, data: seq<byte>) {
    forall k | 0 <= k < |data| :: At(img, DataAddress(s, k)) == data[k]
  }

  ghost predicate HasSingle(img: seq<byte>, s: nat, n: nat) {
    forall j: nat | j < FANOUT && DIRECT + j < n :: BlockWord(img, SingleBlock(s), j) == DataBlock(s, DIRECT + j)
  }

  ghost predicate HasSub(img: seq<byte>, s: nat, n: nat, g: nat) {
    forall j: nat | j < FANOUT && SINGLE_LIMIT + FANOUT * g + j < n ::
      BlockWord(img, SubBlock(s, n, g), j) == DataBlock(s, SINGLE_LIMIT + FANOUT * g + j)
  }

  ghost predicate HasDouble(img: seq<byte>, s: nat, n: nat) {
    && (forall g: nat | g < SubTables(n) :: BlockWord(img, DoubleBlock(s), g) == SubBlock(s, n, g))
    && (forall g: nat | g < SubTables(n) :: HasSub(img, s, n, g))
  }

  ghost predicate HasInode(img: seq<byte>, ino: nat, s: nat, size: nat) {
    var n := BlocksFor(size);
    && InodeSize(img, ino) == size
    && InodeSectors(img, ino) == 8 * Footprint(n)
    && (forall i: nat | i < DIRECT && i < n :: InodePointer(img, ino, i) == DataBlock(s, i))
    && (n > DIRECT ==> InodePointer(img, ino, 12) == SingleBlock(s))
    && (n > SINGLE_LIMIT ==> InodePointer(img, ino, 13) == DoubleBlock(s))
  }

  ghost predicate HasBody(img: seq<byte>, s: nat, data: seq<byte>) {
    var n := BlocksFor(|data|);
    && HasData(img, s, data)
    && (n > DIRECT ==> HasSingle(img, s, n))
    && (n > SINGLE_LIMIT ==> HasDouble(img, s, n))
  }

  /** Inode `ino` holds `data` in the blocks from `s`. */
  ghost predicate Stored(img: seq<byte>, ino: nat, s: nat, data: seq<byte>) {
    HasInode(img, ino, s, |data|) && HasBody(img, s, data)
  }

  lemma {:induction false} StoredBlock(img: seq<byte>, ino: nat, s: nat, data: seq<byte>, l: nat)
    requires Stored(img, ino, s, data)
    requires 0 < s && l < BlocksFor(|data|) <= TOTAL_BLOCKS
    ensures GetFileBlock(img, ino, l) == Some(DataBlock(s, l))
  {
    var n := BlocksFor(|data|);
    if DIRECT <= l < SINGLE_LIMIT {
      assert BlockWord(img, SingleBlock(s), l - DIRECT) == DataBlock(s, DIRECT + (l - DIRECT));
    } else if SINGLE_LIMIT <= l {
      var g, j := (l - SINGLE_LIMIT) / FANOUT, (l - SINGLE_LIMIT) % FANOUT;
      assert g < SubTables(n);
      assert HasSub(img, s, n, g);
      assert BlockWord(img, SubBlock(s, n, g), j) == DataBlock(s, SINGLE_LIMIT + FANOUT * g + j);
    }
  }

  /** The kernel reads back exactly what was laid out. */
  lemma {:induction false} StoredReads(img: seq<byte>, ino: nat, s: nat, data: seq<byte>)
    requires Stored(img, ino, s, data)
    requires 0 < s && BlocksFor(|data|) <= TOTAL_BLOCKS
    ensures FileContents(img, ino) == data
  {
    forall k | 0 <= k < |data| ensures FileByte(img, ino, k) == data[k] {
      StoredBlock(img, ino, s, data, k / BLOCK_SIZE);
      assert At(img, DataAddress(s, k)) == data[k];
    }
  }

  // ---- Framing ----

  /** `img` and `img'` have the same bytes at the addresses in `[lo, hi)`. */
  ghost predicate Same(img: seq<byte>, img': seq<byte>, lo: int, hi: int) {
    forall k | lo <= k < hi :: At(img', k) == At(img, k)
  }

  ghost predicate SameSlot(img: seq<byte>, img': seq<byte>, ino: nat) {
    Same(img, img', InodeOffset(ino), InodeOffset(ino) + INODE_SIZE)
  }

  ghost predicate SameBlocks(img: seq<byte>, img': seq<byte>, lo: nat, hi: nat) {
    Same(img, img', lo * BLOCK_SIZE, hi * BLOCK_SIZE)
  }

  lemma {:induction false} DataAddressBounds(s: nat, n: nat, k: nat)
    requires k < n * BLOCK_SIZE
    ensures s * BLOCK_SIZE <= DataAddress(s, k) < (s + Footprint(n)) * BLOCK_SIZE
  {
    assert k / BLOCK_SIZE < n;
  }

  lemma {:induction false} SameBlockWord(img: seq<byte>, img': seq<byte>, lo: nat, hi: nat, b: nat, j: nat)
    requires SameBlocks(img, img', lo, hi) && lo <= b < hi && j < FANOUT
    ensures BlockWord(img', b, j) == BlockWord(img, b, j)
  {
    assert lo * BLOCK_SIZE <= b * BLOCK_SIZE + 4 * j && b * BLOCK_SIZE + 4 * j + 3 < hi * BLOCK_SIZE;
  }

  lemma {:induction false} SameInode(img: seq<byte>, img': seq<byte>, ino: nat, s: nat, size: nat)
    requires SameSlot(img, img', ino) && HasInode(img, ino, s, size)
    ensures HasInode(img', ino, s, size)
    ensures InodeMode(img', ino) == InodeMode(img, ino) && InodeLinks(img', ino) == InodeLinks(img, ino)
  {
    forall i: nat | i < 15 ensures InodePointer(img', ino, i) == InodePointer(img, ino, i) {
    }
  }

  lemma {:induction false} SameSingle(img: seq<byte>, img': seq<byte>, s: nat, n: nat)
    requires n > DIRECT && HasSingle(img, s, n) && SameBlocks(img, img', SingleBlock(s), SingleBlock(s) + 1)
    ensures HasSingle(img', s, n)
  {
    forall j: nat | j < FANOUT && DIRECT + j < n
      ensures BlockWord(img', SingleBlock(s), j) == DataBlock(s, DIRECT + j)
    {
      SameBlockWord(img, img', SingleBlock(s), SingleBlock(s) + 1, SingleBlock(s), j);
    }
  }

  lemma {:induction false} SameSub(img: seq<byte>, img': seq<byte>, s: nat, n: nat, g: nat)
    requires HasSub(img, s, n, g) && SameBlocks(img, img', SubBlock(s, n, g), SubBlock(s, n, g) + 1)
    ensures HasSub(img', s, n, g)
  {
    var b := SubBlock(s, n, g);
    forall j: nat | j < FANOUT && SINGLE_LIMIT + FANOUT * g + j < n
      ensures BlockWord(img', b, j) == DataBlock(s, SINGLE_LIMIT + FANOUT * g + j)
    {
      SameBlockWord(img, img', b, b + 1, b, j);
    }
  }

  lemma {:induction false} SameDouble(img: seq<byte>, img': seq<byte>, s: nat, n: nat)
    requires SINGLE_LIMIT < n <= TOTAL_BLOCKS && HasDouble(img, s, n)
    requires SameBlocks(img, img', s, s + Footprint(n))
    ensures HasDouble(img', s, n)
  {
    forall g: nat | g < SubTables(n)
      ensures BlockWord(img', DoubleBlock(s), g) == SubBlock(s, n, g) && HasSub(img', s, n, g)
    {
      SameBlockWord(img, img', s, s + Footprint(n), DoubleBlock(s), g);
      assert HasSub(img, s, n, g);
      SameSub(img, img', s, n, g);
    }
  }

  lemma {:induction false} BodyFrame(img: seq<byte>, img': seq<byte>, s: nat, data: seq<byte>)
    requires HasBody(img, s, data) && BlocksFor(|data|) <= TOTAL_BLOCKS
    requires SameBlocks(img, img', s, s + Footprint(BlocksFor(|data|)))
    ensures HasBody(img', s, data)
  {
    var n := BlocksFor(|data|);
    forall k | 0 <= k < |data| ensures At(img', DataAddress(s, k)) == data[k] {
      DataAddressBounds(s, n, k);
    }
    if n > DIRECT {
      SameSingle(img, img', s, n);
    }
    if n > SINGLE_LIMIT {
      SameDouble(img, img', s, n);
    }
  }

  /** A change outside a file's blocks and inode slot leaves the file as it was. */
  lemma {:induction false} StoredFrame(img: seq<byte>, img': seq<byte>, ino: nat, s: nat, data: seq<byte>)
    requires Stored(img, ino, s, data) && BlocksFor(|data|) <= TOTAL_BLOCKS
    requires SameSlot(img, img', ino)
    requires SameBlocks(img, img', s, s + Footprint(BlocksFor(|data|)))
    ensures Stored(img', ino, s, data)
    ensures InodeMode(img', ino) == InodeMode(img, ino) && InodeLinks(img', ino) == InodeLinks(img, ino)
  {
    SameInode(img, img', ino, s, |data|);
    BodyFrame(img, img', s, data);
  }
}
