/** Extent trees: the runs the image writer groups a file's blocks into, the root and leaf it
    packs them in, and the kernel's lookup. */
module Ext4Extents {
  import opened Bytes
  import opened Ext2Image
  import opened Ext2Format

  const MAX_LEN: nat := 32768
  const MAGIC: u16 := 0xF30A
  const IN_INODE: nat := 4
  const IN_BLOCK: nat := 340
  const IBLOCK_SIZE: nat := 60

  datatype Extent = Extent(logical: nat, len: nat, start: nat)

  // ---- Runs ----

  /** The extent is a run of consecutive blocks. */
  ghost predicate IsRun(blocks: seq<nat>, e: Extent) {
    && 1 <= e.len <= MAX_LEN && e.logical + e.len <= |blocks|
    && forall k | e.logical <= k < e.logical + e.len :: blocks[k] == e.start + (k - e.logical)
  }

  /** The extents cover the first `n` blocks, one after the other. */
  ghost predicate Tiles(exts: seq<Extent>, blocks: seq<nat>, n: nat) {
    && (forall i | 0 <= i < |exts| :: IsRun(blocks, exts[i]))
    && (forall i | 0 <= i < |exts| - 1 :: exts[i + 1].logical == exts[i].logical + exts[i].len)
    && (if exts == [] then n == 0 else exts[0].logical == 0 && exts[|exts| - 1].logical + exts[|exts| - 1].len == n)
  }

  /** No extent could have taken one block more. */
  ghost predicate Greedy(exts: seq<Extent>) {
    forall i | 0 <= i < |exts| - 1 :: exts[i].len == MAX_LEN || exts[i + 1].start != exts[i].start + exts[i].len
  }

  /** The grouping loop of `make_extent_iblock`. */
  method FindRuns(blocks: seq<nat>) returns (exts: seq<Extent>)
    requires blocks != []
    ensures Tiles(exts, blocks, |blocks|) && Greedy(exts)
  {
    exts := [];
    var run := Extent(0, 1, blocks[0]);
    for i := 1 to |blocks|
      invariant Tiles(exts, blocks, run.logical) && IsRun(blocks, run) && run.logical + run.len == i
      invariant Greedy(exts + [run])
    {
      if blocks[i] == run.start + run.len && run.len < MAX_LEN {
        GreedyLonger(exts, run, run.(len := run.len + 1));
        run := run.(len := run.len + 1);
      } else {
        GreedyMore(exts, run, Extent(i, 1, blocks[i]));
        TilesMore(exts, blocks, run);
        exts := exts + [run];
        run := Extent(i, 1, blocks[i]);
      }
    }
    TilesMore(exts, blocks, run);
    exts := exts + [run];
  }

  lemma {:induction false} TilesMore(exts: seq<Extent>, blocks: seq<nat>, e: Extent)
    requires Tiles(exts, blocks, e.logical) && IsRun(blocks, e)
    ensures Tiles(exts + [e], blocks, e.logical + e.len)
  {
  }

  lemma {:induction false} GreedyLonger(exts: seq<Extent>, e: Extent, f: Extent)
    requires Greedy(exts + [e]) && f.start == e.start
    ensures Greedy(exts + [f])
  {
    var a, b := exts + [e], exts + [f];
    assert forall k | 0 <= k < |b| :: b[k].start == a[k].start && (k < |b| - 1 ==> b[k] == a[k]);
  }

  lemma {:induction false} GreedyMore(exts: seq<Extent>, e: Extent, f: Extent)
    requires Greedy(exts + [e]) && (e.len == MAX_LEN || f.start != e.start + e.len)
    ensures Greedy(exts + [e] + [f])
  {
    var a, b := exts + [e], exts + [e] + [f];
    assert forall k | 0 <= k < |a| :: b[k] == a[k];
  }

  /** Blocks handed out one after the other need exactly one extent per 32768 of them. */
  lemma {:induction false} ContiguousRuns(exts: seq<Extent>, blocks: seq<nat>)
    requires Tiles(exts, blocks, |blocks|) && Greedy(exts)
    requires forall k | 0 <= k < |blocks| :: blocks[k] == blocks[0] + k
    ensures |exts| == CeilDiv(|blocks|, MAX_LEN)
  {
    if exts != [] {
      forall i | 0 <= i < |exts| - 1 ensures exts[i].len == MAX_LEN {
        var e, f := exts[i], exts[i + 1];
        assert IsRun(blocks, e) && IsRun(blocks, f);
        assert blocks[e.logical] == e.start && blocks[f.logical] == f.start;
      }
      FullRuns(exts, blocks, |exts| - 1);
    }
  }

  lemma {:induction false} FullRuns(exts: seq<Extent>, blocks: seq<nat>, i: nat)
    requires Tiles(exts, blocks, |blocks|) && i < |exts|
    requires forall k | 0 <= k < |exts| - 1 :: exts[k].len == MAX_LEN
    ensures exts[i].logical == i * MAX_LEN
  {
    if i > 0 {
      FullRuns(exts, blocks, i - 1);
    }
  }

  /** Exactly one extent covers each block, and it maps it where the list says. */
  lemma {:induction false} OneCovers(exts: seq<Extent>, blocks: seq<nat>, k: nat)
    requires Tiles(exts, blocks, |blocks|) && k < |blocks|
    ensures exists i | 0 <= i < |exts| :: Covers(exts[i], k) && blocks[k] == exts[i].start + (k - exts[i].logical)
    ensures forall i, j | 0 <= i < |exts| && 0 <= j < |exts| && Covers(exts[i], k) && Covers(exts[j], k) :: i == j
  {
    var i := FindCover(exts, blocks, k, |exts|);
    assert IsRun(blocks, exts[i]);
    forall i, j | 0 <= i < |exts| && 0 <= j < |exts| && Covers(exts[i], k) && Covers(exts[j], k) ensures i == j {
      if i < j {
        Ordered(exts, blocks, i, j);
      } else if j < i {
        Ordered(exts, blocks, j, i);
      }
    }
  }

  predicate Covers(e: Extent, k: nat) { e.logical <= k < e.logical + e.len }

  lemma {:induction false} Ordered(exts: seq<Extent>, blocks: seq<nat>, i: nat, j: nat)
    requires Tiles(exts, blocks, |blocks|) && i < j < |exts|
    ensures exts[i].logical + exts[i].len <= exts[j].logical
  {
    if i < j - 1 {
      Ordered(exts, blocks, i, j - 1);
      assert IsRun(blocks, exts[j - 1]);
    }
  }

  /** The extent that covers `k`, among the first `n`. */
  lemma {:induction false} FindCover(exts: seq<Extent>, blocks: seq<nat>, k: nat, n: nat) returns (i: nat)
    requires Tiles(exts, blocks, |blocks|) && 0 < n <= |exts| && k < exts[n - 1].logical + exts[n - 1].len
    ensures i < n && Covers(exts[i], k)
  {
    i := n - 1;
    if k < exts[n - 1].logical {
      assert n > 1;
      assert exts[n - 2].logical + exts[n - 2].len == exts[n - 2 + 1].logical;
      i := FindCover(exts, blocks, k, n - 1);
    }
  }

  // ---- Packing ----

  predicate Packable(e: Extent) {
    e.logical < 0x1_0000_0000 && e.len < 0x1_0000 && e.start < 0x1_0000_0000_0000
  }

  ghost predicate AllPackable(exts: seq<Extent>) { forall i | 0 <= i < |exts| :: Packable(exts[i]) }

  /** `struct.pack('<HHHHI', EXTENT_MAGIC, n, max, depth, 0)` */
  function Header(n: u16, max: u16, depth: u16): (s: seq<byte>)
    ensures |s| == 12
  {
    Le16(MAGIC) + Le16(n) + Le16(max) + Le16(depth) + Le32(0)
  }

  /** `struct.pack('<IHHI', logical, length, physical >> 32, physical)` */
  function Entry(e: Extent): (s: seq<byte>)
    requires Packable(e)
    ensures |s| == 12
  {
    Le32(e.logical) + Le16(e.len) + Le16(e.start / 0x1_0000_0000) + Le32(e.start % 0x1_0000_0000)
  }

  function Entries(exts: seq<Extent>): (s: seq<byte>)
    requires AllPackable(exts)
    ensures |s| == 12 * |exts|
  {
    if exts == [] then [] else Entries(exts[..|exts| - 1]) + Entry(exts[|exts| - 1])
  }

  /** A leaf node, zero-filled to `size`; longer when the extents need more. */
  function Leaf(exts: seq<Extent>, max: u16, size: nat): (s: seq<byte>)
    requires AllPackable(exts) && |exts| < 0x1_0000
    ensures |s| == Max(size, 12 + 12 * |exts|)
  {
    var s := Header(|exts|, max, 0) + Entries(exts);
    s + Zeros(Max(size - |s|, 0))
  }

  /** The root of a depth-1 tree: one index entry. */
  function Index(leaf: nat): (s: seq<byte>)
    requires leaf < 0x1_0000_0000_0000
    ensures |s| == IBLOCK_SIZE
  {
    Header(1, IN_INODE, 1) + Le32(0) + Le32(leaf % 0x1_0000_0000) + Le16(leaf / 0x1_0000_0000) + Le16(0) + Zeros(36)
  }

  // ---- The kernel's lookup ----

  predicate IsNode(s: seq<byte>) { U16At(s, 0) == MAGIC && U16At(s, 2) <= U16At(s, 4) }

  function Count(s: seq<byte>): nat { U16At(s, 2) }

  function Depth(s: seq<byte>): nat { U16At(s, 6) }

  function ExtentAt(s: seq<byte>, i: nat): Extent {
    Extent(U32At(s, 12 + 12 * i), U16At(s, 16 + 12 * i), U16At(s, 18 + 12 * i) * 0x1_0000_0000 + U32At(s, 20 + 12 * i))
  }

  /** `blockCount`: lengths above 32768 mark extents not yet written. */
  function BlockCount(e: Extent): nat { if e.len <= MAX_LEN then e.len else e.len - MAX_LEN }

  function Translate(e: Extent, logical: nat): Option<nat> {
    if e.logical <= logical < e.logical + BlockCount(e) then Some(e.start + (logical - e.logical)) else None
  }

  /** The first extent from `i` on that maps the block. */
  function Search(s: seq<byte>, i: nat, logical: nat): Option<nat>
    decreases Count(s) - i
  {
    if i >= Count(s) then None
    else if Translate(ExtentAt(s, i), logical).Some? then Translate(ExtentAt(s, i), logical)
    else Search(s, i + 1, logical)
  }

  function IndexBlock(s: seq<byte>, i: nat): nat { U32At(s, 12 + 12 * i) }

  function Child(s: seq<byte>, i: nat): nat { U16At(s, 20 + 12 * i) * 0x1_0000_0000 + U32At(s, 16 + 12 * i) }

  /** `findIndex`: binary search for the first entry that starts above `logical`. */
  function FirstAbove(s: seq<byte>, lo: nat, hi: nat, logical: nat): nat
    requires lo <= hi
    decreases hi - lo
  {
    if lo == hi then lo
    else
      var mid := lo + (hi - lo) / 2;
      if IndexBlock(s, mid) <= logical then FirstAbove(s, mid + 1, hi, logical) else FirstAbove(s, lo, mid, logical)
  }

  function Descend(s: seq<byte>, img: seq<byte>, logical: nat): Option<nat>
    decreases Depth(s)
  {
    if !IsNode(s) then None
    else if Depth(s) == 0 then Search(s, 0, logical)
    else if Count(s) == 0 then None
    else
      var above := FirstAbove(s, 0, Count(s), logical);
      var child := Child(s, if above > 0 then above - 1 else 0);
      var node := Window(img, child * BLOCK_SIZE, BLOCK_SIZE);
      if (child + 1) * BLOCK_SIZE > |img| || Depth(node) >= Depth(s) then None else Descend(node, img, logical)
  }

  // ---- Reading back ----

  lemma {:induction false} HeaderFields(s: seq<byte>, n: u16, max: u16, depth: u16)
    requires HasAt(s, 0, Header(n, max, depth))
    ensures U16At(s, 0) == MAGIC && U16At(s, 2) == n && U16At(s, 4) == max && U16At(s, 6) == depth
  {
    hide Le16, Le32, U16At, At;
    var a, b, c, d := Le16(MAGIC), Le16(n), Le16(max), Le16(depth);
    HasAtBoth(s, 0, a + b + c + d, Le32(0));
    HasAtBoth(s, 0, a + b + c, d);
    HasAtBoth(s, 0, a + b, c);
    HasAtBoth(s, 0, a, b);
    HalfValue(s, 0, MAGIC);
    HalfValue(s, 2, n);
    HalfValue(s, 4, max);
    HalfValue(s, 6, depth);
  }

  lemma {:induction false} EntryFields(s: seq<byte>, i: nat, e: Extent)
    requires Packable(e) && HasAt(s, 12 + 12 * i, Entry(e))
    ensures ExtentAt(s, i) == e
  {
    hide Le16, Le32, U16At, U32At, At;
    var k := 12 + 12 * i;
    var a, b, c, d := Le32(e.logical), Le16(e.len), Le16(e.start / 0x1_0000_0000), Le32(e.start % 0x1_0000_0000);
    HasAtBoth(s, k, a + b + c, d);
    HasAtBoth(s, k, a + b, c);
    HasAtBoth(s, k, a, b);
    WordValue(s, k, e.logical);
    HalfValue(s, k + 4, e.len);
    HalfValue(s, k + 6, e.start / 0x1_0000_0000);
    WordValue(s, k + 8, e.start % 0x1_0000_0000);
  }

  lemma {:induction false} EntriesFields(s: seq<byte>, exts: seq<Extent>, i: nat)
    requires AllPackable(exts) && HasAt(s, 12, Entries(exts)) && i < |exts|
    ensures ExtentAt(s, i) == exts[i]
  {
    hide Entry, ExtentAt, At;
    var front, last := exts[..|exts| - 1], exts[|exts| - 1];
    HasAtBoth(s, 12, Entries(front), Entry(last));
    if i < |exts| - 1 {
      EntriesFields(s, front, i);
    } else {
      EntryFields(s, i, last);
    }
  }

  /** `s` begins with a leaf of these extents. */
  ghost predicate HoldsLeaf(s: seq<byte>, exts: seq<Extent>, max: u16) {
    && AllPackable(exts) && |exts| < 0x1_0000
    && HasAt(s, 0, Header(|exts|, max, 0)) && HasAt(s, 12, Entries(exts))
  }

  lemma {:induction false} LeafHeld(exts: seq<Extent>, max: u16, size: nat)
    requires AllPackable(exts) && |exts| < 0x1_0000
    ensures HoldsLeaf(Leaf(exts, max, size), exts, max)
  {
    hide Header, Entries, At;
    var h, es := Header(|exts|, max, 0), Entries(exts);
    HasAtSelf([], h);
    assert [] + h == h;
    HasAtWider(h, es, 0, h);
    HasAtSelf(h, es);
    var z := Zeros(Max(size - |h + es|, 0));
    HasAtWider(h + es, z, 0, h);
    HasAtWider(h + es, z, |h|, es);
  }

  lemma {:induction false} SearchFinds(s: seq<byte>, exts: seq<Extent>, i: nat, j: nat, k: nat)
    requires Count(s) == |exts| && i <= j < |exts| && Covers(exts[j], k)
    requires forall x | 0 <= x < |exts| :: ExtentAt(s, x) == exts[x] && exts[x].len <= MAX_LEN
    requires forall x | i <= x < j :: !Covers(exts[x], k)
    ensures Search(s, i, k) == Some(exts[j].start + (k - exts[j].logical))
    decreases j - i
  {
    hide ExtentAt, Count;
    assert ExtentAt(s, i) == exts[i];
    if i < j {
      SearchFinds(s, exts, i + 1, j, k);
    }
  }

  lemma {:induction false} SearchMisses(s: seq<byte>, exts: seq<Extent>, i: nat, k: nat)
    requires Count(s) == |exts| && i <= |exts|
    requires forall x | 0 <= x < |exts| :: ExtentAt(s, x) == exts[x] && exts[x].len <= MAX_LEN && !Covers(exts[x], k)
    ensures Search(s, i, k) == None
    decreases |exts| - i
  {
    hide ExtentAt, Count;
    if i < |exts| {
      assert ExtentAt(s, i) == exts[i];
      SearchMisses(s, exts, i + 1, k);
    }
  }

  /** What a reader of the file finds for logical block `k`. */
  function Mapped(blocks: seq<nat>, k: nat): Option<nat> {
    if k < |blocks| then Some(blocks[k]) else None
  }

  lemma {:induction false} LeafReads(s: seq<byte>, img: seq<byte>, exts: seq<Extent>, max: u16, blocks: seq<nat>,
      k: nat)
    requires HoldsLeaf(s, exts, max) && Tiles(exts, blocks, |blocks|) && |exts| <= max
    ensures Descend(s, img, k) == Mapped(blocks, k)
  {
    HeaderFields(s, |exts|, max, 0);
    forall x | 0 <= x < |exts|
      ensures ExtentAt(s, x) == exts[x] && exts[x].len <= MAX_LEN && exts[x].logical + exts[x].len <= |blocks|
    {
      EntriesFields(s, exts, x);
      assert IsRun(blocks, exts[x]);
    }
    hide ExtentAt, U16At, Header, Entries, HasAt, Search, IsRun;
    if k < |blocks| {
      OneCovers(exts, blocks, k);
      var j :| 0 <= j < |exts| && Covers(exts[j], k) && blocks[k] == exts[j].start + (k - exts[j].logical);
      SearchFinds(s, exts, 0, j, k);
    } else {
      SearchMisses(s, exts, 0, k);
    }
  }

  lemma {:induction false} IndexFields(leaf: nat)
    requires leaf < 0x1_0000_0000_0000
    ensures IsNode(Index(leaf)) && Count(Index(leaf)) == 1 && Depth(Index(leaf)) == 1
    ensures IndexBlock(Index(leaf), 0) == 0 && Child(Index(leaf), 0) == leaf
  {
    hide Le16, Le32, U16At, U32At, At;
    var s, h := Index(leaf), Header(1, IN_INODE, 1);
    hide Header;
    var a, b, c, d, z := Le32(0), Le32(leaf % 0x1_0000_0000), Le16(leaf / 0x1_0000_0000), Le16(0), Zeros(36);
    assert s == h + a + b + c + d + z;
    HasAtSelf([], s);
    assert [] + s == s;
    HasAtBoth(s, 0, h + a + b + c + d, z);
    HasAtBoth(s, 0, h + a + b + c, d);
    HasAtBoth(s, 0, h + a + b, c);
    HasAtBoth(s, 0, h + a, b);
    HasAtBoth(s, 0, h, a);
    HeaderFields(s, 1, IN_INODE, 1);
    WordValue(s, 12, 0);
    WordValue(s, 16, leaf % 0x1_0000_0000);
    HalfValue(s, 20, leaf / 0x1_0000_0000);
  }

  /** The lookup from a depth-1 root is the lookup in its leaf. */
  lemma {:induction false} IndexReads(leaf: nat, img: seq<byte>, k: nat)
    requires leaf < 0x1_0000_0000_0000 && (leaf + 1) * BLOCK_SIZE <= |img|
    requires Depth(Window(img, leaf * BLOCK_SIZE, BLOCK_SIZE)) == 0
    ensures Descend(Index(leaf), img, k) == Descend(Window(img, leaf * BLOCK_SIZE, BLOCK_SIZE), img, k)
  {
    IndexFields(leaf);
    hide Index, Window, IsNode, Count, Depth, IndexBlock, Child;
    assert FirstAbove(Index(leaf), 1, 1, k) == 1;
    assert FirstAbove(Index(leaf), 0, 1, k) == 1;
  }

  /** The block the leaf was written to, as long as the image still reaches it. */
  function LeafBlock(img: seq<byte>, leaf: nat): seq<byte> {
    Window(img, leaf * BLOCK_SIZE, BLOCK_SIZE)
  }

  lemma {:induction false} WrittenStarts(img: seq<byte>, b: nat, data: seq<byte>, n: nat)
    requires b * BLOCK_SIZE <= |img| && n <= |data| && n <= BLOCK_SIZE
    ensures HasAt(Window(BlockWritten(img, b, data), b * BLOCK_SIZE, BLOCK_SIZE), 0, data[..n])
  {
    var img', w := BlockWritten(img, b, data), Window(BlockWritten(img, b, data), b * BLOCK_SIZE, BLOCK_SIZE);
    forall k | 0 <= k < n ensures At(w, k) == data[k] {
      assert At(img', b * BLOCK_SIZE + k) == data[k];
    }
  }

  lemma {:induction false} PartOf(s: seq<byte>, whole: seq<byte>, n: nat, off: nat, piece: seq<byte>)
    requires n <= |whole| && HasAt(s, 0, whole[..n]) && HasAt(whole, off, piece) && off + |piece| <= n
    ensures HasAt(s, off, piece)
  {
    forall k | 0 <= k < |piece| ensures At(s, off + k) == piece[k] {
      assert whole[..n][off + k] == whole[off + k] == At(whole, off + k);
      assert At(s, 0 + (off + k)) == whole[..n][off + k];
    }
  }

  lemma {:induction false} LeafWritten(img: seq<byte>, leaf: nat, exts: seq<Extent>)
    requires (leaf + 1) * BLOCK_SIZE <= |img| && AllPackable(exts) && |exts| < 0x1_0000
    ensures var node := LeafBlock(BlockWritten(img, leaf, Leaf(exts, IN_BLOCK, BLOCK_SIZE)), leaf);
      && Depth(node) == 0 && U16At(node, 0) == MAGIC && Count(node) == |exts| && U16At(node, 4) == IN_BLOCK
      && (|exts| <= IN_BLOCK ==> HoldsLeaf(node, exts, IN_BLOCK))
  {
    hide Header, Entries, At, Leaf, BlockWritten;
    var data := Leaf(exts, IN_BLOCK, BLOCK_SIZE);
    var node := LeafBlock(BlockWritten(img, leaf, data), leaf);
    LeafHeld(exts, IN_BLOCK, BLOCK_SIZE);
    var n := Min(|data|, BLOCK_SIZE);
    WrittenStarts(img, leaf, data, n);
    PartOf(node, data, n, 0, Header(|exts|, IN_BLOCK, 0));
    HeaderFields(node, |exts|, IN_BLOCK, 0);
    if |exts| <= IN_BLOCK {
      PartOf(node, data, n, 12, Entries(exts));
    }
  }

  /** A depth-1 tree gives every block back exactly when its extents fit the one leaf: with more,
      the leaf's own header refuses it. */
  lemma {:induction false} TreeReadsIff(img: seq<byte>, leaf: nat, exts: seq<Extent>, blocks: seq<nat>)
    requires (leaf + 1) * BLOCK_SIZE <= |img| && leaf < 0x1_0000_0000_0000
    requires blocks != [] && Tiles(exts, blocks, |blocks|) && AllPackable(exts) && |exts| < 0x1_0000
    ensures var img' := BlockWritten(img, leaf, Leaf(exts, IN_BLOCK, BLOCK_SIZE));
      (forall k: nat :: Descend(Index(leaf), img', k) == Mapped(blocks, k)) <==> |exts| <= IN_BLOCK
  {
    var img' := BlockWritten(img, leaf, Leaf(exts, IN_BLOCK, BLOCK_SIZE));
    if |exts| <= IN_BLOCK {
      forall k: nat ensures Descend(Index(leaf), img', k) == Mapped(blocks, k) {
        SmallTreeReads(img, leaf, exts, blocks, k);
      }
    } else {
      LargeTreeFails(img, leaf, exts);
      assert Descend(Index(leaf), img', 0) == None;
    }
  }

  lemma {:induction false} SmallTreeReads(img: seq<byte>, leaf: nat, exts: seq<Extent>, blocks: seq<nat>, k: nat)
    requires (leaf + 1) * BLOCK_SIZE <= |img| && leaf < 0x1_0000_0000_0000
    requires Tiles(exts, blocks, |blocks|) && AllPackable(exts) && |exts| <= IN_BLOCK
    ensures Descend(Index(leaf), BlockWritten(img, leaf, Leaf(exts, IN_BLOCK, BLOCK_SIZE)), k) == Mapped(blocks, k)
  {
    hide Tiles, AllPackable, Leaf, BlockWritten, Descend, HoldsLeaf, Window, Depth;
    var data := Leaf(exts, IN_BLOCK, BLOCK_SIZE);
    var img' := BlockWritten(img, leaf, data);
    LeafWritten(img, leaf, exts);
    BlockWrittenInPlace(img, leaf, data);
    IndexReads(leaf, img', k);
    LeafReads(LeafBlock(img', leaf), img', exts, IN_BLOCK, blocks, k);
  }

  lemma {:induction false} LargeTreeFails(img: seq<byte>, leaf: nat, exts: seq<Extent>)
    requires (leaf + 1) * BLOCK_SIZE <= |img| && leaf < 0x1_0000_0000_0000
    requires AllPackable(exts) && IN_BLOCK < |exts| < 0x1_0000
    ensures Descend(Index(leaf), BlockWritten(img, leaf, Leaf(exts, IN_BLOCK, BLOCK_SIZE)), 0) == None
  {
    hide AllPackable, Leaf, BlockWritten, HoldsLeaf, Window;
    var img' := BlockWritten(img, leaf, Leaf(exts, IN_BLOCK, BLOCK_SIZE));
    LeafWritten(img, leaf, exts);
    if (leaf + 1) * BLOCK_SIZE <= |img'| {
      IndexReads(leaf, img', 0);
    } else {
      BeyondImage(leaf, img');
    }
  }

  lemma {:induction false} BeyondImage(leaf: nat, img: seq<byte>)
    requires leaf < 0x1_0000_0000_0000 && (leaf + 1) * BLOCK_SIZE > |img|
    ensures Descend(Index(leaf), img, 0) == None
  {
    IndexFields(leaf);
    hide Index, Window, IsNode, Count, Depth, IndexBlock, Child;
    assert FirstAbove(Index(leaf), 1, 1, 0) == 1;
    assert FirstAbove(Index(leaf), 0, 1, 0) == 1;
  }
}
