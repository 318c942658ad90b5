/** Whole host trees in the ext4 image: checksummed inodes, extent trees and directories closed
    block by block, and what a kernel that walks the finished image from the top finds. */
module Ext4Tree {
  import opened Bytes
  import Rings
  import opened Ext2Format
  import opened Ext2Image
  import opened Ext2Dir
  import opened HostTree
  import opened TreeView
  import Ext4Dir
  import opened Ext4Image
  import opened Ext4Groups
  import opened Ext4Inode
  import opened Bitmaps
  import opened Ext4DirStore
  import opened Ext4Account
  import InodeChecksum
  import Crc32c

  // ---- What the kernel finds ----

  predicate IsNumber(i: nat) { 0 < i < 0x1_0000_0000 }

  /** The image as the kernel reads it: inode, extent tree, bytes. */
  ghost function ViewOf(img: seq<byte>, uuid: seq<bv8>): View {
    View((i: nat) => if IsNumber(i) then ReadDir4(img, i) else [],
      (i: nat) => if IsNumber(i) then FileContents4(img, i) else [],
      (i: nat) => if IsNumber(i) then Ext4Inode.ModeOf(Slot(img, i)) else 0,
      (i: nat) => if IsNumber(i) then LinksOf(Slot(img, i)) else 0,
      (i: nat) => IsNumber(i) && InodeChecksum.Verifies(Bits(Slot(img, i)), i as bv32, uuid),
      (es: seq<Entry>) => Ext4Dir.Shown(Pack([], es)), (es: seq<Entry>) => Ext4Dir.Hidden(Pack([], es)))
  }

  lemma {:induction false} ViewSplits(img: seq<byte>, uuid: seq<bv8>)
    ensures Splits(ViewOf(img, uuid))
  {
    hide Ext4Dir.Shown, Ext4Dir.Hidden, Pack, Flatten;
    var v := ViewOf(img, uuid);
    forall es: seq<Entry> | es != [] ensures v.shown(es) + v.cut(es) == es {
      Ext4Dir.ShownThenHidden(Pack([], es));
      PackKeepsEntries([], es);
      assert [] + es == es;
    }
    forall a: Entry, b: Entry ensures v.cut([a, b]) == [] {
      PackTwo(a, b);
      OneGroup([a, b]);
    }
  }

  lemma {:induction false} OneGroup(g: seq<Entry>)
    ensures Ext4Dir.Hidden([g]) == []
  {
  }

  /** The blocks a listing takes: data, leaves of extent trees, directories. */
  function Demand(ns: seq<Node>): nat {
    if ns == [] then 0 else Demand(ns[..|ns| - 1]) + NodeDemand(ns[|ns| - 1])
  }

  function NodeDemand(n: Node): nat {
    match n
    case File(_, data, _) => Needed(|data|)
    case Dir(_, children) => Demand(children) + Needed(BLOCK_SIZE * DirBlocks(children))
    case Other(_) => 0
  }

  lemma {:induction false} DemandMore(ns: seq<Node>, k: nat)
    requires k < |ns|
    ensures Demand(ns[..k + 1]) == Demand(ns[..k]) + NodeDemand(ns[k]) <= Demand(ns)
    decreases |ns|
  {
    hide NodeDemand;
    assert ns[..k + 1][..k] == ns[..k];
    if k + 1 == |ns| {
      assert ns[..k + 1] == ns;
    } else {
      var front := ns[..|ns| - 1];
      DemandMore(front, k);
      assert front[..k] == ns[..k] && front[..k + 1] == ns[..k + 1];
    }
  }

  // ---- Everything stored so far ----

  type Files = map<nat, File4>

  ghost predicate Recorded(img: seq<byte>, nextBlock: nat, nextInode: nat, files: Files, uuid: seq<bv8>) {
    && (forall i | i in files :: 1 <= i < nextInode <= TOTAL_INODES + 1)
    && forall i | i in files :: Lies(files[i], nextBlock) && Held(img, i, files[i], uuid)
  }

  /** The writer's image holds all records, and its unused blocks are blank. */
  ghost predicate Ready(w: Ext4Image.Writer, files: Files, uuid: seq<bv8>)
    reads w
  {
    w.Valid() && Fresh(w.img, w.nextBlock) && Recorded(w.img, w.nextBlock, w.nextInode, files, uuid)
  }

  /** One more file or directory, in new blocks and a slot of its own, disturbs no earlier one. */
  lemma {:induction false} RecordedMore(img: seq<byte>, mid: seq<byte>, img': seq<byte>, lo: nat, hi: nat,
      nextInode: nat, nextInode': nat, files: Files, ino: nat, f: File4, uuid: seq<bv8>)
    requires Recorded(img, lo, nextInode, files, uuid) && METADATA_END <= lo <= hi && ino !in files
    requires nextInode <= nextInode' <= TOTAL_INODES + 1 && 1 <= ino < nextInode'
    requires OnlyBlocks(img, mid, lo, hi) && OnlySlot4(mid, img', ino) && Held(img', ino, f, uuid) && Lies(f, hi)
    ensures Recorded(img', hi, nextInode', files[ino := f], uuid)
  {
    hide Held, OnlyBlocks, OnlySlot4;
    var files' := files[ino := f];
    forall i | i in files'
      ensures 1 <= i < nextInode' <= TOTAL_INODES + 1 && Lies(files'[i], hi) && Held(img', i, files'[i], uuid)
    {
      if i != ino {
        HeldKept(img, mid, img', i, files[i], uuid, lo, hi, ino);
      }
    }
  }

  ghost predicate Kept(files: Files, ns: seq<Node>, self: nat, next: nat)
    requires 0 < self < next && Suffice(ns, next)
  {
    ns != [] ==>
      var front, last := ns[..|ns| - 1], ns[|ns| - 1];
      Kept(files, front, self, next) && KeptNode(files, last, self, next + Inodes(front))
  }

  ghost predicate KeptNode(files: Files, n: Node, self: nat, ino: nat)
    requires 0 < self < ino && ino + NodeInodes(n) <= LAST_INODE + 1
  {
    match n
    case File(_, data, exec) =>
      && ino in files && files[ino].data == data
      && files[ino].stat.mode == HostTree.ModeOf(exec) && files[ino].stat.links == 1
    case Dir(_, children) =>
      && ino in files && HoldsDir(files[ino], DirEntries(children, ino, self, ino + 1), 2 + Subdirs(children))
      && Kept(files, children, ino, ino + 1)
    case Other(_) => true
  }

  ghost predicate HoldsDir(f: File4, es: seq<Entry>, links: nat) {
    Ext4Dir.Contents(f.data, Pack([], es)) && f.stat.mode == MODE_DIR && f.stat.links == links
  }

  ghost predicate Extends(files: Files, files': Files) {
    forall i | i in files :: i in files' && files'[i] == files[i]
  }

  /** Only records from inode `from` on are new. */
  ghost predicate Adds(files: Files, files': Files, from: nat) {
    Extends(files, files') && forall i | i in files' && i !in files :: from <= i
  }

  lemma {:induction false} KeptMore(files: Files, files': Files, ns: seq<Node>, self: nat, next: nat)
    requires 0 < self < next && Suffice(ns, next)
    requires Kept(files, ns, self, next) && Extends(files, files')
    ensures Kept(files', ns, self, next)
    decreases ns
  {
    hide HoldsDir, DirEntries;
    if ns != [] {
      var front, last := ns[..|ns| - 1], ns[|ns| - 1];
      KeptMore(files, files', front, self, next);
      if last.Dir? {
        var ino := next + Inodes(front);
        assert KeptNode(files, last, self, ino);
        KeptMore(files, files', last.children, ino, ino + 1);
      }
    }
  }

  lemma {:induction false} FileShown(img: seq<byte>, ino: nat, f: File4, uuid: seq<bv8>)
    requires IsNumber(ino) && Held(img, ino, f, uuid)
    ensures var v := ViewOf(img, uuid);
      v.contents(ino) == f.data && v.mode(ino) == f.stat.mode && v.links(ino) == f.stat.links && v.sound(ino)
  {
    hide FileContents4, Stored4, InodeChecksum.Verifies, Slot, RootOf, SizeOf, SectorsOf, FlagsOf;
    HeldReads(img, ino, f, uuid);
  }

  lemma {:induction false} DirShown(img: seq<byte>, ino: nat, f: File4, es: seq<Entry>, links: nat, uuid: seq<bv8>)
    requires IsNumber(ino) && Held(img, ino, f, uuid) && HoldsDir(f, es, links) && DirFits(es)
    ensures var v := ViewOf(img, uuid);
      v.list(ino) == v.shown(es) && v.mode(ino) == MODE_DIR && v.links(ino) == links && v.sound(ino)
  {
    hide FileContents4, Held, InodeChecksum.Verifies, Slot, Pack, Ext4Dir.Shown, Walk, Ext4Dir.Contents, FinalFits;
    FileShown(img, ino, f, uuid);
    Ext4DirStore.Listed(img, ino, f, es, uuid);
  }

  /** The kernel finds every record of an image that holds them. */
  lemma {:induction false} KeptShows(img: seq<byte>, nextBlock: nat, nextInode: nat, files: Files, uuid: seq<bv8>,
      ns: seq<Node>, self: nat, next: nat)
    requires 0 < self < next && Suffice(ns, next) && TreeFits(ns)
    requires Recorded(img, nextBlock, nextInode, files, uuid) && Kept(files, ns, self, next)
    ensures TreeView.Shows(ViewOf(img, uuid), ns, self, next)
    decreases ns
  {
    hide Held, DirFits, HoldsDir, DirEntries, Pack, Outline, SameGroups, ViewOf, Lies;
    if ns != [] {
      var front, last := ns[..|ns| - 1], ns[|ns| - 1];
      var ino := next + Inodes(front);
      KeptShows(img, nextBlock, nextInode, files, uuid, front, self, next);
      assert KeptNode(files, last, self, ino) && NodeFits(last);
      match last {
        case File(_, data, _) =>
          FileShown(img, ino, files[ino], uuid);
        case Dir(_, children) =>
          assert NodeInodes(last) == 1 + Inodes(children);
          NumberedPack(children, ino, self, ino + 1);
          DirShown(img, ino, files[ino], DirEntries(children, ino, self, ino + 1), 2 + Subdirs(children), uuid);
          KeptShows(img, nextBlock, nextInode, files, uuid, children, ino, ino + 1);
          assert ShowsDir(ViewOf(img, uuid), children, ino, self, ino + 1);
        case Other(_) =>
      }
    }
  }

  // ---- The writer ----

  /** The body of `add_tree`'s loop: one file, or one directory after everything in it. */
  method AddNode(w: Ext4Image.Writer, t: seq<bv32>, n: Node, self: nat, now: u32, uuid: seq<bv8>, ghost files: Files)
    returns (ok: bool, e: seq<Entry>, ghost files': Files)
    requires Ready(w, files, uuid) && 0 < self < w.nextInode && NodeFits(n) && Crc32c.IsTable(t)
    modifies w
    ensures ok == Room(old(w.nextInode), NodeInodes(n), old(w.nextBlock), NodeDemand(n), BLOCKS)
    ensures ok ==> Ready(w, files', uuid) && w.nextInode == old(w.nextInode) + NodeInodes(n)
    ensures ok ==> Adds(files, files', old(w.nextInode)) && KeptNode(files', n, self, old(w.nextInode))
    ensures ok ==> e == if n.Other? then [] else EntryOf(n, old(w.nextInode))
    ensures ok ==> w.nextBlock == old(w.nextBlock) + NodeDemand(n)
    decreases n, 1
  {
    hide Crc32c.IsTable, TreeFits, Held, OnlyBlocks, OnlySlot4, Recorded, Fresh, Needed, Rings.Upto;
    ok, e, files' := true, [], files;
    match n {
      case File(name, data, exec) =>
        ok, e, files' := AddFileNode(w, t, n, self, now, uuid, files);
      case Dir(name, children) =>
        ok, e, files' := AddDir(w, t, n, self, now, uuid, files);
      case Other(_) =>
        ReadyRoom(w, files, uuid);
    }
  }

  lemma {:induction false} ReadyRoom(w: Ext4Image.Writer, files: Files, uuid: seq<bv8>)
    requires Ready(w, files, uuid)
    ensures METADATA_END <= w.nextBlock <= BLOCKS && FIRST_INODE <= w.nextInode <= TOTAL_INODES + 1
    ensures forall i | i in files :: i < w.nextInode
  {
  }

  method AddFileNode(w: Ext4Image.Writer, t: seq<bv32>, n: Node, self: nat, now: u32, uuid: seq<bv8>,
      ghost files: Files)
    returns (ok: bool, e: seq<Entry>, ghost files': Files)
    requires n.File? && Ready(w, files, uuid) && 0 < self < w.nextInode && Crc32c.IsTable(t)
    modifies w
    ensures ok == Room(old(w.nextInode), NodeInodes(n), old(w.nextBlock), NodeDemand(n), BLOCKS)
    ensures ok ==> Ready(w, files', uuid) && w.nextInode == old(w.nextInode) + NodeInodes(n)
    ensures ok ==> Adds(files, files', old(w.nextInode)) && KeptNode(files', n, self, old(w.nextInode))
    ensures ok ==> e == EntryOf(n, old(w.nextInode))
    ensures ok ==> w.nextBlock == old(w.nextBlock) + NodeDemand(n)
  {
    hide Crc32c.IsTable, Held, OnlyBlocks, OnlySlot4, Recorded, Fresh, Needed, Rings.Upto;
    ReadyRoom(w, files, uuid);
    ghost var img, lo := w.img, w.nextBlock;
    var ino; ghost var f, mid;
    ino, f, mid := AddFile(w, t, HostTree.ModeOf(n.exec), n.data, now, uuid);
    ok, e, files' := ino.Some?, [], files;
    if ok {
      e := [Entry(ino.value, n.name, FT_REG)];
      RecordedMore(img, mid, w.img, lo, w.nextBlock, ino.value, w.nextInode, files, ino.value, f, uuid);
      FreshKept(img, mid, w.img, lo, w.nextBlock, ino.value);
      files' := files[ino.value := f];
    }
  }

  method AddDir(w: Ext4Image.Writer, t: seq<bv32>, n: Node, self: nat, now: u32, uuid: seq<bv8>, ghost files: Files)
    returns (ok: bool, e: seq<Entry>, ghost files': Files)
    requires n.Dir? && Ready(w, files, uuid) && 0 < self < w.nextInode && NodeFits(n) && Crc32c.IsTable(t)
    modifies w
    ensures ok == Room(old(w.nextInode), NodeInodes(n), old(w.nextBlock), NodeDemand(n), BLOCKS)
    ensures ok ==> Ready(w, files', uuid) && w.nextInode == old(w.nextInode) + NodeInodes(n)
    ensures ok ==> Adds(files, files', old(w.nextInode)) && KeptNode(files', n, self, old(w.nextInode))
    ensures ok ==> e == EntryOf(n, old(w.nextInode))
    ensures ok ==> w.nextBlock == old(w.nextBlock) + NodeDemand(n)
    decreases n, 0
  {
    hide Crc32c.IsTable, TreeFits, Held, Recorded, Fresh, Needed, Rings.Upto, Pack, Outline, DirBlocks, Inodes;
    hide Subdirs, SameGroups, Entries, Kept, Demand, FinalFits, Ext4Dir.Contents;
    ReadyRoom(w, files, uuid);
    e, files' := [], files;
    var number := w.AllocInode();
    if number.None? {
      ok := false;
      return;
    }
    var ino, below := number.value, [];
    e := [Entry(ino, n.name, FT_DIR)];
    InodeAllocated(w.img, w.nextBlock, ino, files, uuid);
    ok, below, files' := AddTree(w, t, n.children, ino, now, uuid, files);
    if ok {
      SubdirsCounted(n.children, ino + 1);
      NumberedPack(n.children, ino, self, ino + 1);
      ReadyRoom(w, files', uuid);
      var es := [Entry(ino, DOT, FT_DIR), Entry(self, DOT_DOT, FT_DIR)] + below;
      ghost var children := files';
      ok, files' := StoreDirNode(w, t, ino, es, 2 + CountDirs(below), now, uuid, files');
      if ok {
        KeptMore(children, files', n.children, ino, ino + 1);
      }
    }
  }

  lemma {:induction false} InodeAllocated(img: seq<byte>, nextBlock: nat, nextInode: nat, files: Files, uuid: seq<bv8>)
    requires Recorded(img, nextBlock, nextInode, files, uuid) && nextInode <= TOTAL_INODES
    ensures Recorded(img, nextBlock, nextInode + 1, files, uuid)
  {
    hide Held, Lies;
  }

  /** A directory's blocks, tree and inode, and its record. */
  method StoreDirNode(w: Ext4Image.Writer, t: seq<bv32>, ino: u32, es: seq<Entry>, links: u16, now: u32, uuid: seq<bv8>,
      ghost files: Files)
    returns (ok: bool, ghost files': Files)
    requires Ready(w, files, uuid) && 1 <= ino < w.nextInode && ino !in files && DirFits(es) && Crc32c.IsTable(t)
    modifies w
    ensures ok == (old(w.nextBlock) + Needed(BLOCK_SIZE * |Pack([], es)|) <= BLOCKS)
    ensures ok ==> Ready(w, files', uuid) && w.nextInode == old(w.nextInode)
    ensures ok ==> w.nextBlock == old(w.nextBlock) + Needed(BLOCK_SIZE * |Pack([], es)|)
    ensures ok ==> ino in files' && files' == files[ino := files'[ino]] && HoldsDir(files'[ino], es, links)
  {
    hide Crc32c.IsTable, Held, OnlyBlocks, OnlySlot4, Recorded, Fresh, Needed, Rings.Upto, Pack, FinalFits;
    hide Ext4Dir.Contents, Ext4Dir.Shown, Gapless, ReadDir4;
    ReadyRoom(w, files, uuid);
    ghost var img, lo := w.img, w.nextBlock;
    ghost var f, mid;
    ok, f, mid := Ext4DirStore.StoreDir(w, t, ino, es, links, now, uuid);
    files' := files;
    if ok {
      RecordedMore(img, mid, w.img, lo, w.nextBlock, w.nextInode, w.nextInode, files, ino, f, uuid);
      files' := files[ino := f];
    }
  }

  /** The first `k` nodes of the listing are in the image, as entries `es`. */
  ghost predicate Progress(w: Ext4Image.Writer, before: Files, files: Files, uuid: seq<bv8>, ns: seq<Node>, k: nat,
      self: nat, next: nat, es: seq<Entry>)
    requires 0 < self < next
    reads w
  {
    && k <= |ns| && Ready(w, files, uuid) && Adds(before, files, next)
    && Suffice(ns[..k], next) && w.nextInode == next + Inodes(ns[..k])
    && Kept(files, ns[..k], self, next) && es == Entries(ns[..k], next)
  }

  method AddNext(w: Ext4Image.Writer, t: seq<bv32>, ns: seq<Node>, k: nat, self: nat, es: seq<Entry>, now: u32,
      uuid: seq<bv8>, ghost before: Files, ghost files: Files, ghost next: nat)
    returns (ok: bool, es': seq<Entry>, ghost files': Files)
    requires 0 < self < next && k < |ns| && TreeFits(ns) && Crc32c.IsTable(t)
    requires Progress(w, before, files, uuid, ns, k, self, next, es)
    modifies w
    ensures ok == Room(next, Inodes(ns[..k + 1]), old(w.nextBlock), NodeDemand(ns[k]), BLOCKS)
    ensures ok ==> Progress(w, before, files', uuid, ns, k + 1, self, next, es')
    ensures ok ==> w.nextBlock == old(w.nextBlock) + NodeDemand(ns[k])
    decreases ns, 0
  {
    hide NodeDemand, Kept, KeptNode, Entries, TreeFits, NodeFits, Inodes, NodeInodes, Ready, Crc32c.IsTable;
    TakeMore(ns, k);
    NextBelow(w, files, uuid);
    var e;
    ok, e, files' := AddNode(w, t, ns[k], self, now, uuid, files);
    es' := es + e;
    if ok {
      KeptMore(files, files', ns[..k], self, next);
      KeptNext(files', ns, k, self, next);
    }
  }

  lemma {:induction false} NextBelow(w: Ext4Image.Writer, files: Files, uuid: seq<bv8>)
    requires Ready(w, files, uuid)
    ensures forall i | i in files :: i < w.nextInode
  {
  }

  lemma {:induction false} KeptNext(files: Files, ns: seq<Node>, k: nat, self: nat, next: nat)
    requires k < |ns| && 0 < self < next && Suffice(ns[..k + 1], next)
    requires Inodes(ns[..k + 1]) == Inodes(ns[..k]) + NodeInodes(ns[k])
    requires ns[..k + 1][..k] == ns[..k] && Kept(files, ns[..k], self, next)
    requires KeptNode(files, ns[k], self, next + Inodes(ns[..k]))
    ensures Kept(files, ns[..k + 1], self, next)
    ensures Entries(ns[..k + 1], next) ==
      Entries(ns[..k], next) + (if ns[k].Other? then [] else EntryOf(ns[k], next + Inodes(ns[..k])))
  {
    hide KeptNode;
    assert ns[..k + 1][k] == ns[k];
  }

  /** `add_tree`, over the listing `ns` of the directory with inode `self`. */
  method AddTree(w: Ext4Image.Writer, t: seq<bv32>, ns: seq<Node>, self: nat, now: u32, uuid: seq<bv8>,
      ghost files: Files)
    returns (ok: bool, es: seq<Entry>, ghost files': Files)
    requires Ready(w, files, uuid) && 0 < self < w.nextInode && TreeFits(ns) && Crc32c.IsTable(t)
    modifies w
    ensures ok == Room(old(w.nextInode), Inodes(ns), old(w.nextBlock), Demand(ns), BLOCKS)
    ensures ok ==> Ready(w, files', uuid) && w.nextInode == old(w.nextInode) + Inodes(ns)
    ensures ok ==> Adds(files, files', old(w.nextInode)) && Kept(files', ns, self, old(w.nextInode))
    ensures ok ==> es == Entries(ns, old(w.nextInode)) && w.nextBlock == old(w.nextBlock) + Demand(ns)
    decreases ns, 1
  {
    hide Demand, NodeDemand, TreeFits, Inodes, NodeInodes, Progress, Kept, Entries, Ready, Crc32c.IsTable;
    ghost var next := w.nextInode;
    es, files' := [], files;
    ProgressStart(w, files, uuid, ns, self, next);
    assert ns[..|ns|] == ns;
    for k := 0 to |ns|
      invariant Progress(w, files, files', uuid, ns, k, self, next, es)
      invariant w.nextBlock == old(w.nextBlock) + Demand(ns[..k]) <= BLOCKS
    {
      TakeMore(ns, k);
      DemandMore(ns, k);
      ok, es, files' := AddNext(w, t, ns, k, self, es, now, uuid, files, files', next);
      if !ok {
        return;
      }
    }
    ok := true;
    ProgressDone(w, files, files', uuid, ns, self, next, es);
  }

  lemma {:induction false} ProgressStart(w: Ext4Image.Writer, files: Files, uuid: seq<bv8>, ns: seq<Node>, self: nat,
      next: nat)
    requires Ready(w, files, uuid) && 0 < self < next == w.nextInode
    ensures Progress(w, files, files, uuid, ns, 0, self, next, []) && Demand(ns[..0]) == 0 && w.nextBlock <= BLOCKS
  {
    hide Recorded, Fresh, Rings.Upto;
    assert ns[..0] == [];
  }

  lemma {:induction false} ProgressDone(w: Ext4Image.Writer, before: Files, files: Files, uuid: seq<bv8>,
      ns: seq<Node>, self: nat, next: nat, es: seq<Entry>)
    requires 0 < self < next && Progress(w, before, files, uuid, ns, |ns|, self, next, es)
    ensures Ready(w, files, uuid) && Suffice(ns, next) && w.nextInode == next + Inodes(ns)
    ensures Adds(before, files, next) && es == Entries(ns, next) && Kept(files, ns, self, next)
  {
    hide Kept, Entries, Inodes, Ready;
    assert ns[..|ns|] == ns;
  }

  // ---- Whole runs ----

  /** A finished image: the kernel finds the tree from the root down, every inode verified, and the
      bookkeeping accounts for what the allocators handed out. */
  ghost predicate Finished(img: seq<byte>, nextBlock: nat, nextInode: nat, dirs: nat, uuid: seq<bv8>, ns: seq<Node>)
    requires Suffice(ns, FIRST)
  {
    ShowsRoot(ViewOf(img, uuid), ns) && Accounted(img, nextBlock, nextInode, dirs, uuid)
  }

  /** Blocks 0 to 17 are no part of any record. */
  lemma {:induction false} RecordedAccounted(img: seq<byte>, img': seq<byte>, nextBlock: nat, nextInode: nat,
      files: Files, uuid: seq<bv8>)
    requires Recorded(img, nextBlock, nextInode, files, uuid) && OnlyBlocks(img, img', 0, IT_START)
    ensures Recorded(img', nextBlock, nextInode, files, uuid)
  {
    hide Held, OnlyBlocks, Lies;
    forall i | i in files ensures Lies(files[i], nextBlock) && Held(img', i, files[i], uuid) {
      HeldAccounted(img, img', i, files[i], uuid, nextBlock);
    }
  }

  lemma {:induction false} FreshStart(img: seq<byte>, size: nat, uuid: seq<bv8>)
    requires img == Zeros(size)
    ensures Fresh(img, METADATA_END) && Recorded(img, METADATA_END, FIRST_INODE, map[], uuid)
  {
  }

  /** The root directory over the nodes, then bitmaps, descriptors and superblock. */
  method Finish(w: Ext4Image.Writer, t: seq<bv32>, ns: seq<Node>, es: seq<Entry>, dirs: u16, now: u32,
      uuid: seq<bv8>, ghost files: Files) returns (ok: bool)
    requires Ready(w, files, uuid) && TreeFits(ns) && DirFits(Outline(ns)) && Crc32c.IsTable(t)
    requires Suffice(ns, FIRST) && w.nextInode == FIRST + Inodes(ns) && Adds(map[], files, FIRST)
    requires es == Entries(ns, FIRST) && Kept(files, ns, ROOT, FIRST)
    modifies w
    ensures ok == (old(w.nextBlock) + Needed(BLOCK_SIZE * DirBlocks(ns)) <= BLOCKS)
    ensures ok ==> w.nextInode == old(w.nextInode)
    ensures ok ==> w.nextBlock == old(w.nextBlock) + Needed(BLOCK_SIZE * DirBlocks(ns))
    ensures ok ==> Finished(w.img, w.nextBlock, w.nextInode, dirs, uuid, ns)
  {
    hide Crc32c.IsTable, TreeFits, Recorded, Fresh, Needed, Rings.Upto, Pack, Outline, DirBlocks, Inodes, FinalFits;
    hide Subdirs, SameGroups, Entries, Kept, Ext4Dir.Contents, Accounted;
    hide OnlyBlocks, ViewOf, TreeView.Shows;
    SubdirsCounted(ns, FIRST);
    NumberedPack(ns, ROOT, ROOT, FIRST);
    var root := [Entry(ROOT, DOT, FT_DIR), Entry(ROOT, DOT_DOT, FT_DIR)] + es;
    ghost var all;
    ok, all := StoreDirNode(w, t, ROOT, root, 2 + CountDirs(es), now, uuid, files);
    if ok {
      ghost var img := w.img;
      KeptMore(files, all, ns, ROOT, FIRST);
      Account(w, t, dirs, uuid);
      RecordedAccounted(img, w.img, w.nextBlock, w.nextInode, all, uuid);
      RootShown(w.img, w.nextBlock, w.nextInode, all, uuid, ns, root);
    }
  }

  lemma {:induction false} RootShown(img: seq<byte>, nextBlock: nat, nextInode: nat, files: Files, uuid: seq<bv8>,
      ns: seq<Node>, es: seq<Entry>)
    requires Suffice(ns, FIRST) && TreeFits(ns) && DirFits(es) && es == DirEntries(ns, ROOT, ROOT, FIRST)
    requires Recorded(img, nextBlock, nextInode, files, uuid) && Kept(files, ns, ROOT, FIRST)
    requires ROOT in files && HoldsDir(files[ROOT], es, 2 + Subdirs(ns))
    ensures ShowsRoot(ViewOf(img, uuid), ns)
  {
    hide Held, DirFits, HoldsDir, DirEntries, ViewOf, Lies, TreeView.Shows, Kept, TreeFits, Subdirs, Inodes;
    KeptShows(img, nextBlock, nextInode, files, uuid, ns, ROOT, FIRST);
    DirShown(img, ROOT, files[ROOT], es, 2 + Subdirs(ns), uuid);
  }

  /** Files and trees, the root directory over them, and the bookkeeping. The run succeeds exactly
      when inodes and blocks suffice, and then the image is finished. */
  method BuildImage(now: u32, ns: seq<Node>, dirs: u16, uuid: seq<bv8>) returns (ok: bool, w: Ext4Image.Writer)
    requires TreeFits(ns) && DirFits(Outline(ns))
    ensures ok == Room(FIRST, Inodes(ns), METADATA_END, Demand(ns) + Needed(BLOCK_SIZE * DirBlocks(ns)), BLOCKS)
    ensures fresh(w) && (ok ==> w.nextInode == FIRST + Inodes(ns))
    ensures ok ==> w.nextBlock == METADATA_END + Demand(ns) + Needed(BLOCK_SIZE * DirBlocks(ns))
    ensures ok ==> Finished(w.img, w.nextBlock, w.nextInode, dirs, uuid, ns)
  {
    hide Crc32c.IsTable, TreeFits, Recorded, Fresh, Needed, Rings.Upto, Outline, DirBlocks, Inodes, DirFits;
    hide Entries, Kept, Demand, Finished;
    var t := Crc32c.InitTable();
    w := new Ext4Image.Writer();
    FreshStart(w.img, BLOCKS * BLOCK_SIZE, uuid);
    var es; ghost var files;
    ok, es, files := AddTree(w, t, ns, ROOT, now, uuid, map[]);
    if ok {
      ok := Finish(w, t, ns, es, dirs, now, uuid, files);
    }
  }

  // ---- Used directories ----

  function Nodes(tree: Option<seq<Node>>): seq<Node> { if tree.Some? then tree.value else [] }

  function DirsIn(tree: Option<seq<Node>>): nat {
    if tree.Some? then 1 + AllDirs(tree.value) else 0
  }

  /** The script's count: the fixed directories, and with a compiler tree one for its top and one
      for every directory added by either tree. */
  function CountedDirs(fixed: nat, compiler: Option<seq<Node>>, sources: Option<seq<Node>>): nat {
    var added := AllDirs(Nodes(compiler)) + AllDirs(Nodes(sources));
    fixed + if compiler.Some? then 1 + added else 0
  }

  /** The count is the number of directories exactly when there is no tree of sources. */
  lemma {:induction false} UsedDirsIff(fixed: nat, compiler: Option<seq<Node>>, sources: Option<seq<Node>>)
    ensures CountedDirs(fixed, compiler, sources) == fixed + DirsIn(compiler) + DirsIn(sources) <==> sources.None?
  {
  }

  // ---- Gaps ----

  ghost predicate GaplessDir(es: seq<Entry>) { Gapless(Pack([], es)) }

  /** No directory, the root included, has a block that was closed with a gap. */
  ghost predicate GaplessTree(ns: seq<Node>) {
    GaplessDir(Outline(ns)) && Everywhere((es: seq<Entry>) => GaplessDir(es), ns)
  }

  lemma {:induction false} HiddenIff(es: seq<Entry>)
    requires DirFits(es)
    ensures Ext4Dir.Hidden(Pack([], es)) == [] <==> GaplessDir(es)
  {
    hide Pack, Flatten, Ext4Dir.Shown, Ext4Dir.Hidden, Ext4Dir.Gap;
    DirectoryRoundTrip(es);
    Ext4Dir.ShownIff(Pack([], es));
    Ext4Dir.ShownThenHidden(Pack([], es));
  }

  lemma {:induction false} SameGaps(gs: seq<seq<Entry>>, hs: seq<seq<Entry>>)
    requires SameGroups(gs, hs)
    ensures Gapless(gs) <==> Gapless(hs)
  {
    hide Size;
    forall i | 0 <= i < |gs| ensures Ext4Dir.Gap(gs[i]) <==> Ext4Dir.Gap(hs[i]) {
      SameSize(gs[i], hs[i]);
    }
    hide Ext4Dir.Gap;
  }

  /** Nothing is cut off exactly in a tree without gaps. */
  lemma {:induction false} GaplessComplete(img: seq<byte>, uuid: seq<bv8>, ns: seq<Node>)
    requires Suffice(ns, FIRST) && TreeFits(ns) && DirFits(Outline(ns))
    ensures Complete(ViewOf(img, uuid), ns) <==> GaplessTree(ns)
  {
    hide Pack, Ext4Dir.Hidden, Outline, TreeFits, DirFits, Everywhere, Complete, Gapless, SameGroups;
    var v, p := ViewOf(img, uuid), (es: seq<Entry>) => GaplessDir(es);
    forall es: seq<Entry> | DirFits(es) ensures v.cut(es) == [] <==> p(es) {
      HiddenIff(es);
    }
    forall a: seq<Entry>, b: seq<Entry> | SameGroups(Pack([], a), Pack([], b)) ensures p(a) <==> p(b) {
      SameGaps(Pack([], a), Pack([], b));
    }
    CompleteIff(v, p, ns);
  }
}
