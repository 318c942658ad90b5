/** Whole host trees in the ext2 image: files and directories in preorder, and what a kernel that
    walks the finished image from the top finds. */
module Ext2Tree {
  import opened Bytes
  import opened Ext2Format
  import opened Ext2Dir
  import opened HostTree
  import opened TreeView
  import opened Ext2DirStore
  import opened Ext2Image
  import Ext2Account

  // ---- What the kernel finds ----

  /** The image as the kernel reads it; ext2 inodes carry no checksum. */
  function ViewOf(img: seq<byte>): View {
    View((i: nat) => ReadDir(img, i), (i: nat) => FileContents(img, i), (i: nat) => InodeMode(img, i),
      (i: nat) => InodeLinks(img, i), (i: nat) => true, (es: seq<Entry>) => Shown(es), (es: seq<Entry>) => CutOff(es))
  }

  lemma {:induction false} ViewSplits(img: seq<byte>)
    ensures Splits(ViewOf(img))
  {
    hide Shown, CutOff, Pack;
    forall es: seq<Entry> | es != [] ensures ViewOf(img).shown(es) + ViewOf(img).cut(es) == es {
      ShownThenCut(es);
    }
    forall a: Entry, b: Entry ensures ViewOf(img).cut([a, b]) == [] {
      PackTwo(a, b);
      NothingCut([a, b]);
    }
  }

  /** The blocks a listing takes, directories and pointer blocks included. */
  function Demand(ns: seq<Node>): nat {
    if ns == [] then 0 else Demand(ns[..|ns| - 1]) + NodeDemand(ns[|ns| - 1])
  }

  function NodeDemand(n: Node): nat {
    match n
    case File(_, data, _) => Footprint(BlocksFor(|data|))
    case Dir(_, children) => Demand(children) + DirBlocks(children)
    case Other(_) => 0
  }

  // ---- The same, by records ----

  ghost predicate Kept(files: map<nat, Ext2Image.Record>, ns: seq<Node>, self: nat, next: nat)
    requires 0 < self < next && Suffice(ns, next)
  {
    ns != [] ==>
      var front, last := ns[..|ns| - 1], ns[|ns| - 1];
      Kept(files, front, self, next) && KeptNode(files, last, self, next + Inodes(front))
  }

  ghost predicate KeptNode(files: map<nat, Ext2Image.Record>, n: Node, self: nat, ino: nat)
    requires 0 < self < ino && ino + NodeInodes(n) <= LAST_INODE + 1
  {
    match n
    case File(_, data, exec) =>
      ino in files && files[ino] == Ext2Image.Record(ModeOf(exec), 1, files[ino].start, data)
    case Dir(_, children) =>
      && ino in files && HoldsDir(files[ino], DirEntries(children, ino, self, ino + 1), 2 + Subdirs(children))
      && Kept(files, children, ino, ino + 1)
    case Other(_) => true
  }

  ghost predicate HoldsDir(r: Ext2Image.Record, es: seq<Entry>, links: nat) {
    AllFit(Pack([], es)) && r == DirRecord(r.start, Pack([], es), links)
  }

  ghost predicate Extends(files: map<nat, Ext2Image.Record>, files': map<nat, Ext2Image.Record>) {
    forall ino | ino in files :: ino in files' && files'[ino] == files[ino]
  }

  /** What is stored stays stored. */
  lemma {:induction false} KeptMore(files: map<nat, Ext2Image.Record>, files': map<nat, Ext2Image.Record>,
      ns: seq<Node>, self: nat, next: nat)
    requires 0 < self < next && Suffice(ns, next)
    requires Kept(files, ns, self, next) && Extends(files, files')
    ensures Kept(files', ns, self, next)
    decreases ns
  {
    hide HoldsDir, DirEntries;
    if ns != [] {
      var front, last := ns[..|ns| - 1], ns[|ns| - 1];
      KeptMore(files, files', front, self, next);
      if last.Dir? {
        var ino := next + Inodes(front);
        assert KeptNode(files, last, self, ino);
        KeptMore(files, files', last.children, ino, ino + 1);
      }
    }
  }

  lemma {:induction false} DirFound(img: seq<byte>, ino: nat, r: Ext2Image.Record, es: seq<Entry>, links: nat)
    requires DirFits(es) && HoldsDir(r, es, links) && Holds(img, ino, r) && 0 < r.start
    ensures ReadDir(img, ino) == Shown(es) && InodeMode(img, ino) == MODE_DIR && InodeLinks(img, ino) == links
  {
    hide Pack, DirBytes, FinalFits, ReadDir, Shown;
    DirectoryShown(img, ino, r.start, es, links);
  }

  /** A directory whose record and children are there is there. */
  lemma {:induction false} DirShows(img: seq<byte>, r: Ext2Image.Record, children: seq<Node>, ino: nat, parent: nat,
      next: nat)
    requires 0 < parent <= ino < next && Suffice(children, next) && DirFits(Outline(children))
    requires HoldsDir(r, DirEntries(children, ino, parent, next), 2 + Subdirs(children))
    requires Holds(img, ino, r) && 0 < r.start && Shows(ViewOf(img), children, ino, next)
    ensures ShowsDir(ViewOf(img), children, ino, parent, next)
  {
    hide Holds, DirFits, HoldsDir, FileContents, ReadDir, DirEntries, Shown, Pack, Outline, SameGroups, Shows, Subdirs;
    NumberedPack(children, ino, parent, next);
    DirFound(img, ino, r, DirEntries(children, ino, parent, next), 2 + Subdirs(children));
  }

  /** The kernel finds every record of a consistent image. */
  lemma {:induction false} KeptFinds(img: seq<byte>, nextBlock: nat, highBlock: nat, nextInode: nat,
      files: map<nat, Ext2Image.Record>, ns: seq<Node>, self: nat, next: nat)
    requires 0 < self < next && Suffice(ns, next) && TreeFits(ns)
    requires InRange(nextBlock, highBlock, nextInode) && Placed(nextBlock, highBlock, nextInode, files)
    requires AllHold(img, files) && Kept(files, ns, self, next)
    ensures Shows(ViewOf(img), ns, self, next)
    decreases ns
  {
    hide Holds, DirFits, HoldsDir, DirEntries, HandedOut, Outline, ViewOf, Subdirs, ShowsDir, InRange, Placed;
    if ns != [] {
      var front, last := ns[..|ns| - 1], ns[|ns| - 1];
      var ino := next + Inodes(front);
      KeptFinds(img, nextBlock, highBlock, nextInode, files, front, self, next);
      assert KeptNode(files, last, self, ino) && NodeFits(last);
      if !last.Other? {
        RecordPlaced(nextBlock, highBlock, nextInode, files, ino);
        assert Holds(img, ino, files[ino]);
      }
      match last {
        case File(_, data, _) =>
          FileFound(img, ino, files[ino]);
        case Dir(_, children) =>
          assert NodeInodes(last) == 1 + Inodes(children);
          KeptFinds(img, nextBlock, highBlock, nextInode, files, children, ino, ino + 1);
          DirShows(img, files[ino], children, ino, self, ino + 1);
        case Other(_) =>
      }
    }
  }

  lemma {:induction false} FileFound(img: seq<byte>, ino: nat, r: Ext2Image.Record)
    requires r.Record? && Holds(img, ino, r) && 0 < r.start && BlocksFor(|r.data|) <= TOTAL_BLOCKS
    ensures var v := ViewOf(img);
      v.contents(ino) == r.data && v.mode(ino) == r.mode && v.links(ino) == r.links && v.sound(ino)
  {
    StoredReads(img, ino, r.start, r.data);
  }

  lemma {:induction false} RecordPlaced(nextBlock: nat, highBlock: nat, nextInode: nat,
      files: map<nat, Ext2Image.Record>, ino: nat)
    requires InRange(nextBlock, highBlock, nextInode) && Placed(nextBlock, highBlock, nextInode, files) && ino in files
    ensures 0 < files[ino].start && BlocksFor(|files[ino].data|) <= TOTAL_BLOCKS
  {
    assert HandedOut(files[ino], nextBlock, highBlock);
  }

  // ---- The writer ----

  /** Only records from inode `from` on are new. */
  ghost predicate Adds(files: map<nat, Ext2Image.Record>, files': map<nat, Ext2Image.Record>, from: nat) {
    Extends(files, files') && forall ino | ino in files' && ino !in files :: from <= ino
  }

  /** The body of `add_tree`'s loop: one file, or one directory after everything in it. */
  method AddNode(w: Ext2Image.Writer, n: Node, self: nat) returns (ok: bool, e: seq<Entry>)
    requires w.Valid() && 0 < self < w.nextInode && NodeFits(n)
    modifies w`img, w`nextBlock, w`highBlock, w`nextInode, w`files
    ensures ok == Room(old(w.nextInode), NodeInodes(n), old(w.Cursor()), NodeDemand(n), w.Limit())
    ensures ok ==> w.Valid() && w.nextInode == old(w.nextInode) + NodeInodes(n)
    ensures ok ==> Adds(old(w.files), w.files, old(w.nextInode))
    ensures ok ==> KeptNode(w.files, n, self, old(w.nextInode))
    ensures ok ==> e == if n.Other? then [] else EntryOf(n, old(w.nextInode))
    ensures ok ==> w.Cursor() == old(w.Cursor()) + NodeDemand(n)
    ensures if w.useHighZone then w.nextBlock == old(w.nextBlock) else w.highBlock == old(w.highBlock)
    decreases n, 1
  {
    ok, e := true, [];
    match n {
      case File(name, data, exec) =>
        var ino;
        ok, ino := w.AllocInode();
        if ok {
          ok := w.StoreFile(ino, ModeOf(exec), data, 1);
          e := [Entry(ino, name, FT_REG)];
        }
      case Dir(name, children) =>
        ok, e := AddDir(w, n, self);
      case Other(_) =>
    }
  }

  method AddDir(w: Ext2Image.Writer, n: Node, self: nat) returns (ok: bool, e: seq<Entry>)
    requires n.Dir? && w.Valid() && 0 < self < w.nextInode && NodeFits(n)
    modifies w`img, w`nextBlock, w`highBlock, w`nextInode, w`files
    ensures ok == Room(old(w.nextInode), NodeInodes(n), old(w.Cursor()), NodeDemand(n), w.Limit())
    ensures ok ==> w.Valid() && w.nextInode == old(w.nextInode) + NodeInodes(n)
    ensures ok ==> Adds(old(w.files), w.files, old(w.nextInode))
    ensures ok ==> KeptNode(w.files, n, self, old(w.nextInode))
    ensures ok ==> e == EntryOf(n, old(w.nextInode))
    ensures ok ==> w.Cursor() == old(w.Cursor()) + NodeDemand(n)
    ensures if w.useHighZone then w.nextBlock == old(w.nextBlock) else w.highBlock == old(w.highBlock)
    decreases n, 0
  {
    hide Pack, DirBytes, FinalFits, ReadDir, AllHold, Placed, Kept, Demand, TreeFits, Entries, Outline;
    hide DirBlocks, Inodes, Subdirs, SameGroups, Shown;
    var ino, below;
    e := [];
    ok, ino := w.AllocInode();
    if !ok {
      return;
    }
    e := [Entry(ino, n.name, FT_DIR)];
    ok, below := AddTree(w, n.children, ino);
    if ok {
      ghost var files := w.files;
      SubdirsCounted(n.children, ino + 1);
      NumberedPack(n.children, ino, self, ino + 1);
      var es := [Entry(ino, DOT, FT_DIR), Entry(self, DOT_DOT, FT_DIR)] + below;
      ok := StoreDir(w, ino, es, 2 + CountDirs(below));
      if ok {
        KeptMore(files, w.files, n.children, ino, ino + 1);
      }
    }
  }

  /** The first `k` nodes of the listing are in the image, as entries `es`. */
  ghost predicate Progress(w: Ext2Image.Writer, before: map<nat, Ext2Image.Record>, ns: seq<Node>, k: nat,
      self: nat, next: nat, es: seq<Entry>)
    requires 0 < self < next
    reads w
  {
    && k <= |ns| && w.Valid() && Adds(before, w.files, next)
    && Suffice(ns[..k], next) && w.nextInode == next + Inodes(ns[..k])
    && Kept(w.files, ns[..k], self, next) && es == Entries(ns[..k], next)
  }

  method AddNext(w: Ext2Image.Writer, ns: seq<Node>, k: nat, self: nat, es: seq<Entry>,
      ghost before: map<nat, Ext2Image.Record>, ghost next: nat)
    returns (ok: bool, es': seq<Entry>)
    requires 0 < self < next && k < |ns| && TreeFits(ns) && Progress(w, before, ns, k, self, next, es)
    modifies w`img, w`nextBlock, w`highBlock, w`nextInode, w`files
    ensures ok == Room(next, Inodes(ns[..k + 1]), old(w.Cursor()), NodeDemand(ns[k]), w.Limit())
    ensures ok ==> Progress(w, before, ns, k + 1, self, next, es')
    ensures ok ==> w.Cursor() == old(w.Cursor()) + NodeDemand(ns[k])
    ensures if w.useHighZone then w.nextBlock == old(w.nextBlock) else w.highBlock == old(w.highBlock)
    decreases ns, 0
  {
    hide NodeDemand, Demand, Kept, KeptNode, Entries, TreeFits, NodeFits, Inodes, NodeInodes, AllHold, Placed;
    TakeMore(ns, k);
    ghost var files := w.files;
    var e;
    ok, e := AddNode(w, ns[k], self);
    es' := es + e;
    if ok {
      KeptMore(files, w.files, ns[..k], self, next);
      KeptNext(w.files, ns, k, self, next);
    }
  }

  /** `add_tree`, over the listing `ns` of the directory with inode `self`. */
  method AddTree(w: Ext2Image.Writer, ns: seq<Node>, self: nat) returns (ok: bool, es: seq<Entry>)
    requires w.Valid() && 0 < self < w.nextInode && TreeFits(ns)
    modifies w`img, w`nextBlock, w`highBlock, w`nextInode, w`files
    ensures ok == Room(old(w.nextInode), Inodes(ns), old(w.Cursor()), Demand(ns), w.Limit())
    ensures ok ==> w.Valid() && w.nextInode == old(w.nextInode) + Inodes(ns)
    ensures ok ==> Adds(old(w.files), w.files, old(w.nextInode))
    ensures ok ==> es == Entries(ns, old(w.nextInode)) && Kept(w.files, ns, self, old(w.nextInode))
    ensures ok ==> w.Cursor() == old(w.Cursor()) + Demand(ns)
    ensures if w.useHighZone then w.nextBlock == old(w.nextBlock) else w.highBlock == old(w.highBlock)
    decreases ns, 1
  {
    hide Demand, NodeDemand, TreeFits, Inodes, NodeInodes, Progress, Kept, Entries, AllHold, Placed;
    ghost var next := w.nextInode;
    es := [];
    ProgressStart(w, ns, self, next);
    assert ns[..|ns|] == ns;
    for k := 0 to |ns|
      invariant Progress(w, old(w.files), ns, k, self, next, es)
      invariant w.Cursor() == old(w.Cursor()) + Demand(ns[..k]) <= w.Limit()
      invariant if w.useHighZone then w.nextBlock == old(w.nextBlock) else w.highBlock == old(w.highBlock)
    {
      TakeMore(ns, k);
      DemandMore(ns, k);
      ok, es := AddNext(w, ns, k, self, es, old(w.files), next);
      if !ok {
        return;
      }
      ProgressIn(w, old(w.files), ns, k + 1, self, next, es);
    }
    ok := true;
    ProgressDone(w, old(w.files), ns, self, next, es);
  }

  lemma {:induction false} DemandMore(ns: seq<Node>, k: nat)
    requires k < |ns|
    ensures Demand(ns[..k + 1]) == Demand(ns[..k]) + NodeDemand(ns[k]) <= Demand(ns)
    decreases |ns|
  {
    hide NodeDemand;
    assert ns[..k + 1][..k] == ns[..k];
    if k + 1 == |ns| {
      assert ns[..k + 1] == ns;
    } else {
      var front := ns[..|ns| - 1];
      DemandMore(front, k);
      assert front[..k] == ns[..k] && front[..k + 1] == ns[..k + 1];
    }
  }

  lemma {:induction false} ProgressStart(w: Ext2Image.Writer, ns: seq<Node>, self: nat, next: nat)
    requires w.Valid() && 0 < self < next == w.nextInode
    ensures Progress(w, w.files, ns, 0, self, next, []) && Demand(ns[..0]) == 0 && w.Cursor() <= w.Limit()
  {
    assert ns[..0] == [];
  }

  lemma {:induction false} ProgressIn(w: Ext2Image.Writer, before: map<nat, Ext2Image.Record>, ns: seq<Node>, k: nat,
      self: nat, next: nat, es: seq<Entry>)
    requires 0 < self < next && Progress(w, before, ns, k, self, next, es)
    ensures k <= |ns| && Suffice(ns[..k], next) && w.Cursor() <= w.Limit()
  {
  }

  lemma {:induction false} ProgressDone(w: Ext2Image.Writer, before: map<nat, Ext2Image.Record>, ns: seq<Node>,
      self: nat, next: nat, es: seq<Entry>)
    requires 0 < self < next && Progress(w, before, ns, |ns|, self, next, es)
    ensures w.Valid() && Suffice(ns, next) && w.nextInode == next + Inodes(ns) && Adds(before, w.files, next)
    ensures es == Entries(ns, next) && Kept(w.files, ns, self, next)
  {
    hide Kept, Entries, Inodes;
    assert ns[..|ns|] == ns;
  }

  lemma {:induction false} KeptNext(files: map<nat, Ext2Image.Record>, ns: seq<Node>, k: nat, self: nat, next: nat)
    requires k < |ns| && 0 < self < next && Suffice(ns[..k + 1], next)
    requires Inodes(ns[..k + 1]) == Inodes(ns[..k]) + NodeInodes(ns[k])
    requires ns[..k + 1][..k] == ns[..k] && Kept(files, ns[..k], self, next)
    requires KeptNode(files, ns[k], self, next + Inodes(ns[..k]))
    ensures Kept(files, ns[..k + 1], self, next)
    ensures Entries(ns[..k + 1], next) ==
      Entries(ns[..k], next) + (if ns[k].Other? then [] else EntryOf(ns[k], next + Inodes(ns[..k])))
  {
    hide KeptNode;
    assert ns[..k + 1][k] == ns[k];
  }

  // ---- Whole runs ----

  /** The part of the demand that falls into the zone `high`, when node `i` is written with
      `use_high_zone == zones[i]`. */
  function ZoneDemand(ns: seq<Node>, zones: seq<bool>, high: bool): nat
    requires |zones| == |ns|
  {
    if ns == [] then 0 else
      var k := |ns| - 1;
      ZoneDemand(ns[..k], zones[..k], high) + (if zones[k] == high then NodeDemand(ns[k]) else 0)
  }

  lemma {:induction false} ZoneDemandMore(ns: seq<Node>, zones: seq<bool>, high: bool, k: nat)
    requires k < |ns| == |zones|
    ensures ZoneDemand(ns[..k + 1], zones[..k + 1], high) ==
      ZoneDemand(ns[..k], zones[..k], high) + (if zones[k] == high then NodeDemand(ns[k]) else 0)
    ensures ZoneDemand(ns[..k + 1], zones[..k + 1], high) <= ZoneDemand(ns, zones, high)
    decreases |ns|
  {
    hide NodeDemand;
    assert zones[..k + 1][..k] == zones[..k] && ns[..k + 1][..k] == ns[..k];
    if k + 1 == |ns| {
      assert ns[..k + 1] == ns && zones[..k + 1] == zones;
    } else {
      var n := |ns| - 1;
      ZoneDemandMore(ns[..n], zones[..n], high, k);
      assert ns[..n][..k + 1] == ns[..k + 1] && zones[..n][..k + 1] == zones[..k + 1];
      assert ns[..n][..k] == ns[..k] && zones[..n][..k] == zones[..k];
    }
  }

  /** The zone counters stand where the first `k` nodes have put them. */
  ghost predicate ZonesAt(w: Ext2Image.Writer, ns: seq<Node>, zones: seq<bool>, k: nat)
    requires k <= |ns| == |zones|
    reads w
  {
    && w.nextBlock == FIRST_DATA_BLOCK + ZoneDemand(ns[..k], zones[..k], false)
    && w.highBlock == BITMAP_CAPACITY + ZoneDemand(ns[..k], zones[..k], true)
  }

  /** Inodes and both zones suffice for the nodes and `root` blocks of the root directory. */
  predicate Affordable(ns: seq<Node>, zones: seq<bool>, root: nat)
    requires |zones| == |ns|
  {
    && Suffice(ns, FIRST)
    && FIRST_DATA_BLOCK + ZoneDemand(ns, zones, false) + root <= BITMAP_CAPACITY
    && BITMAP_CAPACITY + ZoneDemand(ns, zones, true) <= TOTAL_BLOCKS
  }

  method BuildNext(w: Ext2Image.Writer, ns: seq<Node>, zones: seq<bool>, k: nat, es: seq<Entry>)
    returns (ok: bool, es': seq<Entry>)
    requires k < |ns| == |zones| && TreeFits(ns)
    requires Progress(w, map[], ns, k, ROOT, FIRST, es) && ZonesAt(w, ns, zones, k)
    modifies w
    ensures ok ==> Progress(w, map[], ns, k + 1, ROOT, FIRST, es') && ZonesAt(w, ns, zones, k + 1)
    ensures !ok ==> !Affordable(ns, zones, 0)
  {
    hide ZoneDemand, NodeDemand, Kept, Entries, TreeFits, Inodes, NodeInodes, AllHold, Placed;
    TakeMore(ns, k);
    ZoneDemandMore(ns, zones, false, k);
    ZoneDemandMore(ns, zones, true, k);
    w.useHighZone := zones[k];
    ok, es' := AddNext(w, ns, k, ROOT, es, map[], FIRST);
  }

  // ---- The root directory ----

  /** The records hold the tree, from the root down. */
  ghost predicate KeptRoot(files: map<nat, Ext2Image.Record>, ns: seq<Node>)
    requires Suffice(ns, FIRST)
  {
    && ROOT in files && HoldsDir(files[ROOT], DirEntries(ns, ROOT, ROOT, FIRST), 2 + Subdirs(ns))
    && Kept(files, ns, ROOT, FIRST)
  }

  /** The root directory, written last, into the low zone. */
  method AddRoot(w: Ext2Image.Writer, ns: seq<Node>, es: seq<Entry>) returns (ok: bool)
    requires TreeFits(ns) && DirFits(Outline(ns)) && Progress(w, map[], ns, |ns|, ROOT, FIRST, es)
    modifies w
    ensures ok == (old(w.nextBlock) + DirBlocks(ns) <= BITMAP_CAPACITY)
    ensures ok ==> w.Valid() && w.nextInode == old(w.nextInode) && w.nextBlock == old(w.nextBlock) + DirBlocks(ns)
    ensures ok ==> Suffice(ns, FIRST) && KeptRoot(w.files, ns)
  {
    hide Pack, DirBytes, FinalFits, ReadDir, Shown, AllHold, Placed, Kept, TreeFits, Entries, Inodes, Subdirs;
    hide Outline, DirBlocks, SameGroups;
    ProgressDone(w, map[], ns, ROOT, FIRST, es);
    SubdirsCounted(ns, FIRST);
    NumberedPack(ns, ROOT, ROOT, FIRST);
    hide Progress;
    ghost var files := w.files;
    w.useHighZone := false;
    var root := [Entry(ROOT, DOT, FT_DIR), Entry(ROOT, DOT_DOT, FT_DIR)] + es;
    ok := StoreDir(w, ROOT, root, 2 + CountDirs(es));
    if ok {
      KeptMore(files, w.files, ns, ROOT, FIRST);
    }
  }

  lemma {:induction false} RootFound(w: Ext2Image.Writer, ns: seq<Node>)
    requires w.Valid() && Suffice(ns, FIRST) && TreeFits(ns) && DirFits(Outline(ns)) && KeptRoot(w.files, ns)
    ensures ShowsRoot(ViewOf(w.img), ns)
  {
    hide Holds, DirFits, HoldsDir, DirEntries, HandedOut, Outline, TreeFits, Kept, Shows, Subdirs, Inodes, ViewOf;
    KeptFinds(w.img, w.nextBlock, w.highBlock, w.nextInode, w.files, ns, ROOT, FIRST);
    RecordPlaced(w.nextBlock, w.highBlock, w.nextInode, w.files, ROOT);
    assert Holds(w.img, ROOT, w.files[ROOT]);
    DirShows(w.img, w.files[ROOT], ns, ROOT, ROOT, FIRST);
  }

  /** The root directory and the bookkeeping. */
  method Finish(w: Ext2Image.Writer, ns: seq<Node>, es: seq<Entry>) returns (ok: bool)
    requires TreeFits(ns) && DirFits(Outline(ns)) && Progress(w, map[], ns, |ns|, ROOT, FIRST, es)
    modifies w
    ensures ok == (old(w.nextBlock) + DirBlocks(ns) <= BITMAP_CAPACITY)
    ensures ok ==> w.nextInode == old(w.nextInode) && w.nextBlock == old(w.nextBlock) + DirBlocks(ns)
    ensures ok ==> w.Valid() && Suffice(ns, FIRST) && ShowsRoot(ViewOf(w.img), ns)
    ensures ok ==> Ext2Account.Accounted(w.img, w.nextBlock, w.nextInode, 1 + AllDirs(ns))
  {
    hide Progress, AllHold, Placed, ShowsRoot, DirFits, Outline, DirBlocks, TreeFits, KeptRoot, ViewOf, Inodes;
    hide Ext2Account.Accounted, OnlyBlocks;
    ok := AddRoot(w, ns, es);
    if ok {
      Ext2Account.Account(w, 1 + AllDirs(ns));
      RootFound(w, ns);
    }
  }

  lemma {:induction false} Begun(w: Ext2Image.Writer, ns: seq<Node>, zones: seq<bool>)
    requires w.Valid() && w.files == map[] && w.nextInode == FIRST && |zones| == |ns|
    requires w.nextBlock == FIRST_DATA_BLOCK && w.highBlock == BITMAP_CAPACITY
    ensures Progress(w, map[], ns, 0, ROOT, FIRST, []) && ZonesAt(w, ns, zones, 0)
  {
    assert ns[..0] == [] && zones[..0] == [];
  }

  /** Files and trees, each in the zone chosen for it, the root directory over them, and the
      bookkeeping. The run succeeds exactly when the inodes suffice and both zones are large enough,
      and then the kernel finds everything and an account of it. */
  method BuildImage(now: u32, ns: seq<Node>, zones: seq<bool>) returns (ok: bool, w: Ext2Image.Writer)
    requires |zones| == |ns| && TreeFits(ns) && DirFits(Outline(ns))
    ensures ok == Affordable(ns, zones, DirBlocks(ns))
    ensures fresh(w) && (ok ==> w.Valid() && ShowsRoot(ViewOf(w.img), ns))
    ensures ok ==> w.nextInode == FIRST + Inodes(ns)
    ensures ok ==> w.nextBlock == FIRST_DATA_BLOCK + ZoneDemand(ns, zones, false) + DirBlocks(ns)
    ensures ok ==> Ext2Account.Accounted(w.img, w.nextBlock, w.nextInode, 1 + AllDirs(ns))
  {
    hide ZoneDemand, Progress, TreeFits, Inodes, AllHold, Placed, ShowsRoot, DirFits, Outline, DirBlocks, ViewOf;
    hide Ext2Account.Accounted;
    w := new Ext2Image.Writer(now);
    var es := [];
    Begun(w, ns, zones);
    for k := 0 to |ns|
      invariant fresh(w) && Progress(w, map[], ns, k, ROOT, FIRST, es) && ZonesAt(w, ns, zones, k)
    {
      ok, es := BuildNext(w, ns, zones, k, es);
      if !ok {
        return;
      }
    }
    assert ns[..|ns|] == ns && zones[..|ns|] == zones;
    ProgressDone(w, map[], ns, ROOT, FIRST, es);
    ok := Finish(w, ns, es);
  }

  // ---- Long directories ----

  /** The directory has at most twelve blocks. */
  ghost predicate ShortDir(es: seq<Entry>) { |Pack([], es)| <= DIRECT }

  /** No directory, the root included, has more than twelve blocks. */
  ghost predicate ShortTree(ns: seq<Node>) {
    DirBlocks(ns) <= DIRECT && Everywhere((es: seq<Entry>) => ShortDir(es), ns)
  }

  lemma {:induction false} CutOffIff(es: seq<Entry>)
    requires DirFits(es)
    ensures CutOff(es) == [] <==> ShortDir(es)
  {
    hide Pack, Flatten;
    var gs := Pack([], es);
    DirectoryRoundTrip(es);
    ShownIsAll(gs);
    ShownThenCut(es);
    PackKeepsEntries([], es);
    assert [] + es == es;
  }

  /** Nothing is cut off exactly in a tree of short directories. */
  lemma {:induction false} ShortComplete(img: seq<byte>, ns: seq<Node>)
    requires Suffice(ns, FIRST) && TreeFits(ns) && DirFits(Outline(ns))
    ensures Complete(ViewOf(img), ns) <==> ShortTree(ns)
  {
    hide Pack, CutOff, Outline, TreeFits, DirFits, Everywhere, Complete;
    var p := (es: seq<Entry>) => ShortDir(es);
    forall es: seq<Entry> | DirFits(es) ensures ViewOf(img).cut(es) == [] <==> p(es) {
      CutOffIff(es);
    }
    CompleteIff(ViewOf(img), p, ns);
  }
}
