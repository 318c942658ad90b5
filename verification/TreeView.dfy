/** A finished image as its directories and link counts show it, whatever the file system, and the
    host tree it shows. */
module TreeView {
  import opened Bytes
  import opened Ext2Dir
  import opened HostTree

  /** What the kernel reads for each inode: the entries it lists, the bytes it reads, mode and link
      count, and whether the inode passes its check. Of a directory's entries `shown` are the ones
      that are listed, and `cut` those that were written and are not. */
  datatype View = View(
    list: nat -> seq<Entry>, contents: nat -> seq<byte>, mode: nat -> nat, links: nat -> nat, sound: nat -> bool,
    shown: seq<Entry> -> seq<Entry>, cut: seq<Entry> -> seq<Entry>)

  predicate IsDir(v: View, ino: nat) { v.mode(ino) / 0x1000 == 4 }

  /** Every entry is listed or cut off, and of two entries neither is cut off. */
  ghost predicate Splits(v: View) {
    && (forall es: seq<Entry> | es != [] :: v.shown(es) + v.cut(es) == es)
    && (forall a: Entry, b: Entry :: v.cut([a, b]) == [])
  }

  /** Directory `ino` lists its entries but for those cut off, and what is below is there too. */
  ghost predicate ShowsDir(v: View, children: seq<Node>, ino: nat, parent: nat, next: nat)
    requires 0 < parent <= ino < next && Suffice(children, next)
    decreases children, 1
  {
    && v.list(ino) == v.shown(DirEntries(children, ino, parent, next))
    && v.mode(ino) == MODE_DIR && v.links(ino) == 2 + Subdirs(children) && v.sound(ino)
    && Shows(v, children, ino, next)
  }

  /** The listing of directory `self`, numbered from `next`, is there: files by content, directories
      by what they list, each with mode and link count, and all that is below them. */
  ghost predicate Shows(v: View, ns: seq<Node>, self: nat, next: nat)
    requires 0 < self < next && Suffice(ns, next)
    decreases ns, 0
  {
    ns != [] ==>
      var front, last := ns[..|ns| - 1], ns[|ns| - 1];
      Shows(v, front, self, next) && ShowsNode(v, last, self, next + Inodes(front))
  }

  ghost predicate ShowsNode(v: View, n: Node, self: nat, ino: nat)
    requires 0 < self < ino && ino + NodeInodes(n) <= LAST_INODE + 1
    decreases n, 2
  {
    match n
    case File(_, data, exec) =>
      v.contents(ino) == data && v.mode(ino) == ModeOf(exec) && v.links(ino) == 1 && v.sound(ino)
    case Dir(_, children) => ShowsDir(v, children, ino, self, ino + 1)
    case Other(_) => true
  }

  /** The whole tree, from the root directory down. */
  ghost predicate ShowsRoot(v: View, ns: seq<Node>)
    requires Suffice(ns, FIRST)
  {
    ShowsDir(v, ns, ROOT, ROOT, FIRST)
  }

  /** Nothing of any directory below is cut off. */
  ghost predicate CompleteBelow(v: View, ns: seq<Node>, self: nat, next: nat)
    requires 0 < self < next && Suffice(ns, next)
  {
    ns != [] ==>
      var front, last := ns[..|ns| - 1], ns[|ns| - 1];
      var ino := next + Inodes(front);
      assert last.Dir? ==> NodeInodes(last) == 1 + Inodes(last.children);
      && CompleteBelow(v, front, self, next)
      && (last.Dir? ==> v.cut(DirEntries(last.children, ino, self, ino + 1)) == [])
      && (last.Dir? ==> CompleteBelow(v, last.children, ino, ino + 1))
  }

  ghost predicate Complete(v: View, ns: seq<Node>)
    requires Suffice(ns, FIRST)
  {
    v.cut(DirEntries(ns, ROOT, ROOT, FIRST)) == [] && CompleteBelow(v, ns, ROOT, FIRST)
  }

  /** Nothing of a directory is cut off exactly when `p` holds, which numbers do not affect. */
  ghost predicate CutsBy(v: View, p: seq<Entry> -> bool) {
    && (forall es: seq<Entry> | DirFits(es) :: v.cut(es) == [] <==> p(es))
    && (forall a: seq<Entry>, b: seq<Entry> | SameGroups(Pack([], a), Pack([], b)) :: p(a) <==> p(b))
  }

  lemma {:induction false} CompleteDirIff(v: View, p: seq<Entry> -> bool, children: seq<Node>, ino: nat, parent: nat,
      next: nat)
    requires 0 < parent <= ino < next && Suffice(children, next) && CutsBy(v, p) && DirFits(Outline(children))
    ensures v.cut(DirEntries(children, ino, parent, next)) == [] <==> p(Outline(children))
  {
    hide Outline, DirEntries, DirFits, Pack, SameGroups;
    NumberedPack(children, ino, parent, next);
  }

  lemma {:induction false} CompleteBelowIff(v: View, p: seq<Entry> -> bool, ns: seq<Node>, self: nat, next: nat)
    requires 0 < self < next && Suffice(ns, next) && CutsBy(v, p) && TreeFits(ns)
    ensures CompleteBelow(v, ns, self, next) <==> Everywhere(p, ns)
    decreases ns
  {
    hide Outline, DirEntries, DirFits, CutsBy;
    if ns != [] {
      var front, last := ns[..|ns| - 1], ns[|ns| - 1];
      var ino := next + Inodes(front);
      CompleteBelowIff(v, p, front, self, next);
      assert NodeFits(last);
      if last.Dir? {
        assert NodeInodes(last) == 1 + Inodes(last.children);
        CompleteBelowIff(v, p, last.children, ino, ino + 1);
        CompleteDirIff(v, p, last.children, ino, self, ino + 1);
      }
    }
  }

  lemma {:induction false} CompleteIff(v: View, p: seq<Entry> -> bool, ns: seq<Node>)
    requires Suffice(ns, FIRST) && CutsBy(v, p) && TreeFits(ns) && DirFits(Outline(ns))
    ensures Complete(v, ns) <==> p(Outline(ns)) && Everywhere(p, ns)
  {
    hide Outline, DirEntries, DirFits, CutsBy, TreeFits;
    CompleteBelowIff(v, p, ns, ROOT, FIRST);
    CompleteDirIff(v, p, ns, ROOT, ROOT, FIRST);
  }

  /** The parts of a listing that is shown. */
  lemma {:induction false} ShownParts(v: View, ns: seq<Node>, self: nat, next: nat, host: bool)
    returns (front: seq<Node>, last: Node)
    requires ns != [] && 0 < self < next && Suffice(ns, next) && Shows(v, ns, self, next)
    requires host ==> HostNames(ns)
    ensures front == ns[..|ns| - 1] && last == ns[|ns| - 1] && ns == front + [last]
    ensures next + Inodes(front) + NodeInodes(last) == next + Inodes(ns)
    ensures if last.Dir? then NodeInodes(last) == 1 + Inodes(last.children) else last.File? ==> NodeInodes(last) == 1
    ensures Shows(v, front, self, next) && ShowsNode(v, last, self, next + Inodes(front))
    ensures host ==> HostNames(front) && HostName(last.name)
    ensures host && last.Dir? ==> HostNames(last.children)
    ensures Subdirs(ns) == Subdirs(front) + if last.Dir? then 1 else 0
  {
    hide ShowsNode;
    front, last := ns[..|ns| - 1], ns[|ns| - 1];
    InodesSplit(front, last);
  }
}
