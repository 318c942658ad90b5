/** Host trees, as both image scripts take them in: inode numbers in preorder, the entries of every
    directory, and what of a directory depends on its names alone. */
module HostTree {
  import opened Bytes
  import opened Ext2Dir

  const FT_REG: byte := 1
  const FT_DIR: byte := 2
  const MODE_EXEC: u16 := 0x81ED  // 0o100755
  const MODE_PLAIN: u16 := 0x81A4 // 0o100644
  const MODE_DIR: u16 := 0x41ED   // 0o40755
  const DOT: seq<byte> := [46]
  const DOT_DOT: seq<byte> := [46, 46]
  const ROOT: nat := 2
  /** The first inode number handed out. */
  const FIRST: nat := 12
  const LAST_INODE: nat := 32768

  /** A host directory listing, in the order of the sorted names. Symbolic links and other
      special files are `Other`, which the writers skip. */
  datatype Node =
    | File(name: seq<byte>, data: seq<byte>, exec: bool)
    | Dir(name: seq<byte>, children: seq<Node>)
    | Other(name: seq<byte>)

  function ModeOf(exec: bool): u16 { if exec then MODE_EXEC else MODE_PLAIN }

  // ---- Numbering ----

  /** How many inodes a listing takes. */
  function Inodes(ns: seq<Node>): nat {
    if ns == [] then 0 else Inodes(ns[..|ns| - 1]) + NodeInodes(ns[|ns| - 1])
  }

  function NodeInodes(n: Node): nat {
    match n
    case File(_, _, _) => 1
    case Dir(_, children) => 1 + Inodes(children)
    case Other(_) => 0
  }

  /** Numbers from `next` on are left for the listing. */
  predicate Suffice(ns: seq<Node>, next: nat) { next + Inodes(ns) <= LAST_INODE + 1 }

  /** Inodes and blocks are left for so many of each. */
  predicate Room(nextInode: nat, inodes: nat, nextBlock: nat, blocks: nat, limit: nat) {
    nextInode + inodes <= LAST_INODE + 1 && nextBlock + blocks <= limit
  }

  function EntryOf(n: Node, ino: u32): seq<Entry> {
    match n
    case File(name, _, _) => [Entry(ino, name, FT_REG)]
    case Dir(name, _) => [Entry(ino, name, FT_DIR)]
    case Other(_) => []
  }

  /** The entries of a listing whose first inode number is `next`; numbers go in preorder. */
  function Entries(ns: seq<Node>, next: nat): seq<Entry>
    requires next + Inodes(ns) <= 0x1_0000_0000
  {
    if ns == [] then [] else
      var front, last := ns[..|ns| - 1], ns[|ns| - 1];
      assert !last.Other? ==> NodeInodes(last) >= 1;
      Entries(front, next) + (if last.Other? then [] else EntryOf(last, next + Inodes(front)))
  }

  /** The entries of directory `ino` below `parent`, its children numbered from `next`. */
  function DirEntries(children: seq<Node>, ino: u32, parent: u32, next: nat): seq<Entry>
    requires next + Inodes(children) <= 0x1_0000_0000
  {
    [Entry(ino, DOT, FT_DIR), Entry(parent, DOT_DOT, FT_DIR)] + Entries(children, next)
  }

  function Subdirs(ns: seq<Node>): nat {
    if ns == [] then 0 else Subdirs(ns[..|ns| - 1]) + (if ns[|ns| - 1].Dir? then 1 else 0)
  }

  function CountDirs(es: seq<Entry>): nat {
    if es == [] then 0 else CountDirs(es[..|es| - 1]) + (if es[|es| - 1].kind == FT_DIR then 1 else 0)
  }

  /** Directories of the listing, at any depth. */
  function AllDirs(ns: seq<Node>): (d: nat)
    ensures d <= Inodes(ns)
  {
    if ns == [] then 0 else
      var last := ns[|ns| - 1];
      AllDirs(ns[..|ns| - 1]) + (if last.Dir? then 1 + AllDirs(last.children) else 0)
  }

  lemma {:induction false} SubdirsCounted(ns: seq<Node>, next: nat)
    requires next + Inodes(ns) <= 0x1_0000_0000
    ensures CountDirs(Entries(ns, next)) == Subdirs(ns) <= Inodes(ns)
  {
    if ns != [] {
      var front, last := ns[..|ns| - 1], ns[|ns| - 1];
      SubdirsCounted(front, next);
      if !last.Other? {
        var es := Entries(front, next);
        assert NodeInodes(last) >= 1;
        assert (es + EntryOf(last, next + Inodes(front)))[..|es|] == es;
      } else {
        assert Entries(front, next) + [] == Entries(front, next);
      }
    }
  }

  lemma {:induction false} InodesSplit(front: seq<Node>, last: Node)
    ensures Inodes(front + [last]) == Inodes(front) + NodeInodes(last)
    ensures last.Dir? ==> NodeInodes(last) == 1 + Inodes(last.children)
  {
    assert (front + [last])[..|front|] == front;
  }

  // ---- Names ----

  /** The entries of a listing before they are numbered. */
  function Unnumbered(ns: seq<Node>): seq<Entry> {
    if ns == [] then [] else Unnumbered(ns[..|ns| - 1]) + EntryOf(ns[|ns| - 1], 1)
  }

  /** A directory's entries before they are numbered. */
  function Outline(children: seq<Node>): seq<Entry> {
    [Entry(1, DOT, FT_DIR), Entry(1, DOT_DOT, FT_DIR)] + Unnumbered(children)
  }

  lemma {:induction false} NumberedNames(ns: seq<Node>, next: nat)
    requires 0 < next && next + Inodes(ns) <= 0x1_0000_0000
    ensures SameNames(Entries(ns, next), Unnumbered(ns))
    ensures AllGood(Unnumbered(ns)) ==> AllGood(Entries(ns, next))
  {
    if ns != [] {
      var front, last := ns[..|ns| - 1], ns[|ns| - 1];
      NumberedNames(front, next);
      assert AllGood(Unnumbered(ns)) ==> AllGood(Unnumbered(front)) by {
        assert forall i | 0 <= i < |Unnumbered(front)| :: Unnumbered(front)[i] == Unnumbered(ns)[i];
      }
      if !last.Other? {
        assert NodeInodes(last) >= 1;
        var e, u := EntryOf(last, next + Inodes(front))[0], EntryOf(last, 1)[0];
        assert Entries(ns, next) == Entries(front, next) + [e] && Unnumbered(ns) == Unnumbered(front) + [u];
        assert Unnumbered(ns)[|Unnumbered(front)|] == u;
      } else {
        assert Entries(front, next) + [] == Entries(front, next);
        assert Unnumbered(front) + [] == Unnumbered(front);
      }
    }
  }

  /** The directory's blocks have room for their entries, the final one included. */
  ghost predicate DirFits(es: seq<Entry>) {
    es != [] && AllGood(es) && FinalFits(es)
  }

  /** Every directory below fits, whatever its numbers. */
  ghost predicate TreeFits(ns: seq<Node>) {
    ns != [] ==> TreeFits(ns[..|ns| - 1]) && NodeFits(ns[|ns| - 1])
  }

  ghost predicate NodeFits(n: Node) {
    n.Dir? ==> DirFits(Outline(n.children)) && TreeFits(n.children)
  }

  /** How many blocks a directory takes. */
  function DirBlocks(children: seq<Node>): nat { |Pack([], Outline(children))| }

  /** Numbers do not change how a directory is packed. */
  lemma {:induction false} NumberedPack(children: seq<Node>, ino: u32, parent: u32, next: nat)
    requires 0 < ino && 0 < parent && 0 < next && next + Inodes(children) <= 0x1_0000_0000
    ensures var es := DirEntries(children, ino, parent, next);
      && SameGroups(Pack([], es), Pack([], Outline(children))) && |Pack([], es)| == DirBlocks(children)
      && (DirFits(Outline(children)) ==> DirFits(es))
  {
    hide Pack, Size, Entries, Unnumbered;
    var es, out := DirEntries(children, ino, parent, next), Outline(children);
    NumberedNames(children, next);
    DotsFirst(es, out, Entries(children, next), Unnumbered(children));
    SamePack([], es, [], out);
    var gs, hs := Pack([], es), Pack([], out);
    if gs != [] {
      SameSize(gs[|gs| - 1], hs[|hs| - 1]);
    }
  }

  lemma {:induction false} DotsFirst(es: seq<Entry>, out: seq<Entry>, below: seq<Entry>, plain: seq<Entry>)
    requires SameNames(below, plain) && (AllGood(plain) ==> AllGood(below)) && |es| >= 2 && |out| >= 2
    requires es == es[..2] + below && out == out[..2] + plain
    requires es[0].ino > 0 && es[1].ino > 0
    requires es[0].name == out[0].name == DOT && es[1].name == out[1].name == DOT_DOT
    ensures SameNames(es, out) && (AllGood(out) ==> AllGood(es))
  {
    forall i | 0 <= i < |es| ensures es[i].name == out[i].name {
      if i >= 2 {
        assert es[i] == below[i - 2] && out[i] == plain[i - 2];
      }
    }
    if AllGood(out) {
      forall i | 0 <= i < |plain| ensures Good(plain[i]) {
        assert plain[i] == out[2 + i];
      }
      forall i | 0 <= i < |es| ensures Good(es[i]) {
        if i >= 2 {
          assert es[i] == below[i - 2];
        } else {
          assert Good(out[i]);
        }
      }
    }
  }

  /** Every directory below is as `p` says, by its names. */
  ghost predicate Everywhere(p: seq<Entry> -> bool, ns: seq<Node>) {
    ns != [] ==>
      var front, last := ns[..|ns| - 1], ns[|ns| - 1];
      Everywhere(p, front) && (last.Dir? ==> p(Outline(last.children)) && Everywhere(p, last.children))
  }

  // ---- Prefixes of a listing ----

  lemma {:induction false} TakeMore(ns: seq<Node>, k: nat)
    requires k < |ns| && TreeFits(ns)
    ensures Inodes(ns[..k + 1]) == Inodes(ns[..k]) + NodeInodes(ns[k]) <= Inodes(ns)
    ensures ns[..k + 1][..k] == ns[..k] && ns[..k + 1][k] == ns[k] && TreeFits(ns[..k + 1]) && NodeFits(ns[k])
    decreases |ns|
  {
    hide DirFits, NodeFits, NodeInodes;
    if k + 1 == |ns| {
      assert ns[..k + 1] == ns;
    } else {
      var front := ns[..|ns| - 1];
      TakeMore(front, k);
      assert front[..k] == ns[..k] && front[..k + 1] == ns[..k + 1];
    }
  }

  // ---- What a host promises ----

  const SLASH: byte := 47

  /** A name of one byte at least, without a slash. */
  predicate Plain(name: seq<byte>) { name != [] && SLASH !in name }

  predicate HostName(name: seq<byte>) {
    Plain(name) && |name| <= 255 && name != DOT && name != DOT_DOT
  }

  /** A host directory lists no other names. */
  predicate HostNames(ns: seq<Node>) {
    ns != [] ==>
      var front, last := ns[..|ns| - 1], ns[|ns| - 1];
      HostNames(front) && HostName(last.name) && (last.Dir? ==> HostNames(last.children))
  }

  predicate HasName(ns: seq<Node>, name: seq<byte>) {
    ns != [] &&
    var front, last := ns[..|ns| - 1], ns[|ns| - 1];
    HasName(front, name) || (!last.Other? && last.name == name)
  }

  /** No host directory has two files of one name. */
  predicate DistinctNames(ns: seq<Node>) {
    ns != [] ==>
      var front, last := ns[..|ns| - 1], ns[|ns| - 1];
      && DistinctNames(front) && (!last.Other? ==> !HasName(front, last.name))
      && (last.Dir? ==> DistinctNames(last.children))
  }
}
