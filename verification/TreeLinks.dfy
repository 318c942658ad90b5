/** Link counts: what an inode's stored count says about the entries that name it, taken over what
    the kernel lists for every directory of a finished image. */
module TreeLinks {
  import opened Bytes
  import opened Ext2Dir
  import opened HostTree
  import opened TreeView

  /** Entry `e` names inode `x`; with `own`, other than as `.` or `..`. */
  predicate Names(e: Entry, x: nat, own: bool) {
    e.ino == x && (own ==> e.name != DOT && e.name != DOT_DOT)
  }

  function Naming(es: seq<Entry>, x: nat, own: bool): nat {
    if es == [] then 0 else Naming(es[..|es| - 1], x, own) + (if Names(es[|es| - 1], x, own) then 1 else 0)
  }

  /** Everything the kernel lists in the directories of a listing, and in those below. */
  function ListedBelow(v: View, ns: seq<Node>, next: nat): seq<Entry> {
    if ns == [] then [] else
      var front, last := ns[..|ns| - 1], ns[|ns| - 1];
      var ino := next + Inodes(front);
      ListedBelow(v, front, next)
      + (if last.Dir? then v.list(ino) + ListedBelow(v, last.children, ino + 1) else [])
  }

  /** The entries of those directories that are cut off. */
  function CutBelow(v: View, ns: seq<Node>, self: nat, next: nat): seq<Entry>
    requires 0 < self < next && Suffice(ns, next)
  {
    if ns == [] then [] else
      var front, last := ns[..|ns| - 1], ns[|ns| - 1];
      var ino := next + Inodes(front);
      assert last.Dir? ==> NodeInodes(last) == 1 + Inodes(last.children);
      CutBelow(v, front, self, next)
      + (if !last.Dir? then []
         else v.cut(DirEntries(last.children, ino, self, ino + 1)) + CutBelow(v, last.children, ino, ino + 1))
  }

  /** How many entries name `x`: in the listing itself, in what the kernel lists below it, and in
      what is cut off there. */
  function Mentions(v: View, ns: seq<Node>, self: nat, next: nat, x: nat, own: bool): nat
    requires 0 < self < next && Suffice(ns, next)
  {
    Naming(Entries(ns, next), x, own) + Naming(ListedBelow(v, ns, next), x, own)
    + Naming(CutBelow(v, ns, self, next), x, own)
  }

  // ---- Counting ----

  lemma {:induction false} NamingBoth(a: seq<Entry>, b: seq<Entry>, x: nat, own: bool)
    ensures Naming(a + b, x, own) == Naming(a, x, own) + Naming(b, x, own)
  {
    hide Names;
    if b == [] {
      assert a + b == a;
    } else {
      NamingBoth(a, b[..|b| - 1], x, own);
      assert (a + b)[..|a + b| - 1] == a + b[..|b| - 1];
    }
  }

  lemma {:induction false} NamingOne(e: Entry, x: nat, own: bool)
    ensures Naming([e], x, own) == (if Names(e, x, own) then 1 else 0)
  {
    assert [e][..0] == [];
  }

  /** What a node adds to the count. */
  function NodeMentions(v: View, n: Node, self: nat, ino: nat, x: nat, own: bool): nat
    requires 0 < self < ino && ino + NodeInodes(n) <= LAST_INODE + 1
  {
    match n
    case File(_, _, _) => if x == ino then 1 else 0
    case Dir(_, children) =>
      (if x != ino then 0 else if own then 1 else 2) + (if x == self && !own then 1 else 0)
      + Mentions(v, children, ino, ino + 1, x, own)
    case Other(_) => 0
  }

  /** A directory, as listed and as cut off, has the entries that were packed. */
  lemma {:induction false} DirectoryNames(listed: seq<Entry>, cut: seq<Entry>, below: seq<Entry>, ino: u32,
      parent: u32, x: nat, own: bool)
    requires listed + cut == [Entry(ino, DOT, FT_DIR), Entry(parent, DOT_DOT, FT_DIR)] + below
    ensures Naming(listed, x, own) + Naming(cut, x, own) ==
      (if x == ino && !own then 1 else 0) + (if x == parent && !own then 1 else 0) + Naming(below, x, own)
  {
    hide Naming;
    var dot, up := Entry(ino, DOT, FT_DIR), Entry(parent, DOT_DOT, FT_DIR);
    NamingBoth(listed, cut, x, own);
    assert listed + cut == ([dot] + [up]) + below;
    NamingBoth([dot] + [up], below, x, own);
    NamingBoth([dot], [up], x, own);
    NamingOne(dot, x, own);
    NamingOne(up, x, own);
  }

  // The lists of a listing are those of its front, and what its last node adds.

  lemma {:induction false} EntriesSplit(front: seq<Node>, last: Node, next: nat)
    requires next + Inodes(front) + NodeInodes(last) == next + Inodes(front + [last]) <= 0x1_0000_0000
    ensures last.Other? || NodeInodes(last) >= 1
    ensures Entries(front + [last], next) ==
      Entries(front, next) + (if last.Other? then [] else EntryOf(last, next + Inodes(front)))
  {
    assert (front + [last])[..|front|] == front;
  }

  lemma {:induction false} ListedSplit(v: View, front: seq<Node>, last: Node, next: nat)
    ensures var ino := next + Inodes(front);
      ListedBelow(v, front + [last], next) == ListedBelow(v, front, next)
        + (if last.Dir? then v.list(ino) + ListedBelow(v, last.children, ino + 1) else [])
  {
    hide Inodes;
    assert (front + [last])[..|front|] == front;
  }

  lemma {:induction false} CutSplit(v: View, front: seq<Node>, last: Node, self: nat, next: nat)
    requires 0 < self < next && Suffice(front + [last], next)
    requires Inodes(front) + NodeInodes(last) == Inodes(front + [last])
    ensures last.Dir? ==> NodeInodes(last) == 1 + Inodes(last.children)
    ensures var ino := next + Inodes(front);
      CutBelow(v, front + [last], self, next) == CutBelow(v, front, self, next)
        + (if !last.Dir? then []
           else v.cut(DirEntries(last.children, ino, self, ino + 1)) + CutBelow(v, last.children, ino, ino + 1))
  {
    hide DirEntries, Inodes;
    assert (front + [last])[..|front|] == front;
  }

  lemma {:induction false} MentionsSplit(v: View, front: seq<Node>, last: Node, self: nat, next: nat,
      x: nat, own: bool)
    requires 0 < self < next && Suffice(front + [last], next)
    requires Inodes(front) + NodeInodes(last) == Inodes(front + [last])
    requires Splits(v) && ShowsNode(v, last, self, next + Inodes(front))
    requires own ==> last.name != DOT && last.name != DOT_DOT
    ensures Mentions(v, front + [last], self, next, x, own) ==
      Mentions(v, front, self, next, x, own) + NodeMentions(v, last, self, next + Inodes(front), x, own)
  {
    hide Naming, Entries, ListedBelow, CutBelow, Inodes, Shows;
    var ino := next + Inodes(front);
    EntriesSplit(front, last, next);
    ListedSplit(v, front, last, next);
    CutSplit(v, front, last, self, next);
    if !last.Other? {
      var e := EntryOf(last, ino)[0];
      assert EntryOf(last, ino) == [e];
      NamingBoth(Entries(front, next), [e], x, own);
      NamingOne(e, x, own);
    } else {
      assert Entries(front, next) + [] == Entries(front, next);
    }
    if last.Dir? {
      var listed, cut := ListedBelow(v, last.children, ino + 1), CutBelow(v, last.children, ino, ino + 1);
      var es := DirEntries(last.children, ino, self, ino + 1);
      NamingBoth(ListedBelow(v, front, next), v.list(ino) + listed, x, own);
      NamingBoth(v.list(ino), listed, x, own);
      NamingBoth(CutBelow(v, front, self, next), v.cut(es) + cut, x, own);
      NamingBoth(v.cut(es), cut, x, own);
      DirectoryNames(v.list(ino), v.cut(es), Entries(last.children, ino + 1), ino, self, x, own);
    } else {
      assert ListedBelow(v, front, next) + [] == ListedBelow(v, front, next);
      assert CutBelow(v, front, self, next) + [] == CutBelow(v, front, self, next);
    }
  }

  lemma {:induction false} NothingNamed(v: View, self: nat, next: nat, x: nat, own: bool)
    requires 0 < self < next && Suffice([], next)
    ensures Mentions(v, [], self, next, x, own) == 0 && Subdirs([]) == 0 && Inodes([]) == 0
  {
  }

  /** The entries of a listing name only its own numbers, and `self` once per subdirectory. */
  lemma {:induction false} NamedOutside(v: View, ns: seq<Node>, self: nat, next: nat, x: nat, own: bool)
    requires 0 < self < next && Suffice(ns, next) && Splits(v) && Shows(v, ns, self, next)
    requires !(next <= x < next + Inodes(ns)) && (own ==> HostNames(ns))
    ensures Mentions(v, ns, self, next, x, own) == (if x == self && !own then Subdirs(ns) else 0)
    decreases ns
  {
    hide Splits, Mentions, Inodes, NodeInodes, Shows, DirEntries, HostNames, Subdirs;
    if ns == [] {
      NothingNamed(v, self, next, x, own);
    } else {
      var front, last := ShownParts(v, ns, self, next, own);
      var ino := next + Inodes(front);
      MentionsSplit(v, front, last, self, next, x, own);
      NamedOutside(v, front, self, next, x, own);
      if last.Dir? {
        NamedOutside(v, last.children, ino, ino + 1, x, own);
      }
    }
  }

  /** Every number that was handed out is stored with as many links as entries name it. */
  lemma {:induction false} LinkCounts(v: View, ns: seq<Node>, self: nat, next: nat, x: nat)
    requires 0 < self < next && Suffice(ns, next) && Splits(v) && Shows(v, ns, self, next)
    requires next <= x < next + Inodes(ns)
    ensures v.links(x) == Mentions(v, ns, self, next, x, false)
    decreases ns
  {
    hide Splits, Mentions, Inodes, NodeInodes, Shows, DirEntries, HostNames, Subdirs;
    if ns == [] {
      NothingNamed(v, self, next, x, false);
    } else {
      var front, last := ShownParts(v, ns, self, next, false);
      var ino := next + Inodes(front);
      MentionsSplit(v, front, last, self, next, x, false);
      if x < ino {
        LinkCounts(v, front, self, next, x);
        LastElsewhere(v, last, self, ino, x, false);
      } else {
        NamedOutside(v, front, self, next, x, false);
        LinksInLast(v, last, self, ino, x);
      }
    }
  }

  /** A node names no number before its own but that of its parent. */
  lemma {:induction false} LastElsewhere(v: View, last: Node, self: nat, ino: nat, x: nat, own: bool)
    requires 0 < self < ino && ino + NodeInodes(last) <= LAST_INODE + 1 && Splits(v) && ShowsNode(v, last, self, ino)
    requires self < x < ino && (own && last.Dir? ==> HostNames(last.children))
    ensures NodeMentions(v, last, self, ino, x, own) == 0
  {
    hide Splits, Mentions, Inodes, Shows, DirEntries, HostNames, Subdirs;
    if last.Dir? {
      NamedOutside(v, last.children, ino, ino + 1, x, own);
    }
  }

  lemma {:induction false} LinksInLast(v: View, last: Node, self: nat, ino: nat, x: nat)
    requires 0 < self < ino && ino + NodeInodes(last) <= LAST_INODE + 1 && Splits(v) && ShowsNode(v, last, self, ino)
    requires ino <= x < ino + NodeInodes(last)
    ensures v.links(x) == NodeMentions(v, last, self, ino, x, false)
    decreases last
  {
    hide Splits, Mentions, Inodes, Shows, DirEntries, HostNames, Subdirs;
    if last.Dir? {
      if x == ino {
        NamedOutside(v, last.children, ino, ino + 1, x, false);
      } else {
        LinkCounts(v, last.children, ino, ino + 1, x);
      }
    }
  }

  /** Every number that was handed out has exactly one name. */
  lemma {:induction false} NamedOnce(v: View, ns: seq<Node>, self: nat, next: nat, x: nat)
    requires 0 < self < next && Suffice(ns, next) && Splits(v) && Shows(v, ns, self, next)
    requires next <= x < next + Inodes(ns) && HostNames(ns)
    ensures Mentions(v, ns, self, next, x, true) == 1
    decreases ns
  {
    hide Splits, Mentions, Inodes, NodeInodes, Shows, DirEntries, HostNames, Subdirs;
    if ns == [] {
      NothingNamed(v, self, next, x, true);
    } else {
      var front, last := ShownParts(v, ns, self, next, true);
      var ino := next + Inodes(front);
      MentionsSplit(v, front, last, self, next, x, true);
      if x < ino {
        NamedOnce(v, front, self, next, x);
        LastElsewhere(v, last, self, ino, x, true);
      } else {
        NamedOutside(v, front, self, next, x, true);
        OnceInLast(v, last, self, ino, x);
      }
    }
  }

  lemma {:induction false} OnceInLast(v: View, last: Node, self: nat, ino: nat, x: nat)
    requires 0 < self < ino && ino + NodeInodes(last) <= LAST_INODE + 1 && Splits(v) && ShowsNode(v, last, self, ino)
    requires ino <= x < ino + NodeInodes(last) && (last.Dir? ==> HostNames(last.children))
    ensures NodeMentions(v, last, self, ino, x, true) == 1
    decreases last
  {
    hide Splits, Mentions, Inodes, Shows, DirEntries, HostNames, Subdirs;
    if last.Dir? {
      if x == ino {
        NamedOutside(v, last.children, ino, ino + 1, x, true);
      } else {
        NamedOnce(v, last.children, ino, ino + 1, x);
      }
    }
  }

  // ---- From the root ----

  /** Everything the kernel lists, from the root directory down. */
  function Listed(v: View, ns: seq<Node>): seq<Entry> {
    v.list(ROOT) + ListedBelow(v, ns, FIRST)
  }

  /** What was written and is never listed. */
  function Unlisted(v: View, ns: seq<Node>): seq<Entry>
    requires Suffice(ns, FIRST)
  {
    v.cut(DirEntries(ns, ROOT, ROOT, FIRST)) + CutBelow(v, ns, ROOT, FIRST)
  }

  predicate Numbered(ns: seq<Node>, x: nat) { x == ROOT || FIRST <= x < FIRST + Inodes(ns) }

  lemma {:induction false} RootNames(v: View, ns: seq<Node>, x: nat, own: bool)
    requires Suffice(ns, FIRST) && Splits(v) && ShowsRoot(v, ns)
    ensures Naming(Listed(v, ns), x, own) + Naming(Unlisted(v, ns), x, own) ==
      (if x == ROOT && !own then 2 else 0) + Mentions(v, ns, ROOT, FIRST, x, own)
  {
    hide Naming, Entries, ListedBelow, CutBelow, Inodes, Shows;
    var es := DirEntries(ns, ROOT, ROOT, FIRST);
    NamingBoth(v.list(ROOT), ListedBelow(v, ns, FIRST), x, own);
    NamingBoth(v.cut(es), CutBelow(v, ns, ROOT, FIRST), x, own);
    DirectoryNames(v.list(ROOT), v.cut(es), Entries(ns, FIRST), ROOT, ROOT, x, own);
  }

  /** In a finished image every inode has as many links as entries name it, listed or not, and
      every inode but the root has one name. */
  lemma {:induction false} ImageLinks(v: View, ns: seq<Node>, x: nat)
    requires Suffice(ns, FIRST) && Splits(v) && ShowsRoot(v, ns) && Numbered(ns, x)
    ensures v.links(x) == Naming(Listed(v, ns), x, false) + Naming(Unlisted(v, ns), x, false)
    ensures x != ROOT && HostNames(ns) ==> Naming(Listed(v, ns), x, true) + Naming(Unlisted(v, ns), x, true) == 1
  {
    hide Splits, Naming, Listed, Unlisted, Mentions, Inodes, Shows, Subdirs, HostNames, DirEntries;
    RootNames(v, ns, x, false);
    RootNames(v, ns, x, true);
    if x == ROOT {
      NamedOutside(v, ns, ROOT, FIRST, x, false);
    } else {
      LinkCounts(v, ns, ROOT, FIRST, x);
      if HostNames(ns) {
        NamedOnce(v, ns, ROOT, FIRST, x);
      }
    }
  }

  lemma {:induction false} CutBelowIff(v: View, ns: seq<Node>, self: nat, next: nat)
    requires 0 < self < next && Suffice(ns, next)
    ensures CutBelow(v, ns, self, next) == [] <==> CompleteBelow(v, ns, self, next)
    decreases ns
  {
    hide DirEntries;
    if ns != [] {
      var front, last := ns[..|ns| - 1], ns[|ns| - 1];
      var ino := next + Inodes(front);
      CutBelowIff(v, front, self, next);
      if last.Dir? {
        assert NodeInodes(last) == 1 + Inodes(last.children);
        CutBelowIff(v, last.children, ino, ino + 1);
      }
    }
  }

  ghost predicate LinksListed(v: View, ns: seq<Node>) {
    forall x: nat | Numbered(ns, x) :: v.links(x) == Naming(Listed(v, ns), x, false)
  }

  /** The kernel, listing every directory, counts the links that are stored for every inode
      exactly when nothing is cut off. */
  lemma {:induction false} LinksListedIff(v: View, ns: seq<Node>)
    requires Suffice(ns, FIRST) && Splits(v) && ShowsRoot(v, ns)
    ensures LinksListed(v, ns) <==> Complete(v, ns)
  {
    hide Splits, Naming, Listed, Mentions, Inodes, ShowsRoot, Subdirs, DirEntries, CutBelow;
    CutBelowIff(v, ns, ROOT, FIRST);
    var rest := Unlisted(v, ns);
    if rest == [] {
      forall x: nat | Numbered(ns, x) ensures v.links(x) == Naming(Listed(v, ns), x, false) {
        ImageLinks(v, ns, x);
        NamingNone(x);
      }
    } else {
      var x := rest[|rest| - 1].ino;
      NamingLast(rest);
      MentionedNumber(v, ns, x);
      ImageLinks(v, ns, x);
    }
  }

  lemma {:induction false} NamingNone(x: nat)
    ensures Naming([], x, false) == 0
  {
  }

  lemma {:induction false} NamingLast(es: seq<Entry>)
    requires es != []
    ensures Naming(es, es[|es| - 1].ino, false) > 0
  {
  }

  /** Entries name numbers that were handed out. */
  lemma {:induction false} MentionedNumber(v: View, ns: seq<Node>, x: nat)
    requires Suffice(ns, FIRST) && Splits(v) && ShowsRoot(v, ns)
    requires Naming(Unlisted(v, ns), x, false) > 0
    ensures Numbered(ns, x)
  {
    hide Splits, Naming, Listed, Unlisted, Mentions, Inodes, Shows, Subdirs;
    RootNames(v, ns, x, false);
    if !Numbered(ns, x) {
      NamedOutside(v, ns, ROOT, FIRST, x, false);
    }
  }
}
