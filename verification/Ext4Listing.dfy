/** What listing the directories of a finished ext4 image gives: link counts and paths. */
module Ext4Listing {
  import opened Bytes
  import opened HostTree
  import opened TreeView
  import TreeLinks
  import PathLost
  import opened Ext4Inode
  import opened Ext4Tree

  /** The links the image stores for an inode are the entries naming it, listed or behind a gap,
      and every inode but the root has one name. */
  lemma {:induction false} ImageLinks(img: seq<byte>, uuid: seq<bv8>, ns: seq<Node>, x: nat)
    requires Suffice(ns, FIRST) && ShowsRoot(ViewOf(img, uuid), ns) && TreeLinks.Numbered(ns, x)
    ensures var v := ViewOf(img, uuid);
      var listed, cut := TreeLinks.Listed(v, ns), TreeLinks.Unlisted(v, ns);
      && 0 < x && LinksOf(Slot(img, x)) == TreeLinks.Naming(listed, x, false) + TreeLinks.Naming(cut, x, false)
      && (x != ROOT && HostNames(ns) ==> TreeLinks.Naming(listed, x, true) + TreeLinks.Naming(cut, x, true) == 1)
  {
    hide ShowsRoot, HostNames, TreeLinks.Naming, TreeLinks.Listed, TreeLinks.Unlisted, Splits, Slot, Inodes;
    ViewSplits(img, uuid);
    TreeLinks.ImageLinks(ViewOf(img, uuid), ns, x);
  }

  /** Counting what the kernel lists gives the stored links of every inode exactly when no
      directory has a gap. */
  lemma {:induction false} LinksListedIff(img: seq<byte>, uuid: seq<bv8>, ns: seq<Node>)
    requires Suffice(ns, FIRST) && ShowsRoot(ViewOf(img, uuid), ns) && TreeFits(ns) && DirFits(Outline(ns))
    ensures TreeLinks.LinksListed(ViewOf(img, uuid), ns) <==> GaplessTree(ns)
  {
    hide *;
    ViewSplits(img, uuid);
    TreeLinks.LinksListedIff(ViewOf(img, uuid), ns);
    GaplessComplete(img, uuid, ns);
  }

  /** Every path of names resolves as on the host exactly when no directory has a gap. */
  lemma {:induction false} PathsResolveIff(img: seq<byte>, uuid: seq<bv8>, ns: seq<Node>)
    requires Suffice(ns, FIRST) && ShowsRoot(ViewOf(img, uuid), ns) && TreeFits(ns) && DirFits(Outline(ns))
    requires HostNames(ns) && DistinctNames(ns)
    ensures PathLost.AllResolve(ViewOf(img, uuid), ns) <==> GaplessTree(ns)
  {
    hide *;
    ViewSplits(img, uuid);
    PathLost.PathsResolveIff(ViewOf(img, uuid), ns);
    GaplessComplete(img, uuid, ns);
  }
}
