/** What listing the directories of a finished ext2 image gives: link counts and paths. */
module Ext2Listing {
  import opened Bytes
  import opened Ext2Format
  import opened Ext2Dir
  import opened HostTree
  import opened TreeView
  import TreeLinks
  import TreePath
  import PathDots
  import PathLost
  import opened Ext2DirStore
  import opened Ext2Tree

  /** The links the image stores for an inode are the entries naming it, listed or behind a twelfth
      block, and every inode but the root has one name. */
  lemma {:induction false} ImageLinks(img: seq<byte>, ns: seq<Node>, x: nat)
    requires Suffice(ns, FIRST) && ShowsRoot(ViewOf(img), ns) && TreeLinks.Numbered(ns, x)
    ensures var v := ViewOf(img);
      var listed, cut := TreeLinks.Listed(v, ns), TreeLinks.Unlisted(v, ns);
      && InodeLinks(img, x) == TreeLinks.Naming(listed, x, false) + TreeLinks.Naming(cut, x, false)
      && (x != ROOT && HostNames(ns) ==> TreeLinks.Naming(listed, x, true) + TreeLinks.Naming(cut, x, true) == 1)
  {
    hide ShowsRoot, HostNames, TreeLinks.Naming, TreeLinks.Listed, TreeLinks.Unlisted, TreeLinks.Numbered, Splits;
    ViewSplits(img);
    TreeLinks.ImageLinks(ViewOf(img), ns, x);
  }

  /** Counting what the kernel lists gives the stored links of every inode exactly when no
      directory has more than twelve blocks. */
  lemma {:induction false} LinksListedIff(img: seq<byte>, ns: seq<Node>)
    requires Suffice(ns, FIRST) && ShowsRoot(ViewOf(img), ns) && TreeFits(ns) && DirFits(Outline(ns))
    ensures TreeLinks.LinksListed(ViewOf(img), ns) <==> ShortTree(ns)
  {
    hide *;
    ViewSplits(img);
    TreeLinks.LinksListedIff(ViewOf(img), ns);
    ShortComplete(img, ns);
  }

  /** Every path of names resolves as on the host exactly when no directory has more than twelve
      blocks. */
  lemma {:induction false} PathsResolveIff(img: seq<byte>, ns: seq<Node>)
    requires Suffice(ns, FIRST) && ShowsRoot(ViewOf(img), ns) && TreeFits(ns) && DirFits(Outline(ns))
    requires HostNames(ns) && DistinctNames(ns)
    ensures PathLost.AllResolve(ViewOf(img), ns) <==> ShortTree(ns)
  {
    hide *;
    ViewSplits(img);
    PathLost.PathsResolveIff(ViewOf(img), ns);
    ShortComplete(img, ns);
  }

  /** Where directories are that short, a path with dots resolves as on the host, component by
      component, exactly when no `..` overruns the path buffer. */
  lemma {:induction false} DotsResolveIff(img: seq<byte>, ns: seq<Node>, path: seq<TreePath.Name>)
    requires Suffice(ns, FIRST) && ShowsRoot(ViewOf(img), ns) && TreeFits(ns) && DirFits(Outline(ns))
    requires HostNames(ns) && ShortTree(ns) && PathDots.AllPlain(path)
    ensures (forall k | 0 <= k <= |path| :: PathDots.Agrees(ViewOf(img), ns, path[..k]))
      <==> PathDots.NoOverrun(ns, path)
  {
    hide ShowsRoot, TreeFits, DirFits, HostNames, ShortTree, PathDots.AllPlain, PathDots.Agrees, PathDots.NoOverrun;
    hide Splits, Complete, ViewOf, Outline;
    ViewSplits(img);
    ShortComplete(img, ns);
    PathDots.DotsResolveIff(ViewOf(img), ns, path);
  }

  /** The kernel's lookup of a name in a directory of the image. */
  method Lookup(img: seq<byte>, ino: nat, name: TreePath.Name) returns (r: Option<nat>)
    ensures r == TreePath.LookupIn(ViewOf(img), ino, name)
  {
    hide FileContents, TreePath.FindName, Walk;
    if InodeMode(img, ino) / 0x1000 != 4 {
      return None;
    }
    r := TreePath.Lookup(FileContents(img, ino), name);
  }
}
