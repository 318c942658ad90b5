/** Directories that are not listed in full, and the paths that are lost with them. */
module PathLost {
  import opened Bytes
  import opened Ext2Dir
  import opened HostTree
  import opened TreeView
  import opened TreePath
  import opened PathDots

  lemma {:induction false} ChildNamed(ns: seq<Node>, self: nat, next: nat, name: Name)
    ensures Child(ns, self, next, name).Some? <==> HasName(ns, name)
  {
    if ns != [] {
      ChildNamed(ns[..|ns| - 1], self, next, name);
    }
  }

  /** The last entry of a listing has a name of its own. */
  lemma {:induction false} LastEntry(ns: seq<Node>, self: nat, next: nat) returns (before: seq<Entry>, e: Entry)
    requires next + Inodes(ns) <= 0x1_0000_0000 && DistinctNames(ns) && HostNames(ns) && Entries(ns, next) != []
    ensures Entries(ns, next) == before + [e] && FindName(before, e.name) == None
    ensures HasName(ns, e.name) && HostName(e.name)
  {
    hide FindName, HostName;
    var front, last := ns[..|ns| - 1], ns[|ns| - 1];
    if last.Other? {
      assert Entries(front, next) + [] == Entries(front, next);
      before, e := LastEntry(front, self, next);
    } else {
      before, e := Entries(front, next), EntryOf(last, next + Inodes(front))[0];
      assert EntryOf(last, next + Inodes(front)) == [e];
      ChildNumber(front, self, next, e.name);
      ChildNamed(front, self, next, e.name);
    }
  }

  /** A directory that is cut off loses its last name. */
  lemma {:induction false} LostName(v: View, f: Found) returns (name: Name)
    requires Splits(v) && Present(v, f) && f.node.Dir? && !Whole(v, f)
    requires DistinctNames(f.node.children) && HostNames(f.node.children)
    ensures LookupIn(v, f.ino, name) == None && Sub(f, name).Some? && HostName(name)
  {
    hide FindName, Entries, Child, HasName, DistinctNames, HostNames, HostName, Inodes, Shows;
    var children := f.node.children;
    var es, below := DirEntries(children, f.ino, f.up, f.next), Entries(children, f.next);
    var dot, up := Entry(f.ino, DOT, FT_DIR), Entry(f.up, DOT_DOT, FT_DIR);
    assert below == [] ==> es == [dot, up];
    var before, e := LastEntry(children, f.ino, f.next);
    name := e.name;
    ChildNamed(children, f.ino, f.next, name);
    var cut := v.cut(es);
    var rest, hidden := [dot] + ([up] + before), cut[..|cut| - 1];
    assert es == rest + [e] && cut == hidden + [cut[|cut| - 1]];
    SamePrefix(rest, e, v.shown(es), hidden, cut[|cut| - 1]);
    FindNameFirst(dot, [up] + before, name);
    FindNameFirst(up, before, name);
    FindNameBoth(v.shown(es), hidden, name);
    NotDots(name);
  }

  lemma {:induction false} NotDots(name: Name)
    requires HostName(name)
    ensures name != DOT && name != DOT_DOT && Plain(name)
  {
  }

  lemma {:induction false} SamePrefix<T>(rest: seq<T>, e: T, shown: seq<T>, hidden: seq<T>, f: T)
    requires rest + [e] == shown + (hidden + [f])
    ensures rest == shown + hidden
  {
    assert rest == (rest + [e])[..|rest|] && (shown + (hidden + [f]))[..|shown| + |hidden|] == shown + hidden;
  }

  /** A directory of the listing that is cut off, or has one below it that is. */
  lemma {:induction false} CutChild(v: View, ns: seq<Node>, self: nat, next: nat) returns (n: Node, ino: nat)
    requires 0 < self < next && Suffice(ns, next) && Shows(v, ns, self, next)
    requires DistinctNames(ns) && HostNames(ns) && !CompleteBelow(v, ns, self, next)
    ensures n in ns && n.Dir? && Child(ns, self, next, n.name) == Some(Found(n, ino, self, ino + 1)) && HostName(n.name)
    ensures self < ino && Suffice(n.children, ino + 1) && DistinctNames(n.children) && HostNames(n.children)
    ensures v.cut(DirEntries(n.children, ino, self, ino + 1)) == [] ==> !CompleteBelow(v, n.children, ino, ino + 1)
  {
    hide DirEntries, ShowsNode, HostName;
    var front, last := ns[..|ns| - 1], ns[|ns| - 1];
    if !CompleteBelow(v, front, self, next) {
      n, ino := CutChild(v, front, self, next);
    } else {
      n, ino := last, next + Inodes(front);
      ChildNamed(front, self, next, n.name);
      assert NodeInodes(last) == 1 + Inodes(last.children);
    }
  }

  lemma {:induction false} HostPlain(ns: seq<Node>, names: seq<Name>)
    requires Proper(names) && Target(ns, names).Some?
    ensures HostAfter(ns, names) == Some(names)
  {
    hide Sub;
    if names != [] {
      var front, c := names[..|names| - 1], names[|names| - 1];
      HostPlain(ns, front);
      assert front + [c] == names;
      SubOfDir(Target(ns, front).value, c);
    }
  }

  lemma {:induction false} SubOfDir(f: Found, name: Name)
    ensures Sub(f, name).Some? ==> f.node.Dir?
  {
  }

  /** The lost name makes a path that leads somewhere on the host and nowhere in the image. */
  lemma {:induction false} LostAt(v: View, ns: seq<Node>, prefix: seq<Name>, name: Name)
    requires Suffice(ns, FIRST) && Splits(v) && ShowsRoot(v, ns) && HostNames(ns)
    requires Proper(prefix) && WholeTo(v, ns, prefix) && Target(ns, prefix).Some? && HostName(name)
    requires LookupIn(v, Target(ns, prefix).value.ino, name) == None && Sub(Target(ns, prefix).value, name).Some?
    ensures !Agrees(v, ns, prefix + [name])
  {
    hide Splits, ShowsRoot, HostNames, LookupIn, Sub, WholeTo, After, HostAfter, HostName, Target, IsDir;
    NamesResolve(v, ns, prefix);
    AfterMore(v, prefix, name);
    NotDots(name);
    TargetMore(ns, prefix, name);
    assert Proper(prefix + [name]);
    HostPlain(ns, prefix + [name]);
  }

  lemma {:induction false} LostBelow(v: View, ns: seq<Node>, prefix: seq<Name>, f: Found) returns (path: seq<Name>)
    requires Suffice(ns, FIRST) && Splits(v) && ShowsRoot(v, ns) && HostNames(ns)
    requires Proper(prefix) && AllPlain(prefix) && WholeTo(v, ns, prefix) && Target(ns, prefix) == Some(f)
    requires f.node.Dir? && Present(v, f) && DistinctNames(f.node.children) && HostNames(f.node.children)
    requires Whole(v, f) ==> !CompleteBelow(v, f.node.children, f.ino, f.next)
    ensures AllPlain(path) && Proper(path) && !Agrees(v, ns, path)
    decreases f.node
  {
    hide Splits, ShowsRoot, HostNames, DistinctNames, LookupIn;
    hide After, HostAfter, Agrees, HostName, Shows, CompleteBelow;
    hide DirEntries, Target, Plain, Child;
    if !Whole(v, f) {
      var name := LostName(v, f);
      NotDots(name);
      path := prefix + [name];
      LostAt(v, ns, prefix, name);
    } else {
      var n, i := CutChild(v, f.node.children, f.ino, f.next);
      NotDots(n.name);
      var longer := prefix + [n.name];
      TargetMore(ns, prefix, n.name);
      TargetPresent(v, ns, longer);
      WholeMore(v, ns, prefix, n.name);
      path := LostBelow(v, ns, longer, Found(n, i, f.ino, i + 1));
    }
  }

  lemma {:induction false} WholeMore(v: View, ns: seq<Node>, prefix: seq<Name>, name: Name)
    requires WholeTo(v, ns, prefix) && Target(ns, prefix).Some? && Whole(v, Target(ns, prefix).value)
    ensures WholeTo(v, ns, prefix + [name])
  {
    hide Target, Whole;
    var longer := prefix + [name];
    forall k | 0 <= k < |longer| && Target(ns, longer[..k]).Some? ensures Whole(v, Target(ns, longer[..k]).value) {
      if k < |prefix| {
        assert longer[..k] == prefix[..k];
      } else {
        assert longer[..k] == prefix;
      }
    }
  }

  /** Every path of names leads where it leads on the host. */
  ghost predicate AllResolve(v: View, ns: seq<Node>) {
    forall path: seq<Name> | AllPlain(path) && Proper(path) :: Agrees(v, ns, path)
  }

  /** Every path of names from the root leads where it leads on the host exactly when nothing is
      cut off. */
  lemma {:induction false} PathsResolveIff(v: View, ns: seq<Node>)
    requires Suffice(ns, FIRST) && Splits(v) && ShowsRoot(v, ns) && HostNames(ns) && DistinctNames(ns)
    ensures AllResolve(v, ns) <==> Complete(v, ns)
  {
    hide Splits, ShowsRoot, HostNames, DistinctNames, Agrees, Plain, CompleteBelow, Target, DirEntries, Overruns;
    if Complete(v, ns) {
      forall path: seq<Name> | AllPlain(path) && Proper(path) ensures Agrees(v, ns, path) {
        NoDots(ns, path);
        InStepWithout(v, ns, path);
        InStepAgrees(v, ns, path);
      }
    } else {
      RootPresent(v, ns);
      RootTarget(ns);
      var path := LostBelow(v, ns, [], RootOf(ns));
      assert !Agrees(v, ns, path);
    }
  }

  lemma {:induction false} NoDots(ns: seq<Node>, path: seq<Name>)
    requires Proper(path)
    ensures NoOverrun(ns, path)
  {
    forall k | 0 <= k <= |path| ensures !Overruns(ns, path[..k]) {
      assert k > 0 ==> path[..k][k - 1] == path[k - 1];
    }
  }

  lemma {:induction false} InStepAgrees(v: View, ns: seq<Node>, path: seq<Name>)
    requires InStep(v, ns, path)
    ensures Agrees(v, ns, path)
  {
  }
}
