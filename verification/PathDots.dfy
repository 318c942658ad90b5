/** Paths with `.` and `..`: the kernel remembers the way it came in a buffer of 256 bytes, and what
    comes of it when the way is longer. */
module PathDots {
  import opened Bytes
  import opened HostTree
  import opened TreeView
  import opened TreePath

  // ---- Strings and names ----

  ghost predicate AllPlain(names: seq<Name>) {
    forall i | 0 <= i < |names| :: Plain(names[i])
  }

  lemma {:induction false} NameEnds(a: seq<byte>, b: seq<byte>)
    requires a != [] && a[0] != SLASH && b != [] && b[0] == SLASH
    ensures NameLength(a + b) == NameLength(a)
  {
    assert (a + b)[1..] == a[1..] + b;
    if |a| > 1 && a[1] != SLASH {
      NameEnds(a[1..], b);
    }
  }

  lemma {:induction false} OneName(n: Name)
    requires Plain(n)
    ensures NameLength(n) == |n| && Split(n) == [n]
  {
    NoSlash(n);
    assert n[..|n|] == n && n[|n|..] == [];
  }

  lemma {:induction false} NoSlash(n: seq<byte>)
    requires SLASH !in n
    ensures NameLength(n) == |n|
  {
    if n != [] {
      assert n[0] in n;
      assert forall x | x in n[1..] :: x in n;
      NoSlash(n[1..]);
    }
  }

  lemma {:induction false} SplitMore(a: seq<byte>, n: Name)
    requires Plain(n)
    ensures Split(a + [SLASH] + n) == Split(a) + [n]
    decreases |a|
  {
    hide Split, NameLength;
    var s := a + [SLASH] + n;
    if a == [] {
      OneName(n);
      SplitParts(s);
      SplitParts(a);
      assert s[1..] == n;
    } else if a[0] == SLASH {
      SplitParts(s);
      SplitParts(a);
      assert s[1..] == a[1..] + [SLASH] + n;
      SplitMore(a[1..], n);
    } else {
      var k := NameLength(a);
      NameEnds(a, [SLASH] + n);
      SplitParts(s);
      SplitParts(a);
      assert s == a + ([SLASH] + n) && s[..k] == a[..k] && s[k..] == a[k..] + [SLASH] + n;
      SplitMore(a[k..], n);
      assert [a[..k]] + (Split(a[k..]) + [n]) == Split(a) + [n];
    }
  }

  /** A joined path splits into its names. */
  lemma {:induction false} SplitJoin(names: seq<Name>)
    requires AllPlain(names)
    ensures Split(Join(names)) == names
  {
    hide Split, Plain;
    if names == [] {
      RootSplits();
    } else {
      var front, last := names[..|names| - 1], names[|names| - 1];
      SplitJoin(front);
      if front == [] {
        SplitMore([], last);
        RootSplits();
        assert [] + [SLASH] + last == [SLASH] + last;
      } else {
        SplitMore(Join(front), last);
      }
    }
  }

  lemma {:induction false} RootSplits()
    ensures Split([SLASH]) == [] && Split([]) == []
  {
    assert [SLASH][1..] == [];
  }

  /** As much of a path as its buffer holds. */
  function Held(s: seq<byte>): seq<byte> { s[..Min(|s|, BUFFER)] }

  lemma {:induction false} PushedIs(names: seq<Name>, c: Name)
    requires AllPlain(names)
    ensures Pushed(Held(Join(names)), c) == Held(Join(names + [c]))
  {
    assert (names + [c])[..|names|] == names;
    var j := Join(names);
    JoinShort(names);
    if names == [] {
      assert Join(names + [c]) == [SLASH] + c;
    } else {
      assert Join(names + [c]) == j + [SLASH] + c;
      if |j| >= BUFFER {
        assert c[..0] == [];
      } else {
        assert Held(j) == j;
      }
    }
  }

  lemma {:induction false} JoinShort(names: seq<Name>)
    requires AllPlain(names)
    ensures |Join(names)| == 1 <==> names == []
  {
    if names != [] {
      assert Plain(names[|names| - 1]);
    }
  }

  lemma {:induction false} LastSlashAt(s: seq<byte>, k: nat)
    requires k < |s| && s[k] == SLASH && SLASH !in s[k + 1..]
    ensures LastSlash(s) == k
  {
  }

  /** The last component of what the buffer holds goes: the right one when the path before it ends
      inside the buffer. */
  lemma {:induction false} StrippedIs(front: seq<Name>, last: Name)
    requires AllPlain(front) && Plain(last) && |Join(front)| < BUFFER
    ensures Stripped(Held(Join(front + [last]))) == Join(front)
  {
    hide LastSlash;
    assert (front + [last])[..|front|] == front;
    var j := Join(front + [last]);
    var a, k := Held(j), if front == [] then 0 else |Join(front)|;
    assert j[k] == SLASH && j[k + 1..] == last && a[k + 1..] == last[..|a| - k - 1];
    assert forall x | x in a[k + 1..] :: x in last;
    LastSlashAt(a, k);
    if front != [] {
      JoinShort(front);
      assert a[..k] == Join(front);
    } else {
      assert a[..1] == [SLASH];
    }
  }

  /** When the path before it fills the buffer, a shorter prefix is left. */
  lemma {:induction false} StrippedTooFar(names: seq<Name>) returns (j: nat)
    requires AllPlain(names) && |Join(names)| >= BUFFER
    ensures j < |names| && Stripped(Held(Join(names))) == Join(names[..j])
  {
    hide Stripped, Plain;
    var front, last := names[..|names| - 1], names[|names| - 1];
    assert names == front + [last];
    if |Join(front)| < BUFFER {
      j := |front|;
      StrippedIs(front, last);
    } else {
      j := StrippedTooFar(front);
      assert Held(Join(names)) == Held(Join(front)) by {
        assert Join(names) == Join(front) + [SLASH] + last;
      }
      assert front[..j] == names[..j];
    }
  }

  // ---- Dots ----

  /** The kernel stands where the host does, and remembers the way there as far as it fits. */
  ghost predicate InStep(v: View, ns: seq<Node>, path: seq<Name>) {
    var s, h := After(v, path), HostAfter(ns, path);
    && (s.Some? <==> h.Some?)
    && (s.Some? ==> s.value.current == Target(ns, h.value).value.ino && s.value.accum == Held(Join(h.value)))
  }

  /** The path leads to the same inode as on the host, or nowhere on both. */
  ghost predicate Agrees(v: View, ns: seq<Node>, path: seq<Name>) {
    var s, h := After(v, path), HostAfter(ns, path);
    if h.Some? then s.Some? && s.value.current == Target(ns, h.value).value.ino else s.None?
  }

  /** The path ends with a `..` out of a directory whose parent's path fills the buffer. */
  ghost predicate Overruns(ns: seq<Node>, path: seq<Name>) {
    path != [] && path[|path| - 1] == DOT_DOT &&
    var h := HostAfter(ns, path[..|path| - 1]);
    h.Some? && Target(ns, h.value).value.node.Dir? && h.value != [] && |Join(h.value[..|h.value| - 1])| >= BUFFER
  }

  /** An image in which nothing is cut off, of a tree with names a host allows. */
  ghost predicate Faithful(v: View, ns: seq<Node>) {
    Suffice(ns, FIRST) && Splits(v) && ShowsRoot(v, ns) && Complete(v, ns) && HostNames(ns)
  }

  lemma {:induction false} TargetUpTo(ns: seq<Node>, names: seq<Name>, j: nat)
    requires Target(ns, names).Some? && j <= |names|
    ensures Target(ns, names[..j]).Some?
  {
    hide Sub;
    if j < |names| {
      TargetUpTo(ns, names[..|names| - 1], j);
      assert names[..|names| - 1][..j] == names[..j];
    } else {
      assert names[..j] == names;
    }
  }

  /** Numbers grow on the way down. */
  lemma {:induction false} NumbersGrow(v: View, ns: seq<Node>, names: seq<Name>, j: nat)
    requires Suffice(ns, FIRST) && ShowsRoot(v, ns) && Target(ns, names).Some? && j < |names|
    ensures Target(ns, names[..j]).Some? && Target(ns, names[..j]).value.ino < Target(ns, names).value.ino
  {
    hide Sub, ShowsRoot, Present;
    var front := names[..|names| - 1];
    TargetPresent(v, ns, front);
    SubPresent(v, Target(ns, front).value, names[|names| - 1]);
    if j < |front| {
      NumbersGrow(v, ns, front, j);
      assert front[..j] == names[..j];
    } else {
      assert names[..j] == front;
    }
  }

  /** Every prefix of the names that lead somewhere resolves, from its joined path, to its own inode. */
  lemma {:induction false} JoinedResolves(v: View, ns: seq<Node>, names: seq<Name>, j: nat)
    requires Faithful(v, ns) && Target(ns, names).Some? && j <= |names|
    ensures AllPlain(names) && Target(ns, names[..j]).Some? && After(v, Split(Join(names[..j]))).Some?
    ensures After(v, Split(Join(names[..j]))).value.current == Target(ns, names[..j]).value.ino
  {
    hide After, Split, Join, Target, Splits, ShowsRoot, Complete, HostNames, Whole;
    var front := names[..j];
    TargetUpTo(ns, names, j);
    TargetNames(ns, names);
    assert AllPlain(names) && Proper(front);
    SplitJoin(front);
    forall k | 0 <= k < |front| && Target(ns, front[..k]).Some? ensures Whole(v, Target(ns, front[..k]).value) {
      AllWhole(v, ns, front[..k]);
    }
    NamesResolve(v, ns, front);
  }

  lemma {:induction false} HostMore(ns: seq<Node>, path: seq<Name>, c: Name)
    ensures var h, r := HostAfter(ns, path), HostAfter(ns, path + [c]);
      if h.None? || !Target(ns, h.value).value.node.Dir? then r == None
      else if c == DOT then r == h
      else if c == DOT_DOT then r == Some(if h.value == [] then [] else h.value[..|h.value| - 1])
      else r == if Target(ns, h.value + [c]).Some? then Some(h.value + [c]) else None
  {
    hide Target;
    assert (path + [c])[..|path|] == path;
  }

  lemma {:induction false} StepUp(v: View, s: State, weight: nat)
    requires 0 < |s.accum| <= BUFFER && s.accum[0] == SLASH && IsDir(v, s.current)
    requires 3 <= weight && (|s.accum| > 1 ==> |s.accum| + 3 <= weight)
    ensures var a := Stripped(s.accum);
      Step(v, s, DOT_DOT, weight) ==
        if |a| == 1 then Some(State(ROOT, a))
        else Some(State(if After(v, Split(a)).Some? then After(v, Split(a)).value.current else ROOT, a))
  {
    hide After, Stripped, Split, IsDir;
    TwoDots();
  }

  lemma {:induction false} TwoDots()
    ensures |DOT| == 1 && |DOT_DOT| == 2 && DOT != DOT_DOT
  {
  }

  /** One component more, with no overrun: still in step. */
  lemma {:induction false} StaysInStep(v: View, ns: seq<Node>, path: seq<Name>, c: Name)
    requires Faithful(v, ns) && InStep(v, ns, path) && Plain(c) && !Overruns(ns, path + [c])
    ensures InStep(v, ns, path + [c])
  {
    hide Splits, ShowsRoot, Complete, HostNames, Join, Target, LookupIn, Pushed, Stripped, After, HostAfter;
    assert (path + [c])[..|path|] == path;
    AfterMore(v, path, c);
    HostMore(ns, path, c);
    TwoDots();
    var h := HostAfter(ns, path);
    if h.Some? {
      var names := h.value;
      AllWhole(v, ns, names);
      DirectoryOrNot(v, Target(ns, names).value);
      if Target(ns, names).value.node.Dir? && c == DOT_DOT {
        UpInStep(v, ns, path, names);
      } else if c != DOT {
        NextInStep(v, ns, path, names, c);
      }
    }
  }

  /** A name. */
  lemma {:induction false} NextInStep(v: View, ns: seq<Node>, path: seq<Name>, names: seq<Name>, c: Name)
    requires Faithful(v, ns) && InStep(v, ns, path) && HostAfter(ns, path) == Some(names) && Plain(c)
    requires c != DOT && (Target(ns, names).value.node.Dir? ==> c != DOT_DOT)
    ensures InStep(v, ns, path + [c])
  {
    hide Splits, ShowsRoot, Complete, HostNames, Join, Target, LookupIn, Pushed, Stripped, After, HostAfter, Sub;
    AfterMore(v, path, c);
    HostMore(ns, path, c);
    var f := Target(ns, names).value;
    AllWhole(v, ns, names);
    DirectoryOrNot(v, f);
    if f.node.Dir? {
      NextResolves(v, ns, names, c);
      TargetMore(ns, names, c);
      TargetNames(ns, names);
      PushedIs(names, c);
    }
  }

  lemma {:induction false} TargetMore(ns: seq<Node>, names: seq<Name>, c: Name)
    requires Target(ns, names).Some?
    ensures Target(ns, names + [c]) == Sub(Target(ns, names).value, c)
  {
    assert (names + [c])[..|names|] == names;
  }

  lemma {:induction false} DirectoryOrNot(v: View, f: Found)
    requires Present(v, f)
    ensures IsDir(v, f.ino) <==> f.node.Dir?
  {
  }

  /** `..` with room to spare. */
  lemma {:induction false} UpInStep(v: View, ns: seq<Node>, path: seq<Name>, names: seq<Name>)
    requires Faithful(v, ns) && InStep(v, ns, path) && HostAfter(ns, path) == Some(names)
    requires Target(ns, names).value.node.Dir? && IsDir(v, Target(ns, names).value.ino)
    requires names != [] ==> |Join(names[..|names| - 1])| < BUFFER
    ensures InStep(v, ns, path + [DOT_DOT])
  {
    hide Faithful, Target, Stripped, Join, Split, After, HostAfter, IsDir, Step;
    AfterMore(v, path, DOT_DOT);
    HostMore(ns, path, DOT_DOT);
    TwoDots();
    var s := After(v, path).value;
    StepUp(v, s, Weight(path + [DOT_DOT]));
    RootTarget(ns);
    if names != [] {
      var front, last := names[..|names| - 1], names[|names| - 1];
      assert names == front + [last];
      JoinedResolves(v, ns, names, |front|);
      StrippedIs(front, last);
      JoinShort(front);
      assert Held(Join(front)) == Join(front);
    }
  }

  lemma {:induction false} RootTarget(ns: seq<Node>)
    ensures Target(ns, []) == Some(RootOf(ns)) && Join([]) == [SLASH]
    ensures Held(Join([])) == [SLASH] == Stripped(Held(Join([])))
  {
  }

  /** `..` out of a directory whose parent's path fills the buffer leads to a directory above it. */
  lemma {:induction false} GoesAstray(v: View, ns: seq<Node>, path: seq<Name>)
    requires Faithful(v, ns) && InStep(v, ns, path) && Overruns(ns, path + [DOT_DOT])
    ensures !Agrees(v, ns, path + [DOT_DOT])
  {
    hide Faithful, Target, Join, After, HostAfter, InStep, Agrees;
    assert (path + [DOT_DOT])[..|path|] == path;
    UpTooFar(v, ns, path, HostAfter(ns, path).value);
  }

  lemma {:induction false} UpTooFar(v: View, ns: seq<Node>, path: seq<Name>, names: seq<Name>)
    requires Faithful(v, ns) && InStep(v, ns, path) && HostAfter(ns, path) == Some(names) && names != []
    requires Target(ns, names).value.node.Dir? && |Join(names[..|names| - 1])| >= BUFFER
    ensures !Agrees(v, ns, path + [DOT_DOT])
  {
    hide Faithful, Target, Stripped, Join, Split, After, HostAfter, IsDir, Step;
    AfterMore(v, path, DOT_DOT);
    HostMore(ns, path, DOT_DOT);
    TwoDots();
    var front, last := names[..|names| - 1], names[|names| - 1];
    assert names == front + [last];
    StandsInDirectory(v, ns, names);
    StepUp(v, After(v, path).value, Weight(path + [DOT_DOT]));
    JoinedResolves(v, ns, names, |front|);
    HeldFront(front, last);
    var j := StrippedTooFar(front);
    JoinedResolves(v, ns, front, j);
    AboveIsOther(v, ns, front, j);
    JoinShort(front[..j]);
    RootTarget(ns);
  }

  lemma {:induction false} StandsInDirectory(v: View, ns: seq<Node>, names: seq<Name>)
    requires Faithful(v, ns) && Target(ns, names).Some? && Target(ns, names).value.node.Dir?
    ensures IsDir(v, Target(ns, names).value.ino)
  {
    AllWhole(v, ns, names);
    hide Splits, ShowsRoot, Complete, HostNames, Target, IsDir;
    DirectoryOrNot(v, Target(ns, names).value);
  }

  lemma {:induction false} AboveIsOther(v: View, ns: seq<Node>, names: seq<Name>, j: nat)
    requires Faithful(v, ns) && Target(ns, names).Some? && j < |names|
    ensures Target(ns, names[..j]).Some? && Target(ns, names[..j]).value.ino != Target(ns, names).value.ino
  {
    hide Target;
    NumbersGrow(v, ns, names, j);
  }

  lemma {:induction false} HeldFront(front: seq<Name>, last: Name)
    requires |Join(front)| >= BUFFER
    ensures Held(Join(front + [last])) == Held(Join(front))
  {
    assert (front + [last])[..|front|] == front;
    if front != [] {
      assert Join(front + [last]) == Join(front) + [SLASH] + last;
    }
  }

  ghost predicate NoOverrun(ns: seq<Node>, path: seq<Name>) {
    forall k | 0 <= k <= |path| :: !Overruns(ns, path[..k])
  }

  lemma {:induction false} InStepWithout(v: View, ns: seq<Node>, path: seq<Name>)
    requires Faithful(v, ns) && AllPlain(path) && NoOverrun(ns, path)
    ensures InStep(v, ns, path)
  {
    hide Faithful, InStep, Overruns, Plain;
    if path == [] {
      StartInStep(v, ns);
    } else {
      var front, c := path[..|path| - 1], path[|path| - 1];
      assert forall k | 0 <= k <= |front| :: front[..k] == path[..k];
      InStepWithout(v, ns, front);
      assert front + [c] == path == path[..|path|];
      StaysInStep(v, ns, front, c);
    }
  }

  lemma {:induction false} StartInStep(v: View, ns: seq<Node>)
    ensures InStep(v, ns, [])
  {
  }

  lemma {:induction false} FirstOverrun(v: View, ns: seq<Node>, path: seq<Name>) returns (k: nat)
    requires Faithful(v, ns) && AllPlain(path) && !NoOverrun(ns, path)
    ensures k <= |path| && !Agrees(v, ns, path[..k])
  {
    hide Faithful, InStep, Overruns, Plain, Agrees;
    NoneAtStart(ns);
    if path != [] {
      var front, c := path[..|path| - 1], path[|path| - 1];
      assert forall i | 0 <= i <= |front| :: front[..i] == path[..i];
      if NoOverrun(ns, front) {
        k := |path|;
        assert path[..k] == path == front + [c];
        InStepWithout(v, ns, front);
        LastIsUp(ns, path);
        GoesAstray(v, ns, front);
      } else {
        k := FirstOverrun(v, ns, front);
      }
    }
  }

  lemma {:induction false} NoneAtStart(ns: seq<Node>)
    ensures !Overruns(ns, [])
  {
  }

  lemma {:induction false} LastIsUp(ns: seq<Node>, path: seq<Name>)
    requires path != [] && Overruns(ns, path)
    ensures path[|path| - 1] == DOT_DOT
  {
  }

  /** A path, dots included, leads at every component where it leads on the host exactly when no
      `..` leaves a directory whose parent's path is 256 bytes or longer. */
  lemma {:induction false} DotsResolveIff(v: View, ns: seq<Node>, path: seq<Name>)
    requires Faithful(v, ns) && AllPlain(path)
    ensures (forall k | 0 <= k <= |path| :: Agrees(v, ns, path[..k])) <==> NoOverrun(ns, path)
  {
    hide Faithful, Overruns, Plain;
    if NoOverrun(ns, path) {
      forall k | 0 <= k <= |path| ensures Agrees(v, ns, path[..k]) {
        assert forall i | 0 <= i <= k :: path[..k][..i] == path[..i];
        InStepWithout(v, ns, path[..k]);
      }
    } else {
      var k := FirstOverrun(v, ns, path);
      assert !Agrees(v, ns, path[..k]);
    }
  }

  /** Three directories in one another, the outer two with long names: out of the third the kernel
      goes to the first. */
  lemma {:induction false} DeepNames(a: Name, b: Name, c: Name)
    requires HostName(a) && HostName(b) && HostName(c) && |a| + |b| >= 254
    ensures var ns := [Dir(a, [Dir(b, [Dir(c, [])])])];
      HostNames(ns) && DistinctNames(ns) && Overruns(ns, [a, b, c, DOT_DOT])
  {
    var third := Dir(c, []);
    var second := Dir(b, [third]);
    var first := Dir(a, [second]);
    var ns, path := [first], [a, b, c, DOT_DOT];
    assert [first][..0] == [] && [second][..0] == [] && [third][..0] == [];
    assert path[..3] == [a, b, c] && [a, b, c][..2] == [a, b] && [a, b][..1] == [a] && [a][..0] == [];
    OnlyChild(first, ROOT, FIRST);
    OnlyChild(second, 12, 13);
    OnlyChild(third, 13, 14);
    assert Target(ns, [a]) == Some(Found(first, 12, 2, 13));
    assert Target(ns, [a, b]) == Some(Found(second, 13, 12, 14));
    assert Target(ns, [a, b, c]) == Some(Found(third, 14, 13, 15));
    assert [] + [a] == [a] && [a] + [b] == [a, b] && [a, b] + [c] == [a, b, c];
    assert HostAfter(ns, [a]) == Some([a]) && HostAfter(ns, [a, b]) == Some([a, b]);
    assert HostAfter(ns, [a, b, c]) == Some([a, b, c]);
    assert |Join([a, b])| == |Join([a])| + 1 + |b|;
    HostOne(third);
    HostOne(second);
    HostOne(first);
  }

  lemma {:induction false} OnlyChild(n: Node, self: nat, next: nat)
    requires !n.Other?
    ensures Child([n], self, next, n.name) == Some(Found(n, next, self, next + 1))
  {
    assert [n][..0] == [];
  }

  lemma {:induction false} HostOne(n: Node)
    requires n.Dir? && HostName(n.name) && HostNames(n.children) && DistinctNames(n.children)
    ensures HostNames([n]) && DistinctNames([n])
  {
    assert [n][..0] == [];
  }

  /** What a path leads to, the image holds: a file's bytes and mode under the number found. */
  lemma {:induction false} FileAtPath(v: View, ns: seq<Node>, path: seq<Name>)
    requires Faithful(v, ns) && AllPlain(path) && NoOverrun(ns, path)
    ensures var h := HostAfter(ns, path);
      && (After(v, path).Some? <==> h.Some?)
      && (h.Some? ==> After(v, path).value.current == Target(ns, h.value).value.ino)
      && (h.Some? ==> Present(v, Target(ns, h.value).value))
  {
    InStepWithout(v, ns, path);
    hide ShowsRoot, Complete, Splits, HostNames, Target, HostAfter, After;
    if HostAfter(ns, path).Some? {
      TargetPresent(v, ns, HostAfter(ns, path).value);
    }
  }
}
