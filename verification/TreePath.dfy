/** Names and paths: the kernel's lookup in a directory and its walk along a path, `.` and `..`
    included, over a finished image, against the host tree the image was made from. */
module TreePath {
  import opened Bytes
  import opened Ext2Format
  import opened Ext2Dir
  import opened HostTree
  import opened TreeView

  type Name = seq<byte>

  /** The inode of the first entry with that name. */
  function FindName(es: seq<Entry>, name: Name): Option<nat> {
    if es == [] then None
    else
      var earlier, e := FindName(es[..|es| - 1], name), es[|es| - 1];
      if earlier.Some? then earlier else if e.name == name then Some(e.ino) else None
  }

  lemma {:induction false} FindNameBoth(a: seq<Entry>, b: seq<Entry>, name: Name)
    ensures FindName(a + b, name) == if FindName(a, name).Some? then FindName(a, name) else FindName(b, name)
  {
    if b == [] {
      assert a + b == a;
    } else {
      FindNameBoth(a, b[..|b| - 1], name);
      assert (a + b)[..|a + b| - 1] == a + b[..|b| - 1];
    }
  }

  lemma {:induction false} FindNameFirst(e: Entry, es: seq<Entry>, name: Name)
    ensures FindName([e] + es, name) == if e.name == name then Some(e.ino) else FindName(es, name)
  {
    assert [e][..0] == [];
    FindNameBoth([e], es, name);
  }

  lemma {:induction false} NothingFound(name: Name)
    ensures FindName([], name) == None
  {
  }

  /** The linear scan of `lookup` over the contents of a directory. */
  method Lookup(data: seq<byte>, name: Name) returns (r: Option<nat>)
    ensures r == FindName(Walk(data, 0), name)
  {
    hide FindName, EntryAt;
    var offset := 0;
    while offset < |data|
      invariant FindName(Walk(data, 0), name) == FindName(Walk(data, offset), name)
      decreases |data| - offset
    {
      if offset % BLOCK_SIZE + 8 > BLOCK_SIZE {
        break;
      }
      var rec := U16At(data, offset + 4);
      if rec < 8 || rec > BLOCK_SIZE {
        break;
      }
      if U32At(data, offset) != 0 {
        var e := EntryAt(data, offset);
        FindNameFirst(e, Walk(data, offset + rec), name);
        if e.name == name {
          return Some(e.ino);
        }
      }
      offset := offset + rec;
    }
    NothingFound(name);
    r := None;
  }

  function LookupIn(v: View, ino: nat, name: Name): Option<nat> {
    if IsDir(v, ino) then FindName(v.list(ino), name) else None
  }

  // ---- Paths as strings ----

  const BUFFER: nat := 256

  /** The components of a path, each with the slash before it. */
  function Weight(names: seq<Name>): nat {
    if names == [] then 0 else Weight(names[..|names| - 1]) + 1 + |names[|names| - 1]|
  }

  /** How many bytes there are before the first slash. */
  function NameLength(s: seq<byte>): (n: nat)
    ensures n <= |s| && (n < |s| ==> s[n] == SLASH) && SLASH !in s[..n]
  {
    if s == [] || s[0] == SLASH then 0 else
      var n := 1 + NameLength(s[1..]);
      assert s[..n] == [s[0]] + s[1..][..n - 1];
      n
  }

  /** The components of a string, runs of slashes apart. */
  function Split(s: seq<byte>): seq<Name>
    decreases |s|
  {
    if s == [] then []
    else if s[0] == SLASH then Split(s[1..])
    else
      var n := NameLength(s);
      assert n > 0;
      [s[..n]] + Split(s[n..])
  }

  lemma {:induction false} WeightFirst(name: Name, names: seq<Name>)
    ensures Weight([name] + names) == 1 + |name| + Weight(names)
  {
    if names == [] {
      assert [name] + names == [name] && [name][..0] == [];
    } else {
      var front := names[..|names| - 1];
      WeightFirst(name, front);
      assert ([name] + names)[..|names|] == [name] + front;
    }
  }

  lemma {:induction false} SplitWeight(s: seq<byte>)
    ensures Weight(Split(s)) <= |s| + if s != [] && s[0] == SLASH then 0 else 1
    decreases |s|
  {
    if s != [] && s[0] == SLASH {
      SplitWeight(s[1..]);
    } else if s != [] {
      var n := NameLength(s);
      SplitWeight(s[n..]);
      WeightFirst(s[..n], Split(s[n..]));
      if n == |s| {
        assert s[n..] == [];
      }
    }
  }

  /** The absolute path of a list of names. */
  function Join(names: seq<Name>): (s: seq<byte>)
    ensures |s| >= 1 && s[0] == SLASH
  {
    if names == [] then [SLASH] else
      var front, last := names[..|names| - 1], names[|names| - 1];
      if front == [] then [SLASH] + last else Join(front) + [SLASH] + last
  }

  // ---- The kernel's walk ----

  /** The accumulated path after one more component, cut at the end of its buffer. */
  function Pushed(accum: seq<byte>, name: Name): (r: seq<byte>)
    requires 0 < |accum| <= BUFFER && accum[0] == SLASH
    ensures |accum| <= |r| <= BUFFER && r[0] == SLASH && |r| <= |accum| + 1 + |name|
    ensures (|accum| == 1 ==> |r| <= 1 + |name|)
  {
    var a := if 1 < |accum| < BUFFER then accum + [SLASH] else accum;
    a + name[..Min(|name|, BUFFER - |a|)]
  }

  /** Where the search for a slash from the end of `s` stops. */
  function LastSlash(s: seq<byte>): (k: nat)
    requires s != []
    ensures k < |s| && (k > 0 ==> s[k] == SLASH) && SLASH !in s[k + 1..]
  {
    if |s| == 1 then 0
    else if s[|s| - 1] == SLASH then |s| - 1
    else
      var k := LastSlash(s[..|s| - 1]);
      assert s[k + 1..] == s[..|s| - 1][k + 1..] + [s[|s| - 1]];
      k
  }

  /** The accumulated path without its last component. */
  function Stripped(accum: seq<byte>): (r: seq<byte>)
    requires accum != [] && accum[0] == SLASH
    ensures r != [] && r[0] == SLASH && |r| <= |accum| && (|accum| > 1 ==> |r| < |accum|)
  {
    if |accum| == 1 then accum else
      var k := LastSlash(accum);
      if k == 0 then accum[..1] else accum[..k]
  }

  datatype State = State(current: nat, accum: seq<byte>)

  /** One component of `resolvePath`. `..` cuts the accumulated path and resolves what is left
      anew; `weight` bounds what has been consumed. */
  function Step(v: View, s: State, c: Name, weight: nat): (r: Option<State>)
    requires 0 < |s.accum| <= BUFFER && s.accum[0] == SLASH
    requires 1 + |c| <= weight && (|s.accum| > 1 ==> |s.accum| + 1 + |c| <= weight)
    ensures r.Some? ==> 0 < |r.value.accum| <= BUFFER && r.value.accum[0] == SLASH && |r.value.accum| <= weight
    decreases weight, 0
  {
    if |c| > 255 || !IsDir(v, s.current) then None
    else if c == DOT then Some(s)
    else if c == DOT_DOT then
      var a := Stripped(s.accum);
      if |a| == 1 then Some(State(ROOT, a))
      else
        SplitWeight(a);
        var parent := After(v, Split(a));
        Some(State(if parent.Some? then parent.value.current else ROOT, a))
    else
      var child := LookupIn(v, s.current, c);
      if child.None? then None else Some(State(child.value, Pushed(s.accum, c)))
  }

  /** Where the kernel stands after these components, from the root. */
  function After(v: View, path: seq<Name>): (r: Option<State>)
    ensures r.Some? ==> 0 < |r.value.accum| <= BUFFER && r.value.accum[0] == SLASH
    ensures r.Some? ==> |r.value.accum| <= Max(1, Weight(path))
    decreases Weight(path), 1
  {
    if path == [] then Some(State(ROOT, [SLASH])) else
      var front, c := path[..|path| - 1], path[|path| - 1];
      var s := After(v, front);
      if s.None? then None else Step(v, s.value, c, Weight(path))
  }

  /** `resolvePath`, for an absolute path. */
  function Resolve(v: View, path: seq<byte>): Option<nat> {
    if path == [] || path[0] != SLASH then None else
      var s := After(v, Split(path));
      if s.None? then None else Some(s.value.current)
  }

  /** `resolvePath`: slashes skipped, components taken in turn, `..` by resolving the shortened path. */
  method ResolvePath(v: View, path: seq<byte>) returns (r: Option<nat>)
    ensures r == Resolve(v, path)
    decreases |path|
  {
    hide Split, After, LookupIn, IsDir, Pushed, Stripped, NameLength;
    if path == [] || path[0] != SLASH {
      return None;
    }
    var current, accum, pos := ROOT, [SLASH], 0;
    ghost var done: seq<Name> := [];
    Started(v);
    assert path[0..] == path && path[|path|..] == [];
    while pos < |path|
      invariant 0 <= pos <= |path| && Split(path) == done + Split(path[pos..])
      invariant After(v, done) == Some(State(current, accum))
      decreases |path| - pos
    {
      NextComponent(path, pos, done);
      if path[pos] == SLASH {
        pos := pos + 1;
        continue;
      }
      var n := NameLength(path[pos..]);
      var c := path[pos..pos + n];
      AfterMore(v, done, c);
      var ok;
      ok, current, accum := TakeComponent(v, current, accum, c, |path|, Weight(done + [c]));
      if !ok {
        NoneAfter(v, done + [c], Split(path[pos + n..]));
        return None;
      }
      done, pos := done + [c], pos + n;
    }
    SplitParts([]);
    assert done + [] == done;
    r := Some(current);
  }

  /** A slash is skipped, or a component taken. */
  lemma {:induction false} NextComponent(path: seq<byte>, pos: nat, done: seq<Name>)
    requires pos < |path| && path[0] == SLASH && Split(path) == done + Split(path[pos..])
    ensures path[pos] == SLASH ==> Split(path) == done + Split(path[pos + 1..])
    ensures path[pos] != SLASH ==>
      var n := NameLength(path[pos..]);
      var c := path[pos..pos + n];
      0 < n <= |path| - pos && Split(path) == done + [c] + Split(path[pos + n..]) && Weight(done + [c]) <= |path|
  {
    hide Split, NameLength;
    SplitParts(path[pos..]);
    if path[pos] == SLASH {
      assert path[pos..][1..] == path[pos + 1..];
    } else {
      var n := NameLength(path[pos..]);
      var c, rest := path[pos..pos + n], Split(path[pos + n..]);
      assert path[pos..][..n] == c && path[pos..][n..] == path[pos + n..];
      assert done + ([c] + rest) == done + [c] + rest;
      SplitWeight(path);
      WeightBoth(done + [c], rest);
    }
  }

  lemma {:induction false} SplitParts(s: seq<byte>)
    ensures s == [] ==> Split(s) == []
    ensures s != [] && s[0] == SLASH ==> Split(s) == Split(s[1..])
    ensures s != [] && s[0] != SLASH ==> 0 < NameLength(s)
    ensures s != [] && s[0] != SLASH ==> Split(s) == [s[..NameLength(s)]] + Split(s[NameLength(s)..])
  {
  }

  lemma {:induction false} AfterMore(v: View, path: seq<Name>, c: Name)
    ensures Weight(path + [c]) == Weight(path) + 1 + |c|
    ensures After(v, path + [c]) ==
      var s := After(v, path); if s.None? then None else Step(v, s.value, c, Weight(path + [c]))
  {
    hide Step;
    assert (path + [c])[..|path|] == path;
  }

  lemma {:induction false} Started(v: View)
    ensures After(v, []) == Some(State(ROOT, [SLASH]))
  {
  }

  lemma {:induction false} WeightBoth(a: seq<Name>, b: seq<Name>)
    ensures Weight(a + b) == Weight(a) + Weight(b)
  {
    if b == [] {
      assert a + b == a;
    } else {
      WeightBoth(a, b[..|b| - 1]);
      assert (a + b)[..|a + b| - 1] == a + b[..|b| - 1];
    }
  }

  lemma {:induction false} NoneAfter(v: View, a: seq<Name>, b: seq<Name>)
    requires After(v, a).None?
    ensures After(v, a + b).None?
  {
    hide Step;
    if b == [] {
      assert a + b == a;
    } else {
      NoneAfter(v, a, b[..|b| - 1]);
      assert (a + b)[..|a + b| - 1] == a + b[..|b| - 1];
    }
  }

  /** One component. */
  method TakeComponent(v: View, current: nat, accum: seq<byte>, c: Name, bound: nat, ghost weight: nat)
    returns (ok: bool, current': nat, accum': seq<byte>)
    requires 0 < |accum| <= BUFFER && accum[0] == SLASH
    requires 1 + |c| <= weight <= bound && (|accum| > 1 ==> |accum| + 1 + |c| <= weight)
    ensures Step(v, State(current, accum), c, weight) == if ok then Some(State(current', accum')) else None
    decreases bound, 0
  {
    hide Split, After, LookupIn, IsDir, Pushed, Stripped;
    ok, current', accum' := true, current, accum;
    if |c| > 255 || !IsDir(v, current) {
      ok := false;
    } else if c == DOT {
    } else if c == DOT_DOT {
      accum' := Stripped(accum);
      current' := ROOT;
      if |accum'| > 1 {
        var parent := ResolvePath(v, accum');
        current' := if parent.Some? then parent.value else ROOT;
      }
    } else {
      var child := LookupIn(v, current, c);
      if child.None? {
        ok := false;
      } else {
        current', accum' := child.value, Pushed(accum, c);
      }
    }
  }

  // ---- The host's side ----

  /** A file or directory, its number, its parent's, and where its children's numbers begin. */
  datatype Found = Found(node: Node, ino: nat, up: nat, next: nat)

  function RootOf(ns: seq<Node>): Found { Found(Dir([], ns), ROOT, ROOT, FIRST) }

  /** The first file or directory of that name in the listing of `self`, numbered from `next`. */
  function Child(ns: seq<Node>, self: nat, next: nat, name: Name): Option<Found> {
    if ns == [] then None
    else
      var front, last := ns[..|ns| - 1], ns[|ns| - 1];
      var earlier := Child(front, self, next, name);
      if earlier.Some? then earlier
      else if !last.Other? && last.name == name then
        Some(Found(last, next + Inodes(front), self, next + Inodes(front) + 1))
      else None
  }

  function Sub(f: Found, name: Name): Option<Found> {
    if f.node.Dir? then Child(f.node.children, f.ino, f.next, name) else None
  }

  /** What a list of names leads to on the host. */
  function Target(ns: seq<Node>, names: seq<Name>): Option<Found> {
    if names == [] then Some(RootOf(ns)) else
      var f := Target(ns, names[..|names| - 1]);
      if f.None? then None else Sub(f.value, names[|names| - 1])
  }

  /** Where the host stands after these components, as a list of names. */
  function HostAfter(ns: seq<Node>, path: seq<Name>): (r: Option<seq<Name>>)
    ensures r.Some? ==> Target(ns, r.value).Some?
  {
    if path == [] then Some([]) else
      var s, c := HostAfter(ns, path[..|path| - 1]), path[|path| - 1];
      if s.None? || !Target(ns, s.value).value.node.Dir? then None
      else if c == DOT then s
      else if c == DOT_DOT then Some(if s.value == [] then [] else s.value[..|s.value| - 1])
      else
        assert (s.value + [c])[..|s.value|] == s.value;
        if Target(ns, s.value + [c]).Some? then Some(s.value + [c]) else None
  }

  function Number(f: Option<Found>): Option<nat> {
    if f.Some? then Some(f.value.ino) else None
  }

  // ---- One directory ----

  lemma {:induction false} ChildNumber(ns: seq<Node>, self: nat, next: nat, name: Name)
    requires next + Inodes(ns) <= 0x1_0000_0000
    ensures FindName(Entries(ns, next), name) == Number(Child(ns, self, next, name))
  {
    hide FindName;
    if ns == [] {
      NothingFound(name);
    } else {
      var front, last := ns[..|ns| - 1], ns[|ns| - 1];
      ChildNumber(front, self, next, name);
      if !last.Other? {
        assert NodeInodes(last) >= 1;
        NothingFound(name);
        var e := EntryOf(last, next + Inodes(front))[0];
        assert EntryOf(last, next + Inodes(front)) == [e];
        FindNameBoth(Entries(front, next), [e], name);
        FindNameFirst(e, [], name);
        assert [e] + [] == [e];
      } else {
        assert Entries(front, next) + [] == Entries(front, next);
      }
    }
  }

  /** The image shows what was found. */
  ghost predicate Present(v: View, f: Found) {
    && 0 < f.up <= f.ino < f.next && !f.node.Other?
    && (f.node.File? ==> v.contents(f.ino) == f.node.data && v.mode(f.ino) == ModeOf(f.node.exec))
    && (f.node.Dir? ==> Suffice(f.node.children, f.next) && ShowsDir(v, f.node.children, f.ino, f.up, f.next))
  }

  /** If it is a directory, its listing is complete. */
  ghost predicate Whole(v: View, f: Found) {
    Present(v, f) && (f.node.Dir? ==> v.cut(DirEntries(f.node.children, f.ino, f.up, f.next)) == [])
  }

  lemma {:induction false} ChildPresent(v: View, ns: seq<Node>, self: nat, next: nat, name: Name)
    requires 0 < self < next && Suffice(ns, next) && Shows(v, ns, self, next)
    ensures var c := Child(ns, self, next, name);
      c.Some? ==> Present(v, c.value) && next <= c.value.ino && c.value.node.name == name && HasName(ns, name)
  {
    hide DirEntries;
    if ns != [] {
      var front, last := ns[..|ns| - 1], ns[|ns| - 1];
      ChildPresent(v, front, self, next, name);
      assert ShowsNode(v, last, self, next + Inodes(front));
    }
  }

  lemma {:induction false} SubPresent(v: View, f: Found, name: Name)
    requires Present(v, f)
    ensures Sub(f, name).Some? ==> Present(v, Sub(f, name).value) && f.ino < Sub(f, name).value.ino
  {
    hide Child, Shows;
    if f.node.Dir? {
      ChildPresent(v, f.node.children, f.ino, f.next, name);
    }
  }

  /** A lookup in a directory whose listing is complete finds the child of that name. */
  lemma {:induction false} LookupSub(v: View, f: Found, name: Name)
    requires Splits(v) && Whole(v, f) && name != DOT && name != DOT_DOT
    ensures LookupIn(v, f.ino, name) == Number(Sub(f, name))
  {
    hide FindName, Entries, Child, Shows;
    if f.node.Dir? {
      var es, below := DirEntries(f.node.children, f.ino, f.up, f.next), Entries(f.node.children, f.next);
      var dot, up := Entry(f.ino, DOT, FT_DIR), Entry(f.up, DOT_DOT, FT_DIR);
      assert v.shown(es) + v.cut(es) == es && v.shown(es) + [] == v.shown(es);
      assert es == [dot] + ([up] + below);
      FindNameFirst(dot, [up] + below, name);
      FindNameFirst(up, below, name);
      ChildNumber(f.node.children, f.ino, f.next, name);
    }
  }

  lemma {:induction false} RootPresent(v: View, ns: seq<Node>)
    requires Suffice(ns, FIRST) && ShowsRoot(v, ns)
    ensures Present(v, RootOf(ns))
  {
  }

  /** Whatever is found is shown. */
  lemma {:induction false} TargetPresent(v: View, ns: seq<Node>, names: seq<Name>)
    requires Suffice(ns, FIRST) && ShowsRoot(v, ns)
    ensures Target(ns, names).Some? ==> Present(v, Target(ns, names).value)
  {
    hide Sub, Present, ShowsRoot;
    if names == [] {
      RootPresent(v, ns);
    } else {
      var front := names[..|names| - 1];
      TargetPresent(v, ns, front);
      if Target(ns, front).Some? {
        SubPresent(v, Target(ns, front).value, names[|names| - 1]);
      }
    }
  }

  // ---- Names only ----

  predicate Proper(names: seq<Name>) {
    forall i | 0 <= i < |names| :: names[i] != DOT && names[i] != DOT_DOT
  }

  /** Every directory along the names is listed in full. */
  ghost predicate WholeTo(v: View, ns: seq<Node>, names: seq<Name>) {
    forall k | 0 <= k < |names| :: Target(ns, names[..k]).Some? ==> Whole(v, Target(ns, names[..k]).value)
  }

  lemma {:induction false} ShortName(ns: seq<Node>, self: nat, next: nat, name: Name)
    requires HostNames(ns)
    ensures Child(ns, self, next, name).Some? ==> HostName(name)
    ensures var c := Child(ns, self, next, name); c.Some? && c.value.node.Dir? ==> HostNames(c.value.node.children)
  {
    if ns != [] {
      ShortName(ns[..|ns| - 1], self, next, name);
    }
  }

  lemma {:induction false} TargetNames(ns: seq<Node>, names: seq<Name>)
    requires HostNames(ns)
    ensures Target(ns, names).Some? ==> forall i | 0 <= i < |names| :: HostName(names[i])
    ensures Target(ns, names).Some? && Target(ns, names).value.node.Dir? ==>
      HostNames(Target(ns, names).value.node.children)
  {
    hide HostNames, HostName, Child;
    if names != [] {
      var front, c := names[..|names| - 1], names[|names| - 1];
      TargetNames(ns, front);
      if Target(ns, front).Some? && Target(ns, front).value.node.Dir? {
        var f := Target(ns, front).value;
        ShortName(f.node.children, f.ino, f.next, c);
      }
    }
  }

  /** Without dots the kernel arrives where the host does, or nowhere when the host does not. */
  lemma {:induction false} NamesResolve(v: View, ns: seq<Node>, names: seq<Name>)
    requires Suffice(ns, FIRST) && Splits(v) && ShowsRoot(v, ns) && HostNames(ns)
    requires Proper(names) && WholeTo(v, ns, names)
    ensures After(v, names).Some? <==> Target(ns, names).Some?
    ensures After(v, names).Some? ==> After(v, names).value.current == Target(ns, names).value.ino
  {
    hide Splits, ShowsRoot, HostNames, LookupIn, Sub, Whole, IsDir, Pushed;
    if names != [] {
      var front, c := names[..|names| - 1], names[|names| - 1];
      assert forall k | 0 <= k < |front| :: front[..k] == names[..k] && front[k] == names[k];
      NamesResolve(v, ns, front);
      if Target(ns, front).Some? {
        assert names[..|front|] == front;
        NextResolves(v, ns, front, c);
      }
    }
  }

  /** One name more. */
  lemma {:induction false} NextResolves(v: View, ns: seq<Node>, front: seq<Name>, c: Name)
    requires Suffice(ns, FIRST) && Splits(v) && ShowsRoot(v, ns) && HostNames(ns)
    requires Target(ns, front).Some? && Whole(v, Target(ns, front).value) && c != DOT && c != DOT_DOT
    ensures var f := Target(ns, front).value;
      && LookupIn(v, f.ino, c) == Number(Sub(f, c))
      && (Sub(f, c).Some? ==> |c| <= 255 && IsDir(v, f.ino))
  {
    hide Splits, ShowsRoot, Child, HostNames, Shows;
    var f := Target(ns, front).value;
    LookupSub(v, f, c);
    TargetNames(ns, front);
    if f.node.Dir? {
      ShortName(f.node.children, f.ino, f.next, c);
    }
  }

  /** A complete image has every directory whole. */
  lemma {:induction false} AllWhole(v: View, ns: seq<Node>, names: seq<Name>)
    requires Suffice(ns, FIRST) && ShowsRoot(v, ns) && Complete(v, ns)
    ensures var t := Target(ns, names);
      && (t.Some? ==> Whole(v, t.value))
      && (t.Some? && t.value.node.Dir? ==> CompleteBelow(v, t.value.node.children, t.value.ino, t.value.next))
  {
    hide Child, Shows, CompleteBelow, DirEntries;
    if names == [] {
      RootPresent(v, ns);
    } else {
      var front, c := names[..|names| - 1], names[|names| - 1];
      AllWhole(v, ns, front);
      TargetPresent(v, ns, names);
      if Target(ns, front).Some? && Target(ns, front).value.node.Dir? {
        var f := Target(ns, front).value;
        ChildWhole(v, f.node.children, f.ino, f.next, c);
      }
    }
  }

  lemma {:induction false} ChildWhole(v: View, ns: seq<Node>, self: nat, next: nat, name: Name)
    requires 0 < self < next && Suffice(ns, next) && CompleteBelow(v, ns, self, next)
    ensures var c := Child(ns, self, next, name);
      c.Some? && c.value.node.Dir? ==>
        && c.value.up == self < c.value.ino && c.value.next == c.value.ino + 1
        && Suffice(c.value.node.children, c.value.next)
        && v.cut(DirEntries(c.value.node.children, c.value.ino, self, c.value.next)) == []
        && CompleteBelow(v, c.value.node.children, c.value.ino, c.value.next)
  {
    hide DirEntries;
    if ns != [] {
      var front, last := ns[..|ns| - 1], ns[|ns| - 1];
      ChildWhole(v, front, self, next, name);
      assert last.Dir? ==> NodeInodes(last) == 1 + Inodes(last.children);
    }
  }
}
