/** The descriptor table of a virtqueue, as a partition into one free list and the live chains.
    Section 2.7 of OASIS VirtIO 1.2. */
module VirtTable {
  import opened Bytes
  import opened Rings

  const F_NEXT: nat := 1
  const F_WRITE: nat := 2
  /** The owner of a descriptor on the free list. */
  const FREE: int := -1

  datatype Desc = Desc(addr: nat, len: nat, flags: nat, next: u16)

  datatype UsedElem = UsedElem(id: u32, len: u32)

  // ---- The partition ----

  /** Which descriptors are free, in list order, which chains are live, by head, and who owns
      each descriptor. */
  datatype Table = Table(free: seq<nat>, live: map<nat, seq<nat>>, owner: seq<int>)

  ghost predicate Owned(t: Table, s: seq<nat>, who: int) {
    && Distinct(s)
    && (forall i | 0 <= i < |s| :: s[i] < |t.owner| && t.owner[s[i]] == who)
    && (forall d | 0 <= d < |t.owner| && t.owner[d] == who :: d in s)
  }

  /** Every descriptor is on the free list or in one live chain, exactly once. */
  ghost predicate Partition(t: Table) {
    && Owned(t, t.free, FREE)
    && (forall h | h in t.live :: |t.live[h]| > 0 && t.live[h][0] == h && Owned(t, t.live[h], h))
    && (forall d | 0 <= d < |t.owner| && t.owner[d] != FREE :: t.owner[d] in t.live)
  }

  ghost function Reassigned(owner: seq<int>, s: seq<nat>, who: int): (o: seq<int>)
    ensures |o| == |owner| && forall d | 0 <= d < |o| :: o[d] == if d in s then who else owner[d]
  {
    seq<int>(|owner|, d requires 0 <= d < |owner| => if d in s then who else owner[d])
  }

  /** The first `count` free descriptors become a chain. */
  ghost function Taken(t: Table, count: nat): Table
    requires 0 < count <= |t.free|
  {
    var chain := t.free[..count];
    Table(t.free[count..], t.live[chain[0] := chain], Reassigned(t.owner, chain, chain[0]))
  }

  /** A live chain goes back to the front of the free list. */
  ghost function Returned(t: Table, head: nat): Table
    requires head in t.live
  {
    Table(t.live[head] + t.free, t.live - {head}, Reassigned(t.owner, t.live[head], FREE))
  }

  lemma {:induction false} TakenPartition(t: Table, count: nat)
    requires Partition(t) && 0 < count <= |t.free|
    ensures Partition(Taken(t, count)) && t.free[0] !in t.live
  {
    var chain, u := t.free[..count], Taken(t, count);
    assert t.free[0] < |t.owner| && t.owner[t.free[0]] == FREE;
    assert forall d :: d in t.free <==> d in chain || d in u.free;
    forall h | h in t.live ensures h != chain[0] && Owned(u, t.live[h], h) {
      TakenOthers(t, count, h);
    }
    TakenFree(t, count);
  }

  lemma {:induction false} TakenOthers(t: Table, count: nat, h: nat)
    requires Partition(t) && 0 < count <= |t.free| && h in t.live
    ensures h != t.free[0] && Owned(Taken(t, count), t.live[h], h)
  {
    var u := Taken(t, count);
    assert t.owner[t.live[h][0]] == h;
    forall i | 0 <= i < |t.live[h]| ensures u.owner[t.live[h][i]] == h {
      assert t.owner[t.live[h][i]] == h != FREE;
    }
  }

  lemma {:induction false} TakenFree(t: Table, count: nat)
    requires Partition(t) && 0 < count <= |t.free|
    ensures Owned(Taken(t, count), t.free[count..], FREE) && Owned(Taken(t, count), t.free[..count], t.free[0])
  {
    var u, chain, rest := Taken(t, count), t.free[..count], t.free[count..];
    assert forall i | 0 <= i < |rest| :: rest[i] == t.free[count + i];
    forall d | 0 <= d < |u.owner| && u.owner[d] == FREE ensures d in rest {
      assert d !in chain && t.owner[d] == FREE && d in t.free;
    }
    forall d | 0 <= d < |u.owner| && u.owner[d] == t.free[0] ensures d in chain {
    }
  }

  lemma {:induction false} ReturnedPartition(t: Table, head: nat)
    requires Partition(t) && head in t.live
    ensures Partition(Returned(t, head))
  {
    hide Owned, Reassigned, Returned;
    FreedOwned(t, head);
    forall h | h in t.live && h != head ensures Owned(Returned(t, head), t.live[h], h) {
      OthersOwned(t, head, h);
    }
    Assembled(t, head);
  }

  lemma {:induction false} FreedOwned(t: Table, head: nat)
    requires head in t.live && Owned(t, t.live[head], head) && Owned(t, t.free, FREE)
    ensures Owned(Returned(t, head), t.live[head] + t.free, FREE)
  {
    var chain, u := t.live[head], Returned(t, head);
    forall i, j | 0 <= i < j < |u.free| ensures u.free[i] != u.free[j] {
      if i < |chain| <= j {
        assert t.owner[chain[i]] == head && t.owner[t.free[j - |chain|]] == FREE;
      }
    }
  }

  lemma {:induction false} OthersOwned(t: Table, head: nat, h: nat)
    requires head in t.live && h in t.live && h != head && Owned(t, t.live[head], head) && Owned(t, t.live[h], h)
    ensures Owned(Returned(t, head), t.live[h], h)
  {
    var chain := t.live[head];
    forall i | 0 <= i < |t.live[h]| ensures t.live[h][i] !in chain {
      assert t.owner[t.live[h][i]] == h;
    }
  }

  lemma {:induction false} Assembled(t: Table, head: nat)
    requires Partition(t) && head in t.live && Owned(Returned(t, head), t.live[head] + t.free, FREE)
    requires forall h | h in t.live && h != head :: Owned(Returned(t, head), t.live[h], h)
    ensures Partition(Returned(t, head))
  {
    var u := Returned(t, head);
    forall d | 0 <= d < |u.owner| && u.owner[d] != FREE ensures u.owner[d] in u.live {
      assert t.owner[d] != FREE && Owned(t, t.live[head], head);
    }
  }

  /** Freeing the chain just allocated puts the free list back in its order. */
  lemma {:induction false} TakenReturned(t: Table, count: nat)
    requires Partition(t) && 0 < count <= |t.free|
    ensures t.free[0] in Taken(t, count).live && Returned(Taken(t, count), t.free[0]) == t
  {
    var chain, u := t.free[..count], Taken(t, count);
    TakenPartition(t, count);
    assert chain + t.free[count..] == t.free;
    assert u.live - {t.free[0]} == t.live;
    OwnersBack(t, chain, t.free[0]);
    hide Partition, Reassigned;
  }

  lemma {:induction false} OwnersBack(t: Table, chain: seq<nat>, who: int)
    requires forall i | 0 <= i < |chain| :: chain[i] < |t.owner| && t.owner[chain[i]] == FREE
    ensures Reassigned(Reassigned(t.owner, chain, who), chain, FREE) == t.owner
  {
  }

  /** Allocating as many descriptors as were just freed gives the same chain back. */
  lemma {:induction false} ReturnedTaken(t: Table, head: nat)
    requires Partition(t) && head in t.live
    ensures |t.live[head]| > 0 && Taken(Returned(t, head), |t.live[head]|) == t
  {
    var chain, u := t.live[head], Returned(t, head);
    assert Owned(t, chain, head);
    assert u.free[..|chain|] == chain && u.free[|chain|..] == t.free;
    assert u.live[head := chain] == t.live;
    assert Reassigned(u.owner, chain, head) == t.owner;
  }

  ghost function LiveSet(t: Table): (r: set<nat>)
    ensures forall d: nat :: d in r <==> d < |t.owner| && t.owner[d] != FREE
  {
    set d | d in Upto(|t.owner|) && t.owner[d] != FREE
  }

  /** Free and live descriptors together are the whole table. */
  lemma {:induction false} Conserved(t: Table)
    requires Partition(t)
    ensures |t.free| + |LiveSet(t)| == |t.owner|
  {
    DistinctSize(t.free);
    UptoSize(|t.owner|);
    Complement(t);
    hide Elements, LiveSet, Upto, Partition;
  }

  lemma {:induction false} RoomOnList(t: Table, head: nat)
    requires Partition(t) && head in t.live
    ensures |t.live[head]| > 0 && t.live[head][0] == head
    ensures var u := Returned(t, head);
      |u.free| == |t.live[head]| + |t.free| <= |t.owner| == |u.owner| && u.free[0] == head
  {
    ReturnedPartition(t, head);
    Conserved(Returned(t, head));
    hide LiveSet, Owned;
  }

  lemma {:induction false} Complement(t: Table)
    requires Owned(t, t.free, FREE)
    ensures Elements(t.free) + LiveSet(t) == Upto(|t.owner|) && Elements(t.free) !! LiveSet(t)
  {
    hide Elements, LiveSet, Upto;
    forall d: nat ensures d in Elements(t.free) + LiveSet(t) <==> d in Upto(|t.owner|) {
    }
  }

  // ---- The links ----

  /** Each descriptor of `s` but the last names the one after it; the last one's link is stale. */
  ghost predicate Linked(desc: seq<Desc>, s: seq<nat>) {
    && (forall i | 0 <= i < |s| :: s[i] < |desc|)
    && (forall i | 0 <= i < |s| - 1 :: desc[s[i]].next == s[i + 1])
  }

  ghost predicate Threaded(desc: seq<Desc>, t: Table) {
    Linked(desc, t.free) && forall h | h in t.live :: Linked(desc, t.live[h])
  }

  lemma {:induction false} TakenThreaded(desc: seq<Desc>, t: Table, count: nat)
    requires Threaded(desc, t) && 0 < count <= |t.free|
    ensures Threaded(desc, Taken(t, count))
  {
    var rest := t.free[count..];
    assert forall i | 0 <= i < |rest| :: rest[i] == t.free[count + i];
  }

  /** What the walk of an allocation finds. */
  lemma {:induction false} TakenWalk(desc: seq<Desc>, t: Table, count: nat)
    requires Partition(t) && Threaded(desc, t) && 0 < count <= |t.free|
    ensures t.free[count - 1] < |desc| && t.free[0] < |t.owner| && Linked(desc, t.free)
    ensures var u := Taken(t, count);
      && |u.free| == |t.free| - count && |u.owner| == |t.owner|
      && (u.free != [] ==> desc[t.free[count - 1]].next == u.free[0])
  {
    assert count < |t.free| ==> desc[t.free[count - 1]].next == t.free[count];
  }

  lemma {:induction false} ReturnedThreaded(desc: seq<Desc>, t: Table, head: nat, next: u16)
    requires Partition(t) && |desc| == |t.owner| && Threaded(desc, t) && head in t.live
    requires t.free != [] ==> next == t.free[0]
    ensures var chain := t.live[head];
      var last := chain[|chain| - 1];
      last < |desc| && Threaded(desc[last := desc[last].(next := next)], Returned(t, head))
  {
    var chain := t.live[head];
    var last := chain[|chain| - 1];
    assert Owned(t, chain, head) && Owned(t, t.free, FREE) && Linked(desc, chain) && Linked(desc, t.free);
    Relinked(desc, chain, t.free, next, t);
    var desc', u := desc[last := desc[last].(next := next)], Returned(t, head);
    forall h | h in u.live ensures Linked(desc', u.live[h]) {
      assert Owned(t, t.live[h], h) && Linked(desc, t.live[h]);
      Untouched(desc, t, h, last, head, next);
    }
  }

  lemma {:induction false} Untouched(desc: seq<Desc>, t: Table, h: nat, last: nat, head: nat, next: u16)
    requires h in t.live && Owned(t, t.live[h], h) && Linked(desc, t.live[h])
    requires last < |desc| == |t.owner| && t.owner[last] == head != h
    ensures Linked(desc[last := desc[last].(next := next)], t.live[h])
  {
    hide Distinct;
    forall i | 0 <= i < |t.live[h]| ensures t.live[h][i] != last {
    }
  }

  lemma {:induction false} Relinked(desc: seq<Desc>, chain: seq<nat>, free: seq<nat>, next: u16, t: Table)
    requires |chain| > 0 && |desc| == |t.owner| && Linked(desc, chain) && Linked(desc, free)
    requires exists head: nat :: Owned(t, chain, head)
    requires Owned(t, free, FREE) && (free != [] ==> next == free[0])
    ensures var last := chain[|chain| - 1]; Linked(desc[last := desc[last].(next := next)], chain + free)
  {
    var last := chain[|chain| - 1];
    var desc', all := desc[last := desc[last].(next := next)], chain + free;
    forall i | 0 <= i < |all| - 1 ensures desc'[all[i]].next == all[i + 1] {
      if i >= |chain| {
        assert t.owner[free[i - |chain|]] == FREE;
      } else if i < |chain| - 1 {
        assert chain[i] != last;
      }
    }
  }

  /** Rings never overflow: the heads on either are distinct descriptors. */
  lemma {:induction false} RoomOnRings(queued: seq<nat>, held: set<nat>, done: seq<nat>, t: Table)
    requires Partition(t) && Flying(queued, held, done, t.live.Keys)
    ensures |queued| <= |t.owner| && |done| <= |t.owner|
  {
    forall h | h in t.live ensures h < |t.owner| {
      assert Owned(t, t.live[h], h);
    }
    hide Partition;
    forall i | 0 <= i < |queued| ensures queued[i] in t.live {
      assert queued[i] in InFlight(queued, held, done);
    }
    forall i | 0 <= i < |done| ensures done[i] in t.live {
      assert done[i] in InFlight(queued, held, done);
    }
    Pigeonhole(queued, |t.owner|);
    Pigeonhole(done, |t.owner|);
  }
}
