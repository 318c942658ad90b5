/** The virtqueue itself: descriptor allocation, submission and polling as the driver does them,
    and the two steps the device takes on the shared rings. */
module VirtRing {
  import opened Bytes
  import opened Rings
  import opened VirtTable

  function Ids(u: seq<UsedElem>): (s: seq<nat>)
    ensures |s| == |u| && forall i | 0 <= i < |s| :: s[i] == u[i].id
  {
    seq<nat>(|u|, i requires 0 <= i < |u| => u[i].id)
  }

  lemma {:induction false} SameLinks(a: seq<Desc>, b: seq<Desc>, t: Table)
    requires Threaded(a, t) && |a| == |b| && forall d | 0 <= d < |a| :: a[d].next == b[d].next
    ensures Threaded(b, t)
  {
    forall h | h in t.live ensures Linked(b, t.live[h]) {
      assert Linked(a, t.live[h]);
    }
  }

  ghost function Unused(n: nat): Table {
    Table(seq<nat>(n, i requires 0 <= i < n => i), map[], seq<int>(n, _ => FREE))
  }

  lemma {:induction false} UnusedPartition(n: nat)
    ensures Partition(Unused(n))
  {
    var t := Unused(n);
    assert forall d | 0 <= d < n :: t.free[d] == d && t.owner[d] == FREE;
    assert Owned(t, t.free, FREE);
  }

  lemma {:induction false} FreshTable(desc: seq<Desc>, n: nat)
    requires |desc| == n && forall j | 0 <= j < n - 1 :: desc[j].next == j + 1
    ensures Partition(Unused(n)) && Threaded(desc, Unused(n))
  {
    UnusedPartition(n);
    hide Partition;
    assert forall d | 0 <= d < n :: Unused(n).free[d] == d;
  }

  datatype Op = Alloc(count: nat) | Free(head: nat)

  /** What an operation does to the table: an allocation that does not fit, or the release of a
      head that is not live, does nothing. */
  ghost function Applied(t: Table, op: Op): Table {
    match op
    case Alloc(count) => if 0 < count <= |t.free| then Taken(t, count) else t
    case Free(head) => if head in t.live then Returned(t, head) else t
  }

  ghost function AfterOps(n: nat, ops: seq<Op>): Table {
    if ops == [] then Unused(n) else Applied(AfterOps(n, ops[..|ops| - 1]), ops[|ops| - 1])
  }

  /** Over any interleaving of allocations and releases every descriptor is on the free list or
      in one live chain, and the two together are the whole table. */
  lemma {:induction false} OpsConserve(n: nat, ops: seq<Op>)
    ensures var t := AfterOps(n, ops);
      Partition(t) && |t.owner| == n && |t.free| + |LiveSet(t)| == n
  {
    hide Partition, LiveSet;
    if ops == [] {
      UnusedPartition(n);
    } else {
      var t, op := AfterOps(n, ops[..|ops| - 1]), ops[|ops| - 1];
      OpsConserve(n, ops[..|ops| - 1]);
      if op.Alloc? && 0 < op.count <= |t.free| {
        TakenPartition(t, op.count);
      } else if op.Free? && op.head in t.live {
        ReturnedPartition(t, op.head);
      }
    }
    Conserved(AfterOps(n, ops));
  }

  class VirtQueue {
    const size: nat
    const desc: array<Desc>
    const availRing: array<u16>
    const usedRing: array<UsedElem>
    var availIdx: u16
    var usedIdx: u16
    var freeHead: u16
    var numFree: u16
    var lastUsedIdx: u16

    ghost var table: Table
    /** Every head ever submitted, and how many of them the device has taken. */
    ghost var submitted: seq<u16>
    ghost var seen: nat
    /** Heads the device is working on. */
    ghost var held: set<nat>
    /** Every element the device has ever returned, and how many of them the driver has taken. */
    ghost var used: seq<UsedElem>
    ghost var polled: nat

    ghost predicate Sized()
      reads this
    {
      0 < size < WRAP && desc.Length == size && availRing.Length == size && usedRing.Length == size
    }

    /** The descriptor table is a partition whose free list starts at `freeHead`. */
    ghost predicate Listed()
      reads this, desc
    {
      && Sized() && |table.owner| == size
      && Partition(table) && Threaded(desc[..], table)
      && numFree == |table.free| && (table.free != [] ==> freeHead == table.free[0])
    }

    ghost predicate Rings()
      reads this, availRing, usedRing
    {
      && Sized() && Divides(size)
      && Holds(availRing[..], submitted, seen) && availIdx == Cut(|submitted|)
      && Holds(usedRing[..], used, polled) && usedIdx == Cut(|used|) && lastUsedIdx == Cut(polled)
    }

    /** Heads the driver has submitted and not yet taken back. */
    ghost function Outstanding(): set<nat>
      requires seen <= |submitted| && polled <= |used|
      reads this
    {
      InFlight(submitted[seen..], held, Ids(used[polled..]))
    }

    ghost predicate Airborne()
      reads this
    {
      seen <= |submitted| && polled <= |used| && Flying(submitted[seen..], held, Ids(used[polled..]), table.live.Keys)
    }

    ghost predicate Valid()
      reads this, desc, availRing, usedRing
    {
      Listed() && Rings() && Airborne()
    }

    /** `initQueue`, for any size the device reports but 0. A size that divides 65536 starts out
        valid; with any other, some run loses an outstanding head. */
    constructor (n: u16)
      requires n > 0
      ensures size == n && Listed() && numFree == n && table.live == map[] && submitted == [] && used == []
        && held == {}
      ensures (Valid() <==> Divides(n)) && (OrderKept(n) <==> Divides(n))
      ensures fresh(desc) && fresh(availRing) && fresh(usedRing)
    {
      OrderKeptIff(n);
      hide Partition, Threaded, Holds, Flying, InFlight, Divides, Cut, Ids, OrderKept;
      size := n;
      desc := new Desc[n](i => Desc(0, 0, 0, 0));
      availRing := new u16[n](_ => 0);
      usedRing := new UsedElem[n](_ => UsedElem(0, 0));
      availIdx, usedIdx, freeHead, numFree, lastUsedIdx := 0, 0, 0, n, 0;
      table := Unused(n);
      submitted, seen, held, used, polled := [], 0, {}, [], 0;
      new;
      BuildFreeChain();
      FreshTable(desc[..], n);
      NothingYet(availRing[..]);
      NothingYet(usedRing[..]);
      NobodyFlies();
      assert submitted[0..] == [] && used[0..] == [] && table.live.Keys == {};
    }

    method BuildFreeChain()
      requires Sized()
      modifies desc
      ensures forall j | 0 <= j < size - 1 :: desc[j].next == j + 1
    {
      for i := 0 to size - 1
        invariant forall j | 0 <= j < i :: desc[j].next == j + 1
      {
        desc[i] := desc[i].(next := i + 1, flags := 0);
      }
      desc[size - 1] := desc[size - 1].(next := 0, flags := 0);
    }

    /** The descriptor `steps` links after `head`. */
    method Walk(head: u16, steps: nat, ghost chain: seq<nat>) returns (idx: u16)
      requires Sized() && Linked(desc[..], chain) && steps < |chain| && head == chain[0]
      ensures idx == chain[steps]
    {
      idx := head;
      for i := 0 to steps
        invariant idx == chain[i]
      {
        assert desc[..][chain[i]].next == chain[i + 1];
        idx := desc[idx].next;
      }
    }

    /** Heads in flight stay heads of live chains when the table changes around them. */
    lemma {:induction false} StillAirborne(was: set<nat>)
      requires seen <= |submitted| && polled <= |used|
      requires Flying(submitted[seen..], held, Ids(used[polled..]), was) && Outstanding() <= table.live.Keys
      ensures Airborne()
    {
    }

    method AllocDescs(count: u16) returns (head: Option<u16>)
      requires Listed() && count > 0
      modifies `freeHead, `numFree, `table
      ensures Listed()
      ensures head.None? <==> old(numFree) < count
      ensures head.None? ==> table == old(table)
      ensures head.Some? ==> head == Some(old(table.free)[0]) && head.value < size && head.value !in old(table.live)
      ensures head.Some? ==> table == Taken(old(table), count)
    {
      hide Partition, Threaded, Taken, Linked;
      if numFree < count {
        return None;
      }
      ghost var t := table;
      TakenWalk(desc[..], t, count);
      TakenPartition(t, count);
      TakenThreaded(desc[..], t, count);
      var first := freeHead;
      var last := Walk(first, count - 1, t.free);
      freeHead := desc[last].next;
      numFree := numFree - count;
      head := Some(first);
      table := Taken(t, count);
    }

    method SetNext(d: u16, next: u16)
      requires Sized() && d < size
      modifies desc
      ensures desc[..] == old(desc[..])[d := old(desc[..])[d].(next := next)]
    {
      desc[d] := desc[d].(next := next);
    }

    method FreeDescs(head: u16, count: u16)
      requires Listed() && head in table.live && count == |table.live[head]|
      modifies `freeHead, `numFree, `table, desc
      ensures Listed() && table == Returned(old(table), head)
      ensures forall d | 0 <= d < size :: desc[d] == old(desc[d]).(next := desc[d].next)
    {
      hide Partition, Threaded, Returned, Linked;
      FreeFacts(desc[..], table, head, freeHead);
      var last := Walk(head, count - 1, table.live[head]);
      SetNext(last, freeHead);
      freeHead := head;
      numFree := numFree + count;
      table := Returned(table, head);
    }

    /** A client filling in a descriptor. */
    method Fill(d: u16, addr: nat, len: nat, flags: nat)
      requires Listed() && d < size
      modifies desc
      ensures Listed()
      ensures desc[..] == old(desc[..])[d := Desc(addr, len, flags, old(desc[d].next))]
    {
      ghost var before := desc[..];
      desc[d] := Desc(addr, len, flags, desc[d].next);
      SameLinks(before, desc[..], table);
      hide Partition, Threaded;
    }

    /** `submitChain`: the next slot of the available ring, then the index. */
    method Submit(head: u16)
      requires Valid() && head in table.live && head !in Outstanding()
      modifies `availIdx, availRing, `submitted
      ensures Valid() && submitted == old(submitted) + [head]
      ensures Outstanding() == old(Outstanding()) + {head as nat}
    {
      hide Partition, Threaded, Holds, InFlight, Flying, Cut, Bump, Slot, Divides;
      ghost var ring, queued, done := availRing[..], submitted[seen..], Ids(used[polled..]);
      Submission(ring, submitted, seen, held, done, table, head);
      WrapSlot(|submitted|, size);
      availRing[Slot(availIdx, size)] := head;
      assert availRing[..] == ring[Slot(|submitted|, size) := head];
      CutNext(|submitted|);
      availIdx := Bump(availIdx);
      submitted := submitted + [head];
    }

    /** The device takes the head its own index points at; its index is the count of heads it
        has taken, cut to 16 bits. */
    method DeviceTake(index: u16) returns (head: Option<u16>)
      requires Valid() && index == Cut(seen)
      modifies `seen, `held
      ensures Valid()
      ensures head.None? <==> old(seen) == |submitted|
      ensures head.None? ==> seen == old(seen) && held == old(held)
      ensures head.Some? ==> head.value == submitted[old(seen)] && seen == old(seen) + 1
      ensures head.Some? ==> held == old(held) + {head.value as nat}
      ensures Outstanding() == old(Outstanding())
    {
      hide Partition, Threaded, Holds, InFlight, Flying, Cut, Bump, Slot, Divides;
      HeldApart(availRing[..], submitted, seen);
      if availIdx == index {
        return None;
      }
      WrapSlot(seen, size);
      var h := availRing[Slot(index, size)];
      HoldsLess(availRing[..], submitted, seen);
      assert submitted[seen..] == [h] + submitted[seen + 1..];
      IsTaken(submitted[seen + 1..], held, Ids(used[polled..]), table.live.Keys, h);
      seen := seen + 1;
      held := held + {h};
      head := Some(h);
    }

    /** The device returns a head it holds. */
    method DeviceComplete(id: u16, len: u32)
      requires Valid() && id as nat in held
      modifies `usedIdx, usedRing, `used, `held
      ensures Valid() && used == old(used) + [UsedElem(id, len)] && held == old(held) - {id as nat}
      ensures Outstanding() == old(Outstanding())
    {
      hide Partition, Threaded, Holds, InFlight, Flying, Cut, Bump, Slot, Divides, Ids;
      ghost var ring, queued := usedRing[..], submitted[seen..];
      var e := UsedElem(id, len);
      Completion(ring, used, polled, queued, held, table, e);
      WrapSlot(|used|, size);
      usedRing[Slot(usedIdx, size)] := e;
      assert usedRing[..] == ring[Slot(|used|, size) := e];
      CutNext(|used|);
      usedIdx := Bump(usedIdx);
      held := held - {id};
      used := used + [e];
    }

    /** `pollUsed`: the oldest element not yet taken. */
    method PollUsed() returns (elem: Option<UsedElem>)
      requires Valid()
      modifies `lastUsedIdx, `polled
      ensures Valid()
      ensures elem.None? <==> old(polled) == |used|
      ensures elem.None? ==> polled == old(polled)
      ensures elem.Some? ==> elem.value == used[old(polled)] && polled == old(polled) + 1
      ensures elem.Some? ==> elem.value.id as nat in table.live && elem.value.id as nat in old(Outstanding())
      ensures elem.Some? ==> Outstanding() == old(Outstanding()) - {elem.value.id as nat}
    {
      hide Partition, Threaded, Holds, InFlight, Flying, Cut, Bump, Slot, Divides, Ids;
      HeldApart(usedRing[..], used, polled);
      if usedIdx == lastUsedIdx {
        return None;
      }
      WrapSlot(polled, size);
      var e := usedRing[Slot(lastUsedIdx, size)];
      HoldsLess(usedRing[..], used, polled);
      IdsHead(used, polled);
      Lands(submitted[seen..], held, Ids(used[polled + 1..]), table.live.Keys, e.id);
      CutNext(polled);
      lastUsedIdx := Bump(lastUsedIdx);
      polled := polled + 1;
      elem := Some(e);
    }
  }

  lemma {:induction false} FreeFacts(desc: seq<Desc>, t: Table, head: nat, next: u16)
    requires Partition(t) && Threaded(desc, t) && |desc| == |t.owner| && head in t.live
    requires t.free != [] ==> next == t.free[0]
    ensures |t.live[head]| > 0 && t.live[head][0] == head && Linked(desc, t.live[head])
    ensures var last := t.live[head][|t.live[head]| - 1];
      last < |desc| && Threaded(desc[last := desc[last].(next := next)], Returned(t, head))
    ensures var u := Returned(t, head);
      Partition(u) && |u.free| == |t.live[head]| + |t.free| <= |t.owner| == |u.owner| && u.free[0] == head
  {
    RoomOnList(t, head);
    ReturnedPartition(t, head);
    ReturnedThreaded(desc, t, head, next);
  }

  lemma {:induction false} NothingYet<T>(ring: seq<T>)
    requires 0 < |ring|
    ensures Holds(ring, [], 0)
  {
  }

  lemma {:induction false} NobodyFlies()
    ensures Ids([]) == [] && Flying([], {}, [], {}) && Cut(0) == 0
  {
  }

  lemma {:induction false} HoldsLess<T>(ring: seq<T>, history: seq<T>, lo: nat)
    requires Holds(ring, history, lo) && lo < |history|
    ensures ring[Slot(lo, |ring|)] == history[lo] && Holds(ring, history, lo + 1)
  {
  }

  /** The 16-bit indices agree exactly when the counts do. */
  lemma {:induction false} HeldApart<T>(ring: seq<T>, history: seq<T>, lo: nat)
    requires Holds(ring, history, lo) && |ring| < WRAP
    ensures Cut(|history|) == Cut(lo) <==> |history| == lo
  {
  }

  lemma {:induction false} IdsHead(used: seq<UsedElem>, k: nat)
    requires k < |used|
    ensures Ids(used[k..]) == [used[k].id] + Ids(used[k + 1..])
  {
  }

  lemma {:induction false} IdsMore(used: seq<UsedElem>, k: nat, e: UsedElem)
    requires k <= |used|
    ensures Ids((used + [e])[k..]) == Ids(used[k..]) + [e.id]
  {
  }

  lemma {:induction false} Submission(ring: seq<u16>, submitted: seq<u16>, seen: nat, held: set<nat>, done: seq<nat>,
      t: Table, h: u16)
    requires Partition(t) && Holds(ring, submitted, seen) && |ring| == |t.owner|
    requires Flying(submitted[seen..], held, done, t.live.Keys) && h in t.live
      && h !in InFlight(submitted[seen..], held, done)
    ensures Holds(ring[Slot(|submitted|, |ring|) := h], submitted + [h], seen)
    ensures Flying((submitted + [h])[seen..], held, done, t.live.Keys)
    ensures InFlight((submitted + [h])[seen..], held, done) == InFlight(submitted[seen..], held, done) + {h as nat}
  {
    hide Partition, Flying, InFlight;
    QueuesUp(submitted[seen..], held, done, t.live.Keys, h);
    assert (submitted + [h])[seen..] == submitted[seen..] + [h];
    RoomOnRings(submitted[seen..] + [h], held, done, t);
    HoldsMore(ring, submitted, seen, h);
  }

  lemma {:induction false} Completion(ring: seq<UsedElem>, used: seq<UsedElem>, polled: nat, queued: seq<nat>,
      held: set<nat>, t: Table, e: UsedElem)
    requires Partition(t) && Holds(ring, used, polled) && |ring| == |t.owner|
    requires Flying(queued, held, Ids(used[polled..]), t.live.Keys) && e.id as nat in held
    ensures Holds(ring[Slot(|used|, |ring|) := e], used + [e], polled)
    ensures Flying(queued, held - {e.id as nat}, Ids((used + [e])[polled..]), t.live.Keys)
    ensures InFlight(queued, held - {e.id as nat}, Ids((used + [e])[polled..])) ==
      InFlight(queued, held, Ids(used[polled..]))
  {
    hide Partition, Flying, InFlight;
    var done := Ids(used[polled..]);
    IdsMore(used, polled, e);
    IsReturned(queued, held, done, t.live.Keys, e.id);
    RoomOnRings(queued, held - {e.id as nat}, done + [e.id], t);
    HoldsMore(ring, used, polled, e);
  }
}
