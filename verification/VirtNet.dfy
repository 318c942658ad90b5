/** The receive buffers of the network card: sixteen pages posted one descriptor each, every
    completed one freed and posted again by the interrupt handler. */
module VirtNet {
  import opened Bytes
  import opened Rings
  import opened VirtTable
  import opened VirtRing

  const RX_BUF_COUNT: nat := 16
  const RX_BUF_LEN: nat := 4096

  type Buffers = s: seq<nat> | |s| == RX_BUF_COUNT witness seq(RX_BUF_COUNT, i => i)

  /** The page allocator hands out distinct pages, never page 0. */
  ghost predicate Pages(bufs: Buffers) {
    Distinct(bufs) && forall i | 0 <= i < |bufs| :: bufs[i] != 0
  }

  predicate Offers(d: Desc, buf: nat) {
    d.addr == buf && d.len == RX_BUF_LEN && d.flags == F_WRITE
  }

  /** Buffer `i` is offered by descriptor `at[i]`, for each `i`; those descriptors are all the
      live ones, and all are in flight. */
  ghost predicate Posted(desc: seq<Desc>, t: Table, flying: set<nat>, bufs: Buffers, at: seq<nat>) {
    && |at| <= |bufs| && Distinct(at) && t.live.Keys == Elements(at) && flying == Elements(at)
    && forall i | 0 <= i < |at| :: t.live[at[i]] == [at[i]] && at[i] < |desc| && Offers(desc[at[i]], bufs[i])
  }

  /** `postRxBuffer` */
  method PostRxBuffer(vq: VirtQueue, buf: nat) returns (head: Option<u16>)
    requires vq.Valid()
    modifies vq, vq.desc, vq.availRing
    ensures vq.Valid() && vq.used == old(vq.used) && vq.polled == old(vq.polled)
    ensures head.None? <==> old(vq.numFree) == 0
    ensures head.None? ==> vq.table == old(vq.table) && vq.Outstanding() == old(vq.Outstanding())
    ensures head.None? ==> vq.submitted == old(vq.submitted) && vq.desc[..] == old(vq.desc[..])
    ensures head.Some? ==> head.value as nat == old(vq.table).free[0] && head.value as nat !in old(vq.table).live
    ensures head.Some? ==> head.value < vq.size
    ensures head.Some? ==> vq.table == Taken(old(vq.table), 1)
    ensures head.Some? ==> vq.Outstanding() == old(vq.Outstanding()) + {head.value as nat}
    ensures head.Some? ==> vq.submitted == old(vq.submitted) + [head.value]
    ensures head.Some? ==>
      vq.desc[..] == old(vq.desc[..])[head.value := Desc(buf, RX_BUF_LEN, F_WRITE, old(vq.desc[..])[head.value].next)]
  {
    hide Partition, Threaded, InFlight, Flying, Holds, Cut, Divides, Taken;
    ghost var t := vq.table;
    head := vq.AllocDescs(1);
    if head.None? {
      return;
    }
    OneTaken(t);
    Grounded(vq.submitted[vq.seen..], vq.held, Ids(vq.used[vq.polled..]), t.live.Keys, head.value);
    vq.StillAirborne(t.live.Keys);
    vq.Fill(head.value, buf, RX_BUF_LEN, F_WRITE);
    vq.Submit(head.value);
  }

  lemma {:induction false} OneTaken(t: Table)
    requires |t.free| > 0
    ensures Taken(t, 1).live == t.live[t.free[0] := [t.free[0]]] && |Taken(t, 1).free| == |t.free| - 1
  {
    assert t.free[..1] == [t.free[0]];
  }

  lemma {:induction false} Grounded(queued: seq<nat>, held: set<nat>, done: seq<nat>, live: set<nat>, h: nat)
    requires Flying(queued, held, done, live) && h !in live
    ensures h !in InFlight(queued, held, done) && InFlight(queued, held, done) <= live
  {
  }

  /** The posting loop of `init`: every buffer is posted, or as many as there are descriptors. */
  method PostAll(vq: VirtQueue, bufs: Buffers) returns (ghost at: seq<nat>)
    requires vq.Valid() && vq.table.live == map[] && vq.Outstanding() == {} && vq.numFree == vq.size
    modifies vq, vq.desc, vq.availRing
    ensures vq.Valid() && Posted(vq.desc[..], vq.table, vq.Outstanding(), bufs, at)
    ensures |at| == Min(RX_BUF_COUNT, vq.size)
  {
    hide Partition, Threaded, InFlight, Flying, Holds, Cut, Divides, Taken, Posted;
    at := [];
    NonePosted(vq.desc[..], vq.table, bufs);
    for i := 0 to RX_BUF_COUNT
      invariant vq.Valid() && Posted(vq.desc[..], vq.table, vq.Outstanding(), bufs, at)
      invariant |at| == Min(i, vq.size) && vq.numFree == vq.size - |at|
    {
      ghost var desc, t, out := vq.desc[..], vq.table, vq.Outstanding();
      var head := PostRxBuffer(vq, bufs[i]);
      if head.Some? {
        OneMorePosted(desc, t, out, bufs, at, head.value, bufs[i]);
        at := at + [head.value];
      }
    }
  }

  lemma {:induction false} NonePosted(desc: seq<Desc>, t: Table, bufs: Buffers)
    requires t.live == map[]
    ensures Posted(desc, t, {}, bufs, [])
  {
  }

  lemma {:induction false} OneMorePosted(desc: seq<Desc>, t: Table, flying: set<nat>, bufs: Buffers, at: seq<nat>,
      h: nat, buf: nat)
    requires Posted(desc, t, flying, bufs, at) && |at| < |bufs| && buf == bufs[|at|]
    requires |t.free| > 0 && h == t.free[0] && h !in t.live && h < |desc|
    ensures |Taken(t, 1).free| == |t.free| - 1
    ensures Posted(desc[h := Desc(buf, RX_BUF_LEN, F_WRITE, desc[h].next)], Taken(t, 1), flying + {h}, bufs, at + [h])
  {
    OneTaken(t);
    hide Taken, Elements;
    var at' := at + [h];
    assert Elements(at') == Elements(at) + {h};
    assert forall i | 0 <= i < |at| :: at[i] in t.live;
  }

  /** The search for the buffer a descriptor offered. */
  method FindBuffer(bufs: Buffers, buf: nat) returns (i: nat)
    ensures i <= |bufs| && (forall j | 0 <= j < i :: bufs[j] != buf) && (i < |bufs| ==> bufs[i] == buf)
  {
    i := 0;
    while i < |bufs| && bufs[i] != buf
      invariant i <= |bufs| && forall j | 0 <= j < i :: bufs[j] != buf
    {
      i := i + 1;
    }
  }

  /** One turn of the interrupt handler's loop: the descriptor is freed, the allocation that
      follows returns it, and its buffer is posted again. */
  method Recycle(vq: VirtQueue, bufs: Buffers, ghost at: seq<nat>)
    requires vq.Valid() && Pages(bufs) && vq.polled < |vq.used|
    requires Posted(vq.desc[..], vq.table, vq.Outstanding(), bufs, at)
    modifies vq, vq.desc, vq.availRing
    ensures vq.Valid() && vq.used == old(vq.used) && vq.polled == old(vq.polled) + 1
    ensures vq.table == old(vq.table) && vq.submitted == old(vq.submitted) + [vq.used[old(vq.polled)].id]
    ensures Posted(vq.desc[..], vq.table, vq.Outstanding(), bufs, at)
  {
    hide Partition, Threaded, InFlight, Flying, Holds, Cut, Divides, Taken, Returned, Posted, Pages;
    ghost var desc, t, out := vq.desc[..], vq.table, vq.Outstanding();
    var elem := vq.PollUsed();
    var d := elem.value.id;
    OfferedBy(desc, t, out, bufs, at, d);
    ReturnedTaken(t, d);
    RoomOnList(t, d);
    var buf := vq.desc[d].addr;
    vq.FreeDescs(d, 1);
    LandedStays(vq.submitted[vq.seen..], vq.held, Ids(vq.used[vq.polled..]), t, d);
    vq.StillAirborne(t.live.Keys);
    var i := FindBuffer(bufs, buf);
    var head := PostRxBuffer(vq, bufs[i]);
    assert vq.Outstanding() == out;
    StillPosted(desc, vq.desc[..], t, out, bufs, at, d);
  }

  lemma {:induction false} OfferedBy(desc: seq<Desc>, t: Table, flying: set<nat>, bufs: Buffers, at: seq<nat>, d: nat)
    requires Posted(desc, t, flying, bufs, at) && Pages(bufs) && d in flying
    ensures d < |desc| && d in t.live && t.live[d] == [d] && desc[d].addr in bufs && desc[d].addr != 0
    ensures Offers(desc[d], desc[d].addr)
  {
  }

  lemma {:induction false} LandedStays(queued: seq<nat>, held: set<nat>, done: seq<nat>, t: Table, d: nat)
    requires Flying(queued, held, done, t.live.Keys) && d in t.live && d !in InFlight(queued, held, done)
    ensures InFlight(queued, held, done) <= Returned(t, d).live.Keys
  {
  }

  lemma {:induction false} StillPosted(desc: seq<Desc>, desc': seq<Desc>, t: Table, flying: set<nat>, bufs: Buffers,
      at: seq<nat>, d: nat)
    requires Posted(desc, t, flying, bufs, at) && |desc| == |desc'|
    requires forall k | 0 <= k < |desc| ::
      desc'[k].addr == desc[k].addr && desc'[k].len == desc[k].len && desc'[k].flags == desc[k].flags
    ensures Posted(desc', t, flying, bufs, at)
  {
  }

  /** `handleIrq` in copy mode: whatever the device completed, in whatever order, every buffer
      is posted again under the descriptor it had, no allocation fails, and the device gets the
      buffers back in the order it completed them. */
  method HandleIrq(vq: VirtQueue, bufs: Buffers, ghost at: seq<nat>)
    requires vq.Valid() && Pages(bufs) && Posted(vq.desc[..], vq.table, vq.Outstanding(), bufs, at)
    modifies vq, vq.desc, vq.availRing
    ensures vq.Valid() && vq.used == old(vq.used) && vq.polled == |vq.used| && vq.table == old(vq.table)
    ensures Posted(vq.desc[..], vq.table, vq.Outstanding(), bufs, at)
    ensures Reposted(old(vq.submitted), vq.submitted, vq.used, old(vq.polled), vq.polled)
  {
    hide Partition, Threaded, InFlight, Flying, Holds, Cut, Divides, Posted, Pages;
    ghost var before, start := vq.submitted, vq.polled;
    HeldApart(vq.usedRing[..], vq.used, vq.polled);
    while vq.usedIdx != vq.lastUsedIdx
      invariant vq.Valid() && Posted(vq.desc[..], vq.table, vq.Outstanding(), bufs, at)
      invariant vq.used == old(vq.used) && vq.table == old(vq.table) && start <= vq.polled <= |vq.used|
      invariant Reposted(before, vq.submitted, vq.used, start, vq.polled)
      invariant vq.usedIdx == vq.lastUsedIdx <==> vq.polled == |vq.used|
      decreases |vq.used| - vq.polled
    {
      Recycle(vq, bufs, at);
      HeldApart(vq.usedRing[..], vq.used, vq.polled);
    }
  }

  /** The heads submitted since are the ones polled since, in order. */
  ghost predicate Reposted(before: seq<u16>, after: seq<u16>, used: seq<UsedElem>, start: nat, end: nat) {
    && start <= end <= |used| && |after| == |before| + (end - start) && before <= after
    && forall k | start <= k < end :: after[|before| + k - start] == used[k].id
  }
}
