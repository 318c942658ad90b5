/** The queue's block client: requests as chains of three descriptors, from what the device reads
    to the release of the chain. */
module VirtClients {
  import opened Bytes
  import opened Rings
  import opened VirtTable
  import opened VirtRing

  // ---- What the device reads ----

  datatype Segment = Segment(addr: nat, len: nat, writable: bool)

  predicate Continues(d: Desc) { d.flags % 2 == 1 }

  function AsSegment(d: Desc): Segment { Segment(d.addr, d.len, (d.flags / 2) % 2 == 1) }

  /** The buffers of a request: links are followed as long as the flag says there is a next. */
  function Segments(desc: seq<Desc>, d: nat, limit: nat): seq<Segment>
    decreases limit
  {
    if limit == 0 || d >= |desc| then []
    else [AsSegment(desc[d])] + if Continues(desc[d]) then Segments(desc, desc[d].next, limit - 1) else []
  }

  function Along(desc: seq<Desc>, chain: seq<nat>): seq<Segment> {
    if chain == [] then [] else
      (if chain[0] < |desc| then [AsSegment(desc[chain[0]])] else []) + Along(desc, chain[1..])
  }

  /** A chain whose descriptors all but the last carry the flag is read as it was built. */
  lemma {:induction false} ChainIsRead(desc: seq<Desc>, chain: seq<nat>, limit: nat)
    requires Linked(desc, chain) && 0 < |chain| <= limit
    requires forall i | 0 <= i < |chain| :: Continues(desc[chain[i]]) == (i < |chain| - 1)
    ensures Segments(desc, chain[0], limit) == Along(desc, chain)
  {
    if |chain| > 1 {
      var rest := chain[1..];
      assert forall i | 0 <= i < |rest| :: rest[i] == chain[i + 1];
      ChainIsRead(desc, rest, limit - 1);
    }
  }

  // ---- Block requests ----

  const HEADER_LEN: nat := 16

  /** The three buffers of a request: the header, the data and the status byte after the header. */
  function Request(header: nat, data: nat, len: nat, incoming: bool): seq<Segment> {
    [Segment(header, HEADER_LEN, false), Segment(data, len, incoming), Segment(header + 16, 1, true)]
  }

  /** The first half of `readSectors` and `writeSectors`, up to the submission. */
  method Start(vq: VirtQueue, header: nat, data: nat, len: nat, incoming: bool) returns (head: Option<u16>)
    requires vq.Valid() && vq.Outstanding() == {}
    modifies vq, vq.desc, vq.availRing
    ensures vq.Valid() && vq.used == old(vq.used) && vq.polled == old(vq.polled) && vq.seen == old(vq.seen)
      && vq.held == old(vq.held)
    ensures head.None? <==> old(vq.numFree) < 3
    ensures head.None? ==> vq.table == old(vq.table) && vq.submitted == old(vq.submitted)
    ensures head.Some? ==> vq.table == Taken(old(vq.table), 3) && head.value as nat == old(vq.table).free[0]
    ensures head.Some? ==> vq.submitted == old(vq.submitted) + [head.value] && vq.Outstanding() == {head.value as nat}
    ensures head.Some? ==> Segments(vq.desc[..], head.value, vq.size) == Request(header, data, len, incoming)
  {
    hide Partition, Threaded, InFlight, Flying, Holds, Cut, Divides, Reassigned;
    ghost var t := vq.table;
    head := vq.AllocDescs(3);
    if head.None? {
      return;
    }
    ghost var chain := t.free[..3];
    TakenLive(t, 3);
    vq.StillAirborne(t.live.Keys);
    Build(vq, head.value, header, data, len, incoming, chain);
    vq.Submit(head.value);
  }

  lemma {:induction false} TakenLive(t: Table, count: nat)
    requires 0 < count <= |t.free|
    ensures Taken(t, count).live == t.live[t.free[0] := t.free[..count]]
  {
    assert t.free[..count][0] == t.free[0];
  }

  method Build(vq: VirtQueue, head: u16, header: nat, data: nat, len: nat, incoming: bool, ghost chain: seq<nat>)
    requires vq.Listed() && head as nat in vq.table.live && vq.table.live[head as nat] == chain && |chain| == 3
    modifies vq.desc
    ensures vq.Listed() && Segments(vq.desc[..], head, vq.size) == Request(header, data, len, incoming)
  {
    ChainFacts(vq.desc[..], vq.table, head, chain);
    hide Partition, Threaded, Segments;
    var d1 := vq.desc[head].next;
    var d2 := vq.desc[d1].next;
    vq.Fill(head, header, HEADER_LEN, F_NEXT);
    vq.Fill(d1, data, len, F_NEXT + if incoming then F_WRITE else 0);
    vq.Fill(d2, header + 16, 1, F_WRITE);
    RequestIsRead(vq.desc[..], head, d1, d2, header, data, len, incoming, vq.size);
  }

  lemma {:induction false} RequestIsRead(desc: seq<Desc>, a: nat, b: nat, c: nat, header: nat, data: nat, len: nat,
      incoming: bool, limit: nat)
    requires a < |desc| && b < |desc| && c < |desc| && limit >= 3
    requires desc[a] == Desc(header, HEADER_LEN, F_NEXT, desc[a].next) && desc[a].next == b
    requires desc[b] == Desc(data, len, F_NEXT + if incoming then F_WRITE else 0, desc[b].next) && desc[b].next == c
    requires desc[c] == Desc(header + 16, 1, F_WRITE, desc[c].next)
    ensures Segments(desc, a, limit) == Request(header, data, len, incoming)
  {
    ThreeAlong(desc, a, b, c);
    ChainIsRead(desc, [a, b, c], limit);
  }

  lemma {:induction false} ChainFacts(desc: seq<Desc>, t: Table, head: nat, chain: seq<nat>)
    requires Partition(t) && Threaded(desc, t) && |desc| == |t.owner| && head in t.live
      && chain == t.live[head] && |chain| == 3
    ensures chain[0] == head && chain[0] < |desc| && chain[1] < |desc| && chain[2] < |desc|
    ensures desc[chain[0]].next == chain[1] && desc[chain[1]].next == chain[2]
    ensures chain[0] != chain[1] && chain[0] != chain[2] && chain[1] != chain[2]
    ensures 3 <= |desc|
  {
    assert Owned(t, chain, head) && Linked(desc, chain);
    Pigeonhole(chain, |desc|);
  }

  lemma {:induction false} ThreeAlong(desc: seq<Desc>, a: nat, b: nat, c: nat)
    requires a < |desc| && b < |desc| && c < |desc|
    ensures Along(desc, [a, b, c]) == [AsSegment(desc[a]), AsSegment(desc[b]), AsSegment(desc[c])]
  {
    assert [a, b, c][1..] == [b, c] && [b, c][1..] == [c] && [c][1..] == [];
    assert Along(desc, [c]) == [AsSegment(desc[c])];
    assert Along(desc, [b, c]) == [AsSegment(desc[b])] + Along(desc, [c]);
  }

  /** The second half: the completion is the request's own, and the chain is freed. */
  method Finish(vq: VirtQueue, head: u16)
    requires vq.Valid() && vq.Outstanding() == {head as nat} && vq.polled < |vq.used|
    requires head as nat in vq.table.live && |vq.table.live[head as nat]| == 3
    modifies vq, vq.desc
    ensures vq.Valid() && vq.Outstanding() == {} && vq.used == old(vq.used) && vq.used[old(vq.polled)].id == head
    ensures vq.table == Returned(old(vq.table), head)
  {
    hide Partition, Threaded, Flying, Holds, Cut, Divides, Reassigned;
    ghost var t := vq.table;
    var elem := vq.PollUsed();
    IdsHead(vq.used, old(vq.polled));
    vq.FreeDescs(head, 3);
    assert vq.Outstanding() == {};
    vq.StillAirborne(t.live.Keys);
  }

  lemma {:induction false} NoneInFlight(queued: seq<nat>, held: set<nat>, done: seq<nat>)
    ensures InFlight(queued, held, done) == {} <==> queued == [] && held == {} && done == []
  {
    if queued != [] {
      assert queued[0] in InFlight(queued, held, done);
    }
    if done != [] {
      assert done[0] in InFlight(queued, held, done);
    }
  }

  /** One request with a device that serves it: the table is as it was before, in list order,
      so requests can follow one another without end. */
  method Transfer(vq: VirtQueue, header: nat, data: nat, len: nat, incoming: bool, index: u16,
      written: u32) returns (ok: bool)
    requires vq.Valid() && vq.Outstanding() == {} && index == Cut(vq.seen)
    modifies vq, vq.desc, vq.availRing, vq.usedRing
    ensures vq.Valid() && vq.Outstanding() == {} && vq.table == old(vq.table)
    ensures ok <==> old(vq.numFree) >= 3
  {
    hide Partition, Threaded, InFlight, Flying, Holds, Cut, Divides, Taken, Returned;
    ghost var t := vq.table;
    NoneInFlight(vq.submitted[vq.seen..], vq.held, Ids(vq.used[vq.polled..]));
    if vq.numFree >= 3 {
      TakenLive(t, 3);
      TakenReturned(t, 3);
    }
    var head := Start(vq, header, data, len, incoming);
    if head.None? {
      return false;
    }
    var taken := vq.DeviceTake(index);
    vq.DeviceComplete(taken.value, written);
    Finish(vq, head.value);
    ok := true;
  }
}
