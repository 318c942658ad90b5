/** The receive side of gVNIC: completions told apart by a generation bit that starts at 0,
    buffers posted again through a second ring as the completions are taken. */
module GvnicRx {
  import opened Bytes
  import opened Rings
  import opened CompletionRing

  const NUM_RX_BUFS: nat := 128
  const MAX_PKT_SIZE: nat := 1524
  const BATCH: nat := 32

  /** A completion: the packet length and the buffer it landed in. */
  datatype Arrival = Arrival(len: nat, buf: u16)

  predicate Deliverable(a: Arrival) {
    0 < a.len <= MAX_PKT_SIZE && a.buf < NUM_RX_BUFS
  }

  function Bufs(s: seq<Arrival>): (r: seq<nat>)
    ensures |r| == |s| && forall i | 0 <= i < |s| :: r[i] == s[i].buf
  {
    seq<nat>(|s|, i requires 0 <= i < |s| => s[i].buf)
  }

  /** The completions whose packets reach the kernel, and the buffers of the others. */
  function Delivered(s: seq<Arrival>): seq<Arrival> {
    if s == [] then []
    else Delivered(s[..|s| - 1]) + if Deliverable(s[|s| - 1]) then [s[|s| - 1]] else []
  }

  ghost function Dropped(s: seq<Arrival>): set<nat> {
    if s == [] then {}
    else Dropped(s[..|s| - 1]) + if Deliverable(s[|s| - 1]) then {} else {s[|s| - 1].buf as nat}
  }

  class RxQueue {
    const size: nat
    const comp: array<Entry<Arrival>>
    const bufRing: array<u16>
    var compHead: nat
    var compGen: bool
    var bufTail: nat

    /** Every completion the device has written and how many were taken; every buffer posted,
        how many of them the device has fetched, and the ones it is filling. */
    ghost var produced: seq<Arrival>
    ghost var consumed: nat
    ghost var posted: seq<u16>
    ghost var fetched: nat
    ghost var held: set<nat>

    ghost predicate Rings()
      reads this, comp, bufRing
    {
      && NUM_RX_BUFS <= size && comp.Length == size && bufRing.Length == size
      && Lap(comp[..], produced, consumed) && compHead == Slot(consumed, size) && compGen != Tag(consumed, size)
      && Holds(bufRing[..], posted, fetched) && bufTail == Slot(|posted|, size)
    }

    /** Where each buffer is: waiting in the buffer ring, with the device, or completed. */
    ghost function Circulating(): set<nat>
      requires fetched <= |posted| && consumed <= |produced|
      reads this
    {
      InFlight(posted[fetched..], held, Bufs(produced[consumed..]))
    }

    ghost predicate Valid()
      reads this, comp, bufRing
    {
      && Rings() && fetched <= |posted| && consumed <= |produced|
      && Flying(posted[fetched..], held, Bufs(produced[consumed..]), Upto(NUM_RX_BUFS))
    }

    constructor (n: nat)
      requires n >= NUM_RX_BUFS
      ensures Valid() && Circulating() == {} && fresh(comp) && fresh(bufRing) && size == n
      ensures produced == [] && consumed == 0
    {
      size := n;
      comp := new Entry<Arrival>[n](_ => Entry(false, Arrival(0, 0)));
      bufRing := new u16[n](_ => 0);
      compHead, compGen, bufTail := 0, false, 0;
      produced, consumed, posted, fetched, held := [], 0, [], 0, {};
      new;
      Blank(comp[..]);
      QuotientOf(0, n, 0, 0);
      assert Bufs([]) == [];
    }

    /** One buffer into the buffer ring. */
    method Post(buf: u16)
      requires Valid() && buf as nat < NUM_RX_BUFS && buf as nat !in Circulating()
      modifies bufRing, `bufTail, `posted
      ensures Valid() && posted == old(posted) + [buf] && Circulating() == old(Circulating()) + {buf as nat}
    {
      hide Lap, Tag, Slot, Flying, InFlight, Bufs, Upto;
      ghost var ring := bufRing[..];
      Posting(ring, posted, fetched, held, Bufs(produced[consumed..]), buf);
      AdvanceSlot(|posted|, size);
      hide Holds, Advance;
      bufRing[bufTail] := buf;
      assert bufRing[..] == ring[Slot(|posted|, size) := buf];
      bufTail := Advance(bufTail, size);
      posted := posted + [buf];
    }

    /** `postRxBuffers`: every buffer is put into circulation. */
    method PostRxBuffers()
      requires Valid() && Circulating() == {}
      modifies bufRing, `bufTail, `posted
      ensures Valid() && Circulating() == Upto(NUM_RX_BUFS)
    {
      hide Rings, Flying, InFlight, Bufs;
      for i := 0 to NUM_RX_BUFS
        invariant Valid() && Circulating() == Upto(i)
      {
        Post(i);
      }
    }

    /** The device fetches a posted buffer, and later completes one it holds. */
    method DeviceFetch(position: nat) returns (buf: u16)
      requires Valid() && fetched < |posted| && position == Slot(fetched, size)
      modifies `fetched, `held
      ensures Valid() && buf == posted[old(fetched)] && fetched == old(fetched) + 1 && held == old(held) + {buf as nat}
      ensures Circulating() == old(Circulating())
    {
      hide Lap, Tag, Slot, Flying, InFlight, Bufs, Upto;
      buf := bufRing[position];
      assert posted[fetched..] == [buf] + posted[fetched + 1..];
      IsTaken(posted[fetched + 1..], held, Bufs(produced[consumed..]), Upto(NUM_RX_BUFS), buf);
      fetched, held := fetched + 1, held + {buf as nat};
    }

    method DeviceComplete(position: nat, gen: bool, buf: u16, len: nat)
      requires Valid() && buf as nat in held
      requires position == Slot(|produced|, size) && gen == Tag(|produced|, size)
      modifies comp, `produced, `held
      ensures Valid() && produced == old(produced) + [Arrival(len, buf)] && held == old(held) - {buf as nat}
      ensures Circulating() == old(Circulating())
    {
      hide Holds, Tag, Slot, Flying, InFlight, Bufs, Upto;
      ghost var ring := comp[..];
      var a := Arrival(len, buf);
      Completing(ring, produced, consumed, posted[fetched..], held, a);
      hide Lap;
      comp[position] := Entry(gen, a);
      assert comp[..] == Written(ring, |produced|, a);
      produced, held := produced + [a], held - {buf as nat};
    }

    /** One turn of the loop in `handleIrq`. */
    method Take() returns (a: Option<Arrival>)
      requires Valid()
      modifies `compHead, `compGen, `consumed, bufRing, `bufTail, `posted
      ensures Valid()
      ensures a.None? <==> old(consumed) == |produced|
      ensures a.None? ==> consumed == old(consumed) && posted == old(posted)
      ensures a.Some? ==> a.value == produced[old(consumed)] && consumed == old(consumed) + 1
      ensures a.Some? ==> posted == old(posted) + if Deliverable(a.value) then [a.value.buf] else []
      ensures a.Some? ==> a.value.buf as nat in old(Circulating())
      ensures Circulating() == old(Circulating()) - if a.Some?
        && !Deliverable(a.value) then {a.value.buf as nat} else {}
    {
      hide Holds, Tag, Slot, Flying, InFlight, Bufs, Upto;
      NewIff(comp[..], produced, consumed);
      AdvanceSlot(consumed, size);
      var e := comp[compHead];
      if e.tag == compGen {
        return None;
      }
      Consumed(comp[..], produced, consumed);
      hide Lap, Advance;
      BufsHead(produced, consumed);
      Lands(posted[fetched..], held, Bufs(produced[consumed + 1..]), Upto(NUM_RX_BUFS), e.value.buf);
      compHead := Advance(compHead, size);
      if compHead == 0 {
        compGen := !compGen;
      }
      consumed := consumed + 1;
      if Deliverable(e.value) {
        Post(e.value.buf);
      }
      a := Some(e.value);
    }

    /** `handleIrq`: up to a batch of completions in order. The buffers of packets that reach the
        kernel are posted again in that order; exactly those of malformed completions go out of
        circulation. */
    method HandleIrq() returns (packets: seq<Arrival>)
      requires Valid()
      modifies `compHead, `compGen, `consumed, bufRing, `bufTail, `posted
      ensures Valid() && consumed == Min(old(consumed) + BATCH, |produced|)
      ensures packets == Delivered(produced[old(consumed)..consumed])
      ensures PostedAgain(old(posted), posted, packets)
      ensures Circulating() == old(Circulating()) - Dropped(produced[old(consumed)..consumed])
    {
      hide Rings, Flying, InFlight, Bufs, Deliverable, Delivered, Dropped, PostedAgain;
      packets := [];
      ghost var start, before := consumed, posted;
      NothingTaken(produced, start, posted);
      var processed := 0;
      while processed < BATCH
        invariant Valid() && processed <= BATCH && consumed == start + processed <= |produced|
        invariant packets == Delivered(produced[start..consumed])
        invariant PostedAgain(before, posted, packets)
        invariant Circulating() == old(Circulating()) - Dropped(produced[start..consumed])
      {
        ghost var was := posted;
        var a := Take();
        if a.None? {
          break;
        }
        OneMore(produced, start, consumed);
        AgainMore(before, was, packets, a.value);
        assert was + [] == was;
        if Deliverable(a.value) {
          packets := packets + [a.value];
        }
        processed := processed + 1;
      }
    }
  }

  function Advance(i: nat, n: nat): nat
    requires i < n
  {
    (i + 1) % n
  }

  lemma {:induction false} AdvanceSlot(k: nat, n: nat)
    requires n > 0
    ensures Advance(Slot(k, n), n) == Slot(k + 1, n)
    ensures Tag(k + 1, n) == if Advance(Slot(k, n), n) == 0 then !Tag(k, n) else Tag(k, n)
  {
    NextPlace(k, n);
    hide Tag;
    var i := Slot(k, n);
    QuotientOf(i + 1, n, if i + 1 < n then 0 else 1, if i + 1 < n then i + 1 else 0);
  }

  /** The buffers posted since are those of the packets, in order. */
  ghost predicate PostedAgain(before: seq<u16>, after: seq<u16>, packets: seq<Arrival>) {
    && before <= after && |after| == |before| + |packets|
    && forall i | 0 <= i < |packets| :: after[|before| + i] == packets[i].buf
  }

  lemma {:induction false} AgainMore(before: seq<u16>, after: seq<u16>, packets: seq<Arrival>, a: Arrival)
    requires PostedAgain(before, after, packets)
    ensures PostedAgain(before, after + [a.buf], packets + [a])
  {
  }

  lemma {:induction false} NothingTaken(s: seq<Arrival>, start: nat, posted: seq<u16>)
    requires start <= |s|
    ensures Delivered(s[start..start]) == [] && Dropped(s[start..start]) == {} && PostedAgain(posted, posted, [])
  {
  }

  lemma {:induction false} OneMore(s: seq<Arrival>, start: nat, end: nat)
    requires start < end <= |s|
    ensures var a := s[end - 1];
      && Delivered(s[start..end]) == Delivered(s[start..end - 1]) + (if Deliverable(a) then [a] else [])
      && Dropped(s[start..end]) == Dropped(s[start..end - 1]) + (if Deliverable(a) then {} else {a.buf as nat})
  {
    assert s[start..end][..end - start - 1] == s[start..end - 1];
  }

  lemma {:induction false} BufsHead(s: seq<Arrival>, k: nat)
    requires k < |s|
    ensures Bufs(s[k..]) == [s[k].buf as nat] + Bufs(s[k + 1..])
  {
  }

  lemma {:induction false} Room(queued: seq<nat>, held: set<nat>, done: seq<nat>)
    requires Flying(queued, held, done, Upto(NUM_RX_BUFS))
    ensures |queued| <= NUM_RX_BUFS && |done| <= NUM_RX_BUFS
  {
    forall i | 0 <= i < |queued| ensures queued[i] < NUM_RX_BUFS {
      assert queued[i] in InFlight(queued, held, done);
    }
    forall i | 0 <= i < |done| ensures done[i] < NUM_RX_BUFS {
      assert done[i] in InFlight(queued, held, done);
    }
    Pigeonhole(queued, NUM_RX_BUFS);
    Pigeonhole(done, NUM_RX_BUFS);
  }

  lemma {:induction false} Posting(ring: seq<u16>, posted: seq<u16>, fetched: nat, held: set<nat>, done: seq<nat>,
      buf: u16)
    requires Holds(ring, posted, fetched) && |ring| >= NUM_RX_BUFS
    requires Flying(posted[fetched..], held, done, Upto(NUM_RX_BUFS))
    requires buf as nat < NUM_RX_BUFS && buf as nat !in InFlight(posted[fetched..], held, done)
    ensures Holds(ring[Slot(|posted|, |ring|) := buf], posted + [buf], fetched)
    ensures Flying((posted + [buf])[fetched..], held, done, Upto(NUM_RX_BUFS))
    ensures InFlight((posted + [buf])[fetched..], held, done) == InFlight(posted[fetched..], held, done) + {buf as nat}
  {
    hide Flying, InFlight;
    QueuesUp(posted[fetched..], held, done, Upto(NUM_RX_BUFS), buf);
    assert (posted + [buf])[fetched..] == posted[fetched..] + [buf];
    Room(posted[fetched..] + [buf], held, done);
    HoldsMore(ring, posted, fetched, buf);
  }

  lemma {:induction false} Completing(ring: seq<Entry<Arrival>>, produced: seq<Arrival>, consumed: nat,
      queued: seq<nat>, held: set<nat>, a: Arrival)
    requires Lap(ring, produced, consumed) && |ring| >= NUM_RX_BUFS && a.buf as nat in held
    requires Flying(queued, held, Bufs(produced[consumed..]), Upto(NUM_RX_BUFS))
    ensures Lap(Written(ring, |produced|, a), produced + [a], consumed)
    ensures Flying(queued, held - {a.buf as nat}, Bufs((produced + [a])[consumed..]), Upto(NUM_RX_BUFS))
    ensures InFlight(queued, held - {a.buf as nat}, Bufs((produced + [a])[consumed..])) ==
      InFlight(queued, held, Bufs(produced[consumed..]))
  {
    hide Flying, InFlight;
    var done := Bufs(produced[consumed..]);
    assert Bufs((produced + [a])[consumed..]) == done + [a.buf as nat];
    IsReturned(queued, held, done, Upto(NUM_RX_BUFS), a.buf);
    Room(queued, held - {a.buf as nat}, done + [a.buf as nat]);
    Produced(ring, produced, consumed, a);
  }
}
