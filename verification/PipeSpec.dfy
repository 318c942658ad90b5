/** What a pipe is to its users: a bounded queue of bytes with two counted ends, one recorded
    waiter for each end, and the wake-ups every call issues. */
module PipeSpec {
  import opened Bytes

  const CAPACITY: nat := 65535
  const EAGAIN: int := 11
  const EPIPE: int := 32
  /** Reader and writer counts are bytes. */
  const MAX_ENDS: nat := 255

  type Pid = p: nat | p > 0 witness 1

  /** A recorded waiter; process ids start at 1, so 0 means nobody. */
  type Slot = nat

  datatype Access = ReadOnly | WriteOnly | ReadWrite

  datatype Fifo = Fifo(
    queue: seq<byte>, readers: nat, writers: nat, waitingReader: Slot, waitingWriter: Slot, inUse: bool)

  /** The result of a call: the value returned, the bytes handed over, the process woken, whether
      event waiters are notified, and the process sent SIGPIPE. `Halted` stands for the overflow
      check on a count. */
  datatype Reply = Reply(value: int, data: seq<byte>, woken: Slot, notified: bool, signalled: Slot) | Halted

  datatype Event =
    | Read(current: Option<Pid>, wanted: nat, parks: bool)
    | Write(current: Option<Pid>, data: seq<byte>, parks: bool)
    | Close(access: Access)
    | Open(access: Access, room: bool)

  datatype Result = Result(fifo: Fifo, reply: Reply)

  function Recorded(current: Option<Pid>, slot: Slot): Slot {
    match current
    case Some(p) => p
    case None => slot
  }

  function ReadStep(f: Fifo, current: Option<Pid>, wanted: nat): Result {
    if f.queue == [] then
      if f.writers == 0 then Result(f, Reply(0, [], 0, false, 0))
      else Result(f.(waitingReader := Recorded(current, f.waitingReader)), Reply(-EAGAIN, [], 0, false, 0))
    else
      var k := Min(wanted, |f.queue|);
      Result(f.(queue := f.queue[k..], waitingWriter := 0), Reply(k, f.queue[..k], f.waitingWriter, true, 0))
  }

  function WriteStep(f: Fifo, current: Option<Pid>, data: seq<byte>): Result {
    if f.readers == 0 then Result(f, Reply(-EPIPE, [], 0, false, Recorded(current, 0)))
    else if |f.queue| >= CAPACITY then
      Result(f.(waitingWriter := Recorded(current, f.waitingWriter)), Reply(-EAGAIN, [], 0, false, 0))
    else
      var k := Min(|data|, CAPACITY - |f.queue|);
      Result(f.(queue := f.queue + data[..k], waitingReader := 0), Reply(k, [], f.waitingReader, true, 0))
  }

  function CloseStep(f: Fifo, access: Access): Result {
    var woken := match access case ReadOnly => f.waitingWriter case WriteOnly => f.waitingReader case ReadWrite => 0;
    var g := match access
      case ReadOnly => f.(readers := if f.readers > 0 then f.readers - 1 else 0, waitingWriter := 0)
      case WriteOnly => f.(writers := if f.writers > 0 then f.writers - 1 else 0, waitingReader := 0)
      case ReadWrite => f;
    Result(g.(inUse := g.inUse && (g.readers > 0 || g.writers > 0)), Reply(0, [], woken, true, 0))
  }

  /** `room` says whether a file description can be had. */
  function OpenStep(f: Fifo, access: Access, room: bool): Result {
    if !f.inUse || !room then Result(f, Reply(-1, [], 0, false, 0))
    else if access == WriteOnly then
      if f.writers == MAX_ENDS then Result(f, Halted)
      else Result(f.(writers := f.writers + 1), Reply(0, [], 0, false, 0))
    else
      if f.readers == MAX_ENDS then Result(f, Halted)
      else Result(f.(readers := f.readers + 1), Reply(0, [], 0, false, 0))
  }

  function Step(f: Fifo, e: Event): Result {
    match e
    case Read(c, n, _) => ReadStep(f, c, n)
    case Write(c, d, _) => WriteStep(f, c, d)
    case Close(a) => CloseStep(f, a)
    case Open(a, room) => OpenStep(f, a, room)
  }

  /** A pipe just created. */
  const FRESH := Fifo([], 1, 1, 0, 0, true)

  // ---- Readiness ----

  datatype Readiness = Readiness(readable: bool, writable: bool, hangup: bool)

  function Ready(f: Fifo): Readiness {
    if !f.inUse then Readiness(false, false, false)
    else Readiness(f.queue != [] || f.writers == 0, |f.queue| < CAPACITY && f.readers > 0, f.writers == 0)
  }

  /** The readiness bits of an open pipe say exactly whether a read would go through, whether a
      write would take at least a byte, and whether an empty pipe is at its end. */
  lemma {:induction false} ReadinessIff(f: Fifo, current: Option<Pid>, wanted: nat, data: seq<byte>)
    requires f.inUse && |f.queue| <= CAPACITY && wanted > 0 && data != []
    ensures Ready(f).readable <==> ReadStep(f, current, wanted).reply.value != -EAGAIN
    ensures Ready(f).writable <==> WriteStep(f, current, data).reply.value > 0
    ensures Ready(f).hangup && f.queue == [] <==> ReadStep(f, current, wanted).reply.value == 0
  {
  }

  /** A bit that the state had clear and has now set. */
  predicate Rises(a: Readiness, b: Readiness) {
    (b.readable && !a.readable) || (b.writable && !a.writable) || (b.hangup && !a.hangup)
  }

  /** Every call that sets a readiness bit notifies the event waiters, with one exception:
      attaching a reader to a pipe that has none. */
  lemma {:induction false} UnannouncedIff(f: Fifo, e: Event)
    requires |f.queue| <= CAPACITY
    ensures var r := Step(f, e);
      Rises(Ready(f), Ready(r.fifo)) && !(r.reply.Reply? && r.reply.notified)
      <==> e.Open? && e.access != WriteOnly && e.room && f.inUse && f.readers == 0 && |f.queue| < CAPACITY
  {
  }

  // ---- Runs ----

  /** A pipe together with the processes parked on it. A call that would block parks its
      process unless the system call had already moved some bytes. */
  datatype Config = Config(fifo: Fifo, parkedReaders: set<Pid>, parkedWriters: set<Pid>)

  predicate Blocks(f: Fifo, e: Event) {
    var r := Step(f, e).reply;
    r.Reply? && r.value == -EAGAIN && e.current.Some?
  }

  function Joining(f: Fifo, e: Event): set<Pid>
  {
    if (e.Read? || e.Write?) && Blocks(f, e) && e.parks then {e.current.value} else {}
  }

  function Released(r: Reply): set<Pid> {
    if r.Reply? && r.woken > 0 then {r.woken} else {}
  }

  function Next(c: Config, e: Event): Config {
    var r := Step(c.fifo, e);
    var joining, released := Joining(c.fifo, e), Released(r.reply);
    Config(r.fifo,
      c.parkedReaders - released + (if e.Read? then joining else {}),
      c.parkedWriters - released + (if e.Write? then joining else {}))
  }

  function Run(es: seq<Event>): Config {
    if es == [] then Config(FRESH, {}, {}) else Next(Run(es[..|es| - 1]), es[|es| - 1])
  }

  /** Parked processes make no calls. */
  predicate Runnable(c: Config, e: Event) {
    (e.Read? || e.Write?) && e.current.Some? ==> e.current.value !in c.parkedReaders + c.parkedWriters
  }

  ghost predicate Fair(es: seq<Event>) {
    forall k | 0 <= k < |es| :: Runnable(Run(es[..k]), es[k])
  }

  /** The bytes the writes of a run have put in, and the bytes its reads have taken out. */
  function Accepted(es: seq<Event>): seq<byte> {
    if es == [] then []
    else
      var front, e := es[..|es| - 1], es[|es| - 1];
      var r := Step(Run(front).fifo, e).reply;
      Accepted(front) + (if e.Write? && r.Reply? && 0 <= r.value <= |e.data| then e.data[..r.value] else [])
  }

  function Taken(es: seq<Event>): seq<byte> {
    if es == [] then []
    else
      var front, e := es[..|es| - 1], es[|es| - 1];
      var r := Step(Run(front).fifo, e).reply;
      Taken(front) + (if r.Reply? then r.data else [])
  }

  /** Over every run, what was read out followed by what is still queued is what was written in,
      in order, and at most the capacity is queued. */
  lemma {:induction false} Conservation(es: seq<Event>)
    ensures Accepted(es) == Taken(es) + Run(es).fifo.queue
    ensures |Run(es).fifo.queue| <= CAPACITY
  {
    if es != [] {
      var front, e := es[..|es| - 1], es[|es| - 1];
      Conservation(front);
      QueueStep(Run(front).fifo, e, Accepted(front), Taken(front));
    }
  }

  lemma {:induction false} QueueStep(f: Fifo, e: Event, put: seq<byte>, got: seq<byte>)
    requires put == got + f.queue && |f.queue| <= CAPACITY
    ensures var r := Step(f, e);
      var more := if e.Write? && r.reply.Reply? && 0 <= r.reply.value <= |e.data| then e.data[..r.reply.value] else [];
      put + more == got + (if r.reply.Reply? then r.reply.data else []) + r.fifo.queue && |r.fifo.queue| <= CAPACITY
  {
    if e.Read? && f.queue != [] {
      var k := Min(e.wanted, |f.queue|);
      assert f.queue == f.queue[..k] + f.queue[k..];
    }
  }

  // ---- Wake-ups ----

  /** A recorded reader waits on an empty pipe with a writer, a recorded writer on a full one
      with a reader. */
  predicate Recordings(f: Fifo) {
    && |f.queue| <= CAPACITY
    && (f.waitingReader > 0 ==> f.queue == [] && f.writers > 0)
    && (f.waitingWriter > 0 ==> |f.queue| == CAPACITY && f.readers > 0)
  }

  lemma {:induction false} NeverBoth(f: Fifo)
    requires Recordings(f)
    ensures f.waitingReader == 0 || f.waitingWriter == 0
  {
  }

  lemma {:induction false} RecordingsKept(f: Fifo, e: Event)
    requires Recordings(f)
    ensures Recordings(Step(f, e).fifo)
  {
  }

  /** A call that ends a recorded wait wakes the process that was recorded. */
  lemma {:induction false} EndsWithWake(f: Fifo, e: Event)
    requires Recordings(f)
    ensures var r := Step(f, e);
      f.waitingReader > 0 && (r.fifo.queue != [] || r.fifo.writers == 0) ==>
        r.reply.Reply? && r.reply.woken == f.waitingReader && r.fifo.waitingReader == 0
    ensures var r := Step(f, e);
      f.waitingWriter > 0 && (|r.fifo.queue| < CAPACITY || r.fifo.readers == 0) ==>
        r.reply.Reply? && r.reply.woken == f.waitingWriter && r.fifo.waitingWriter == 0
  {
  }

  /** Processes parked on the pipe that no slot records: no call on the pipe wakes them. */
  function LostReaders(c: Config): set<Pid> {
    set p | p in c.parkedReaders && p != c.fifo.waitingReader
  }

  function LostWriters(c: Config): set<Pid> {
    set p | p in c.parkedWriters && p != c.fifo.waitingWriter
  }

  /** The state every run keeps. */
  ghost predicate Inv(c: Config) {
    && Recordings(c.fifo)
    && (c.fifo.waitingReader > 0 ==> c.fifo.waitingReader !in c.parkedWriters)
    && (c.fifo.waitingWriter > 0 ==> c.fifo.waitingWriter !in c.parkedReaders)
  }

  /** A blocked call that records itself over a parked process. */
  predicate Overwrites(c: Config, e: Event) {
    || (e.Read? && Blocks(c.fifo, e) && c.parkedReaders != {})
    || (e.Write? && Blocks(c.fifo, e) && c.parkedWriters != {})
  }

  lemma {:induction false} InvKept(c: Config, e: Event)
    requires Inv(c) && Runnable(c, e)
    ensures Inv(Next(c, e))
  {
    RecordingsKept(c.fifo, e);
  }

  lemma {:induction false} LossStep(c: Config, e: Event)
    requires Inv(c) && Runnable(c, e)
    ensures var d := Next(c, e);
      LostReaders(d) + LostWriters(d) == {} <==> LostReaders(c) + LostWriters(c) == {} && !Overwrites(c, e)
  {
    var d := Next(c, e);
    ReaderLoss(c, e);
    WriterLoss(c, e);
  }

  lemma {:induction false} ReaderLoss(c: Config, e: Event)
    requires Inv(c) && Runnable(c, e)
    ensures LostReaders(Next(c, e)) == {} <==>
      LostReaders(c) == {} && !(e.Read? && Blocks(c.fifo, e) && c.parkedReaders != {})
  {
    var d := Next(c, e);
    if p :| p in LostReaders(c) {
      assert p in LostReaders(d);
    } else if e.Read? && Blocks(c.fifo, e) {
      if p :| p in c.parkedReaders {
        assert p in LostReaders(d);
      }
    }
  }

  lemma {:induction false} WriterLoss(c: Config, e: Event)
    requires Inv(c) && Runnable(c, e)
    ensures LostWriters(Next(c, e)) == {} <==>
      LostWriters(c) == {} && !(e.Write? && Blocks(c.fifo, e) && c.parkedWriters != {})
  {
    var d := Next(c, e);
    if p :| p in LostWriters(c) {
      assert p in LostWriters(d);
    } else if e.Write? && Blocks(c.fifo, e) {
      if p :| p in c.parkedWriters {
        assert p in LostWriters(d);
      }
    }
  }

  ghost predicate OverwritesNowhere(es: seq<Event>) {
    forall k | 0 <= k < |es| :: !Overwrites(Run(es[..k]), es[k])
  }

  /** No process is ever lost exactly when no blocked call records itself over a parked one. */
  lemma {:induction false} NoLossIff(es: seq<Event>)
    requires Fair(es)
    ensures Inv(Run(es))
    ensures LostReaders(Run(es)) + LostWriters(Run(es)) == {} <==> OverwritesNowhere(es)
  {
    hide Step, Next, Inv, Runnable, Overwrites, LostReaders, LostWriters;
    if es == [] {
      FreshLoses();
    } else {
      var front, e := es[..|es| - 1], es[|es| - 1];
      assert forall k | 0 <= k < |front| :: front[..k] == es[..k] && front[k] == es[k];
      assert Runnable(Run(es[..|es| - 1]), es[|es| - 1]);
      NoLossIff(front);
      InvKept(Run(front), e);
      LossStep(Run(front), e);
      assert forall k | 0 <= k < |es| :: k < |front| || (es[..k] == front && es[k] == e);
    }
  }

  lemma {:induction false} FreshLoses()
    ensures Inv(Run([])) && LostReaders(Run([])) + LostWriters(Run([])) == {}
  {
  }

  /** After any run, whenever a read would go through every parked reader is a lost one, and
      whenever a write would, every parked writer is; so without an overwritten slot nobody
      sleeps through a change. */
  lemma {:induction false} NoLostWakeup(es: seq<Event>)
    requires Fair(es)
    ensures var c := Run(es); c.fifo.queue != [] || c.fifo.writers == 0 ==> c.parkedReaders == LostReaders(c)
    ensures var c := Run(es); |c.fifo.queue| < CAPACITY || c.fifo.readers == 0 ==> c.parkedWriters == LostWriters(c)
    ensures var c := Run(es);
      OverwritesNowhere(es) && (c.fifo.queue != [] || c.fifo.writers == 0) ==> c.parkedReaders == {}
    ensures var c := Run(es);
      OverwritesNowhere(es) && (|c.fifo.queue| < CAPACITY || c.fifo.readers == 0) ==> c.parkedWriters == {}
  {
    NoLossIff(es);
    hide Run, OverwritesNowhere, Fair;
    var c := Run(es);
    assert LostReaders(c) <= LostReaders(c) + LostWriters(c) && LostWriters(c) <= LostReaders(c) + LostWriters(c);
  }

  /** Two readers on an empty pipe: the write wakes the second and leaves the first parked in
      front of the data. */
  lemma {:induction false} SecondReaderHidesFirst(b: byte)
    ensures var es := [Read(Some(1), 1, true), Read(Some(2), 1, true), Write(Some(3), [b], true)];
      Fair(es) && Run(es).fifo.queue == [b] && Run(es).parkedReaders == {1}
  {
    var r1, r2, w := Read(Some(1), 1, true), Read(Some(2), 1, true), Write(Some(3), [b], true);
    var es := [r1, r2, w];
    assert es[..0] == [] && es[..1] == [r1] && es[..2] == [r1, r2] && es[..3] == es;
    assert [r1, r2][..1] == [r1] && [r1][..0] == [];
    var c1 := Config(FRESH.(waitingReader := 1), {1}, {});
    assert Run([r1]) == c1;
    var c2 := Config(FRESH.(waitingReader := 2), {1, 2}, {});
    assert Run([r1, r2]) == Next(Run([r1]), r2) == c2;
    assert Run(es) == Next(c2, w);
  }

  // ---- Ends ----

  /** The descriptions of each kind that are open, and how many opened both ways were closed. */
  datatype Ends = Ends(readOnly: nat, writeOnly: nat, readWrite: nat, leaked: nat)

  predicate Opened(f: Fifo, e: Event) {
    e.Open? && OpenStep(f, e.access, e.room).reply == Reply(0, [], 0, false, 0)
  }

  /** Only open ends are closed. */
  predicate Closable(n: Ends, e: Event) {
    e.Close? ==> match e.access
      case ReadOnly => n.readOnly > 0
      case WriteOnly => n.writeOnly > 0
      case ReadWrite => n.readWrite > 0
  }

  function EndsNext(f: Fifo, n: Ends, e: Event): Ends
    requires Closable(n, e)
  {
    if e.Close? then match e.access
      case ReadOnly => n.(readOnly := n.readOnly - 1)
      case WriteOnly => n.(writeOnly := n.writeOnly - 1)
      case ReadWrite => n.(readWrite := n.readWrite - 1, leaked := n.leaked + 1)
    else if Opened(f, e) then match e.access
      case ReadOnly => n.(readOnly := n.readOnly + 1)
      case WriteOnly => n.(writeOnly := n.writeOnly + 1)
      case ReadWrite => n.(readWrite := n.readWrite + 1)
    else n
  }

  /** The ends open after a run that closes only open ends, or nothing. */
  function EndsAfter(es: seq<Event>): Option<Ends> {
    if es == [] then Some(Ends(1, 1, 0, 0))
    else
      var n, e := EndsAfter(es[..|es| - 1]), es[|es| - 1];
      if n.None? || !Closable(n.value, e) then None else Some(EndsNext(Run(es[..|es| - 1]).fifo, n.value, e))
  }

  ghost predicate Counted(f: Fifo, n: Ends) {
    && f.readers == n.readOnly + n.readWrite + n.leaked && f.writers == n.writeOnly
    && (f.inUse <==> f.readers > 0 || f.writers > 0)
  }

  /** Over every run the two counts are the open ends, plus one reader for every description
      opened both ways and closed again. */
  lemma {:induction false} EndsCounted(es: seq<Event>)
    requires EndsAfter(es).Some?
    ensures Counted(Run(es).fifo, EndsAfter(es).value)
  {
    if es != [] {
      var front, e := es[..|es| - 1], es[|es| - 1];
      EndsCounted(front);
      EndsStep(Run(front).fifo, EndsAfter(front).value, e);
    }
  }

  lemma {:induction false} EndsStep(f: Fifo, n: Ends, e: Event)
    requires Counted(f, n) && Closable(n, e)
    ensures Counted(Step(f, e).fifo, EndsNext(f, n, e))
  {
  }

  /** When every end is closed the pipe's slot is given back if and only if none of them had been
      opened both ways. */
  lemma {:induction false} FreedIff(es: seq<Event>)
    requires EndsAfter(es).Some? && EndsAfter(es).value.(leaked := 0) == Ends(0, 0, 0, 0)
    ensures !Run(es).fifo.inUse <==> EndsAfter(es).value.leaked == 0
  {
    hide Run, EndsAfter;
    EndsCounted(es);
  }

  /** A reader that comes back to a pipe without one makes it writable, and nobody is told. */
  lemma {:induction false} ReopenedUnannounced()
    ensures var closed, es := [Close(ReadOnly)], [Close(ReadOnly), Open(ReadOnly, true)];
      && EndsAfter(es).Some? && Rises(Ready(Run(closed).fifo), Ready(Run(es).fifo))
      && Step(Run(closed).fifo, es[1]).reply == Reply(0, [], 0, false, 0)
  {
    var a, b := Close(ReadOnly), Open(ReadOnly, true);
    assert [a, b][..1] == [a] && [a][..0] == [];
    assert Run([a]) == Next(Run([]), a) == Config(FRESH.(readers := 0), {}, {});
    assert Run([a, b]) == Next(Run([a]), b) == Config(FRESH, {}, {});
    assert EndsAfter([a]) == Some(Ends(0, 1, 0, 0));
  }

  /** One end opened both ways and closed again: all ends are closed and the slot stays taken. */
  lemma {:induction false} BothWaysLeaks()
    ensures var es := [Open(ReadWrite, true), Close(ReadWrite), Close(ReadOnly), Close(WriteOnly)];
      EndsAfter(es) == Some(Ends(0, 0, 0, 1)) && Run(es).fifo.inUse
  {
    var a, b, c, d := Open(ReadWrite, true), Close(ReadWrite), Close(ReadOnly), Close(WriteOnly);
    var es := [a, b, c, d];
    assert es[..3] == [a, b, c] && [a, b, c][..2] == [a, b] && [a, b][..1] == [a] && [a][..0] == [];
    assert Run([a]) == Next(Run([]), a) == Config(FRESH.(readers := 2), {}, {});
    assert Run([a, b]) == Next(Run([a]), b) == Run([a]);
    assert Run([a, b, c]) == Next(Run([a, b]), c) == Config(FRESH, {}, {});
    assert Run(es) == Next(Run([a, b, c]), d);
    assert EndsAfter([a]) == Some(Ends(1, 1, 1, 0)) && EndsAfter([a, b]) == Some(Ends(1, 1, 0, 1));
    assert EndsAfter([a, b, c]) == Some(Ends(0, 1, 0, 1));
  }
}
