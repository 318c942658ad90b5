/** The pipe table: ring buffers copied in two phases, end counts and waiter slots updated in
    place, each call against the bounded queue of `PipeSpec`. */
module PipeRing {
  import opened Bytes
  import opened PipeSpec

  const MAX_PIPES: nat := 32

  /** `n` bytes of a ring from `pos`, wrapping at its end. */
  function Ring(s: seq<byte>, pos: nat, n: nat): (r: seq<byte>)
    requires |s| == CAPACITY
    ensures |r| == n
  {
    seq<byte>(n, i requires 0 <= i < n => s[(pos + i) % CAPACITY])
  }

  /** The two contiguous regions a wrapped range consists of. */
  lemma {:induction false} TwoPhases(s: seq<byte>, pos: nat, n: nat)
    requires |s| == CAPACITY && pos < CAPACITY && n <= CAPACITY
    ensures var first := Min(n, CAPACITY - pos);
      Ring(s, pos, n) == s[pos..pos + first] + s[..n - first]
  {
  }

  lemma {:induction false} RingTail(s: seq<byte>, pos: nat, n: nat, k: nat)
    requires |s| == CAPACITY && pos < CAPACITY && k <= n <= CAPACITY
    ensures Ring(s, pos, n)[..k] == Ring(s, pos, k)
    ensures Ring(s, pos, n)[k..] == Ring(s, (pos + k) % CAPACITY, n - k)
  {
    forall i | 0 <= i < n - k ensures Ring(s, pos, n)[k..][i] == Ring(s, (pos + k) % CAPACITY, n - k)[i] {
      AddMod(pos + k, i);
    }
  }

  lemma {:induction false} AddMod(a: nat, b: nat)
    ensures (a % CAPACITY + b) % CAPACITY == (a + b) % CAPACITY
  {
  }

  method Copy(dst: array<byte>, at: nat, src: seq<byte>)
    requires at + |src| <= dst.Length
    modifies dst
    ensures forall i | 0 <= i < |src| :: dst[at + i] == src[i]
    ensures forall i | 0 <= i < dst.Length && !(at <= i < at + |src|) :: dst[i] == old(dst[i])
  {
    for i := 0 to |src|
      invariant forall j | 0 <= j < i :: dst[at + j] == src[j]
      invariant forall j | 0 <= j < dst.Length && !(at <= j < at + i) :: dst[j] == old(dst[j])
    {
      dst[at + i] := src[i];
    }
  }

  class Pipe {
    const buffer: array<byte>
    var readPos: u16
    var writePos: u16
    var count: u16
    var readers: nat
    var writers: nat
    var blockedReader: Slot
    var blockedWriter: Slot
    var inUse: bool

    ghost predicate Valid()
      reads this
    {
      && buffer.Length == CAPACITY
      && readPos < CAPACITY && count <= CAPACITY && writePos == (readPos + count) % CAPACITY
      && readers <= MAX_ENDS && writers <= MAX_ENDS
    }

    ghost function State(): Fifo
      requires Valid()
      reads this, buffer
    {
      Fifo(Ring(buffer[..], readPos, count), readers, writers, blockedReader, blockedWriter, inUse)
    }

    constructor ()
      ensures Valid() && !inUse && fresh(buffer)
    {
      buffer := new byte[CAPACITY](_ => 0);
      readPos, writePos, count := 0, 0, 0;
      readers, writers, blockedReader, blockedWriter := 0, 0, 0, 0;
      inUse := false;
    }

    method Initialize()
      requires Valid()
      modifies this
      ensures Valid() && State() == FRESH
    {
      readPos, writePos, count := 0, 0, 0;
      readers, writers, blockedReader, blockedWriter := 1, 1, 0, 0;
      inUse := true;
      assert Ring(buffer[..], 0, 0) == [];
    }

    /** The copy out of the ring. */
    method TakeOut(buf: array<byte>, k: nat)
      requires Valid() && buf != buffer && k <= count && k <= buf.Length
      modifies buf, `readPos, `count
      ensures Valid()
      ensures Ring(buffer[..], readPos, count) == old(Ring(buffer[..], readPos, count))[k..]
      ensures buf[..] == old(Ring(buffer[..], readPos, count))[..k] + old(buf[..])[k..]
    {
      ghost var s, pos, n := buffer[..], readPos, count;
      var first := Min(k, CAPACITY - readPos);
      Copy(buf, 0, buffer[readPos..readPos + first]);
      var second := k - first;
      if second > 0 {
        Copy(buf, first, buffer[..second]);
      }
      TwoPhases(s, pos, k);
      RingTail(s, pos, n, k);
      hide Ring;
      assert buf[..] == (s[pos..pos + first] + s[..k - first]) + old(buf[..])[k..];
      readPos := (readPos + k) % CAPACITY;
      count := count - k;
      AddMod(pos + k, n - k);
    }

    method Read(buf: array<byte>, wanted: nat, current: Option<Pid>) returns (value: int, woken: Slot, notified: bool)
      requires Valid() && buf != buffer && wanted <= buf.Length
      modifies this, buf
      ensures Valid()
      ensures var r := ReadStep(old(State()), current, wanted);
        State() == r.fifo && r.reply == Reply(value, buf[..|r.reply.data|], woken, notified, 0)
      ensures buf[Max(value, 0)..] == old(buf[..])[Max(value, 0)..]
    {
      ghost var f := State();
      if count == 0 {
        assert f.queue == [];
        if writers == 0 {
          return 0, 0, false;
        }
        if current.Some? {
          blockedReader := current.value;
        }
        return -EAGAIN, 0, false;
      }
      var k := if wanted > count then count else wanted;
      TakeOut(buf, k);
      woken := blockedWriter;
      if blockedWriter != 0 {
        blockedWriter := 0;
      }
      value, notified := k, true;
      assert buf[..k] == f.queue[..k];
    }

    /** The copy into the ring. */
    method PutIn(data: seq<byte>)
      requires Valid() && |data| <= CAPACITY - count
      modifies buffer, `writePos, `count
      ensures Valid()
      ensures Ring(buffer[..], readPos, count) == old(Ring(buffer[..], readPos, count)) + data
    {
      ghost var s, k := buffer[..], |data|;
      var first := Min(|data|, CAPACITY - writePos);
      Copy(buffer, writePos, data[..first]);
      var second := |data| - first;
      if second > 0 {
        Copy(buffer, 0, data[first..]);
      }
      RingFilled(s, buffer[..], readPos, count, writePos, data);
      AddMod(readPos + count, k);
      writePos := (writePos + |data|) % CAPACITY;
      count := count + |data|;
    }

    method Write(buf: seq<byte>, current: Option<Pid>)
      returns (value: int, woken: Slot, notified: bool, signalled: Slot)
      requires Valid()
      modifies this, buffer
      ensures Valid()
      ensures WriteStep(old(State()), current, buf) == Result(State(), Reply(value, [], woken, notified, signalled))
    {
      signalled := 0;
      if readers == 0 {
        if current.Some? {
          signalled := current.value;
        }
        return -EPIPE, 0, false, signalled;
      }
      var space := CAPACITY - count;
      if space == 0 {
        if current.Some? {
          blockedWriter := current.value;
        }
        return -EAGAIN, 0, false, 0;
      }
      var k := if |buf| > space then space else |buf|;
      PutIn(buf[..k]);
      woken := blockedReader;
      if blockedReader != 0 {
        blockedReader := 0;
      }
      value, notified := k, true;
    }

    method Close(access: Access) returns (woken: Slot)
      requires Valid()
      modifies this
      ensures Valid()
      ensures CloseStep(old(State()), access) == Result(State(), Reply(0, [], woken, true, 0))
    {
      woken := 0;
      if access == ReadOnly {
        if readers > 0 {
          readers := readers - 1;
        }
        if blockedWriter != 0 {
          woken := blockedWriter;
          blockedWriter := 0;
        }
      } else if access == WriteOnly {
        if writers > 0 {
          writers := writers - 1;
        }
        if blockedReader != 0 {
          woken := blockedReader;
          blockedReader := 0;
        }
      }
      if readers == 0 && writers == 0 {
        inUse := false;
      }
    }

    method OpenEnd(access: Access, room: bool) returns (reply: Reply)
      requires Valid()
      modifies this
      ensures Valid()
      ensures OpenStep(old(State()), access, room) == Result(State(), reply)
    {
      if !inUse || !room {
        return Reply(-1, [], 0, false, 0);
      }
      if access == WriteOnly {
        if writers == MAX_ENDS {
          return Halted;
        }
        writers := writers + 1;
      } else {
        if readers == MAX_ENDS {
          return Halted;
        }
        readers := readers + 1;
      }
      reply := Reply(0, [], 0, false, 0);
    }

    method CheckReadiness() returns (r: Readiness)
      requires Valid()
      ensures r == Ready(State())
    {
      if !inUse {
        return Readiness(false, false, false);
      }
      r := Readiness(count > 0 || writers == 0, count < CAPACITY && readers > 0, writers == 0);
    }
  }

  lemma {:induction false} RingFilled(s: seq<byte>, t: seq<byte>, pos: nat, n: nat, w: nat, data: seq<byte>)
    requires |s| == |t| == CAPACITY && pos < CAPACITY && n + |data| <= CAPACITY && w == (pos + n) % CAPACITY
    requires var first := Min(|data|, CAPACITY - w);
      && (forall i | 0 <= i < first :: t[w + i] == data[i])
      && (forall i | first <= i < |data| :: t[i - first] == data[i])
      && (forall i | 0 <= i < CAPACITY && !(w <= i < w + first) && !(0 <= i < |data| - first) :: t[i] == s[i])
    ensures Ring(t, pos, n + |data|) == Ring(s, pos, n) + data
  {
    var first := Min(|data|, CAPACITY - w);
    forall i | 0 <= i < n + |data| ensures Ring(t, pos, n + |data|)[i] == (Ring(s, pos, n) + data)[i] {
      if i < n {
        var a := (pos + i) % CAPACITY;
        assert !(w <= a < w + first) && !(0 <= a < |data| - first);
      } else {
        var j := i - n;
        assert (pos + i) % CAPACITY == if j < first then w + j else j - first;
      }
    }
  }

  ghost predicate TableValid(pipes: seq<Pipe>)
    reads pipes
  {
    && |pipes| == MAX_PIPES
    && (forall i, j | 0 <= i < j < |pipes| :: pipes[i] != pipes[j] && pipes[i].buffer != pipes[j].buffer)
    && (forall i | 0 <= i < |pipes| :: pipes[i].Valid())
  }

  /** `createPipe`: the first slot not in use, if two file descriptions can be had. */
  method CreatePipe(pipes: seq<Pipe>, descriptions: nat) returns (made: Option<nat>)
    requires TableValid(pipes)
    modifies pipes
    ensures TableValid(pipes)
    ensures made.None? <==> descriptions < 2 || (forall i | 0 <= i < MAX_PIPES :: old(pipes[i].inUse))
    ensures forall i | 0 <= i < MAX_PIPES && made != Some(i) :: pipes[i].inUse == old(pipes[i].inUse)
    ensures forall i | 0 <= i < MAX_PIPES && old(pipes[i].inUse) :: pipes[i].State() == old(pipes[i].State())
    ensures made.Some? ==> made.value < MAX_PIPES && !old(pipes[made.value].inUse) && pipes[made.value].State() == FRESH
    ensures made.Some? ==> forall i | 0 <= i < made.value :: old(pipes[i].inUse)
  {
    var idx := 0;
    while idx < MAX_PIPES && pipes[idx].inUse
      invariant idx <= MAX_PIPES && forall i | 0 <= i < idx :: pipes[i].inUse
    {
      idx := idx + 1;
    }
    if idx == MAX_PIPES {
      return None;
    }
    pipes[idx].Initialize();
    if descriptions < 2 {
      pipes[idx].inUse := false;
      return None;
    }
    made := Some(idx);
  }
}
