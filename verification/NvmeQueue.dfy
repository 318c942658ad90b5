/** An NVMe queue pair as the driver uses it: one command submitted, one completion polled. */
module NvmeQueue {
  import opened Bytes
  import opened Rings
  import opened CompletionRing

  /** The fields of a submission entry that the driver sets for reads and writes. */
  datatype Command = Command(cid: u16, write: bool, lba: nat, blocks: nat)

  /** The status field without its phase bit. */
  datatype Completion = Completion(cid: u16, status: nat)

  predicate StatusOk(status: nat) {
    status % 0x100 == 0 && (status / 0x100) % 8 == 0
  }

  class Queue {
    const depth: nat
    const sq: array<Command>
    const cq: array<Entry<Completion>>
    var sqTail: nat
    var cqHead: nat
    var phase: bool

    /** Every command submitted, how many the device has executed, every completion it has
        written and how many the driver has taken. */
    ghost var sent: seq<Command>
    ghost var executed: nat
    ghost var produced: seq<Completion>
    ghost var consumed: nat

    ghost predicate Valid()
      reads this, sq, cq
    {
      && 0 < depth && sq.Length == depth && cq.Length == depth
      && Holds(sq[..], sent, executed) && sqTail == Slot(|sent|, depth)
      && Lap(cq[..], produced, consumed) && cqHead == Slot(consumed, depth) && phase == Tag(consumed, depth)
      && executed == |produced|
    }

    /** No command is under way. */
    ghost predicate Idle()
      reads this
    {
      |sent| == executed == |produced| == consumed
    }

    /** A queue over zeroed pages: the driver's phase starts at 1. */
    constructor (n: nat)
      requires n > 0
      ensures Valid() && Idle() && depth == n && fresh(sq) && fresh(cq)
    {
      depth := n;
      sq := new Command[n](_ => Command(0, false, 0, 0));
      cq := new Entry<Completion>[n](_ => Entry(false, Completion(0, 0)));
      sqTail, cqHead, phase := 0, 0, true;
      sent, executed, produced, consumed := [], 0, [], 0;
      new;
      Blank(cq[..]);
      QuotientOf(0, n, 0, 0);
    }

    method Submit(cmd: Command)
      requires Valid() && |sent| < executed + depth
      modifies `sqTail, sq, `sent
      ensures Valid() && sent == old(sent) + [cmd]
    {
      hide Lap, Tag, Slot;
      ghost var ring := sq[..];
      HoldsMore(ring, sent, executed, cmd);
      NextPlace(|sent|, depth);
      hide Holds;
      sq[sqTail] := cmd;
      assert sq[..] == ring[Slot(|sent|, depth) := cmd];
      sqTail := sqTail + 1;
      if sqTail >= depth {
        sqTail := 0;
      }
      sent := sent + [cmd];
    }

    /** The device reads the next command. */
    method DeviceFetch(position: nat) returns (cmd: Command)
      requires Valid() && executed < |sent| && position == Slot(executed, depth)
      ensures cmd == sent[executed]
    {
      hide Slot;
      cmd := sq[position];
    }

    /** The device answers it, with the bit of the lap it is on. */
    method DeviceComplete(position: nat, bit: bool, status: nat)
      requires Valid() && executed < |sent| && |produced| < consumed + depth
      requires position == Slot(|produced|, depth) && bit == Tag(|produced|, depth)
      modifies cq, `produced, `executed
      ensures Valid() && executed == old(executed) + 1
      ensures produced == old(produced) + [Completion(sent[old(executed)].cid, status)]
    {
      hide Tag, Slot;
      ghost var ring := cq[..];
      var done := Completion(sq[position].cid, status);
      assert Slot(executed, depth) == position && sq[position] == sent[executed];
      Produced(ring, produced, consumed, done);
      hide Lap;
      cq[position] := Entry(bit, done);
      assert cq[..] == Written(ring, |produced|, done);
      produced, executed := produced + [done], executed + 1;
    }

    /** `pollCompletion`: one look at the head, with the warning it gives on a foreign id. */
    method PollCompletion(expected: u16) returns (entry: Option<Completion>, warned: bool)
      requires Valid()
      modifies `cqHead, `phase, `consumed
      ensures Valid()
      ensures entry.None? <==> old(consumed) == |produced|
      ensures entry.None? ==> consumed == old(consumed) && !warned
      ensures entry.Some? ==> entry.value == produced[old(consumed)] && consumed == old(consumed) + 1
      ensures entry.Some? ==> warned == (entry.value.cid != expected)
    {
      hide Tag, Slot;
      NewIff(cq[..], produced, consumed);
      NextPlace(consumed, depth);
      var e := cq[cqHead];
      if e.tag != phase {
        return None, false;
      }
      Consumed(cq[..], produced, consumed);
      hide Lap;
      cqHead := cqHead + 1;
      if cqHead >= depth {
        cqHead := 0;
        phase := !phase;
      }
      consumed := consumed + 1;
      entry, warned := Some(e.value), e.value.cid != expected;
    }
  }
}
