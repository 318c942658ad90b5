/** Reads and writes of 512-byte sectors on an NVMe disk whose own sectors may be larger, one
    page at a time through a staging buffer. */
module NvmeDisk {
  import opened Bytes
  import opened Rings
  import opened CompletionRing
  import opened NvmeQueue

  const UNIT: nat := 512
  const IO_QUEUE_DEPTH: nat := 16
  /** The controller's answer to a command that reaches past the end. */
  const OUT_OF_RANGE: nat := 0x80

  type Size = ss: nat | ss == 512 || ss == 1024 || ss == 2048 || ss == 4096 witness 512

  function Down(a: nat, ss: Size): nat { a / ss * ss }

  function Up(a: nat, ss: Size): nat { (a + ss - 1) / ss * ss }

  // ---- One command ----

  function Lba(sector: nat, ss: Size): nat { sector * UNIT / ss }

  function Blocks(chunk: nat, ss: Size): nat { (chunk * UNIT + ss - 1) / ss }

  /** The bytes of the disk a command names: where they start and how many they are. */
  function From(cmd: Command, ss: Size): nat { cmd.lba * ss }

  function Extent(cmd: Command, ss: Size): nat { cmd.blocks * ss }

  predicate Reaches(cmd: Command, disk: seq<byte>, ss: Size) {
    From(cmd, ss) + Extent(cmd, ss) <= |disk|
  }

  /** A disk with `data` put at `at`. */
  function Splice(disk: seq<byte>, at: nat, data: seq<byte>): (r: seq<byte>)
    requires at + |data| <= |disk|
    ensures |r| == |disk|
  {
    disk[..at] + data + disk[at + |data|..]
  }

  /** Every command of a request starts a whole number of pages after the sector the request
      starts in. */
  lemma {:induction false} CommandPlace(sector: nat, pages: nat, ss: Size)
    ensures Lba(sector + 8 * pages, ss) * ss == Down(sector * UNIT, ss) + PAGE * pages
  {
    var a, w := sector * UNIT, PagesOf(ss);
    DivMod(a, ss);
    var q, r := a / ss, a % ss;
    calc {
      (sector + 8 * pages) * UNIT;
      q * ss + r + pages * PAGE;
      q * ss + r + pages * (w * ss);
      { Gather(q, pages, w, ss); }
      (q + pages * w) * ss + r;
    }
    QuotientOf((sector + 8 * pages) * UNIT, ss, q + pages * w, r);
    Gather(q, pages, w, ss);
  }

  lemma {:induction false} Gather(q: nat, p: nat, w: nat, n: nat)
    ensures (q + p * w) * n == q * n + p * (w * n)
  {
    assert (p * w) * n == p * (w * n);
  }

  /** Disk sectors to a page. */
  function PagesOf(ss: Size): (w: nat)
    ensures w * ss == PAGE
  {
    if ss == 512 then 8 else if ss == 1024 then 4 else if ss == 2048 then 2 else 1
  }

  /** No command exceeds the staging page. */
  lemma {:induction false} CommandFits(chunk: nat, ss: Size)
    requires 0 < chunk <= 8
    ensures Blocks(chunk, ss) * ss == Up(chunk * UNIT, ss)
    ensures chunk * UNIT <= Up(chunk * UNIT, ss) <= PAGE && 0 < Blocks(chunk, ss) <= 8
  {
    RoundUp(chunk * UNIT, ss, PagesOf(ss));
  }

  lemma {:induction false} RoundUp(x: nat, n: nat, w: nat)
    requires 0 < n && 0 < x <= w * n
    ensures x <= (x + n - 1) / n * n <= w * n && (x + n - 1) / n > 0
    ensures x % n == 0 ==> (x + n - 1) / n * n == x
  {
    var q := (x + n - 1) / n;
    DivMod(x + n - 1, n);
    if q > w {
      Multiples(w, q, n);
    }
    DivMod(x, n);
    if x % n == 0 {
      QuotientOf(x + n - 1, n, x / n, n - 1);
    }
  }

  /** Where the command for page `pages` of a request starts, and how far it reaches. */
  lemma {:induction false} CommandRange(cmd: Command, sector: nat, pages: nat, cur: nat, chunk: nat, ss: Size)
    requires 0 < chunk <= 8 && cur == sector + 8 * pages && cmd.lba == Lba(cur, ss) && cmd.blocks == Blocks(chunk, ss)
    ensures From(cmd, ss) == Down(sector * UNIT, ss) + PAGE * pages
    ensures Extent(cmd, ss) == Up(chunk * UNIT, ss) && chunk * UNIT <= Up(chunk * UNIT, ss) <= PAGE
  {
    CommandPlace(sector, pages, ss);
    CommandFits(chunk, ss);
  }

  class Controller {
    const queue: Queue
    const dma: array<byte>
    const ss: Size
    var disk: seq<byte>
    var cid: u16

    ghost predicate Valid()
      reads this, queue, queue.sq, queue.cq
    {
      queue.Valid() && queue.Idle() && dma.Length == PAGE && cid > 0
    }

    constructor (size: Size, contents: seq<byte>)
      ensures Valid() && ss == size && disk == contents && fresh(queue) && fresh(queue.sq)
        && fresh(queue.cq) && fresh(dma)
    {
      queue := new Queue(IO_QUEUE_DEPTH);
      dma := new byte[PAGE](_ => 0);
      ss, disk, cid := size, contents, 1;
    }

    /** The device's side of a command. */
    method Execute(cmd: Command) returns (status: nat)
      requires dma.Length == PAGE && Extent(cmd, ss) <= PAGE
      modifies `disk, dma
      ensures StatusOk(status) <==> Reaches(cmd, old(disk), ss)
      ensures !StatusOk(status) ==> disk == old(disk) && dma[..] == old(dma[..])
      ensures StatusOk(status) && !cmd.write ==>
        && disk == old(disk)
        && dma[..] == disk[From(cmd, ss)..From(cmd, ss) + Extent(cmd, ss)] + old(dma[..])[Extent(cmd, ss)..]
      ensures StatusOk(status) && cmd.write ==>
        dma[..] == old(dma[..]) && disk == Splice(old(disk), From(cmd, ss), dma[..Extent(cmd, ss)])
    {
      var at, n := From(cmd, ss), Extent(cmd, ss);
      hide From, Extent;
      if at + n > |disk| {
        return OUT_OF_RANGE;
      }
      if cmd.write {
        disk := disk[..at] + dma[..n] + disk[at + n..];
      } else {
        forall i | 0 <= i < n {
          dma[i] := disk[at + i];
        }
      }
      status := 0;
    }

    /** `submitIo` with a device that answers: the completion polled is the command's own. */
    method SubmitIo(cmd: Command) returns (ok: bool)
      requires Valid() && Extent(cmd, ss) <= PAGE
      modifies this, dma, queue, queue.sq, queue.cq
      ensures Valid() && cid == old(cid)
      ensures queue.sent == old(queue.sent) + [cmd] && |queue.produced| == |queue.sent|
      ensures queue.produced[|queue.produced| - 1].cid == cmd.cid
      ensures ok <==> Reaches(cmd, old(disk), ss)
      ensures !ok ==> disk == old(disk) && dma[..] == old(dma[..])
      ensures ok && !cmd.write ==>
        && disk == old(disk)
        && dma[..] == disk[From(cmd, ss)..From(cmd, ss) + Extent(cmd, ss)] + old(dma[..])[Extent(cmd, ss)..]
      ensures ok && cmd.write ==>
        dma[..] == old(dma[..]) && disk == Splice(old(disk), From(cmd, ss), dma[..Extent(cmd, ss)])
    {
      hide Lap, Tag, Slot, Holds, Splice, From, Extent;
      var sqAt, cqAt, bit := queue.sqTail, queue.cqHead, queue.phase;
      queue.Submit(cmd);
      var got := queue.DeviceFetch(sqAt);
      var status := Execute(got);
      queue.DeviceComplete(cqAt, bit, status);
      var entry, warned := queue.PollCompletion(cmd.cid);
      assert !warned;
      ok := StatusOk(entry.value.status);
    }

    method NextCid() returns (id: u16)
      requires cid > 0
      modifies `cid
      ensures id == old(cid) && cid > 0
    {
      id := cid;
      cid := (cid + 1) % WRAP;
      if cid == 0 {
        cid := 1;
      }
    }

    /** One turn of the loop in `readSectors`: the command for page `pages` of the request. */
    method ReadChunk(sector: nat, ghost pages: nat, cur: nat, chunk: nat) returns (ok: bool)
      requires Valid() && 0 < chunk <= 8 && cur == sector + 8 * pages
      modifies this, dma, queue, queue.sq, queue.cq
      ensures Valid() && disk == old(disk)
      ensures var at := Down(sector * UNIT, ss) + PAGE * pages;
        && (ok <==> at + Up(chunk * UNIT, ss) <= |disk|)
        && (ok ==> at + chunk * UNIT <= |disk| && dma[..chunk * UNIT] == disk[at..at + chunk * UNIT])
    {
      hide Lap, Tag, Slot, Holds, Down, Up, Lba, Blocks, From, Extent;
      var id := NextCid();
      var cmd := Command(id, false, Lba(cur, ss), Blocks(chunk, ss));
      CommandRange(cmd, sector, pages, cur, chunk, ss);
      ok := SubmitIo(cmd);
    }

    /** One turn of the loop in `writeSectors`. */
    method WriteChunk(sector: nat, ghost pages: nat, cur: nat, data: seq<byte>, chunk: nat) returns (ok: bool)
      requires Valid() && 0 < chunk <= 8 && |data| == chunk * UNIT && cur == sector + 8 * pages
      modifies this, dma, queue, queue.sq, queue.cq
      ensures Valid() && dma[..] == data + old(dma[..])[|data|..]
      ensures var at := Down(sector * UNIT, ss) + PAGE * pages;
        && (ok <==> at + Up(|data|, ss) <= |old(disk)|)
        && |data| <= Up(|data|, ss) <= PAGE
        && disk == if ok then Splice(old(disk), at, dma[..Up(|data|, ss)]) else old(disk)
    {
      hide Lap, Tag, Slot, Holds, Down, Up, Lba, Blocks, From, Extent, Splice;
      var id := NextCid();
      var cmd := Command(id, true, Lba(cur, ss), Blocks(chunk, ss));
      CommandRange(cmd, sector, pages, cur, chunk, ss);
      CopyIn(data);
      ok := SubmitIo(cmd);
    }

    method CopyIn(data: seq<byte>)
      requires |data| <= dma.Length
      modifies dma
      ensures dma[..] == data + old(dma[..])[|data|..]
    {
      forall i | 0 <= i < |data| {
        dma[i] := data[i];
      }
    }

    /** `readSectors`: the bytes from the start of the disk sector that holds the first one asked
        for; it goes through exactly when the disk reaches that far. */
    method ReadSectors(sector: nat, count: nat, buf: array<byte>) returns (ok: bool)
      requires Valid() && count * UNIT <= buf.Length && buf != dma
      modifies this, dma, queue, queue.sq, queue.cq, buf
      ensures Valid() && disk == old(disk)
      ensures ok <==> Within(disk, sector, count, ss)
      ensures ok ==> buf[..count * UNIT] == Found(disk, sector, count, ss)
      ensures buf[count * UNIT..] == old(buf[count * UNIT..])
    {
      var done := 0;
      ghost var pages, orig := 0, buf[..];
      hide Lap, Tag, Slot, Holds, Down, Up, SoFar, Within;
      NothingRead(orig, disk, sector, count, ss);
      while done < count
        invariant Valid() && disk == old(disk) && done <= count && (done < count ==> done == 8 * pages)
        invariant SoFar(buf[..], orig, disk, sector, done, count, ss)
        invariant done == count ==> Within(disk, sector, count, ss)
      {
        var chunk := if count - done < 8 then count - done else 8;
        LastPage(disk, sector, pages, chunk, count, ss);
        var good := ReadChunk(sector, pages, sector + done, chunk);
        if !good {
          return false;
        }
        ghost var before := buf[..];
        CopyOut(buf, done * UNIT, chunk * UNIT);
        ReadMore(before, buf[..], orig, dma[..], disk, sector, done, chunk, count, ss);
        done, pages := done + chunk, pages + 1;
      }
      AllRead(buf[..], orig, disk, sector, count, ss);
      ok := true;
    }

    /** `writeSectors`: the data goes where a read would look for it, followed up to the end of
        the last disk sector by whatever the staging page held. */
    method WriteSectors(sector: nat, data: seq<byte>, count: nat) returns (ok: bool)
      requires Valid() && |data| == count * UNIT
      modifies this, dma, queue, queue.sq, queue.cq
      ensures Valid()
      ensures ok <==> Within(old(disk), sector, count, ss)
      ensures ok ==> disk == After(old(disk), old(dma[..]), sector, data, ss)
      ensures !ok ==> exists pages: nat :: PagesDone(old(disk), disk, sector, data, pages, ss)
    {
      var done := 0;
      ghost var pages, disk0, dma0 := 0, disk, dma[..];
      assert |data| / UNIT == count && |data| % UNIT == 0;
      Unstarted(disk0, dma0, sector, data, ss);
      hide Lap, Tag, Slot, Holds, Down, Up, Splice, Within, PagesDone, After, Underway, Staged;
      while done < count
        invariant Valid() && done <= count && (done < count ==> done == 8 * pages)
        invariant Underway(disk0, disk, dma0, dma[..], sector, data, done, pages, ss)
      {
        var chunk := if count - done < 8 then count - done else 8;
        var good := WritePage(sector, data, done, chunk, pages, disk0, dma0);
        if !good {
          return false;
        }
        done, pages := done + chunk, pages + 1;
      }
      Finished(disk0, disk, dma0, dma[..], sector, data, done, pages, ss);
      ok := true;
    }

    method WritePage(sector: nat, data: seq<byte>, done: nat, chunk: nat, ghost pages: nat, ghost disk0: seq<byte>,
        ghost dma0: seq<byte>)
      returns (ok: bool)
      requires Valid() && |data| % UNIT == 0 && |dma0| == PAGE && done * UNIT < |data| && done == 8 * pages
      requires chunk == if |data| / UNIT - done < 8 then |data| / UNIT - done else 8
      requires Underway(disk0, disk, dma0, dma[..], sector, data, done, pages, ss)
      modifies this, dma, queue, queue.sq, queue.cq
      ensures Valid()
      ensures ok ==> Underway(disk0, disk, dma0, dma[..], sector, data, done + chunk, pages + 1, ss)
      ensures !ok ==> !Within(disk0, sector, |data| / UNIT, ss) && PagesDone(disk0, disk, sector, data, pages, ss)
    {
      hide Lap, Tag, Slot, Holds, Down, Up, Splice, Within, PagesDone, After, Underway, Staged;
      ghost var count, d, page := |data| / UNIT, disk, dma[..];
      LastPage(disk0, sector, pages, chunk, count, ss);
      Halfway(disk0, disk, dma0, page, sector, data, done, pages, ss);
      var piece := data[done * UNIT..(done + chunk) * UNIT];
      ok := WriteChunk(sector, pages, sector + done, piece, chunk);
      if ok {
        WriteMore(disk0, d, disk, dma0, page, dma[..], sector, data, piece, pages, chunk, ss);
      }
    }

    method CopyOut(buf: array<byte>, off: nat, n: nat)
      requires buf != dma && n <= dma.Length && off + n <= buf.Length
      modifies buf
      ensures buf[..] == old(buf[..])[..off] + dma[..n] + old(buf[..])[off + n..]
    {
      forall i | 0 <= i < n {
        buf[off + i] := dma[i];
      }
    }
  }

  /** A read that has done its first `done` sectors. */
  ghost predicate SoFar(buf: seq<byte>, orig: seq<byte>, disk: seq<byte>, sector: nat, done: nat, count: nat,
      ss: Size) {
    var at := Down(sector * UNIT, ss);
    && |buf| == |orig| && done <= count && count * UNIT <= |buf| && buf[count * UNIT..] == orig[count * UNIT..]
    && (done > 0 ==> at + done * UNIT <= |disk| && buf[..done * UNIT] == disk[at..at + done * UNIT])
  }

  lemma {:induction false} NothingRead(buf: seq<byte>, disk: seq<byte>, sector: nat, count: nat, ss: Size)
    requires count * UNIT <= |buf|
    ensures SoFar(buf, buf, disk, sector, 0, count, ss) && (count == 0 ==> Within(disk, sector, count, ss))
  {
  }

  lemma {:induction false} ReadMore(buf: seq<byte>, buf': seq<byte>, orig: seq<byte>, page: seq<byte>,
      disk: seq<byte>, sector: nat, done: nat, chunk: nat, count: nat, ss: Size)
    requires SoFar(buf, orig, disk, sector, done, count, ss) && done + chunk <= count && chunk * UNIT <= |page|
    requires buf' == buf[..done * UNIT] + page[..chunk * UNIT] + buf[done * UNIT + chunk * UNIT..]
    requires var at := Down(sector * UNIT, ss) + done * UNIT;
      at + chunk * UNIT <= |disk| && page[..chunk * UNIT] == disk[at..at + chunk * UNIT]
    ensures SoFar(buf', orig, disk, sector, done + chunk, count, ss)
  {
    var at := Down(sector * UNIT, ss);
    hide Down;
    Joined(buf, buf', page, disk, at, done * UNIT, chunk * UNIT, count * UNIT);
  }

  lemma {:induction false} Joined(buf: seq<byte>, buf': seq<byte>, page: seq<byte>, disk: seq<byte>, at: nat, n: nat,
      m: nat, total: nat)
    requires n + m <= total <= |buf| && m <= |page| && at + n + m <= |disk|
    requires buf' == buf[..n] + page[..m] + buf[n + m..]
    requires n > 0 ==> buf[..n] == disk[at..at + n]
    requires page[..m] == disk[at + n..at + n + m]
    ensures |buf'| == |buf| && buf'[total..] == buf[total..] && buf'[..n + m] == disk[at..at + n + m]
  {
    assert buf[..n] == disk[at..at + n];
    assert buf'[..n + m] == buf[..n] + page[..m];
    assert disk[at..at + n + m] == disk[at..at + n] + disk[at + n..at + n + m];
  }

  lemma {:induction false} AllRead(buf: seq<byte>, orig: seq<byte>, disk: seq<byte>, sector: nat, count: nat, ss: Size)
    requires SoFar(buf, orig, disk, sector, count, count, ss) && Within(disk, sector, count, ss)
    ensures buf[..count * UNIT] == Found(disk, sector, count, ss) && buf[count * UNIT..] == orig[count * UNIT..]
  {
    hide Down, Up;
  }

  /** A page past the end means a request past the end, and the last page decides. */
  lemma {:induction false} LastPage(disk: seq<byte>, sector: nat, pages: nat, chunk: nat, count: nat, ss: Size)
    requires 8 * pages < count && chunk == if count - 8 * pages < 8 then count - 8 * pages else 8
    ensures var fits := Down(sector * UNIT, ss) + PAGE * pages + Up(chunk * UNIT, ss) <= |disk|;
      && (!fits ==> !Within(disk, sector, count, ss))
      && (8 * pages + chunk == count ==> fits == Within(disk, sector, count, ss))
  {
    PagesUp(pages, chunk * UNIT, (count - 8 * pages) * UNIT, ss);
    hide Down, Up;
    assert PAGE * pages + (count - 8 * pages) * UNIT == count * UNIT;
  }

  /** The disk holds every disk sector a request touches. */
  predicate Within(disk: seq<byte>, sector: nat, count: nat, ss: Size) {
    count == 0 || Down(sector * UNIT, ss) + Up(count * UNIT, ss) <= |disk|
  }

  /** What a read finds. */
  function Found(disk: seq<byte>, sector: nat, count: nat, ss: Size): seq<byte>
    requires Within(disk, sector, count, ss)
  {
    UpBounds(count * UNIT, ss);
    var at := Down(sector * UNIT, ss);
    if count == 0 then [] else disk[at..at + count * UNIT]
  }

  lemma {:induction false} UpBounds(a: nat, ss: Size)
    ensures a <= Up(a, ss) < a + ss
  {
    DivMod(a + ss - 1, ss);
  }

  /** Whole pages come through rounding unchanged. */
  lemma {:induction false} PagesUp(pages: nat, chunk: nat, rest: nat, ss: Size)
    requires chunk == (if rest < PAGE then rest else PAGE)
    ensures Up(PAGE * pages + rest, ss) == PAGE * pages + Up(rest, ss)
    ensures Up(rest, ss) >= Up(chunk, ss)
  {
    PagesThrough(pages, rest, ss);
    if rest >= PAGE {
      UpBounds(rest, ss);
      RoundUp(PAGE, ss, PagesOf(ss));
    }
  }

  lemma {:induction false} PagesThrough(pages: nat, rest: nat, ss: Size)
    ensures Up(PAGE * pages + rest, ss) == PAGE * pages + Up(rest, ss)
  {
    var w, x := PagesOf(ss), rest + ss - 1;
    hide PagesOf;
    DivMod(x, ss);
    Gather(x / ss, pages, w, ss);
    QuotientOf(PAGE * pages + x, ss, x / ss + pages * w, x % ss);
  }

  // ---- Writes ----

  lemma {:induction false} SpliceTwice(disk: seq<byte>, at: nat, x: seq<byte>, y: seq<byte>)
    requires at + |x| + |y| <= |disk|
    ensures Splice(Splice(disk, at, x), at + |x|, y) == Splice(disk, at, x + y)
  {
  }

  /** The staging page once `pages` whole pages have gone through it. */
  function Staged(dma: seq<byte>, data: seq<byte>, pages: nat): seq<byte>
    requires PAGE * pages <= |data|
  {
    if pages == 0 then dma else data[PAGE * (pages - 1)..PAGE * pages]
  }

  /** The stale bytes that follow the data in its last disk sector. */
  function Pad(dma: seq<byte>, data: seq<byte>, ss: Size): (p: seq<byte>)
    requires |dma| == PAGE
    ensures |data| + |p| == Up(|data|, ss)
  {
    var pages, rest := |data| / PAGE, |data| % PAGE;
    PagesUp(pages, rest, rest, ss);
    UpFits(rest, ss);
    Staged(dma, data, pages)[rest..Up(rest, ss)]
  }

  lemma {:induction false} UpFits(a: nat, ss: Size)
    requires a <= PAGE
    ensures a <= Up(a, ss) <= PAGE
  {
    UpBounds(a, ss);
    if a > 0 {
      RoundUp(a, ss, PagesOf(ss));
    }
  }

  /** The disk after a write. */
  function After(disk: seq<byte>, dma: seq<byte>, sector: nat, data: seq<byte>, ss: Size): seq<byte>
    requires |dma| == PAGE && |data| % UNIT == 0 && Within(disk, sector, |data| / UNIT, ss)
  {
    if data == [] then disk
    else
      assert |data| / UNIT * UNIT == |data|;
      Splice(disk, Down(sector * UNIT, ss), data + Pad(dma, data, ss))
  }

  /** The disk with the first `pages` whole pages of the data written. */
  ghost predicate PagesDone(disk: seq<byte>, now: seq<byte>, sector: nat, data: seq<byte>, pages: nat, ss: Size) {
    var at := Down(sector * UNIT, ss);
    && PAGE * pages <= |data| && (pages > 0 ==> at + PAGE * pages <= |disk|)
    && now == if pages == 0 then disk else Splice(disk, at, data[..PAGE * pages])
  }

  /** A write that has done its first `done` sectors. */
  ghost predicate Underway(disk0: seq<byte>, disk: seq<byte>, dma0: seq<byte>, dma: seq<byte>, sector: nat,
      data: seq<byte>, done: nat, pages: nat, ss: Size)
    requires |dma0| == PAGE && |data| % UNIT == 0
  {
    if done * UNIT < |data| then PagesDone(disk0, disk, sector, data, pages, ss) && dma == Staged(dma0, data, pages)
    else Within(disk0, sector, |data| / UNIT, ss) && disk == After(disk0, dma0, sector, data, ss)
  }

  lemma {:induction false} Unstarted(disk: seq<byte>, dma: seq<byte>, sector: nat, data: seq<byte>, ss: Size)
    requires |dma| == PAGE && |data| % UNIT == 0
    ensures Underway(disk, disk, dma, dma, sector, data, 0, 0, ss)
  {
  }

  lemma {:induction false} Halfway(disk0: seq<byte>, disk: seq<byte>, dma0: seq<byte>, dma: seq<byte>, sector: nat,
      data: seq<byte>, done: nat, pages: nat, ss: Size)
    requires |dma0| == PAGE && |data| % UNIT == 0 && done * UNIT < |data|
    requires Underway(disk0, disk, dma0, dma, sector, data, done, pages, ss)
    ensures PAGE * pages <= |data| && PagesDone(disk0, disk, sector, data, pages, ss)
      && dma == Staged(dma0, data, pages) && |disk| == |disk0|
  {
    hide Down;
  }

  lemma {:induction false} Finished(disk0: seq<byte>, disk: seq<byte>, dma0: seq<byte>, dma: seq<byte>, sector: nat,
      data: seq<byte>, done: nat, pages: nat, ss: Size)
    requires |dma0| == PAGE && |data| % UNIT == 0 && done * UNIT >= |data|
    requires Underway(disk0, disk, dma0, dma, sector, data, done, pages, ss)
    ensures Within(disk0, sector, |data| / UNIT, ss) && disk == After(disk0, dma0, sector, data, ss)
  {
  }

  lemma {:induction false} WriteMore(disk0: seq<byte>, disk: seq<byte>, disk': seq<byte>, dma0: seq<byte>,
      dma: seq<byte>, dma': seq<byte>, sector: nat, data: seq<byte>, piece: seq<byte>, pages: nat, chunk: nat,
      ss: Size)
    requires |dma0| == PAGE && 0 < chunk <= 8 && PAGE * pages + chunk * UNIT <= |data| && |data| % UNIT == 0
    requires chunk < 8 ==> PAGE * pages + chunk * UNIT == |data|
    requires PagesDone(disk0, disk, sector, data, pages, ss) && dma == Staged(dma0, data, pages) && |dma| == PAGE
    requires piece == data[PAGE * pages..PAGE * pages + chunk * UNIT] && dma' == piece + dma[chunk * UNIT..]
    requires PAGE * pages + chunk * UNIT == |data| ==> Within(disk0, sector, |data| / UNIT, ss)
    requires var at := Down(sector * UNIT, ss) + PAGE * pages;
      && chunk * UNIT <= Up(chunk * UNIT, ss) <= PAGE && at + Up(chunk * UNIT, ss) <= |disk|
      && disk' == Splice(disk, at, dma'[..Up(chunk * UNIT, ss)])
    ensures Underway(disk0, disk', dma0, dma', sector, data, 8 * pages + chunk, pages + 1, ss)
  {
    var at, x, y := Down(sector * UNIT, ss), data[..PAGE * pages], dma'[..Up(chunk * UNIT, ss)];
    Extended(disk0, disk, disk', at, x, y, pages, sector, data, ss);
    if PAGE * pages + chunk * UNIT == |data| {
      PadIs(dma0, dma, data, pages, chunk, ss);
      hide *;
      LastPiece(disk0, disk', dma0, dma, dma', sector, data, piece, pages, chunk, ss, at, x, y);
    } else {
      RoundUp(PAGE, ss, PagesOf(ss));
      assert Up(PAGE, ss) == PAGE;
      hide *;
      WholePage(disk0, disk', dma0, dma, dma', sector, data, piece, pages, ss, at, x, y);
    }
  }

  lemma {:induction false} LastPiece(disk0: seq<byte>, disk': seq<byte>, dma0: seq<byte>, dma: seq<byte>,
      dma': seq<byte>, sector: nat, data: seq<byte>, piece: seq<byte>, pages: nat, chunk: nat, ss: Size, at: nat,
      x: seq<byte>, y: seq<byte>)
    requires |dma0| == PAGE == |dma| && 0 < chunk <= 8 && PAGE * pages + chunk * UNIT == |data| && |data| % UNIT == 0
    requires at == Down(sector * UNIT, ss) && x == data[..PAGE * pages] && chunk * UNIT <= Up(chunk * UNIT, ss) <= PAGE
    requires piece == data[PAGE * pages..PAGE * pages + chunk * UNIT] && dma' == piece + dma[chunk * UNIT..]
      && y == dma'[..Up(chunk * UNIT, ss)]
    requires Pad(dma0, data, ss) == dma[chunk * UNIT..Up(chunk * UNIT, ss)]
    requires at + |x + y| <= |disk0| && disk' == Splice(disk0, at, x + y) && Within(disk0, sector, |data| / UNIT, ss)
    ensures Underway(disk0, disk', dma0, dma', sector, data, 8 * pages + chunk, pages + 1, ss)
  {
    hide Down, Up, Splice, Pad, Within, PagesDone, Staged;
    assert x + piece == data;
    assert y == piece + dma[chunk * UNIT..Up(chunk * UNIT, ss)];
    assert x + y == data + Pad(dma0, data, ss);
  }

  lemma {:induction false} WholePage(disk0: seq<byte>, disk': seq<byte>, dma0: seq<byte>, dma: seq<byte>,
      dma': seq<byte>, sector: nat, data: seq<byte>, piece: seq<byte>, pages: nat, ss: Size, at: nat, x: seq<byte>,
      y: seq<byte>)
    requires |dma0| == PAGE == |dma| && PAGE * pages + PAGE < |data| && |data| % UNIT == 0
    requires at == Down(sector * UNIT, ss) && x == data[..PAGE * pages]
    requires piece == data[PAGE * pages..PAGE * pages + PAGE] && dma' == piece + dma[PAGE..] && y == dma'[..PAGE]
    requires at + |x + y| <= |disk0| && disk' == Splice(disk0, at, x + y)
    ensures Underway(disk0, disk', dma0, dma', sector, data, 8 * pages + 8, pages + 1, ss)
  {
    hide Down, Splice, Within, After;
    assert dma' == piece && y == piece;
    assert x + y == data[..PAGE * (pages + 1)];
  }

  lemma {:induction false} Extended(disk0: seq<byte>, disk: seq<byte>, disk': seq<byte>, at: nat, x: seq<byte>,
      y: seq<byte>, pages: nat, sector: nat, data: seq<byte>, ss: Size)
    requires PagesDone(disk0, disk, sector, data, pages, ss) && at == Down(sector * UNIT, ss)
      && x == data[..PAGE * pages]
    requires at + PAGE * pages + |y| <= |disk| && disk' == Splice(disk, at + PAGE * pages, y)
    ensures |disk| == |disk0| && at + |x + y| <= |disk0| && disk' == Splice(disk0, at, x + y)
  {
    hide Down;
    if pages == 0 {
      assert x + y == y;
    } else {
      SpliceTwice(disk0, at, x, y);
    }
  }

  lemma {:induction false} PadIs(dma0: seq<byte>, dma: seq<byte>, data: seq<byte>, pages: nat, chunk: nat, ss: Size)
    requires |dma0| == PAGE == |dma| && 0 < chunk <= 8 && PAGE * pages + chunk * UNIT == |data|
      && dma == Staged(dma0, data, pages)
    requires chunk * UNIT <= Up(chunk * UNIT, ss) <= PAGE
    ensures Pad(dma0, data, ss) == dma[chunk * UNIT..Up(chunk * UNIT, ss)]
  {
    if chunk == 8 {
      RoundUp(PAGE, ss, PagesOf(ss));
      assert |data| % PAGE == 0 && Up(0, ss) == 0;
    } else {
      assert |data| / PAGE == pages && |data| % PAGE == chunk * UNIT;
    }
  }

  // ---- What the two promise ----

  /** A read of the range just written returns the data, for every request the disk reaches. */
  lemma {:induction false} WriteThenRead(disk: seq<byte>, dma: seq<byte>, sector: nat, data: seq<byte>, ss: Size)
    requires |dma| == PAGE && |data| % UNIT == 0 && Within(disk, sector, |data| / UNIT, ss)
    ensures var disk' := After(disk, dma, sector, data, ss);
      Within(disk', sector, |data| / UNIT, ss) && Found(disk', sector, |data| / UNIT, ss) == data
  {
    if data != [] {
      var at, pad := Down(sector * UNIT, ss), Pad(dma, data, ss);
      assert |data| / UNIT * UNIT == |data|;
      hide Down, Up, Pad;
      assert Splice(disk, at, data + pad)[at..at + |data|] == data;
    }
  }

  lemma {:induction false} DownExact(a: nat, ss: Size)
    ensures Down(a, ss) <= a && (Down(a, ss) == a <==> a % ss == 0)
  {
    DivMod(a, ss);
  }

  lemma {:induction false} UpExact(a: nat, ss: Size)
    ensures Up(a, ss) == a <==> a % ss == 0
  {
    DivMod(a, ss);
    UpBounds(a, ss);
    if a % ss == 0 {
      QuotientOf(a + ss - 1, ss, a / ss, ss - 1);
    } else {
      NotMultiple((a + ss - 1) / ss, a, ss);
    }
  }

  lemma {:induction false} NotMultiple(p: nat, a: nat, n: nat)
    requires n > 0 && a % n != 0
    ensures p * n != a
  {
    if p * n == a {
      QuotientOf(a, n, p, 0);
    }
  }

  /** A read returns the range asked for, whatever the disk holds, exactly when the range starts
      on a disk sector. */
  lemma {:induction false} ReadExactIff(n: nat, sector: nat, count: nat, ss: Size)
    requires count > 0 && Down(sector * UNIT, ss) + Up(count * UNIT, ss) <= n && (sector + count) * UNIT <= n
    ensures (forall disk: seq<byte> | |disk| == n ::
        Found(disk, sector, count, ss) == disk[sector * UNIT..(sector + count) * UNIT])
      <==> sector * UNIT % ss == 0
  {
    var at, start := Down(sector * UNIT, ss), sector * UNIT;
    DownExact(start, ss);
    UpBounds(count * UNIT, ss);
    if at < start {
      var disk := seq<byte>(n, i => if i == at then 1 else 0);
      var got := Found(disk, sector, count, ss);
      assert got[0] == 1 && disk[start..(sector + count) * UNIT][0] == 0;
    }
  }

  /** A write changes the range asked for and nothing else, whatever disk and staging page hold,
      exactly when the range starts and ends on disk sectors. */
  lemma {:induction false} WriteExactIff(n: nat, sector: nat, count: nat, ss: Size)
    requires count > 0 && Down(sector * UNIT, ss) + Up(count * UNIT, ss) <= n && (sector + count) * UNIT <= n
    ensures (forall disk: seq<byte>, dma: seq<byte>, data: seq<byte>
        | |disk| == n && |dma| == PAGE && |data| == count * UNIT ::
        After(disk, dma, sector, data, ss) == Splice(disk, sector * UNIT, data))
      <==> sector * UNIT % ss == 0 && count * UNIT % ss == 0
  {
    var start, len := sector * UNIT, count * UNIT;
    if start % ss == 0 && len % ss == 0 {
      forall disk: seq<byte>, dma: seq<byte>, data: seq<byte> | |disk| == n && |dma| == PAGE && |data| == len
        ensures After(disk, dma, sector, data, ss) == Splice(disk, start, data)
      {
        AlignedWrite(disk, dma, sector, data, ss);
      }
    } else {
      var disk, dma, data := seq<byte>(n, _ => 0), seq<byte>(PAGE, _ => 1), seq<byte>(len, _ => 1);
      Spills(disk, dma, sector, data, ss);
      assert After(disk, dma, sector, data, ss) != Splice(disk, start, data);
    }
  }

  lemma {:induction false} AlignedWrite(disk: seq<byte>, dma: seq<byte>, sector: nat, data: seq<byte>, ss: Size)
    requires |dma| == PAGE && |data| % UNIT == 0 && Within(disk, sector, |data| / UNIT, ss)
    requires sector * UNIT % ss == 0 && |data| % ss == 0 && sector * UNIT + |data| <= |disk|
    ensures After(disk, dma, sector, data, ss) == Splice(disk, sector * UNIT, data)
  {
    DownExact(sector * UNIT, ss);
    UpExact(|data|, ss);
    hide Down, Up;
    assert data + Pad(dma, data, ss) == data;
  }

  /** Ones written to a disk of zeros through a page of ones. */
  lemma {:induction false} Spills(disk: seq<byte>, dma: seq<byte>, sector: nat, data: seq<byte>, ss: Size)
    requires |dma| == PAGE && |data| % UNIT == 0 && data != [] && Within(disk, sector, |data| / UNIT, ss)
    requires sector * UNIT + |data| <= |disk| && !(sector * UNIT % ss == 0 && |data| % ss == 0)
    requires (forall i | 0 <= i < |disk| :: disk[i] == 0) && (forall i | 0 <= i < PAGE :: dma[i] == 1)
    requires (forall i | 0 <= i < |data| :: data[i] == 1)
    ensures After(disk, dma, sector, data, ss) != Splice(disk, sector * UNIT, data)
  {
    var at, start, pad := Down(sector * UNIT, ss), sector * UNIT, Pad(dma, data, ss);
    var got, want := After(disk, dma, sector, data, ss), Splice(disk, start, data);
    DownExact(start, ss);
    UpExact(|data|, ss);
    PadOnes(dma, data, ss);
    hide Down, Up, Pad;
    if at < start {
      assert got[at] == 1 && want[at] == 0;
    } else {
      assert |pad| > 0 && got[start + |data|] == pad[0] == 1 && want[start + |data|] == 0;
    }
  }

  lemma {:induction false} PadOnes(dma: seq<byte>, data: seq<byte>, ss: Size)
    requires |dma| == PAGE && (forall i | 0 <= i < PAGE :: dma[i] == 1) && (forall i | 0 <= i < |data| :: data[i] == 1)
    ensures forall i | 0 <= i < |Pad(dma, data, ss)| :: Pad(dma, data, ss)[i] == 1
  {
    var rest := |data| % PAGE;
    UpFits(rest, ss);
    var page := Staged(dma, data, |data| / PAGE);
    assert forall i | 0 <= i < PAGE :: page[i] == 1;
    hide Up, Staged;
    assert Pad(dma, data, ss) == page[rest..Up(rest, ss)];
  }
}
