/** Loading the kernel, from the file to what the processor sees at its virtual addresses. */
module KernelLoad {
  import opened Bytes
  import Elf
  import opened Paging

  /** The result of a successful parse. */
  ghost predicate FromParse(data: seq<byte>, p: Elf.Parsed) {
    && Elf.Acceptable(data) && p.segments == Elf.Loads(data, Elf.Count(data))
    && Elf.Bounds(p.segments, p.virtBase, p.virtEnd)
    && p.physBase == Elf.PHYS_BASE && p.physEnd == Elf.AlignUp(Elf.PHYS_BASE + (p.virtEnd - p.virtBase))
  }

  function Asked(p: Elf.Parsed, ram: nat): Request
    requires p.physBase <= p.physEnd
  {
    Request(ram, p.virtBase, p.physBase, p.physEnd - p.physBase)
  }

  /** The kernel's physical range is as long as its virtual one. */
  lemma {:induction false} SameLength(data: seq<byte>, p: Elf.Parsed)
    requires FromParse(data, p)
    ensures p.virtBase <= p.virtEnd && p.physEnd - p.physBase == p.virtEnd - p.virtBase
  {
    hide Elf.Bounds, Elf.AlignUp, Elf.Acceptable, Elf.Loads;
    Elf.BoundsOrder(p.segments, p.virtBase, p.virtEnd);
    Elf.Aligned(Elf.PHYS_BASE + (p.virtEnd - p.virtBase));
  }

  /** Each segment lies in the virtual range. */
  lemma {:induction false} InRange(p: Elf.Parsed, i: nat)
    requires Elf.Bounds(p.segments, p.virtBase, p.virtEnd) && i < |p.segments|
    ensures var s := p.segments[i];
      p.virtBase <= s.vaddr && s.vaddr + s.memsz <= p.virtEnd
  {
    var s := p.segments[i];
    Elf.Aligned(s.vaddr);
    Elf.Aligned(s.vaddr + s.memsz);
    hide Elf.AlignDown, Elf.AlignUp;
  }

  /** Segments that do not overlap stay in the kernel's range. */
  lemma {:induction false} AllWithin(data: seq<byte>, p: Elf.Parsed)
    requires FromParse(data, p) && Elf.Apart(p.segments)
    ensures Elf.Within(p)
  {
    hide Elf.Acceptable, Elf.Loads, Elf.Bounds, Elf.AlignUp;
    SameLength(data, p);
    forall i | 0 <= i < |p.segments|
      ensures p.virtBase <= p.segments[i].vaddr && Elf.Place(p, p.segments[i].vaddr) + p.segments[i].filesz <= p.physEnd
    {
      InRange(p, i);
    }
  }

  /** The kernel is linked at a multiple of 1 GiB in the topmost slot and fits the window. */
  predicate Linked(p: Elf.Parsed) {
    TOP - SLOT <= p.virtBase && p.virtBase % GB == 0 && p.virtEnd <= TOP && p.virtEnd - p.virtBase <= GB
  }

  /** The processor reads `b` at virtual address `v`. */
  predicate Reads(t: Tables, v: nat, b: byte) {
    var a := Walk(t, v);
    a.Some? && a.value < |t.mem| && t.mem[a.value] == b
  }

  /** Byte `k` of segment `i`: the file's, or zero past the file's part. */
  function Wanted(data: seq<byte>, p: Elf.Parsed, i: nat, k: nat): byte
    requires i < |p.segments|
  {
    if k < p.segments[i].filesz then At(data, p.segments[i].offset + k) else 0
  }

  predicate SeesByte(data: seq<byte>, p: Elf.Parsed, t: Tables, i: nat, k: nat)
    requires i < |p.segments|
  {
    Reads(t, p.segments[i].vaddr + k, Wanted(data, p, i, k))
  }

  /** At every address of every segment the processor reads the segment's byte. */
  ghost predicate SeesKernel(data: seq<byte>, p: Elf.Parsed, t: Tables) {
    forall i, k: nat | 0 <= i < |p.segments| && k < p.segments[i].memsz :: SeesByte(data, p, t, i, k)
  }

  // ---- Tables and kernel in one memory ----

  /** The table pages lie outside the kernel's range. */
  predicate TablesClear(p: Elf.Parsed, base: nat) {
    base + 8 * PAGE <= p.physBase || p.physEnd <= base
  }

  predicate InTables(base: nat, a: nat) { base <= a < base + 8 * PAGE }

  /** The byte of the finished tables at address `a`. */
  function TableByte(base: nat, r: Request, a: nat): byte
    requires Fits(base, r) && InTables(base, a)
  {
    Digit(Word(base, r, (a - base) / 8), (a - base) % 8)
  }

  /** Byte `k` of segment `i` does not lie under the tables, or equals the byte they put there. */
  predicate Spared(data: seq<byte>, p: Elf.Parsed, base: nat, r: Request, i: nat, k: nat)
    requires Fits(base, r) && i < |p.segments| && p.virtBase <= p.segments[i].vaddr
  {
    var a := Elf.Place(p, p.segments[i].vaddr + k);
    InTables(base, a) ==> TableByte(base, r, a) == Wanted(data, p, i, k)
  }

  ghost predicate AllSpared(data: seq<byte>, p: Elf.Parsed, base: nat, r: Request)
    requires Fits(base, r)
  {
    forall i, k: nat | 0 <= i < |p.segments| && k < p.segments[i].memsz ::
      p.virtBase <= p.segments[i].vaddr && Spared(data, p, base, r, i, k)
  }

  lemma {:induction false} BuiltFits(mem: seq<byte>, base: nat, r: Request)
    requires Built(mem, base, r)
    ensures Fits(base, r) && base + 8 * PAGE <= |mem|
  {
  }

  lemma {:induction false} BuiltByte(mem: seq<byte>, base: nat, r: Request, a: nat)
    requires Built(mem, base, r) && InTables(base, a)
    ensures a < |mem| && mem[a] == TableByte(base, r, a)
  {
    hide Word, Digit, U64At;
    var i, j := (a - base) / 8, (a - base) % 8;
    assert a == base + 8 * i + j;
    assert Words(mem, base)[i] == U64At(mem, base + 8 * i);
    WordBytes(mem, base + 8 * i, j);
  }

  /** Phase 2 of the loader: segments from the file buffer at `at`, then tables at `base`, all in
      one memory. The processor sees the kernel exactly when the tables spare it. */
  method Load(mem: array<byte>, at: nat, ghost len: nat, p: Elf.Parsed, base: nat, ram: nat)
    requires Elf.Placeable(p, at, len, mem.Length) && FromParse(mem[at..at + len], p)
    requires base + 8 * PAGE <= mem.Length && Fits(base, Asked(p, ram))
    modifies mem
    ensures Built(mem[..], base, Asked(p, ram))
    ensures OnlyTables(Elf.Placed(p, at, len, old(mem[..]), |p.segments|), mem[..], base)
    ensures Linked(p) && Elf.Apart(p.segments) && Elf.SourcesClear(p, at) ==>
      (SeesKernel(old(mem[at..at + len]), p, Tables(base, mem[..])) <==>
        AllSpared(old(mem[at..at + len]), p, base, Asked(p, ram)))
    ensures Linked(p) && Elf.Apart(p.segments) && Elf.SourcesClear(p, at) && TablesClear(p, base) ==>
      SeesKernel(old(mem[at..at + len]), p, Tables(base, mem[..]))
  {
    hide Elf.Filled, Built, FromParse, Elf.Apart, Linked, SeesKernel, Fits, AllSpared, Elf.Within, Elf.SourcesClear;
    hide Elf.Placed, OnlyTables, TablesClear;
    ghost var before, data := mem[..], mem[at..at + len];
    assert before[at..at + len] == data;
    Elf.PlaceSegments(p, at, len, mem);
    ghost var placed := mem[..];
    Setup(mem, base, Asked(p, ram));
    if Linked(p) && Elf.Apart(p.segments) && Elf.SourcesClear(p, at) {
      AllWithin(data, p);
      KernelSeenIff(data, p, before, placed, mem[..], base, ram);
      if TablesClear(p, base) {
        ClearSpares(data, p, base, ram);
      }
    }
  }

  lemma {:induction false} KernelSeenIff(data: seq<byte>, p: Elf.Parsed, before: seq<byte>, placed: seq<byte>,
      mem: seq<byte>, base: nat, ram: nat)
    requires FromParse(data, p) && Linked(p) && Elf.Apart(p.segments) && p.physBase <= p.physEnd <= |mem|
    requires Elf.Filled(p, data, |p.segments|, before, placed)
    requires Built(mem, base, Asked(p, ram)) && OnlyTables(placed, mem, base)
    ensures Fits(base, Asked(p, ram))
    ensures SeesKernel(data, p, Tables(base, mem)) <==> AllSpared(data, p, base, Asked(p, ram))
  {
    hide Elf.Filled, FromParse, Elf.Apart, Linked, SeesByte, Fits, OnlyTables, Spared, Built;
    BuiltFits(mem, base, Asked(p, ram));
    forall i, k: nat | 0 <= i < |p.segments| && k < p.segments[i].memsz
      ensures p.virtBase <= p.segments[i].vaddr
        && (SeesByte(data, p, Tables(base, mem), i, k) <==> Spared(data, p, base, Asked(p, ram), i, k))
    {
      ByteSeenIff(data, p, before, placed, mem, base, ram, i, k);
    }
  }

  /** Where the processor's address for byte `k` of segment `i` leads. */
  lemma {:induction false} ByteReached(data: seq<byte>, p: Elf.Parsed, mem: seq<byte>, base: nat, ram: nat,
      i: nat, k: nat)
    requires FromParse(data, p) && Linked(p) && p.physBase <= p.physEnd && Built(mem, base, Asked(p, ram))
    requires i < |p.segments| && k < p.segments[i].memsz
    ensures var v := p.segments[i].vaddr + k;
      && p.virtBase <= p.segments[i].vaddr && p.physBase <= Elf.Place(p, v) < p.physEnd
      && Walk(Tables(base, mem), v) == Some(Elf.Place(p, v))
  {
    hide Built, Elf.Acceptable, Elf.Loads, Walk, Elf.Bounds, Elf.AlignUp;
    var off := p.segments[i].vaddr + k - p.virtBase;
    SameLength(data, p);
    InRange(p, i);
    AlignedReaches(mem, base, Asked(p, ram), off);
  }

  lemma {:induction false} ByteSeenIff(data: seq<byte>, p: Elf.Parsed, before: seq<byte>, placed: seq<byte>,
      mem: seq<byte>, base: nat, ram: nat, i: nat, k: nat)
    requires FromParse(data, p) && Linked(p) && Elf.Apart(p.segments) && p.physBase <= p.physEnd <= |mem|
    requires Elf.Filled(p, data, |p.segments|, before, placed)
    requires Built(mem, base, Asked(p, ram)) && OnlyTables(placed, mem, base)
    requires i < |p.segments| && k < p.segments[i].memsz
    ensures Fits(base, Asked(p, ram)) && p.virtBase <= p.segments[i].vaddr
    ensures SeesByte(data, p, Tables(base, mem), i, k) <==> Spared(data, p, base, Asked(p, ram), i, k)
  {
    hide Built, FromParse, Fits, Linked, Elf.Apart, Walk, TableByte, Elf.Filled, OnlyTables, Wanted, Asked;
    BuiltFits(mem, base, Asked(p, ram));
    ByteReached(data, p, mem, base, ram, i, k);
    var a := Elf.Place(p, p.segments[i].vaddr + k);
    if InTables(base, a) {
      BuiltByte(mem, base, Asked(p, ram), a);
    } else {
      Untouched(placed, mem, base, a);
      PlacedByte(data, p, before, placed, i, k);
    }
  }

  lemma {:induction false} Untouched(placed: seq<byte>, mem: seq<byte>, base: nat, a: nat)
    requires OnlyTables(placed, mem, base) && !InTables(base, a) && a < |mem|
    ensures |placed| == |mem| && mem[a] == placed[a]
  {
    assert At(mem, a) == At(placed, a);
  }

  /** Before the tables are built, the byte of the segment is at its place. */
  lemma {:induction false} PlacedByte(data: seq<byte>, p: Elf.Parsed, before: seq<byte>, placed: seq<byte>,
      i: nat, k: nat)
    requires Elf.Filled(p, data, |p.segments|, before, placed) && Elf.Apart(p.segments)
    requires i < |p.segments| && k < p.segments[i].memsz && p.virtBase <= p.segments[i].vaddr
    requires p.physBase <= Elf.Place(p, p.segments[i].vaddr + k) < p.physEnd <= |placed|
    ensures placed[Elf.Place(p, p.segments[i].vaddr + k)] == Wanted(data, p, i, k)
  {
    hide Elf.Apart, Elf.FileByte, At;
    Elf.OwnBytes(data, p.segments, i, k);
    assert p.segments[..|p.segments|] == p.segments;
    var a := Elf.Place(p, p.segments[i].vaddr + k);
    assert placed[a] == Elf.Content(p, data, |p.segments|, before, a);
  }

  lemma {:induction false} ClearSpares(data: seq<byte>, p: Elf.Parsed, base: nat, ram: nat)
    requires FromParse(data, p) && p.physBase <= p.physEnd && Fits(base, Asked(p, ram)) && TablesClear(p, base)
    ensures AllSpared(data, p, base, Asked(p, ram))
  {
    hide FromParse, Fits, TablesClear, Spared;
    forall i, k: nat | 0 <= i < |p.segments| && k < p.segments[i].memsz
      ensures p.virtBase <= p.segments[i].vaddr && Spared(data, p, base, Asked(p, ram), i, k)
    {
      ClearByte(data, p, base, ram, i, k);
    }
  }

  lemma {:induction false} ClearByte(data: seq<byte>, p: Elf.Parsed, base: nat, ram: nat, i: nat, k: nat)
    requires FromParse(data, p) && p.physBase <= p.physEnd && Fits(base, Asked(p, ram)) && TablesClear(p, base)
    requires i < |p.segments| && k < p.segments[i].memsz
    ensures p.virtBase <= p.segments[i].vaddr && Spared(data, p, base, Asked(p, ram), i, k)
  {
    hide Elf.Acceptable, Elf.Loads, Elf.Bounds, Elf.AlignUp, Fits, TableByte, Wanted;
    SameLength(data, p);
    InRange(p, i);
  }

  // ---- Memory that is shared ----

  /** Tables on the kernel's own first page are what the processor reads there: the first byte of
      the kernel reads as the flags of the first entry, whatever the file holds. */
  lemma {:induction false} TablesOnKernel(data: seq<byte>, p: Elf.Parsed, mem: seq<byte>, ram: nat, i: nat)
    requires FromParse(data, p) && Linked(p) && p.physBase <= p.physEnd
    requires Built(mem, p.physBase, Asked(p, ram)) && i < |p.segments| && p.segments[i].vaddr == p.virtBase
    requires p.segments[i].memsz > 0
    ensures Reads(Tables(p.physBase, mem), p.virtBase, 3)
    ensures Wanted(data, p, i, 0) != 3 ==> !SeesKernel(data, p, Tables(p.physBase, mem))
  {
    var base := p.physBase;
    assert Fits(base, Asked(p, ram)) && Word(base, Asked(p, ram), 0) == base + PAGE + 3;
    hide Built, FromParse, Linked, Walk;
    ByteReached(data, p, mem, base, ram, i, 0);
    BuiltByte(mem, base, Asked(p, ram), base);
    LowByte(base);
    if Wanted(data, p, i, 0) != 3 {
      assert !SeesByte(data, p, Tables(base, mem), i, 0);
    }
  }

  lemma {:induction false} LowByte(base: nat)
    requires base % PAGE == 0
    ensures Digit(base + PAGE + 3, 0) == 3
  {
    var q := base / PAGE;
    assert base == 0x100 * (0x10 * q);
  }

  /** A file buffer inside the kernel's range is gone before it is copied: outside the tables the
      processor reads zeros. */
  lemma {:induction false} BufferOnKernel(data: seq<byte>, p: Elf.Parsed, at: nat, len: nat, before: seq<byte>,
      mem: seq<byte>, base: nat, ram: nat, i: nat, k: nat)
    requires Elf.Placeable(p, at, len, |before|) && data == before[at..at + len] && FromParse(data, p) && Linked(p)
    requires p.physBase <= at && at + len <= p.physEnd && TablesClear(p, base)
    requires Built(mem, base, Asked(p, ram))
    requires OnlyTables(Elf.Placed(p, at, len, before, |p.segments|), mem, base)
    requires i < |p.segments| && k < p.segments[i].memsz
    ensures Reads(Tables(base, mem), p.segments[i].vaddr + k, 0)
  {
    hide Built, FromParse, Linked, Walk, Elf.Placed;
    ByteReached(data, p, mem, base, ram, i, k);
    Elf.BufferInside(p, at, len, before);
    var a := Elf.Place(p, p.segments[i].vaddr + k);
    assert At(mem, a) == At(Elf.Placed(p, at, len, before, |p.segments|), a) == 0;
  }
}
