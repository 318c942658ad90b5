/** The kernel image: parsing its ELF headers and copying its segments to physical memory.
    Chapter 5 of the System V gABI, "Program Header". */
module Elf {
  import opened Bytes

  const PHYS_BASE: nat := 0x20_0000
  const EHDR_SIZE: nat := 64
  const PHDR_SIZE: nat := 56
  const MAX_SEGMENTS: nat := 8
  const PT_LOAD: nat := 1

  function AlignDown(a: nat): nat { a / PAGE * PAGE }

  function AlignUp(a: nat): nat { (a + PAGE - 1) / PAGE * PAGE }

  lemma {:induction false} Aligned(a: nat)
    ensures AlignDown(a) % PAGE == 0 && AlignDown(a) <= a < AlignDown(a) + PAGE
    ensures AlignUp(a) % PAGE == 0 && a <= AlignUp(a) < a + PAGE
    ensures a % PAGE == 0 ==> AlignDown(a) == a == AlignUp(a)
  {
  }

  datatype Segment = Segment(offset: nat, vaddr: nat, filesz: nat, memsz: nat)

  datatype Parsed = Parsed(entry: nat, virtBase: nat, virtEnd: nat, physBase: nat, physEnd: nat, segments: seq<Segment>)

  /** The loader's errors; `Trapped` stands for the runtime checks on 64-bit overflow and on the
      alignment of a program header. */
  datatype LoadError =
    InvalidElf | WrongMachine | WrongType | NoSegments | TooManySegments | SegmentOutOfBounds | Trapped

  datatype Outcome = Accepted(parsed: Parsed) | Rejected(error: LoadError)

  // ---- What a header says ----

  function Count(data: seq<byte>): nat { U16At(data, 56) }

  /** Where program header `i` starts. */
  function HeaderAt(data: seq<byte>, i: nat): nat {
    U64At(data, 32) + Times(i, U16At(data, 54))
  }

  function Times(a: nat, b: nat): nat { a * b }

  function SegmentOf(data: seq<byte>, i: nat): Segment {
    var at := HeaderAt(data, i);
    Segment(U64At(data, at + 8), U64At(data, at + 16), U64At(data, at + 32), U64At(data, at + 40))
  }

  /** Header `i` asks for memory. */
  predicate IsLoad(data: seq<byte>, i: nat) {
    U32At(data, HeaderAt(data, i)) == PT_LOAD && SegmentOf(data, i).memsz > 0
  }

  /** The segments of the first `n` headers, in order. */
  function Loads(data: seq<byte>, n: nat): (s: seq<Segment>)
    ensures |s| <= n
  {
    if n == 0 then [] else Loads(data, n - 1) + if IsLoad(data, n - 1) then [SegmentOf(data, n - 1)] else []
  }

  predicate Identified(data: seq<byte>) {
    && EHDR_SIZE <= |data| && data[..6] == [0x7F, 0x45, 0x4C, 0x46, 2, 1]
    && U16At(data, 18) == 62 && U16At(data, 16) == 2 && Count(data) > 0
  }

  /** Header `i` lies in the file, aligned, and no sum about it exceeds 64 bits. */
  predicate Readable(data: seq<byte>, i: nat) {
    HeaderAt(data, i) + PHDR_SIZE <= |data| && HeaderAt(data, i) % 8 == 0
  }

  predicate InFile(data: seq<byte>, s: Segment) {
    && (s.filesz > 0 ==> s.offset + s.filesz <= |data|)
    && s.vaddr + s.memsz + PAGE - 1 < U64
  }

  ghost predicate Acceptable(data: seq<byte>) {
    && Identified(data)
    && (forall i | 0 <= i < Count(data) :: Readable(data, i))
    && (forall i | 0 <= i < Count(data) && IsLoad(data, i) :: InFile(data, SegmentOf(data, i)))
    && 0 < |Loads(data, Count(data))| <= MAX_SEGMENTS
  }

  /** The bounds are those of the segments' pages, and both are attained. */
  ghost predicate Bounds(segs: seq<Segment>, lo: nat, hi: nat) {
    && (forall i | 0 <= i < |segs| :: lo <= AlignDown(segs[i].vaddr) && AlignUp(segs[i].vaddr + segs[i].memsz) <= hi)
    && (exists i | 0 <= i < |segs| :: AlignDown(segs[i].vaddr) == lo)
    && (exists i | 0 <= i < |segs| :: AlignUp(segs[i].vaddr + segs[i].memsz) == hi)
  }

  // ---- Parsing ----

  function Checked(data: seq<byte>): Option<LoadError> {
    if |data| < EHDR_SIZE then Some(InvalidElf)
    else if data[0] != 0x7F || data[1] != 0x45 || data[2] != 0x4C || data[3] != 0x46 then Some(InvalidElf)
    else if data[4] != 2 then Some(InvalidElf)
    else if data[5] != 1 then Some(InvalidElf)
    else if U16At(data, 18) != 62 then Some(WrongMachine)
    else if U16At(data, 16) != 2 then Some(WrongType)
    else if Count(data) == 0 then Some(NoSegments)
    else None
  }

  lemma {:induction false} CheckedIff(data: seq<byte>)
    ensures Checked(data).None? <==> Identified(data)
  {
    if |data| >= EHDR_SIZE {
      assert data[..6] == [data[0], data[1], data[2], data[3], data[4], data[5]];
    }
  }

  /** Why header `i` is refused when `have` segments were taken before it. */
  function Refusal(data: seq<byte>, i: nat, have: nat): Option<LoadError> {
    var at, s := HeaderAt(data, i), SegmentOf(data, i);
    if !Readable(data, i) then
      Some(if at + PHDR_SIZE < U64 && at + PHDR_SIZE > |data| then InvalidElf else Trapped)
    else if !IsLoad(data, i) then None
    else if have >= MAX_SEGMENTS then Some(TooManySegments)
    else if s.filesz > 0 && s.offset + s.filesz > |data| then
      Some(if s.offset + s.filesz < U64 then SegmentOutOfBounds else Trapped)
    else if !InFile(data, s) then Some(Trapped)
    else None
  }

  /** Why the first refused header among the first `n` is refused. */
  function FirstRefusal(data: seq<byte>, n: nat): Option<LoadError> {
    if n == 0 then None
    else
      var before := FirstRefusal(data, n - 1);
      if before.Some? then before else Refusal(data, n - 1, |Loads(data, n - 1)|)
  }

  lemma {:induction false} RefusalLasts(data: seq<byte>, i: nat, n: nat)
    requires i <= n && FirstRefusal(data, i).Some?
    ensures FirstRefusal(data, n) == FirstRefusal(data, i)
    decreases n
  {
    hide Refusal, Loads;
    if i < n {
      RefusalLasts(data, i, n - 1);
    }
  }

  /** `getPhdr` */
  method GetPhdr(data: seq<byte>, i: nat) returns (at: nat, error: Option<LoadError>)
    requires |data| < U64
    ensures at == HeaderAt(data, i) && (error.None? <==> Readable(data, i))
    ensures error.Some? ==> error == Refusal(data, i, 0)
  {
    at := HeaderAt(data, i);
    if at + PHDR_SIZE >= U64 {
      error := Some(Trapped);
    } else if at + PHDR_SIZE > |data| {
      error := Some(InvalidElf);
    } else if at % 8 != 0 {
      error := Some(Trapped);
    } else {
      error := None;
    }
  }

  /** One program header: skipped, refused or added. */
  method Take(data: seq<byte>, i: nat, segs: seq<Segment>) returns (more: seq<Segment>, error: Option<LoadError>)
    requires |data| < U64
    ensures error == Refusal(data, i, |segs|)
    ensures error.None? ==> Readable(data, i)
    ensures error.None? ==> (IsLoad(data, i) ==> |segs| < MAX_SEGMENTS && InFile(data, SegmentOf(data, i)))
    ensures error.None? ==> more == segs + if IsLoad(data, i) then [SegmentOf(data, i)] else []
    ensures error.Some? ==>
      !Readable(data, i) || (IsLoad(data, i) && (|segs| >= MAX_SEGMENTS || !InFile(data, SegmentOf(data, i))))
  {
    more := segs;
    var at;
    at, error := GetPhdr(data, i);
    if error.Some? {
      return;
    }
    var s := SegmentOf(data, i);
    if U32At(data, at) != PT_LOAD || s.memsz == 0 {
      return;
    }
    if |segs| >= MAX_SEGMENTS {
      error := Some(TooManySegments);
    } else if s.filesz > 0 && s.offset + s.filesz >= U64 {
      error := Some(Trapped);
    } else if s.filesz > 0 && s.offset + s.filesz > |data| {
      error := Some(SegmentOutOfBounds);
    } else if s.vaddr + s.memsz + PAGE - 1 >= U64 {
      error := Some(Trapped);
    } else {
      more := segs + [s];
    }
  }

  lemma {:induction false} LoadsGrow(data: seq<byte>, i: nat, n: nat)
    requires i <= n
    ensures |Loads(data, i)| <= |Loads(data, n)|
    decreases n
  {
    if i < n {
      LoadsGrow(data, i, n - 1);
    }
  }

  lemma {:induction false} BoundsMore(segs: seq<Segment>, s: Segment, lo: nat, hi: nat)
    requires if segs == [] then lo == U64 - 1 && hi == 0 else Bounds(segs, lo, hi)
    requires AlignDown(s.vaddr) < U64
    ensures Bounds(segs + [s], Min(lo, AlignDown(s.vaddr)), Max(hi, AlignUp(s.vaddr + s.memsz)))
  {
    hide AlignDown, AlignUp;
    var more, a, b := segs + [s], AlignDown(s.vaddr), AlignUp(s.vaddr + s.memsz);
    assert more[|segs|] == s;
    if segs != [] {
      var i :| 0 <= i < |segs| && AlignDown(segs[i].vaddr) == lo;
      var j :| 0 <= j < |segs| && AlignUp(segs[j].vaddr + segs[j].memsz) == hi;
      assert more[i] == segs[i] && more[j] == segs[j];
    }
  }

  lemma {:induction false} BoundsOrder(segs: seq<Segment>, lo: nat, hi: nat)
    requires Bounds(segs, lo, hi)
    ensures lo <= hi && lo % PAGE == 0 && hi % PAGE == 0
  {
    hide AlignDown, AlignUp;
    var i :| 0 <= i < |segs| && AlignDown(segs[i].vaddr) == lo;
    var j :| 0 <= j < |segs| && AlignUp(segs[j].vaddr + segs[j].memsz) == hi;
    Aligned(segs[i].vaddr);
    Aligned(segs[i].vaddr + segs[i].memsz);
    Aligned(segs[j].vaddr + segs[j].memsz);
  }

  /** `parseKernel`: accepts exactly the acceptable images, and then reports their segments in
      order and the pages they span. */
  method ParseKernel(data: seq<byte>) returns (r: Outcome)
    requires |data| < U64
    ensures r.Accepted? <==> Acceptable(data)
    ensures r.Accepted? ==> r.parsed.segments == Loads(data, Count(data)) && r.parsed.entry == U64At(data, 24)
    ensures r.Accepted? ==> Bounds(r.parsed.segments, r.parsed.virtBase, r.parsed.virtEnd)
    ensures r.Accepted? ==> r.parsed.physBase == PHYS_BASE
    ensures r.Accepted? ==> r.parsed.physEnd == AlignUp(PHYS_BASE + (r.parsed.virtEnd - r.parsed.virtBase))
    ensures !Identified(data) ==> r == Rejected(Checked(data).value)
    ensures Identified(data) && r.Rejected? ==>
      r.error == var refusal := FirstRefusal(data, Count(data)); if refusal.Some? then refusal.value else NoSegments
  {
    CheckedIff(data);
    hide Identified, Readable, IsLoad, SegmentOf, U64At, Checked, AlignDown, AlignUp, Bounds, Refusal;
    var bad := Checked(data);
    if bad.Some? {
      return Rejected(bad.value);
    }
    var segs: seq<Segment> := [];
    var lo: nat, hi: nat := U64 - 1, 0;
    for i := 0 to Count(data)
      invariant segs == Loads(data, i) && |segs| <= MAX_SEGMENTS && FirstRefusal(data, i).None?
      invariant forall j | 0 <= j < i :: Readable(data, j) && (IsLoad(data, j) ==> InFile(data, SegmentOf(data, j)))
      invariant segs == [] ==> lo == U64 - 1 && hi == 0
      invariant segs != [] ==> Bounds(segs, lo, hi)
    {
      LoadsGrow(data, i + 1, Count(data));
      var before := segs;
      var error;
      segs, error := Take(data, i, segs);
      if error.Some? {
        RefusalLasts(data, i + 1, Count(data));
        return Rejected(error.value);
      }
      if |segs| > |before| {
        var s := segs[|segs| - 1];
        assert segs == before + [s];
        Aligned(s.vaddr);
        BoundsMore(before, s, lo, hi);
        lo, hi := Min(lo, AlignDown(s.vaddr)), Max(hi, AlignUp(s.vaddr + s.memsz));
      } else {
        assert segs == before;
      }
    }
    if segs == [] {
      return Rejected(NoSegments);
    }
    BoundsOrder(segs, lo, hi);
    r := Accepted(Parsed(U64At(data, 24), lo, hi, PHYS_BASE, AlignUp(PHYS_BASE + (hi - lo)), segs));
  }

  // ---- Placing ----

  predicate Holds(s: Segment, v: nat) { s.vaddr <= v < s.vaddr + s.filesz }

  /** The file byte at a virtual address: that of the last segment that has one there. */
  function FileByte(data: seq<byte>, segs: seq<Segment>, v: nat): Option<byte> {
    if segs == [] then None
    else
      var s := segs[|segs| - 1];
      if Holds(s, v) then Some(At(data, s.offset + (v - s.vaddr))) else FileByte(data, segs[..|segs| - 1], v)
  }

  /** The physical address of a virtual one. */
  function Place(p: Parsed, v: nat): int { p.physBase + (v - p.virtBase) }

  predicate InMemory(p: Parsed, s: Segment, len: nat, size: nat) {
    p.virtBase <= s.vaddr && Place(p, s.vaddr) + s.filesz <= size && (s.filesz > 0 ==> s.offset + s.filesz <= len)
  }

  /** The kernel's range, the file buffer of `len` bytes at `at`, and the place of every segment lie
      in memory, and every segment's bytes in the buffer. */
  ghost predicate Placeable(p: Parsed, at: nat, len: nat, size: nat) {
    && p.physBase <= p.physEnd <= size && at + len <= size
    && forall i | 0 <= i < |p.segments| :: InMemory(p, p.segments[i], len, size)
  }

  /** What memory holds at `a` once the first `n` segments have been copied. */
  function Content(p: Parsed, data: seq<byte>, n: nat, before: seq<byte>, a: nat): byte
    requires n <= |p.segments|
  {
    var f := if a < p.physBase then None else FileByte(data, p.segments[..n], p.virtBase + (a - p.physBase));
    if f.Some? then f.value else if p.physBase <= a < p.physEnd then 0 else At(before, a)
  }

  ghost predicate Filled(p: Parsed, data: seq<byte>, n: nat, before: seq<byte>, mem: seq<byte>)
    requires n <= |p.segments|
  {
    |mem| == |before| && forall a | 0 <= a < |mem| :: mem[a] == Content(p, data, n, before, a)
  }

  method Zero(mem: array<byte>, from: nat, to: nat)
    requires from <= to <= mem.Length
    modifies mem
    ensures forall a | 0 <= a < mem.Length :: mem[a] == if from <= a < to then 0 else old(mem[a])
  {
    for j := from to to
      invariant forall a | 0 <= a < mem.Length :: mem[a] == if from <= a < j then 0 else old(mem[a])
    {
      mem[j] := 0;
    }
  }

  /** Memory after the bytes of a range became zero. */
  function Zeroed(mem: seq<byte>, from: nat, to: nat): (r: seq<byte>)
    requires from <= to <= |mem|
    ensures |r| == |mem| && forall a | 0 <= a < |mem| :: r[a] == if from <= a < to then 0 else mem[a]
  {
    mem[..from] + Zeros(to - from) + mem[to..]
  }

  /** Memory after `n` bytes were copied, one by one from the first, inside it. */
  function Copied(mem: seq<byte>, to: nat, from: nat, n: nat): (r: seq<byte>)
    requires to + n <= |mem| && (n > 0 ==> from + n <= |mem|)
    ensures |r| == |mem|
  {
    if n == 0 then mem
    else var m := Copied(mem, to, from, n - 1); m[to + n - 1 := m[from + n - 1]]
  }

  method CopyInside(mem: array<byte>, to: nat, from: nat, n: nat)
    requires to + n <= mem.Length && (n > 0 ==> from + n <= mem.Length)
    modifies mem
    ensures mem[..] == Copied(old(mem[..]), to, from, n)
  {
    for k := 0 to n
      invariant mem[..] == Copied(old(mem[..]), to, from, k)
    {
      mem[to + k] := mem[from + k];
    }
  }

  /** Memory after the kernel's range was zeroed and `n` segments were copied from the file buffer
      at `at`, wherever the buffer lies. */
  ghost function Placed(p: Parsed, at: nat, len: nat, before: seq<byte>, n: nat): (r: seq<byte>)
    requires Placeable(p, at, len, |before|) && n <= |p.segments|
    ensures |r| == |before|
  {
    if n == 0 then Zeroed(before, p.physBase, p.physEnd)
    else
      var s := p.segments[n - 1];
      Copied(Placed(p, at, len, before, n - 1), Place(p, s.vaddr), at + s.offset, s.filesz)
  }

  /** `placeSegments`, reading the file buffer from the memory it writes. */
  method PlaceSegments(p: Parsed, at: nat, ghost len: nat, mem: array<byte>)
    requires Placeable(p, at, len, mem.Length)
    modifies mem
    ensures mem[..] == Placed(p, at, len, old(mem[..]), |p.segments|)
    ensures Within(p) && SourcesClear(p, at) ==>
      Filled(p, old(mem[..])[at..at + len], |p.segments|, old(mem[..]), mem[..])
  {
    ghost var before := mem[..];
    Zero(mem, p.physBase, p.physEnd);
    assert mem[..] == Placed(p, at, len, before, 0);
    for i := 0 to |p.segments|
      invariant mem[..] == Placed(p, at, len, before, i)
    {
      var s := p.segments[i];
      if s.filesz > 0 {
        CopyInside(mem, Place(p, s.vaddr), at + s.offset, s.filesz);
      }
    }
    if Within(p) && SourcesClear(p, at) {
      PlacedFilled(p, at, len, before, |p.segments|);
    }
  }

  // ---- Where the file buffer lies ----

  /** Every segment's file bytes go to the kernel's range. */
  ghost predicate Within(p: Parsed) {
    forall i | 0 <= i < |p.segments| ::
      p.virtBase <= p.segments[i].vaddr && Place(p, p.segments[i].vaddr) + p.segments[i].filesz <= p.physEnd
  }

  predicate SourceClear(p: Parsed, at: nat, s: Segment) {
    s.filesz == 0 || at + s.offset + s.filesz <= p.physBase || p.physEnd <= at + s.offset
  }

  /** No file byte of a segment lies in the range that is zeroed first. */
  ghost predicate SourcesClear(p: Parsed, at: nat) {
    forall i | 0 <= i < |p.segments| :: SourceClear(p, at, p.segments[i])
  }

  /** Copying between ranges that do not overlap. */
  lemma {:induction false} CopiedApart(mem: seq<byte>, to: nat, from: nat, n: nat, a: nat)
    requires to + n <= |mem| && from + n <= |mem| && (to + n <= from || from + n <= to) && a < |mem|
    ensures Copied(mem, to, from, n)[a] == if to <= a < to + n then mem[from + (a - to)] else mem[a]
  {
    if n > 0 {
      CopiedApart(mem, to, from, n - 1, a);
      CopiedApart(mem, to, from, n - 1, from + n - 1);
    }
  }

  /** Outside the kernel's range no segment has a place. */
  lemma {:induction false} ContentOutside(p: Parsed, data: seq<byte>, n: nat, before: seq<byte>, a: nat)
    requires Within(p) && n <= |p.segments| && !(p.physBase <= a < p.physEnd)
    ensures Content(p, data, n, before, a) == At(before, a)
  {
    hide At;
    if n > 0 {
      ContentOutside(p, data, n - 1, before, a);
      ContentStep(p, data, n - 1, before, a);
    }
  }

  /** A buffer that is not zeroed fills the kernel's range with what it holds. */
  lemma {:induction false} PlacedFilled(p: Parsed, at: nat, len: nat, before: seq<byte>, n: nat)
    requires Placeable(p, at, len, |before|) && n <= |p.segments| && Within(p) && SourcesClear(p, at)
    ensures Filled(p, before[at..at + len], n, before, Placed(p, at, len, before, n))
  {
    if n == 0 {
      ZeroedFilled(p, before[at..at + len], before);
    } else {
      hide Filled, Content, Placeable, Within, Copied, InMemory, SourceClear;
      var now := Placed(p, at, len, before, n - 1);
      PlacedFilled(p, at, len, before, n - 1);
      SegmentFilled(p, at, len, before, n - 1, now);
    }
  }

  lemma {:induction false} ZeroedFilled(p: Parsed, data: seq<byte>, before: seq<byte>)
    requires p.physBase <= p.physEnd <= |before|
    ensures Filled(p, data, 0, before, Zeroed(before, p.physBase, p.physEnd))
  {
    hide Zeroed;
  }

  lemma {:induction false} SegmentFilled(p: Parsed, at: nat, len: nat, before: seq<byte>, i: nat, now: seq<byte>)
    requires Placeable(p, at, len, |before|) && i < |p.segments| && Within(p) && SourceClear(p, at, p.segments[i])
    requires |now| == |before| && Filled(p, before[at..at + len], i, before, now)
    ensures InMemory(p, p.segments[i], len, |before|)
    ensures var s := p.segments[i];
      Filled(p, before[at..at + len], i + 1, before, Copied(now, Place(p, s.vaddr), at + s.offset, s.filesz))
  {
    hide Filled, Content, Copied, At;
    var s := p.segments[i];
    assert InMemory(p, s, len, |before|);
    var to, data := Place(p, s.vaddr), before[at..at + len];
    var after := Copied(now, to, at + s.offset, s.filesz);
    forall a | 0 <= a < |after|
      ensures after[a] == if to <= a < to + s.filesz then At(data, s.offset + (a - to)) else now[a]
    {
      SegmentByte(p, at, len, before, i, now, a);
    }
    FilledMore(p, data, i, before, now, after);
  }

  lemma {:induction false} SegmentByte(p: Parsed, at: nat, len: nat, before: seq<byte>, i: nat, now: seq<byte>, a: nat)
    requires Placeable(p, at, len, |before|) && i < |p.segments| && Within(p) && SourceClear(p, at, p.segments[i])
    requires |now| == |before| && Filled(p, before[at..at + len], i, before, now) && a < |now|
    requires InMemory(p, p.segments[i], len, |before|)
    ensures var s := p.segments[i];
      var to := Place(p, s.vaddr);
      Copied(now, to, at + s.offset, s.filesz)[a] ==
        if to <= a < to + s.filesz then At(before[at..at + len], s.offset + (a - to)) else now[a]
  {
    hide Filled, Content, At;
    var s := p.segments[i];
    var to := Place(p, s.vaddr);
    if s.filesz > 0 {
      CopiedApart(now, to, at + s.offset, s.filesz, a);
      if to <= a < to + s.filesz {
        SourceHeld(p, at, len, before, i, now, s.offset + (a - to));
      }
    }
  }

  /** A buffer byte outside the kernel's range is still there after `n` segments. */
  lemma {:induction false} SourceHeld(p: Parsed, at: nat, len: nat, before: seq<byte>, n: nat, now: seq<byte>, k: nat)
    requires Placeable(p, at, len, |before|) && n <= |p.segments| && Within(p) && k < len
    requires !(p.physBase <= at + k < p.physEnd) && Filled(p, before[at..at + len], n, before, now)
    ensures now[at + k] == At(before[at..at + len], k)
  {
    hide Content;
    ContentOutside(p, before[at..at + len], n, before, at + k);
  }

  /** All bytes of the range are zero. */
  ghost predicate Blank(mem: seq<byte>, lo: nat, hi: nat) {
    forall a | lo <= a < hi :: At(mem, a) == 0
  }

  lemma {:induction false} CopiedBlank(mem: seq<byte>, to: nat, from: nat, n: nat, lo: nat, hi: nat)
    requires to + n <= |mem| && (n > 0 ==> from + n <= |mem|) && Blank(mem, lo, hi)
    requires n > 0 ==> lo <= from && from + n <= hi
    ensures Blank(Copied(mem, to, from, n), lo, hi)
  {
    if n > 0 {
      CopiedBlank(mem, to, from, n - 1, lo, hi);
      var m := Copied(mem, to, from, n - 1);
      assert At(m, from + n - 1) == 0 == m[from + n - 1];
      forall a | lo <= a < hi ensures At(Copied(mem, to, from, n), a) == 0 {
        assert At(m, a) == 0;
      }
    }
  }

  /** Segments copied out of zeroed memory bring zeros. */
  lemma {:induction false} PlacedBlank(p: Parsed, at: nat, len: nat, before: seq<byte>, n: nat, lo: nat, hi: nat)
    requires Placeable(p, at, len, |before|) && n <= |p.segments|
    requires Blank(Zeroed(before, p.physBase, p.physEnd), lo, hi)
    requires forall i | 0 <= i < |p.segments| && p.segments[i].filesz > 0 ::
      lo <= at + p.segments[i].offset && at + p.segments[i].offset + p.segments[i].filesz <= hi
    ensures Blank(Placed(p, at, len, before, n), lo, hi)
  {
    hide Blank;
    if n > 0 {
      PlacedBlank(p, at, len, before, n - 1, lo, hi);
      var s := p.segments[n - 1];
      assert InMemory(p, s, len, |before|);
      CopiedBlank(Placed(p, at, len, before, n - 1), Place(p, s.vaddr), at + s.offset, s.filesz, lo, hi);
    }
  }

  /** A file buffer inside the kernel's range is wiped before it is copied. */
  lemma {:induction false} BufferInside(p: Parsed, at: nat, len: nat, before: seq<byte>)
    requires Placeable(p, at, len, |before|) && p.physBase <= at && at + len <= p.physEnd
    ensures Blank(Placed(p, at, len, before, |p.segments|), p.physBase, p.physEnd)
  {
    PlacedBlank(p, at, len, before, |p.segments|, p.physBase, p.physEnd);
  }

  ghost predicate AlwaysFilled(p: Parsed, at: nat, len: nat, size: nat)
    requires Placeable(p, at, len, size)
  {
    forall before: seq<byte> | |before| == size ::
      Filled(p, before[at..at + len], |p.segments|, before, Placed(p, at, len, before, |p.segments|))
  }

  /** Segments that do not overlap arrive, whatever the file holds, exactly when none of their
      file bytes lies in the range that is zeroed first. */
  lemma {:induction false} PlacedIff(p: Parsed, at: nat, len: nat, size: nat)
    requires Placeable(p, at, len, size) && Within(p) && Apart(p.segments)
    ensures AlwaysFilled(p, at, len, size) <==> SourcesClear(p, at)
  {
    if SourcesClear(p, at) {
      forall before: seq<byte> | |before| == size
        ensures Filled(p, before[at..at + len], |p.segments|, before, Placed(p, at, len, before, |p.segments|))
      {
        PlacedFilled(p, at, len, before, |p.segments|);
      }
    } else {
      var i :| 0 <= i < |p.segments| && !SourceClear(p, at, p.segments[i]);
      WipedByte(p, at, len, size, i);
    }
  }

  /** A file byte in the zeroed range is lost. */
  lemma {:induction false} WipedByte(p: Parsed, at: nat, len: nat, size: nat, i: nat)
    requires Placeable(p, at, len, size) && Within(p) && Apart(p.segments)
    requires i < |p.segments| && !SourceClear(p, at, p.segments[i])
    ensures !AlwaysFilled(p, at, len, size)
  {
    hide Filled, Content, Placed, Blank, Zeroed, Apart;
    var s := p.segments[i];
    assert InMemory(p, s, len, size);
    assert Place(p, s.vaddr) + s.filesz <= p.physEnd;
    var k := if p.physBase < at + s.offset then 0 else p.physBase - (at + s.offset);
    var before := OneByte(size, at + s.offset + k, p.physBase, p.physEnd);
    LostByte(p, at, len, before, i, k);
  }

  /** A memory whose only byte that is not zero is about to be wiped. */
  lemma {:induction false} OneByte(size: nat, x: nat, lo: nat, hi: nat) returns (mem: seq<byte>)
    requires lo <= x < hi <= size
    ensures |mem| == size && At(mem, x) == 1 && Blank(Zeroed(mem, lo, hi), 0, size)
  {
    mem := seq<byte>(size, a => if a == x then 1 else 0);
  }

  lemma {:induction false} LostByte(p: Parsed, at: nat, len: nat, before: seq<byte>, i: nat, k: nat)
    requires Placeable(p, at, len, |before|) && Within(p) && Apart(p.segments)
    requires i < |p.segments| && k < p.segments[i].filesz && At(before, at + p.segments[i].offset + k) != 0
    requires Blank(Zeroed(before, p.physBase, p.physEnd), 0, |before|)
    ensures !Filled(p, before[at..at + len], |p.segments|, before, Placed(p, at, len, before, |p.segments|))
  {
    hide Zeroed, Placed;
    var s, n := p.segments[i], |p.segments|;
    assert InMemory(p, s, len, |before|);
    var data, a := before[at..at + len], Place(p, s.vaddr) + k;
    assert At(data, s.offset + k) == At(before, at + s.offset + k);
    forall j | 0 <= j < n && p.segments[j].filesz > 0
      ensures at + p.segments[j].offset + p.segments[j].filesz <= |before|
    {
      assert InMemory(p, p.segments[j], len, |before|);
    }
    PlacedBlank(p, at, len, before, n, 0, |before|);
    var after := Placed(p, at, len, before, n);
    assert At(after, a) == 0;
    hide Blank, Content;
    ContentOwn(p, data, before, i, k);
  }

  /** At the place of a segment's file byte stands that byte. */
  lemma {:induction false} ContentOwn(p: Parsed, data: seq<byte>, before: seq<byte>, i: nat, k: nat)
    requires Within(p) && Apart(p.segments) && i < |p.segments| && k < p.segments[i].filesz
    ensures Content(p, data, |p.segments|, before, Place(p, p.segments[i].vaddr) + k) ==
      At(data, p.segments[i].offset + k)
  {
    hide At;
    OwnBytes(data, p.segments, i, k);
    assert p.segments[..|p.segments|] == p.segments;
  }

  // ---- One segment after the other ----

  lemma {:induction false} FilledMore(p: Parsed, data: seq<byte>, i: nat, before: seq<byte>, now: seq<byte>,
      after: seq<byte>)
    requires i < |p.segments| && Filled(p, data, i, before, now) && |after| == |now|
    requires InMemory(p, p.segments[i], |data|, |now|)
    requires var s := p.segments[i];
      forall a | 0 <= a < |after| :: after[a] ==
        if Place(p, s.vaddr) <= a < Place(p, s.vaddr) + s.filesz then At(data, s.offset + (a - Place(p, s.vaddr)))
        else now[a]
    ensures Filled(p, data, i + 1, before, after)
  {
    var s := p.segments[i];
    forall a | 0 <= a < |after| ensures after[a] == Content(p, data, i + 1, before, a) {
      assert now[a] == Content(p, data, i, before, a);
      ContentStep(p, data, i, before, a);
    }
  }

  lemma {:induction false} ContentStep(p: Parsed, data: seq<byte>, i: nat, before: seq<byte>, a: nat)
    requires i < |p.segments| && p.virtBase <= p.segments[i].vaddr
    ensures var s := p.segments[i];
      Content(p, data, i + 1, before, a) ==
        if Place(p, s.vaddr) <= a < Place(p, s.vaddr) + s.filesz then At(data, s.offset + (a - Place(p, s.vaddr)))
        else Content(p, data, i, before, a)
  {
    assert p.segments[..i + 1][..i] == p.segments[..i];
    hide At;
  }

  // ---- Segments that do not overlap ----

  ghost predicate Apart(segs: seq<Segment>) {
    && (forall i | 0 <= i < |segs| :: segs[i].filesz <= segs[i].memsz)
    && forall i, j | 0 <= i < j < |segs| ::
      segs[i].vaddr + segs[i].memsz <= segs[j].vaddr || segs[j].vaddr + segs[j].memsz <= segs[i].vaddr
  }

  /** Of segments that do not overlap, each finds its own bytes. */
  lemma {:induction false} OwnBytes(data: seq<byte>, segs: seq<Segment>, i: nat, k: nat)
    requires Apart(segs) && i < |segs| && k < segs[i].memsz
    ensures FileByte(data, segs, segs[i].vaddr + k) ==
      if k < segs[i].filesz then Some(At(data, segs[i].offset + k)) else None
  {
    hide At;
    var front, s, v := segs[..|segs| - 1], segs[|segs| - 1], segs[i].vaddr + k;
    if i == |segs| - 1 {
      if k >= s.filesz {
        NoBytes(data, segs, front, v, i);
      }
    } else {
      assert front[i] == segs[i];
      OwnBytes(data, front, i, k);
    }
  }

  lemma {:induction false} NoBytes(data: seq<byte>, segs: seq<Segment>, front: seq<Segment>, v: nat, i: nat)
    requires Apart(segs) && i < |segs| && segs[i].vaddr <= v < segs[i].vaddr + segs[i].memsz
    requires |front| <= i && front <= segs
    ensures FileByte(data, front, v) == None
  {
    hide At;
    if front != [] {
      var s := front[|front| - 1];
      assert s == segs[|front| - 1];
      NoBytes(data, segs, front[..|front| - 1], v, i);
    }
  }
}
