/** The page tables the boot loader builds and the walk the processor makes over them.
    Section 4.5 of volume 3A of the Intel Software Developer's Manual. */
module Paging {
  import opened Bytes

  const MB2: nat := 0x20_0000
  const GB: nat := 0x4000_0000
  /** What one entry of the top table covers. */
  const SLOT: nat := 0x80_0000_0000
  const TOP: nat := 0x1_0000_0000_0000_0000
  const HHDM: nat := 0xFFFF_8000_0000_0000
  /** Physical addresses have 52 bits. */
  const PHYS: nat := 0x10_0000_0000_0000

  const PRESENT: nat := 1
  const WRITE: nat := 2
  const HUGE: nat := 0x80

  // ---- The walk ----

  /** The address of the top table, as CR3 holds it, and the physical memory it lies in. */
  datatype Tables = Tables(base: nat, mem: seq<byte>)

  function Entry(t: Tables, a: nat): nat { U64At(t.mem, a) }

  predicate Present(e: nat) { e % 2 == 1 }

  predicate Huge(e: nat) { (e / 0x80) % 2 == 1 }

  /** The address bits of an entry, from `size` up to bit 51. */
  function Frame(e: nat, size: nat): nat
    requires size > 0
  {
    e % PHYS / size * size
  }

  /** The index into the table of each level. */
  function TopIndex(v: nat): (i: nat)
    ensures i < 512
  {
    v / SLOT % 512
  }

  function GigaIndex(v: nat): (i: nat)
    ensures i < 512
  {
    v / GB % 512
  }

  function MegaIndex(v: nat): (i: nat)
    ensures i < 512
  {
    v / MB2 % 512
  }

  function PageIndex(v: nat): (i: nat)
    ensures i < 512
  {
    v / PAGE % 512
  }

  /** The offset in what a top entry covers. */
  function InSlot(v: nat): nat { v % SLOT }

  predicate Canonical(v: nat) { v < 0x8000_0000_0000 || HHDM <= v < TOP }

  function Walk(t: Tables, v: nat): Option<nat> {
    var e4 := Entry(t, t.base + 8 * (TopIndex(v)));
    if !Canonical(v) || !Present(e4) then None
    else Walk3(t, v, Frame(e4, PAGE))
  }

  function Walk3(t: Tables, v: nat, table: nat): Option<nat> {
    var e3 := Entry(t, table + 8 * (GigaIndex(v)));
    if !Present(e3) then None
    else if Huge(e3) then Some(Frame(e3, GB) + v % GB)
    else Walk2(t, v, Frame(e3, PAGE))
  }

  function Walk2(t: Tables, v: nat, table: nat): Option<nat> {
    var e2 := Entry(t, table + 8 * (MegaIndex(v)));
    if !Present(e2) then None
    else if Huge(e2) then Some(Frame(e2, MB2) + v % MB2)
    else
      var e1 := Entry(t, Frame(e2, PAGE) + 8 * (PageIndex(v)));
      if !Present(e1) then None else Some(Frame(e1, PAGE) + v % PAGE)
  }

  // ---- The tables ----

  const PT_WORDS: nat := 8 * 512

  predicate PageAligned(addr: nat) { addr % PAGE == 0 }

  /** `addr | flags` for an address with no bit below 4096. */
  function Flagged(addr: nat, flags: nat): nat
    requires PageAligned(addr) && flags < PAGE
  {
    addr + flags
  }

  lemma {:induction false} MegaAligned(phys: nat, p: nat)
    requires phys % MB2 == 0
    ensures PageAligned(phys + p * MB2)
  {
    var q := phys / MB2;
    assert phys + p * MB2 == (q + p) * 512 * PAGE;
  }

  /** The gigabytes of the direct map. */
  function MappedGbs(ram: nat): nat {
    Min(Max((ram + GB - 1) / GB, 4), 512)
  }

  /** The 2 MiB pages of the kernel window. */
  function KernelPages(size: nat): nat {
    Min((size + MB2 - 1) / MB2, 512)
  }

  /** What the loader is given: RAM size, where the kernel is linked, where it lies and its size. */
  datatype Request = Request(ram: nat, virt: nat, phys: nat, size: nat)

  predicate Fits(base: nat, r: Request) {
    && base % PAGE == 0 && base + 8 * PAGE <= PHYS
    && r.phys % MB2 == 0 && r.phys + GB <= PHYS && r.virt < TOP
  }

  function Word(base: nat, r: Request, i: nat): u64
    requires Fits(base, r)
  {
    var k, g := i / 512, i % 512;
    if k == 0 then
      if g == 0 then base + PAGE + 3
      else if g == 256 then base + 2 * PAGE + 3
      else if g == 511 then base + 3 * PAGE + 3
      else 0
    else if k == 1 then if g < 4 then g * GB + 0x83 else 0
    else if k == 2 then if g < MappedGbs(r.ram) then g * GB + 0x83 else 0
    else if k == 3 then if g == GigaIndex(r.virt) then base + 4 * PAGE + 3 else 0
    else if k == 4 then if g < KernelPages(r.size) then r.phys + g * MB2 + 0x83 else 0
    else 0
  }

  /** The eight pages from `base` as 64-bit words. */
  ghost function Words(mem: seq<byte>, base: nat): (ws: seq<u64>)
    ensures |ws| == PT_WORDS && forall i | 0 <= i < PT_WORDS :: ws[i] == U64At(mem, base + 8 * i)
  {
    seq<u64>(PT_WORDS, i requires 0 <= i => U64At(mem, base + 8 * i))
  }

  /** The eight pages hold the tables asked for. */
  ghost predicate Built(mem: seq<byte>, base: nat, r: Request) {
    && Fits(base, r) && base + 8 * PAGE <= |mem|
    && forall i | 0 <= i < PT_WORDS :: Words(mem, base)[i] == Word(base, r, i)
  }

  /** No byte outside the eight pages differs. */
  ghost predicate OnlyTables(before: seq<byte>, after: seq<byte>, base: nat) {
    |after| == |before| && forall a | !(base <= a < base + 8 * PAGE) :: At(after, a) == At(before, a)
  }

  /** Word `i` of the pages is stored, low byte first. */
  method StoreWord(mem: array<byte>, base: nat, i: nat, w: u64)
    requires i < PT_WORDS && base + 8 * PAGE <= mem.Length
    modifies mem
    ensures Words(mem[..], base) == old(Words(mem[..], base))[i := w]
    ensures OnlyTables(old(mem[..]), mem[..], base)
  {
    ghost var before := mem[..];
    for j := 0 to 8
      invariant forall a | 0 <= a < mem.Length && !(base + 8 * i <= a < base + 8 * i + j) :: mem[a] == before[a]
      invariant forall m: nat | m < j :: mem[base + 8 * i + m] == Digit(w, m)
    {
      mem[base + 8 * i + j] := Digit(w, j);
    }
    WordStored(before, mem[..], base, i, w);
  }

  lemma {:induction false} WordStored(before: seq<byte>, after: seq<byte>, base: nat, i: nat, w: u64)
    requires i < PT_WORDS && base + 8 * PAGE <= |before| == |after|
    requires forall m: nat | m < 8 :: At(after, base + 8 * i + m) == Digit(w, m)
    requires forall a | 0 <= a < |after| && !(base + 8 * i <= a < base + 8 * i + 8) :: after[a] == before[a]
    ensures Words(after, base) == Words(before, base)[i := w]
  {
    hide Digit;
    StoredWord(after, base + 8 * i, w);
    forall k | 0 <= k < PT_WORDS && k != i ensures Words(after, base)[k] == Words(before, base)[k] {
      var a := base + 8 * k;
      assert forall x | a <= x < a + 8 :: At(after, x) == after[x] == before[x] == At(before, x);
    }
  }

  method ZeroPages(mem: array<byte>, base: nat)
    requires base + 8 * PAGE <= mem.Length
    modifies mem
    ensures forall i | 0 <= i < PT_WORDS :: Words(mem[..], base)[i] == 0
    ensures OnlyTables(old(mem[..]), mem[..], base)
  {
    for i := 0 to 8 * PAGE
      invariant forall a | 0 <= a < mem.Length :: mem[a] == if base <= a < base + i then 0 else old(mem[a])
    {
      mem[base + i] := 0;
    }
  }

  /** The tables `setupAndSwitch` leaves behind, in the physical memory they share with the
      kernel. */
  method Setup(mem: array<byte>, base: nat, r: Request)
    requires base + 8 * PAGE <= mem.Length && Fits(base, r)
    modifies mem
    ensures Built(mem[..], base, r) && OnlyTables(old(mem[..]), mem[..], base)
  {
    assert MappedGbs(r.ram) <= 512 && KernelPages(r.size) <= 512;
    hide Words, U64At, Word, MappedGbs, KernelPages, FixedWord, OnlyTables;
    ZeroPages(mem, base);
    ghost var blank := mem[..];
    FixedEntries(mem, base, r.virt);
    ghost var fixed := mem[..];
    DirectMap(mem, base, r.ram);
    ghost var direct := mem[..];
    KernelWindow(mem, base, r.phys, r.size);
    OnlyTablesAll(old(mem[..]), blank, fixed, direct, mem[..], base);
    forall i | 0 <= i < PT_WORDS ensures Words(mem[..], base)[i] == Word(base, r, i) {
      WordIs(base, r, i);
      if 1024 <= i < 1024 + MappedGbs(r.ram) {
        assert Words(direct, base)[1024 + (i - 1024)] == (i - 1024) * GB + 0x83;
      } else if 2048 <= i < 2048 + KernelPages(r.size) {
        assert Words(mem[..], base)[2048 + (i - 2048)] == r.phys + (i - 2048) * MB2 + 0x83;
      }
    }
  }

  lemma {:induction false} OnlyTablesAll(a: seq<byte>, b: seq<byte>, c: seq<byte>, d: seq<byte>, e: seq<byte>,
      base: nat)
    requires OnlyTables(a, b, base) && OnlyTables(b, c, base) && OnlyTables(c, d, base) && OnlyTables(d, e, base)
    ensures OnlyTables(a, e, base)
  {
  }

  /** The entries that are stored one by one. */
  function FixedWord(base: nat, virt: nat, i: nat): nat {
    if i == 0 then base + PAGE + 3
    else if i == 256 then base + 2 * PAGE + 3
    else if i == 511 then base + 3 * PAGE + 3
    else if 512 <= i < 516 then (i - 512) * GB + 0x83
    else if i == 1536 + GigaIndex(virt) then base + 4 * PAGE + 3
    else 0
  }

  /** A word of the tables, from its index among all. */
  lemma {:induction false} WordIs(base: nat, r: Request, i: nat)
    requires Fits(base, r) && i < PT_WORDS
    ensures Word(base, r, i) ==
      if 1024 <= i < 1024 + MappedGbs(r.ram) then (i - 1024) * GB + 0x83
      else if 2048 <= i < 2048 + KernelPages(r.size) then r.phys + (i - 2048) * MB2 + 0x83
      else FixedWord(base, r.virt, i)
  {
    assert MappedGbs(r.ram) <= 512 && KernelPages(r.size) <= 512;
    hide MappedGbs, KernelPages, GigaIndex;
    var k, g := i / 512, i % 512;
    assert i == 512 * k + g;
  }

  method FixedEntries(mem: array<byte>, base: nat, virt: nat)
    requires base + 8 * PAGE <= mem.Length && base % PAGE == 0 && base + 8 * PAGE <= PHYS
    requires forall i | 0 <= i < PT_WORDS :: Words(mem[..], base)[i] == 0
    modifies mem
    ensures forall i | 0 <= i < PT_WORDS :: Words(mem[..], base)[i] == FixedWord(base, virt, i)
    ensures OnlyTables(old(mem[..]), mem[..], base)
  {
    hide Words, U64At, GigaIndex;
    StoreWord(mem, base, 0, Flagged(base + PAGE, PRESENT + WRITE));
    StoreWord(mem, base, 512, Flagged(0 * GB, PRESENT + WRITE + HUGE));
    StoreWord(mem, base, 513, Flagged(1 * GB, PRESENT + WRITE + HUGE));
    StoreWord(mem, base, 514, Flagged(2 * GB, PRESENT + WRITE + HUGE));
    StoreWord(mem, base, 515, Flagged(3 * GB, PRESENT + WRITE + HUGE));
    StoreWord(mem, base, 256, Flagged(base + 2 * PAGE, PRESENT + WRITE));
    StoreWord(mem, base, 511, Flagged(base + 3 * PAGE, PRESENT + WRITE));
    StoreWord(mem, base, 3 * 512 + GigaIndex(virt), Flagged(base + 4 * PAGE, PRESENT + WRITE));
  }

  /** The direct-map loop fills table 2. */
  method DirectMap(mem: array<byte>, base: nat, ram: nat)
    requires base + 8 * PAGE <= mem.Length
    modifies mem
    ensures forall g | 0 <= g < MappedGbs(ram) :: Words(mem[..], base)[1024 + g] == g * GB + 0x83
    ensures forall i | 0 <= i < PT_WORDS && !(1024 <= i < 1024 + MappedGbs(ram)) ::
      Words(mem[..], base)[i] == old(Words(mem[..], base))[i]
    ensures OnlyTables(old(mem[..]), mem[..], base)
  {
    hide Words, U64At;
    var ramGbs := (ram + GB - 1) / GB;
    var mapGbs := if ramGbs < 4 then 4 else ramGbs;
    var g := 0;
    while g < mapGbs && g < 512
      invariant 0 <= g <= MappedGbs(ram)
      invariant forall k | 0 <= k < g :: Words(mem[..], base)[1024 + k] == k * GB + 0x83
      invariant forall i | 0 <= i < PT_WORDS && !(1024 <= i < 1024 + g) ::
        Words(mem[..], base)[i] == old(Words(mem[..], base))[i]
      invariant OnlyTables(old(mem[..]), mem[..], base)
    {
      StoreWord(mem, base, 1024 + g, Flagged(g * GB, PRESENT + WRITE + HUGE));
      g := g + 1;
    }
  }

  /** The kernel loop fills table 4. */
  method KernelWindow(mem: array<byte>, base: nat, phys: nat, size: nat)
    requires base + 8 * PAGE <= mem.Length && phys % MB2 == 0 && phys + GB <= PHYS
    modifies mem
    ensures forall p | 0 <= p < KernelPages(size) :: Words(mem[..], base)[2048 + p] == phys + p * MB2 + 0x83
    ensures forall i | 0 <= i < PT_WORDS && !(2048 <= i < 2048 + KernelPages(size)) ::
      Words(mem[..], base)[i] == old(Words(mem[..], base))[i]
    ensures OnlyTables(old(mem[..]), mem[..], base)
  {
    hide PageAligned, Words, U64At;
    var pages := (size + MB2 - 1) / MB2;
    var p := 0;
    while p < pages && p < 512
      invariant 0 <= p <= KernelPages(size)
      invariant forall k | 0 <= k < p :: Words(mem[..], base)[2048 + k] == phys + k * MB2 + 0x83
      invariant forall i | 0 <= i < PT_WORDS && !(2048 <= i < 2048 + p) ::
        Words(mem[..], base)[i] == old(Words(mem[..], base))[i]
      invariant OnlyTables(old(mem[..]), mem[..], base)
    {
      MegaAligned(phys, p);
      StoreWord(mem, base, 2048 + p, Flagged(phys + p * MB2, PRESENT + WRITE + HUGE));
      p := p + 1;
    }
  }

  // ---- What the tables mean ----

  /** Where each virtual address leads: the low 4 GiB to themselves, the direct map to its
      offset, and in the topmost slot the one gigabyte that holds the kernel's base. */
  function Meaning(r: Request, v: nat): Option<nat> {
    if v < SLOT then
      if v < 4 * GB then Some(v) else None
    else if HHDM <= v < HHDM + SLOT then
      if v - HHDM < MappedGbs(r.ram) * GB then Some(v - HHDM) else None
    else if TOP - SLOT <= v < TOP then
      if GigaIndex(v) == GigaIndex(r.virt) && v % GB < KernelPages(r.size) * MB2 then Some(r.phys + v % GB) else None
    else None
  }

  /** The entry `g` of table `k`. */
  lemma {:induction false} EntryIs(mem: seq<byte>, base: nat, r: Request, k: nat, g: nat)
    requires Built(mem, base, r) && k < 8 && g < 512
    ensures Entry(Tables(base, mem), base + k * PAGE + 8 * g) == Word(base, r, 512 * k + g)
  {
    hide U64At, Word;
    assert Words(mem, base)[512 * k + g] == U64At(mem, base + 8 * (512 * k + g));
  }

  lemma {:induction false} WordParts(k: nat, g: nat)
    requires g < 512
    ensures (512 * k + g) / 512 == k && (512 * k + g) % 512 == g
  {
  }

  lemma {:induction false} SlotOf(v: nat)
    requires Canonical(v)
    ensures TopIndex(v) == 0 <==> v < SLOT
    ensures TopIndex(v) == 256 <==> HHDM <= v < HHDM + SLOT
    ensures TopIndex(v) == 511 <==> TOP - SLOT <= v
    ensures v < TOP
  {
    var q := v / SLOT;
    assert q * SLOT <= v < (q + 1) * SLOT;
    if v < HHDM {
      assert q < 256;
      SlotIndex(q, 0, q);
    } else {
      assert 0x1FF_FF00 <= q < 0x200_0000;
      SlotIndex(q, 0xFFFF, q - 0x1FF_FE00);
    }
  }

  lemma {:induction false} SlotIndex(q: nat, laps: nat, rest: nat)
    requires q == laps * 512 + rest && rest < 512
    ensures q % 512 == rest
  {
  }

  lemma {:induction false} TableFrame(base: nat, k: nat)
    requires base % PAGE == 0 && k < 8 && base + 8 * PAGE <= PHYS
    ensures var e := base + k * PAGE + 3;
      Present(e) && !Huge(e) && Frame(e, PAGE) == base + k * PAGE
  {
    var q := base / PAGE;
    assert base == q * PAGE;
    assert base + k * PAGE + 3 == 32 * 0x80 * (q + k) + 3;
    assert (base + k * PAGE + 3) / 0x80 == 32 * (q + k);
  }

  lemma {:induction false} GigaFrame(g: nat)
    requires g < 512
    ensures var e := g * GB + 0x83; Present(e) && Huge(e) && Frame(e, GB) == g * GB
  {
    assert (g * GB + 0x83) / 0x80 == g * 0x80_0000 + 1;
  }

  lemma {:induction false} MegaFrame(phys: nat, p: nat)
    requires phys % MB2 == 0 && p < 512 && phys + GB <= PHYS
    ensures var e := phys + p * MB2 + 0x83; Present(e) && Huge(e) && Frame(e, MB2) == phys + p * MB2
  {
    var q := phys / MB2;
    assert phys + p * MB2 == (q + p) * MB2;
    assert ((q + p) * MB2 + 0x83) / 0x80 == (q + p) * 0x4000 + 1;
  }

  lemma {:induction false} Absent()
    ensures !Present(0)
  {
  }

  lemma {:induction false} GigaPlace(v: nat, g: nat)
    requires g == GigaIndex(v)
    ensures g * GB + v % GB == InSlot(v)
  {
    var w, x := v / GB, v % GB;
    var q := w / 512;
    assert w == q * 512 + g && v == w * GB + x;
    Remainder(v, q, g * GB + x);
  }

  lemma {:induction false} Remainder(v: nat, q: nat, rest: nat)
    requires v == q * SLOT + rest && rest < SLOT
    ensures v % SLOT == rest
  {
  }

  lemma {:induction false} MegaPlace(v: nat)
    ensures MegaIndex(v) * MB2 + v % MB2 == v % GB
  {
    var w, x := v / MB2, v % MB2;
    var q, p := w / 512, w % 512;
    assert w == q * 512 + p && v == w * MB2 + x;
    WithinGiga(v, q, p * MB2 + x);
  }

  lemma {:induction false} WithinGiga(v: nat, q: nat, rest: nat)
    requires v == q * GB + rest && rest < GB
    ensures v % GB == rest
  {
  }

  /** The walk over the built tables, from table 1 or 2. */
  lemma {:induction false} WalkGiga(mem: seq<byte>, base: nat, r: Request, v: nat, k: nat)
    requires Built(mem, base, r) && 1 <= k <= 2
    ensures var n := if k == 1 then 4 else MappedGbs(r.ram);
      Walk3(Tables(base, mem), v, base + k * PAGE) == if InSlot(v) < n * GB then Some(InSlot(v)) else None
  {
    assert Fits(base, r);
    hide Present, Huge, Frame, Entry, MappedGbs, Built, GigaIndex;
    var g := GigaIndex(v);
    EntryIs(mem, base, r, k, g);
    WordParts(k, g);
    GigaFrame(g);
    GigaPlace(v, g);
    Absent();
  }

  /** From table 3 through table 4. */
  lemma {:induction false} WalkKernel(mem: seq<byte>, base: nat, r: Request, v: nat)
    requires Built(mem, base, r)
    ensures Walk3(Tables(base, mem), v, base + 3 * PAGE) ==
      if GigaIndex(v) == GigaIndex(r.virt) && v % GB < KernelPages(r.size) * MB2 then Some(r.phys + v % GB) else None
  {
    assert Fits(base, r);
    hide Present, Huge, Frame, Entry, KernelPages, Built, Walk2, GigaIndex;
    var g := GigaIndex(v);
    EntryIs(mem, base, r, 3, g);
    WordParts(3, g);
    Absent();
    TableFrame(base, 4);
    WalkMega(mem, base, r, v);
  }

  lemma {:induction false} WalkMega(mem: seq<byte>, base: nat, r: Request, v: nat)
    requires Built(mem, base, r)
    ensures Walk2(Tables(base, mem), v, base + 4 * PAGE) ==
      if v % GB < KernelPages(r.size) * MB2 then Some(r.phys + v % GB) else None
  {
    assert Fits(base, r);
    hide Present, Huge, Frame, Entry, KernelPages, Built, MegaIndex;
    var p := MegaIndex(v);
    EntryIs(mem, base, r, 4, p);
    WordParts(4, p);
    MegaFrame(r.phys, p);
    MegaPlace(v);
    Absent();
  }

  /** The processor's walk over the built tables, for every virtual address. */
  lemma {:induction false} WalkIs(mem: seq<byte>, base: nat, r: Request, v: nat)
    requires Built(mem, base, r)
    ensures Walk(Tables(base, mem), v) == Meaning(r, v)
  {
    hide Present, Huge, Frame, Entry, KernelPages, MappedGbs;
    hide Built, Walk3, Canonical, TopIndex, GigaIndex, Word, InSlot;
    if !Canonical(v) {
      NotCanonical(v);
    } else {
      SlotOf(v);
      Offsets(v);
      TopEntry(mem, base, r, v);
      WalkGiga(mem, base, r, v, 1);
      WalkGiga(mem, base, r, v, 2);
      WalkKernel(mem, base, r, v);
    }
  }

  /** The top table leads to table 1, 2 or 3, or nowhere. */
  lemma {:induction false} TopEntry(mem: seq<byte>, base: nat, r: Request, v: nat)
    requires Built(mem, base, r)
    ensures var e, s := Entry(Tables(base, mem), base + 8 * TopIndex(v)), TopIndex(v);
      && (s == 0 ==> Present(e) && Frame(e, PAGE) == base + PAGE)
      && (s == 256 ==> Present(e) && Frame(e, PAGE) == base + 2 * PAGE)
      && (s == 511 ==> Present(e) && Frame(e, PAGE) == base + 3 * PAGE)
      && (s != 0 && s != 256 && s != 511 ==> !Present(e))
  {
    EntryIs(mem, base, r, 0, TopIndex(v));
    WordParts(0, TopIndex(v));
    TableFrame(base, 1);
    TableFrame(base, 2);
    TableFrame(base, 3);
    Absent();
    hide Present, Huge, Frame, Entry, Built, TopIndex;
  }

  lemma {:induction false} Offsets(v: nat)
    ensures v < SLOT ==> InSlot(v) == v
    ensures HHDM <= v < HHDM + SLOT ==> InSlot(v) == v - HHDM
  {
  }

  lemma {:induction false} NotCanonical(v: nat)
    requires !Canonical(v)
    ensures SLOT <= v && !(HHDM <= v < TOP)
  {
  }

  /** The direct map reaches every physical address below the size of RAM or 4 GiB, up to
      512 GiB, and nothing else. */
  lemma {:induction false} DirectMapIff(mem: seq<byte>, base: nat, r: Request, p: nat)
    requires Built(mem, base, r) && p < SLOT
    ensures Walk(Tables(base, mem), HHDM + p) == Some(p) <==> p < MappedGbs(r.ram) * GB
    ensures p < r.ram || p < 4 * GB ==> p < MappedGbs(r.ram) * GB
  {
    WalkIs(mem, base, r, HHDM + p);
    hide Built, Walk;
  }

  /** The loader's own addresses keep working. */
  lemma {:induction false} IdentityIff(mem: seq<byte>, base: nat, r: Request, v: nat)
    requires Built(mem, base, r) && v < SLOT
    ensures Walk(Tables(base, mem), v) == Some(v) <==> v < 4 * GB
  {
    WalkIs(mem, base, r, v);
    hide Built, Walk;
  }

  /** The byte at `off` of the kernel's range leads to its place in the kernel's memory. */
  predicate Reaches(t: Tables, r: Request, off: nat) {
    Walk(t, r.virt + off) == Some(r.phys + off)
  }

  ghost predicate KernelMapped(t: Tables, r: Request) {
    forall off: nat | off < r.size :: Reaches(t, r, off)
  }

  /** A kernel linked in the topmost slot is mapped at its addresses exactly when its base is a
      multiple of 1 GiB and it is no larger than that: the window starts at the gigabyte, whatever
      the base's offset in it. */
  lemma {:induction false} KernelMappedIff(mem: seq<byte>, base: nat, r: Request)
    requires Built(mem, base, r) && TOP - SLOT <= r.virt && r.size > 0 && r.virt + r.size <= TOP
    ensures KernelMapped(Tables(base, mem), r) <==> r.virt % GB == 0 && r.size <= GB
  {
    hide Built, Reaches;
    var t := Tables(base, mem);
    if r.virt % GB == 0 && r.size <= GB {
      forall off: nat | off < r.size ensures Reaches(t, r, off) {
        AlignedReaches(mem, base, r, off);
      }
    } else {
      var off := OffWindow(r);
      Misses(mem, base, r, off);
      assert !Reaches(t, r, off);
    }
  }

  lemma {:induction false} OffWindow(r: Request) returns (off: nat)
    requires r.size > 0 && !(r.virt % GB == 0 && r.size <= GB)
    ensures off < r.size && (r.virt + off) % GB != off
  {
    off := if r.virt % GB == 0 then GB else 0;
  }

  lemma {:induction false} KernelMeaning(r: Request, v: nat)
    requires TOP - SLOT <= v < TOP
    ensures Meaning(r, v) ==
      if GigaIndex(v) == GigaIndex(r.virt) && v % GB < KernelPages(r.size) * MB2 then Some(r.phys + v % GB) else None
  {
    hide KernelPages, MappedGbs;
  }

  /** The walk from the kernel's base plus `off`, in the topmost slot. */
  lemma {:induction false} KernelWalk(mem: seq<byte>, base: nat, r: Request, off: nat, v: nat)
    requires Built(mem, base, r) && TOP - SLOT <= r.virt && off < r.size && v == r.virt + off < TOP
    ensures Walk(Tables(base, mem), v) ==
      if GigaIndex(v) == GigaIndex(r.virt) && v % GB < KernelPages(r.size) * MB2 then Some(r.phys + v % GB) else None
  {
    hide *;
    WalkIs(mem, base, r, v);
    KernelMeaning(r, v);
  }

  lemma {:induction false} AlignedReaches(mem: seq<byte>, base: nat, r: Request, off: nat)
    requires Built(mem, base, r) && TOP - SLOT <= r.virt && r.virt % GB == 0 && off < r.size <= GB
      && r.virt + r.size <= TOP
    ensures Reaches(Tables(base, mem), r, off)
  {
    hide Walk, Built, KernelPages, GigaIndex;
    KernelWalk(mem, base, r, off, r.virt + off);
    InWindow(r, off);
  }

  lemma {:induction false} Misses(mem: seq<byte>, base: nat, r: Request, off: nat)
    requires Built(mem, base, r) && TOP - SLOT <= r.virt && off < r.size && r.virt + r.size <= TOP
    requires (r.virt + off) % GB != off
    ensures !Reaches(Tables(base, mem), r, off)
  {
    hide Walk, Built, KernelPages, GigaIndex;
    KernelWalk(mem, base, r, off, r.virt + off);
  }

  lemma {:induction false} InWindow(r: Request, off: nat)
    requires TOP - SLOT <= r.virt && r.virt % GB == 0 && off < r.size <= GB && r.virt + r.size <= TOP
    ensures GigaIndex(r.virt + off) == GigaIndex(r.virt) && (r.virt + off) % GB == off < KernelPages(r.size) * MB2
  {
  }
}
