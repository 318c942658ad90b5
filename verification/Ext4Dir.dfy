/** The ext4 writer's directory blocks: a full block is closed with an empty record when there is
    room for one, and left with an unfilled tail when there is not. */
module Ext4Dir {
  import opened Bytes
  import opened Ext2Format
  import opened Ext2Dir
  import opened Ext2DirStore

  /** The record of inode 0 that fills a block. */
  const FILLER := Entry(0, [], 0)

  function Room(g: seq<Entry>): int { BLOCK_SIZE - Size(g) }

  /** A tail too short for a record. */
  predicate Gap(g: seq<Entry>) { 0 < Room(g) < 12 }

  /** What is handed to `write_block` for a block that is not the last. */
  function Closed(g: seq<Entry>): (s: seq<byte>)
    requires AllShort(g) && Size(g) <= BLOCK_SIZE
    ensures |s| == if Gap(g) then Size(g) else BLOCK_SIZE
  {
    Records(g) + if Room(g) >= 12 then Record(FILLER, Room(g)) else []
  }

  /** The strings for the groups, the last one stretched to the end of its block. */
  function Emitted(g: seq<Entry>, last: bool): seq<byte>
    requires Fits(g)
  {
    if last then Block(g) else Closed(g)
  }

  // ---- The writer ----

  /** Closing a block that is full. */
  method CloseBlock(current: seq<byte>, ghost cur: seq<Entry>) returns (block: seq<byte>)
    requires Fits(cur) && current == Records(cur)
    ensures block == Closed(cur)
  {
    block := current;
    var remaining := BLOCK_SIZE - |current|;
    if remaining >= 12 {
      block := block + Record(FILLER, remaining);
    }
  }

  /** The strings `write_dir_blocks` writes, block by block. */
  method EmitBlocks(es: seq<Entry>) returns (blocks: seq<seq<byte>>)
    requires es != [] && AllGood(es) && FinalFits(es)
    ensures AllFit(Pack([], es)) && |blocks| == |Pack([], es)|
    ensures forall i | 0 <= i < |blocks| :: blocks[i] == Emitted(Pack([], es)[i], i == |blocks| - 1)
  {
    hide Pack, Record, Records, Block, Closed, Size, MinSize, FinalFits;
    ghost var done: seq<seq<Entry>>, cur: seq<Entry> := [], [];
    var current: seq<byte> := [];
    blocks := [];
    NonEmpty([]);
    assert es[0..] == es && [] + Pack([], es) == Pack([], es);
    for idx := 0 to |es| - 1
      invariant Packing(es, done, cur, es[idx..]) && AllShort(cur) && current == Records(cur)
      invariant |blocks| == |done| && forall i | 0 <= i < |blocks| :: blocks[i] == Closed(done[i])
    {
      var e := es[idx];
      PackingStep(es, done, cur, es[idx..]);
      assert es[idx..][1..] == es[idx + 1..];
      NonEmpty(cur);
      if |current| + MinSize(e) > BLOCK_SIZE && current != [] {
        var block := CloseBlock(current, cur);
        blocks := blocks + [block];
        done, cur, current := done + [cur], [], [];
        assert cur + [e] == [e];
      }
      RecordsMore(cur, e);
      current := current + Record(e, MinSize(e));
      cur := cur + [e];
    }
    var e := es[|es| - 1];
    assert es[|es| - 1..] == [e];
    PackingEnd(es, done, cur, e);
    FinalBlock(cur, e);
    var block := current + Record(e, BLOCK_SIZE - |current|);
    blocks := blocks + [block];
  }

  // ---- What the kernel lists ----

  /** A block as it stands in the image: freshly allocated blocks are zero. */
  function OnDisk(data: seq<byte>): (s: seq<byte>)
    requires |data| <= BLOCK_SIZE
    ensures |s| == BLOCK_SIZE
  {
    data + Zeros(BLOCK_SIZE - |data|)
  }

  /** The directory's blocks stand one after the other in its contents. */
  ghost predicate Contents(data: seq<byte>, gs: seq<seq<Entry>>) {
    && AllFit(gs) && |data| == BLOCK_SIZE * |gs|
    && (forall i | 0 <= i < |gs| - 1 :: HasAt(data, BLOCK_SIZE * i, OnDisk(Closed(gs[i]))))
    && (gs != [] ==> HasAt(data, BLOCK_SIZE * (|gs| - 1), Block(gs[|gs| - 1])))
  }

  /** The groups up to the first one closed with a gap. */
  function Shown(gs: seq<seq<Entry>>): seq<Entry> {
    if gs == [] then []
    else if |gs| > 1 && Gap(gs[0]) then gs[0]
    else gs[0] + Shown(gs[1..])
  }

  /** What comes behind that group. */
  function Hidden(gs: seq<seq<Entry>>): seq<Entry> {
    if gs == [] then []
    else if |gs| > 1 && Gap(gs[0]) then Flatten(gs[1..])
    else Hidden(gs[1..])
  }

  lemma {:induction false} ShownThenHidden(gs: seq<seq<Entry>>)
    ensures Shown(gs) + Hidden(gs) == Flatten(gs)
  {
    hide Gap;
    if gs != [] {
      ShownThenHidden(gs[1..]);
      Associate(gs[0], Shown(gs[1..]), Hidden(gs[1..]));
    }
  }

  lemma {:induction false} WalkFiller(data: seq<byte>, off: nat, room: u16)
    requires 8 <= room <= BLOCK_SIZE && off % BLOCK_SIZE + 8 <= BLOCK_SIZE && HasAt(data, off, Record(FILLER, room))
    ensures Walk(data, off) == Walk(data, off + room)
  {
    RecordFields(FILLER, room);
    hide Record, U16At, U32At;
    HasAtWord(data, off, Record(FILLER, room), 0);
    HasAtHalf(data, off, Record(FILLER, room), 4);
  }

  /** The walk stops in a gap. */
  lemma {:induction false} WalkGap(data: seq<byte>, off: nat, room: nat)
    requires (room == 4 || room == 8) && off % BLOCK_SIZE == BLOCK_SIZE - room && HasAt(data, off, Zeros(room))
    ensures Walk(data, off) == []
  {
    if room == 8 {
      assert At(data, off + 4) == Zeros(room)[4] && At(data, off + 5) == Zeros(room)[5];
    }
  }

  /** A closed block gives back its entries; the walk goes on to the next block exactly when it
      has no gap. */
  lemma {:induction false} WalkClosed(data: seq<byte>, base: nat, g: seq<Entry>)
    requires Fits(g) && base % BLOCK_SIZE == 0 && HasAt(data, base, OnDisk(Closed(g)))
    ensures Walk(data, base) == g + if Gap(g) then [] else Walk(data, base + BLOCK_SIZE)
  {
    hide Walk, Record, Records, Block, Size, HasAt;
    SizeAligned(g);
    var rs, n := Records(g), Size(g);
    if n == BLOCK_SIZE {
      FullBlock(g);
      HasAtBoth(data, base, Closed(g), Zeros(0));
      WalkBlock(data, base, g);
    } else {
      var tail := if Room(g) >= 12 then Record(FILLER, Room(g)) else [];
      HasAtBoth(data, base, Closed(g), Zeros(BLOCK_SIZE - |Closed(g)|));
      HasAtBoth(data, base, rs, tail);
      WalkRecords(data, base, g);
      OffsetInBlock(base, n);
      if Room(g) >= 12 {
        WalkFiller(data, base + n, Room(g));
      } else {
        WalkGap(data, base + n, Room(g));
      }
    }
  }

  lemma {:induction false} FullBlock(g: seq<Entry>)
    requires Fits(g) && Size(g) == BLOCK_SIZE
    ensures Closed(g) == Block(g)
  {
    assert Records(g) + [] == Records(g);
  }

  lemma {:induction false} WalkEnds(data: seq<byte>, off: nat)
    requires off >= |data|
    ensures Walk(data, off) == []
  {
  }

  lemma {:induction false} WalkFrom(data: seq<byte>, gs: seq<seq<Entry>>, i: nat)
    requires Contents(data, gs) && i <= |gs|
    ensures Walk(data, BLOCK_SIZE * i) == Shown(gs[i..])
    decreases |gs| - i
  {
    hide Walk, Gap, HasAt, Block, Closed, OnDisk;
    if i == |gs| {
      WalkEnds(data, BLOCK_SIZE * i);
    } else {
      WalkFrom(data, gs, i + 1);
      assert gs[i..][0] == gs[i] && gs[i..][1..] == gs[i + 1..];
      if i < |gs| - 1 {
        WalkClosed(data, BLOCK_SIZE * i, gs[i]);
      } else {
        WalkBlock(data, BLOCK_SIZE * i, gs[i]);
      }
    }
  }

  lemma {:induction false} ShownIff(gs: seq<seq<Entry>>)
    requires AllFit(gs)
    ensures |Shown(gs)| <= |Flatten(gs)|
    ensures Shown(gs) == Flatten(gs) <==> forall i | 0 <= i < |gs| - 1 :: !Gap(gs[i])
  {
    hide Gap;
    if gs != [] {
      var rest := gs[1..];
      assert forall i | 0 <= i < |rest| :: rest[i] == gs[i + 1];
      ShownIff(rest);
      Cancels(gs[0], Shown(rest), Flatten(rest));
      if |gs| > 1 {
        assert rest[0] == gs[1] && Fits(gs[1]);
        FlattenGrows(rest);
        GapsSplit(gs, rest);
      }
      hide AllFit;
    }
  }

  lemma {:induction false} GapsSplit(gs: seq<seq<Entry>>, rest: seq<seq<Entry>>)
    requires |gs| > 1 && rest == gs[1..]
    ensures (forall i | 0 <= i < |gs| - 1 :: !Gap(gs[i]))
      <==> !Gap(gs[0]) && (forall i | 0 <= i < |rest| - 1 :: !Gap(rest[i]))
  {
    hide Gap;
    assert forall i | 0 <= i < |rest| :: rest[i] == gs[i + 1];
    if !Gap(gs[0]) && (forall i | 0 <= i < |rest| - 1 :: !Gap(rest[i])) {
      forall i | 0 <= i < |gs| - 1 ensures !Gap(gs[i]) {
        if i > 0 {
          assert rest[i - 1] == gs[i];
        }
      }
    }
  }

  lemma {:induction false} Cancels(x: seq<Entry>, a: seq<Entry>, b: seq<Entry>)
    ensures x + a == x + b <==> a == b
  {
    assert (x + a)[|x|..] == a && (x + b)[|x|..] == b;
  }

  lemma {:induction false} FlattenGrows(gs: seq<seq<Entry>>)
    requires gs != [] && gs[0] != []
    ensures |Flatten(gs)| > 0
  {
  }

  /** The kernel lists the entries in full exactly when no block but the last was closed with a
      tail of 4 or 8 bytes; otherwise the listing ends with the first such block. */
  lemma {:induction false} ListedIff(es: seq<Entry>, data: seq<byte>)
    requires es != [] && AllGood(es) && Contents(data, Pack([], es))
    ensures Walk(data, 0) == Shown(Pack([], es))
    ensures Walk(data, 0) == es <==> forall i | 0 <= i < |Pack([], es)| - 1 :: !Gap(Pack([], es)[i])
  {
    hide Pack, Walk, Shown, Flatten, Gap, Block, Closed, OnDisk;
    var gs := Pack([], es);
    WalkFrom(data, gs, 0);
    assert gs[0..] == gs && [] + es == es;
    ShownIff(gs);
    PackKeepsEntries([], es);
  }

  /** From 343 entries of such names on, the first block is closed with a gap of 4 bytes. */
  lemma {:induction false} ShortNamesGap(cur: seq<Entry>, rest: seq<Entry>)
    requires AllTwelve(cur) && AllTwelve(rest) && |cur| <= 341 && |cur| + |rest| >= 343
    ensures |Pack(cur, rest)| > 1 && Gap(Pack(cur, rest)[0])
    decreases |rest|
  {
    hide MinSize, Size;
    TwelveSize(cur);
    var e, more := rest[0], rest[1..];
    if |cur| == 341 {
      PackSome([e], more);
    } else {
      ShortNamesGap(cur + [e], more);
    }
  }

  lemma {:induction false} PackSome(cur: seq<Entry>, rest: seq<Entry>)
    requires rest != []
    ensures Pack(cur, rest) != []
    decreases |rest|
  {
    hide MinSize, Size;
    if |rest| > 1 {
      PackSome(cur + [rest[0]], rest[1..]);
    }
  }

  /** A directory that loses entries: more than 342 names of up to four bytes. */
  lemma {:induction false} GapWitness(es: seq<Entry>, data: seq<byte>)
    requires AllGood(es) && AllTwelve(es) && |es| >= 343 && Contents(data, Pack([], es))
    ensures Walk(data, 0) != es
  {
    hide Walk, Pack, Contents, MinSize;
    ShortNamesGap([], es);
    ListedIff(es, data);
  }
}
