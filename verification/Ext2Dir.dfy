/** Directory blocks: the writer's packing of variable-length records, with the back-patch
    that stretches the last record of a full block, and the kernel's walk over them. */
module Ext2Dir {
  import opened Bytes
  import opened Ext2Format

  datatype Entry = Entry(ino: u32, name: seq<byte>, kind: byte)

  /** Names come from a host directory; inode 0 would mark a deleted record. */
  predicate Good(e: Entry) { e.ino != 0 && |e.name| <= 255 }

  predicate AllShort(es: seq<Entry>) { forall i | 0 <= i < |es| :: |es[i].name| <= 255 }

  predicate AllGood(es: seq<Entry>) { forall i | 0 <= i < |es| :: Good(es[i]) }

  // ---- The kernel's walk ----

  function EntryAt(data: seq<byte>, off: nat): Entry {
    Entry(U32At(data, off), Window(data, off + 8, At(data, off + 6)), At(data, off + 7))
  }

  /** `ext2Readdir`, called until it returns false, over the contents of a directory file. */
  function Walk(data: seq<byte>, off: nat): seq<Entry>
    decreases |data| - off
  {
    if off >= |data| || off % BLOCK_SIZE + 8 > BLOCK_SIZE then []
    else
      var rec := U16At(data, off + 4);
      if rec < 8 || rec > BLOCK_SIZE then []
      else if U32At(data, off) == 0 then Walk(data, off + rec)
      else [EntryAt(data, off)] + Walk(data, off + rec)
  }

  // ---- The writer's records ----

  function MinSize(e: Entry): (n: nat)
    ensures 8 + |e.name| <= n <= 8 + |e.name| + 3
  {
    (8 + |e.name| + 3) / 4 * 4
  }

  /** `make_dir_entry`; a record length below the minimum adds no padding. */
  function Record(e: Entry, recLen: u16): (s: seq<byte>)
    requires |e.name| <= 255
    ensures |s| == Max(recLen, 8 + |e.name|)
  {
    Le32(e.ino) + Le16(recLen) + ([|e.name|, e.kind] + e.name + Zeros(Max(recLen - (8 + |e.name|), 0)))
  }

  /** The bytes that minimum-size records of `es` take. */
  function Size(es: seq<Entry>): nat {
    if es == [] then 0 else Size(es[..|es| - 1]) + MinSize(es[|es| - 1])
  }

  /** Records of minimum size, one after the other. */
  function Records(es: seq<Entry>): (s: seq<byte>)
    requires AllShort(es)
    ensures |s| == Size(es)
  {
    if es == [] then [] else Records(es[..|es| - 1]) + Record(es[|es| - 1], MinSize(es[|es| - 1]))
  }

  /** A finished block: the last record is stretched to the end of the block. */
  function Block(es: seq<Entry>): seq<byte>
    requires es != [] && AllShort(es) && Size(es[..|es| - 1]) <= BLOCK_SIZE
  {
    var front := es[..|es| - 1];
    Records(front) + Record(es[|es| - 1], BLOCK_SIZE - Size(front))
  }

  lemma {:induction false} RecordFields(e: Entry, recLen: u16)
    requires |e.name| <= 255
    ensures var s := Record(e, recLen);
      && U32At(s, 0) == e.ino && U16At(s, 4) == recLen && At(s, 6) == |e.name| && At(s, 7) == e.kind
      && (forall i | 0 <= i < |e.name| :: At(s, 8 + i) == e.name[i])
  {
    var tail := [|e.name|, e.kind] + e.name + Zeros(Max(recLen - (8 + |e.name|), 0));
    RecordParts(Le32(e.ino), Le16(recLen), tail);
    Le32Value(e.ino);
    Le16Value(recLen);
    assert forall i | 0 <= i < |e.name| :: tail[2 + i] == e.name[i];
  }

  lemma {:induction false} RecordParts(a: seq<byte>, b: seq<byte>, c: seq<byte>)
    requires |a| == 4 && |b| == 2
    ensures U32At(a + b + c, 0) == U32At(a, 0) && U16At(a + b + c, 4) == U16At(b, 0)
    ensures forall k | 0 <= k < |c| :: At(a + b + c, 6 + k) == c[k]
  {
  }

  // ---- Walking what was written ----

  /** The walk takes one record, whatever its slack, and goes on right behind it. */
  lemma {:induction false} WalkRecord(data: seq<byte>, off: nat, e: Entry, recLen: u16)
    requires Good(e) && 8 + |e.name| <= recLen <= BLOCK_SIZE
    requires off % BLOCK_SIZE + 8 <= BLOCK_SIZE && HasAt(data, off, Record(e, recLen))
    ensures Walk(data, off) == [e] + Walk(data, off + recLen)
  {
    var s := Record(e, recLen);
    RecordFields(e, recLen);
    HasAtWord(data, off, s, 0);
    HasAtHalf(data, off, s, 4);
    assert s[6] == At(s, 6) && s[7] == At(s, 7);
    forall i | 0 <= i < |e.name| ensures At(data, off + 8 + i) == e.name[i] {
      assert s[8 + i] == At(s, 8 + i);
    }
    assert Window(data, off + 8, |e.name|) == e.name;
  }

  lemma {:induction false} Associate<T>(a: seq<T>, b: seq<T>, c: seq<T>)
    ensures a + (b + c) == a + b + c
  {
  }

  lemma {:induction false} OffsetInBlock(base: nat, pos: nat)
    requires base % BLOCK_SIZE == 0 && pos < BLOCK_SIZE
    ensures (base + pos) % BLOCK_SIZE == pos
  {
  }

  lemma {:induction false} WalkRecords(data: seq<byte>, base: nat, es: seq<Entry>)
    requires base % BLOCK_SIZE == 0 && AllGood(es) && Size(es) < BLOCK_SIZE
    requires HasAt(data, base, Records(es))
    ensures Walk(data, base) == es + Walk(data, base + Size(es))
    decreases |es|, 0
  {
    if es == [] {
    } else {
      var front, e := es[..|es| - 1], es[|es| - 1];
      WalkNext(data, base, front, e, MinSize(e));
      assert es == front + [e];
    }
  }

  /** Records of minimum size and one more record behind them. */
  lemma {:induction false} WalkNext(data: seq<byte>, base: nat, front: seq<Entry>, e: Entry, recLen: u16)
    requires base % BLOCK_SIZE == 0 && AllGood(front) && Good(e)
    requires 8 + |e.name| <= recLen && Size(front) + recLen <= BLOCK_SIZE
    requires HasAt(data, base, Records(front) + Record(e, recLen))
    ensures Walk(data, base) == front + [e] + Walk(data, base + Size(front) + recLen)
    decreases |front|, 1
  {
    var pos := Size(front);
    OffsetInBlock(base, pos);
    HasAtBoth(data, base, Records(front), Record(e, recLen));
    WalkRecord(data, base + pos, e, recLen);
    WalkRecords(data, base, front);
    Associate(front, [e], Walk(data, base + pos + recLen));
  }

  /** A finished block gives back its entries, and the walk arrives at the next block. */
  lemma {:induction false} WalkBlock(data: seq<byte>, base: nat, es: seq<Entry>)
    requires es != [] && AllGood(es) && Size(es) <= BLOCK_SIZE && base % BLOCK_SIZE == 0
    requires HasAt(data, base, Block(es))
    ensures Walk(data, base) == es + Walk(data, base + BLOCK_SIZE)
  {
    var front, e := es[..|es| - 1], es[|es| - 1];
    WalkNext(data, base, front, e, BLOCK_SIZE - Size(front));
    assert es == front + [e];
  }

  // ---- Packing ----

  function Flatten<T>(gs: seq<seq<T>>): seq<T> {
    if gs == [] then [] else gs[0] + Flatten(gs[1..])
  }

  /** How `write_dir_blocks` spreads entries over blocks: `cur` waits in the current block.
      The final entry is never moved to a new block. */
  function Pack(cur: seq<Entry>, rest: seq<Entry>): seq<seq<Entry>>
    decreases |rest|
  {
    if rest == [] then []
    else if |rest| == 1 then [cur + rest]
    else if cur != [] && Size(cur) + MinSize(rest[0]) > BLOCK_SIZE then [cur] + Pack([rest[0]], rest[1..])
    else Pack(cur + [rest[0]], rest[1..])
  }

  /** The entries fit their blocks; `Pack` ensures it for all blocks but the last. */
  ghost predicate FinalFits(es: seq<Entry>)
  {
    var gs := Pack([], es);
    gs != [] ==> Size(gs[|gs| - 1]) <= BLOCK_SIZE
  }

  lemma {:induction false} PackKeepsEntries(cur: seq<Entry>, rest: seq<Entry>)
    requires rest != []
    ensures Flatten(Pack(cur, rest)) == cur + rest
    decreases |rest|
  {
    if |rest| == 1 {
      assert Flatten([cur + rest]) == cur + rest + Flatten<Entry>([]);
    } else {
      var e, more := rest[0], rest[1..];
      assert rest == [e] + more;
      if cur != [] && Size(cur) + MinSize(e) > BLOCK_SIZE {
        PackKeepsEntries([e], more);
        assert ([cur] + Pack([e], more))[1..] == Pack([e], more);
      } else {
        PackKeepsEntries(cur + [e], more);
        Associate(cur, [e], more);
      }
    }
  }

  /** A group that makes one whole block. */
  ghost predicate Fits(g: seq<Entry>) {
    g != [] && AllGood(g) && Size(g) <= BLOCK_SIZE
  }

  ghost predicate AllFit(gs: seq<seq<Entry>>) { forall i | 0 <= i < |gs| :: Fits(gs[i]) }

  /** A last group that has room for all but its final entry, which is `e`. */
  ghost predicate FitsButLast(g: seq<Entry>, e: Entry) {
    g != [] && AllGood(g) && Size(g[..|g| - 1]) <= BLOCK_SIZE && g[|g| - 1] == e
  }

  lemma {:induction false} RoomForMore(cur: seq<Entry>, e: Entry)
    requires AllGood(cur) && Good(e) && (cur == [] || Size(cur) + MinSize(e) <= BLOCK_SIZE)
    ensures Fits(cur + [e]) && (cur + [e])[..|cur|] == cur
  {
    SizeSnoc(cur, e);
  }

  /** Every group but the last fits its block. */
  lemma {:induction false} PackFits(cur: seq<Entry>, rest: seq<Entry>)
    requires rest != [] && AllGood(rest) && (cur == [] || Fits(cur))
    ensures var gs := Pack(cur, rest);
      gs != [] && AllFit(gs[..|gs| - 1]) && FitsButLast(gs[|gs| - 1], rest[|rest| - 1])
    decreases |rest|
  {
    hide MinSize;
    if |rest| == 1 {
      assert (cur + rest)[..|cur|] == cur;
    } else {
      hide Size;
      var e, more := rest[0], rest[1..];
      assert more[|more| - 1] == rest[|rest| - 1];
      if cur != [] && Size(cur) + MinSize(e) > BLOCK_SIZE {
        RoomForMore([], e);
        assert [] + [e] == [e];
        PackFits([e], more);
        var tail := Pack([e], more);
        assert ([cur] + tail)[..|tail|] == [cur] + tail[..|tail| - 1];
      } else {
        RoomForMore(cur, e);
        PackFits(cur + [e], more);
      }
    }
  }

  lemma {:induction false} SizeSnoc(es: seq<Entry>, e: Entry)
    ensures Size(es + [e]) == Size(es) + MinSize(e)
  {
    assert (es + [e])[..|es|] == es;
  }

  /** Records are multiples of four bytes. */
  lemma {:induction false} SizeAligned(es: seq<Entry>)
    ensures Size(es) % 4 == 0
  {
    if es != [] {
      SizeAligned(es[..|es| - 1]);
    }
  }

  /** A block comes out as one block exactly when its entries fit; otherwise its final record
      runs over the end. */
  lemma {:induction false} BlockLength(g: seq<Entry>)
    requires g != [] && AllShort(g) && Size(g[..|g| - 1]) <= BLOCK_SIZE
    ensures |Block(g)| == BLOCK_SIZE <==> Size(g) <= BLOCK_SIZE
    ensures |Block(g)| >= BLOCK_SIZE
  {
    var room := BLOCK_SIZE - Size(g[..|g| - 1]);
    SizeAligned(g[..|g| - 1]);
    MinSizeLeast(g[|g| - 1], room);
    assert |Block(g)| == BLOCK_SIZE - room + Max(room, 8 + |g[|g| - 1].name|);
  }

  lemma {:induction false} MinSizeLeast(e: Entry, room: nat)
    requires room % 4 == 0
    ensures MinSize(e) <= room <==> 8 + |e.name| <= room
  {
  }

  /** Pieces of one block each, one after the other. */
  function Concat(bs: seq<seq<byte>>): (s: seq<byte>)
    requires forall i | 0 <= i < |bs| :: |bs[i]| == BLOCK_SIZE
    ensures |s| == BLOCK_SIZE * |bs|
  {
    if bs == [] then [] else Concat(bs[..|bs| - 1]) + bs[|bs| - 1]
  }

  lemma {:induction false} ConcatHolds(bs: seq<seq<byte>>, i: nat)
    requires forall j | 0 <= j < |bs| :: |bs[j]| == BLOCK_SIZE
    requires i < |bs|
    ensures HasAt(Concat(bs), BLOCK_SIZE * i, bs[i])
  {
    var front := bs[..|bs| - 1];
    if i < |bs| - 1 {
      ConcatHolds(front, i);
    }
  }

  function Blocks(gs: seq<seq<Entry>>): (bs: seq<seq<byte>>)
    requires AllFit(gs)
    ensures |bs| == |gs| && forall i | 0 <= i < |bs| :: |bs[i]| == BLOCK_SIZE && bs[i] == Block(gs[i])
  {
    if gs == [] then [] else
      var last := gs[|gs| - 1];
      assert Fits(last);
      BlockLength(last);
      Blocks(gs[..|gs| - 1]) + [Block(last)]
  }

  /** The contents of a directory file. */
  function DirBytes(gs: seq<seq<Entry>>): (s: seq<byte>)
    requires AllFit(gs)
    ensures |s| == BLOCK_SIZE * |gs|
  {
    Concat(Blocks(gs))
  }

  /** `data` begins with the blocks of `gs`, one after the other. */
  ghost predicate HoldsBlocks(data: seq<byte>, gs: seq<seq<Entry>>)
    requires AllFit(gs)
  {
    forall i: nat | i < |gs| :: HasAt(data, BLOCK_SIZE * i, Block(gs[i]))
  }

  lemma {:induction false} DirBytesHold(gs: seq<seq<Entry>>)
    requires AllFit(gs)
    ensures HoldsBlocks(DirBytes(gs), gs)
  {
    forall i: nat | i < |gs| ensures HasAt(DirBytes(gs), BLOCK_SIZE * i, Block(gs[i])) {
      ConcatHolds(Blocks(gs), i);
    }
  }

  lemma {:induction false} Chain<T>(gs: seq<seq<T>>, ws: seq<seq<T>>, i: nat)
    requires |ws| == |gs| + 1 && i <= |gs|
    requires forall j | 0 <= j < |gs| :: ws[j] == gs[j] + ws[j + 1]
    ensures ws[i] == Flatten(gs[i..]) + ws[|gs|]
    decreases |gs| - i
  {
    if i < |gs| {
      Chain(gs, ws, i + 1);
      assert gs[i..][1..] == gs[i + 1..];
    }
  }

  /** The walk crosses the blocks of `gs` and goes on behind them. */
  lemma {:induction false} WalkBlocks(data: seq<byte>, gs: seq<seq<Entry>>)
    requires AllFit(gs) && HoldsBlocks(data, gs)
    ensures Walk(data, 0) == Flatten(gs) + Walk(data, BLOCK_SIZE * |gs|)
  {
    var ws := seq(|gs| + 1, j requires 0 <= j => Walk(data, BLOCK_SIZE * j));
    forall j | 0 <= j < |gs| ensures ws[j] == gs[j] + ws[j + 1] {
      assert Fits(gs[j]);
      WalkBlock(data, BLOCK_SIZE * j, gs[j]);
    }
    Chain(gs, ws, 0);
    assert gs[0..] == gs;
  }

  /** Every list of entries whose final entry fits comes back in order from the packed blocks. */
  lemma {:induction false} DirectoryRoundTrip(es: seq<Entry>)
    requires es != [] && AllGood(es) && FinalFits(es)
    ensures AllFit(Pack([], es)) && Walk(DirBytes(Pack([], es)), 0) == es
  {
    hide Pack, Flatten, DirBytes;
    var gs := Pack([], es);
    PackFits([], es);
    assert gs == gs[..|gs| - 1] + [gs[|gs| - 1]];
    PackKeepsEntries([], es);
    DirBytesHold(gs);
    WalkBlocks(DirBytes(gs), gs);
    assert [] + es == es;
  }

  lemma {:induction false} PackTwo(a: Entry, b: Entry)
    ensures Pack([], [a, b]) == [[a, b]]
  {
    assert [a, b][1..] == [b] && [] + [a] == [a] && [a] + [b] == [a, b];
    assert Pack([a], [b]) == [[a] + [b]];
    assert Pack([], [a, b]) == Pack([] + [a], [a, b][1..]);
  }

  // ---- What packing depends on ----

  ghost predicate SameNames(a: seq<Entry>, b: seq<Entry>) {
    |a| == |b| && forall i | 0 <= i < |a| :: a[i].name == b[i].name
  }

  ghost predicate SameGroups(gs: seq<seq<Entry>>, hs: seq<seq<Entry>>) {
    |gs| == |hs| && forall i | 0 <= i < |gs| :: SameNames(gs[i], hs[i])
  }

  lemma {:induction false} SameSize(a: seq<Entry>, b: seq<Entry>)
    requires SameNames(a, b)
    ensures Size(a) == Size(b)
  {
    if a != [] {
      SameSize(a[..|a| - 1], b[..|b| - 1]);
    }
  }

  /** Entries are spread over blocks by their names alone. */
  lemma {:induction false} SamePack(cur: seq<Entry>, rest: seq<Entry>, cur': seq<Entry>, rest': seq<Entry>)
    requires SameNames(cur, cur') && SameNames(rest, rest')
    ensures SameGroups(Pack(cur, rest), Pack(cur', rest'))
    decreases |rest|
  {
    SameSize(cur, cur');
    hide Size;
    if |rest| > 1 {
      var e, e' := rest[0], rest'[0];
      assert MinSize(e) == MinSize(e');
      if cur != [] && Size(cur) + MinSize(e) > BLOCK_SIZE {
        SamePack([e], rest[1..], [e'], rest'[1..]);
      } else {
        SamePack(cur + [e], rest[1..], cur' + [e'], rest'[1..]);
      }
    }
  }

  // ---- The back-patch of a full block ----

  lemma {:induction false} RecordInside(es: seq<Entry>, i: nat)
    requires AllShort(es) && i < |es|
    ensures HasAt(Records(es), Size(es[..i]), Record(es[i], MinSize(es[i])))
  {
    var front, last := es[..|es| - 1], es[|es| - 1];
    if i < |es| - 1 {
      RecordInside(front, i);
      assert front[..i] == es[..i];
      HasAtWider(Records(front), Record(last, MinSize(last)), Size(es[..i]), Record(es[i], MinSize(es[i])));
    } else {
      HasAtSelf(Records(front), Record(last, MinSize(last)));
    }
  }

  lemma {:induction false} RecLenField(data: seq<byte>, off: nat, e: Entry, recLen: u16)
    requires |e.name| <= 255 && HasAt(data, off, Record(e, recLen))
    ensures U16At(data, off + 4) == recLen
  {
    RecordFields(e, recLen);
    HasAtHalf(data, off, Record(e, recLen), 4);
  }

  lemma {:induction false} SizeStep(es: seq<Entry>, i: nat)
    requires i < |es|
    ensures Size(es[..i + 1]) == Size(es[..i]) + MinSize(es[i]) <= Size(es)
  {
    SizeSnoc(es[..i], es[i]);
    assert es[..i + 1] == es[..i] + [es[i]];
    if i + 1 < |es| {
      PrefixSmaller(es, i + 1);
    } else {
      assert es[..i + 1] == es;
    }
  }

  /** The record length the back-patch loop reads at the start of record `i`. */
  lemma {:induction false} RecLenInside(es: seq<Entry>, i: nat)
    requires AllShort(es) && i < |es|
    ensures U16At(Records(es), Size(es[..i]) + 4) == MinSize(es[i])
  {
    RecordInside(es, i);
    RecLenField(Records(es), Size(es[..i]), es[i], MinSize(es[i]));
  }

  /** Overwriting the record length and adding zeros stretches a record. */
  lemma {:induction false} RecordStretched(front: seq<byte>, e: Entry, recLen: u16, more: nat)
    requires |e.name| <= 255 && 8 + |e.name| <= recLen && recLen + more < 0x1_0000
    ensures var s := front + Record(e, recLen);
      s[..|front| + 4] + Le16(recLen + more) + s[|front| + 6..] + Zeros(more) == front + Record(e, recLen + more)
  {
    var named := [|e.name|, e.kind] + e.name;
    var ino, pad := Le32(e.ino), Zeros(recLen - (8 + |e.name|));
    Patched(front, ino, Le16(recLen), named + pad, Le16(recLen + more), Zeros(more));
    assert named + pad + Zeros(more) == named + Zeros(recLen + more - (8 + |e.name|));
  }

  lemma {:induction false} Patched(front: seq<byte>, a: seq<byte>, b: seq<byte>, c: seq<byte>, b': seq<byte>,
      zeros: seq<byte>)
    requires |a| == 4 && |b| == 2 && |b'| == 2
    ensures var s := front + (a + b + c);
      s[..|front| + 4] + b' + s[|front| + 6..] + zeros == front + (a + b' + (c + zeros))
  {
    var s := front + (a + b + c);
    assert s[..|front| + 4] == front + a;
    assert s[|front| + 6..] == c;
  }

  lemma {:induction false} LastApart(es: seq<Entry>)
    requires Fits(es)
    ensures var front, e := es[..|es| - 1], es[|es| - 1];
      && Size(es) == Size(front) + MinSize(e)
      && Records(es) == Records(front) + Record(e, MinSize(e))
      && Block(es) == Records(front) + Record(e, BLOCK_SIZE - Size(front))
  {
  }

  lemma {:induction false} LastStretched(es: seq<Entry>)
    requires Fits(es)
    ensures var s, last, len := Records(es), Size(es[..|es| - 1]), MinSize(es[|es| - 1]);
      var more := BLOCK_SIZE - Size(es);
      s[..last + 4] + Le16(len + more) + s[last + 6..] + Zeros(more) == Block(es)
  {
    LastApart(es);
    RecordStretched(Records(es[..|es| - 1]), es[|es| - 1], MinSize(es[|es| - 1]), BLOCK_SIZE - Size(es));
  }

  /** The walk-back loop: where the last record begins. */
  method LastRecord(current: seq<byte>, ghost es: seq<Entry>) returns (last: nat)
    requires es != [] && AllShort(es) && current == Records(es)
    ensures last == Size(es[..|es| - 1])
  {
    var pos := 0;
    last := 0;
    ghost var i := 0;
    while pos < |current|
      invariant 0 <= i <= |es| && pos == Size(es[..i]) && (i > 0 ==> last == Size(es[..i - 1]))
      decreases |es| - i
    {
      assert es[..|es|] == es;
      RecLenInside(es, i);
      SizeStep(es, i);
      last := pos;
      pos := pos + U16At(current, pos + 4);
      i := i + 1;
    }
    AllWalked(es, i);
  }

  /** The full-block branch of `write_dir_blocks`: stretch the last record over what remains. */
  method SealBlock(current: seq<byte>, ghost es: seq<Entry>) returns (block: seq<byte>)
    requires Fits(es) && current == Records(es)
    ensures block == Block(es)
  {
    LastApart(es);
    hide Record, Records, Block, Size, MinSize, Le16, U16At;
    var remaining := BLOCK_SIZE - |current|;
    block := current;
    if remaining > 0 {
      var last := LastRecord(current, es);
      RecLenInside(es, |es| - 1);
      var oldLen := U16At(current, last + 4);
      LastStretched(es);
      block := current[..last + 4] + Le16(oldLen + remaining) + current[last + 6..] + Zeros(remaining);
    }
  }

  lemma {:induction false} AllWalked(es: seq<Entry>, i: nat)
    requires i <= |es| && Size(es[..i]) >= Size(es)
    ensures i == |es|
  {
    if i < |es| {
      PrefixSmaller(es, i);
    }
  }

  lemma {:induction false} PrefixSmaller(es: seq<Entry>, i: nat)
    requires i < |es|
    ensures Size(es[..i]) < Size(es)
  {
    var front := es[..|es| - 1];
    if i < |es| - 1 {
      PrefixSmaller(front, i);
      assert front[..i] == es[..i];
    }
  }

  // ---- Directories of short names ----

  /** Names of one to four bytes make records of 12 bytes, 341 to a block with 4 bytes over. */
  ghost predicate AllTwelve(es: seq<Entry>) { forall i | 0 <= i < |es| :: MinSize(es[i]) == 12 }

  lemma {:induction false} TwelveSize(es: seq<Entry>)
    requires AllTwelve(es)
    ensures Size(es) == 12 * |es|
  {
    hide MinSize;
    if es != [] {
      TwelveSize(es[..|es| - 1]);
    }
  }

  /** 342 such entries go into one block, which has no room for the last. */
  lemma {:induction false} ShortNamesSpill(cur: seq<Entry>, rest: seq<Entry>)
    requires AllTwelve(cur) && AllTwelve(rest) && |cur| + |rest| == 342 && rest != []
    ensures Pack(cur, rest) == [cur + rest] && Size(cur + rest) > BLOCK_SIZE
    decreases |rest|
  {
    hide MinSize, Size;
    TwelveSize(cur);
    if |rest| == 1 {
      TwelveSize(cur + rest);
    } else {
      var e, more := rest[0], rest[1..];
      ShortNamesSpill(cur + [e], more);
      assert cur + [e] + more == cur + rest;
    }
  }

  /** At most 341 such entries go into a block, and one more into the last. */
  lemma {:induction false} TwelveBlocks(cur: seq<Entry>, rest: seq<Entry>)
    requires AllTwelve(cur) && AllTwelve(rest) && |cur| <= 341 && rest != []
    ensures |cur| + |rest| <= 341 * |Pack(cur, rest)| + 1
    decreases |rest|
  {
    hide MinSize, Size;
    TwelveSize(cur);
    if |rest| > 1 {
      var e, more := rest[0], rest[1..];
      if cur != [] && Size(cur) + MinSize(e) > BLOCK_SIZE {
        TwelveBlocks([e], more);
      } else {
        TwelveBlocks(cur + [e], more);
      }
    }
  }

  /** A directory of more than twelve blocks: from 4094 names of up to four bytes on. */
  lemma {:induction false} LongWitness(es: seq<Entry>)
    requires AllTwelve(es) && |es| > DIRECT * 341 + 1
    ensures |Pack([], es)| > DIRECT
  {
    hide Pack;
    TwelveBlocks([], es);
  }

  lemma {:induction false} SpillWitness(es: seq<Entry>)
    requires AllTwelve(es) && |es| == 342
    ensures !FinalFits(es)
  {
    hide Pack, Size;
    ShortNamesSpill([], es);
    assert [] + es == es;
  }
}
