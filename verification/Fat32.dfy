/** The boot partition: FAT32 with one-sector clusters, filled by a bump allocator, and the
    kernel's read along a cluster chain. */
module Fat32 {
  import opened Bytes

  const SECTOR: nat := 512
  const RESERVED: nat := 32
  const END: nat := 0x0FFF_FFFF
  const BAD: nat := 0x0FFF_FFF8

  // ---- The size of a FAT ----

  /** A FAT of `f` sectors has an entry for every cluster it leaves room for. */
  predicate Enough(total: nat, f: nat) {
    4 * (total - RESERVED - 2 * f + 2) <= SECTOR * f
  }

  /** The sizing loop finds the least FAT that is large enough. */
  method FatSize(total: nat) returns (f: nat)
    requires total >= 35
    ensures Enough(total, f) && f > 0 && forall g: nat | g < f :: !Enough(total, g)
    ensures f == CeilDiv(4 * (total - RESERVED) + 8, 520)
  {
    var data := total - RESERVED;
    f := (data * 4 / SECTOR + 2 * 4) / (2 * SECTOR + 4) + 1;
    StartsBelow(total);
    while true
      invariant 0 < f && 520 * (f - 1) < 4 * (total - 30)
      decreases 4 * (total - 30) - 520 * (f - 1)
    {
      var maxClusters := total - (RESERVED + 2 * f);
      var needed := ((maxClusters + 2) * 4 + SECTOR - 1) / SECTOR;
      if needed <= f {
        break;
      }
      f := f + 1;
    }
  }

  /** The loop's first guess is never above the least size. */
  lemma {:induction false} StartsBelow(total: nat)
    requires total >= 35
    ensures 520 * (((total - RESERVED) * 4 / SECTOR + 2 * 4) / (2 * SECTOR + 4)) < 4 * (total - 30)
  {
    var a := (total - RESERVED) * 4 / SECTOR;
    var b := (a + 8) / 1028;
    assert 128 * a <= total - RESERVED && 1028 * b <= a + 8;
  }

  // ---- Layout ----

  /** Sectors in all and in each FAT. */
  datatype Shape = Shape(total: nat, fat: nat)

  predicate Sound(s: Shape) {
    Enough(s.total, s.fat) && RESERVED + 2 * s.fat < s.total < 0x0FFF_0000
  }

  function Clusters(s: Shape): int { s.total - RESERVED - 2 * s.fat }

  /** Byte address of copy `copy` of the FAT. */
  function FatAt(s: Shape, copy: nat): nat { (RESERVED + if copy == 0 then 0 else s.fat) * SECTOR }

  function EntryAt(s: Shape, copy: nat, c: nat): nat { FatAt(s, copy) + 4 * c }

  function DataAt(s: Shape): nat { (RESERVED + 2 * s.fat) * SECTOR }

  function ClusterAt(s: Shape, c: nat): int { DataAt(s) + (c - 2) * SECTOR }

  /** Cluster numbers of the data region. */
  predicate InRange(s: Shape, c: nat) { 2 <= c < Clusters(s) + 2 }

  /** Each cluster's entry lies in its own FAT copy, and its bytes in the data region. */
  lemma {:induction false} EveryClusterHasAnEntry(s: Shape, c: nat)
    requires Sound(s) && InRange(s, c)
    ensures EntryAt(s, 0, c) + 4 <= FatAt(s, 1) && EntryAt(s, 1, c) + 4 <= DataAt(s)
    ensures DataAt(s) <= ClusterAt(s, c) && ClusterAt(s, c) + SECTOR <= s.total * SECTOR
  {
  }

  /** The allocator has no limit of its own: a cluster's bytes keep the image's length exactly
      when the cluster exists. */
  lemma {:induction false} ClusterWriteLength(s: Shape, img: seq<byte>, c: nat, piece: seq<byte>)
    requires Sound(s) && c >= 2 && |img| == s.total * SECTOR && 0 < |piece| <= SECTOR
    ensures |SliceAssign(img, ClusterAt(s, c), ClusterAt(s, c) + |piece|, piece)| == |img| <==> InRange(s, c)
  {
  }

  // ---- Entries ----

  function Entry(s: Shape, img: seq<byte>, copy: nat, c: nat): u32 {
    U32At(img, EntryAt(s, copy, c))
  }

  function PutWord(img: seq<byte>, off: nat, v: u32): seq<byte> {
    SliceAssign(img, off, off + 4, Le32(v))
  }

  lemma {:induction false} PutWordIn(img: seq<byte>, off: nat, v: u32)
    requires off + 4 <= |img|
    ensures |PutWord(img, off, v)| == |img| && U32At(PutWord(img, off, v), off) == v
    ensures forall k | !(off <= k < off + 4) :: At(PutWord(img, off, v), k) == At(img, k)
  {
    hide Le32, U32At, At, SliceAssign;
    SliceAssignInPlace(img, off, Le32(v));
    HasAtWord(PutWord(img, off, v), off, Le32(v), 0);
    Le32Value(v);
  }

  /** `set_fat_entry` */
  function Linked(s: Shape, img: seq<byte>, c: nat, v: u32): seq<byte> {
    PutWord(PutWord(img, EntryAt(s, 0, c), v), EntryAt(s, 1, c), v)
  }

  /** Byte `k` is part of the entry of cluster `c` in either copy. */
  predicate InEntry(s: Shape, c: nat, k: int) {
    EntryAt(s, 0, c) <= k < EntryAt(s, 0, c) + 4 || EntryAt(s, 1, c) <= k < EntryAt(s, 1, c) + 4
  }

  /** Bytes that belong to clusters below `c`, or to no cluster. */
  predicate Below(s: Shape, c: nat, k: int) {
    && !(EntryAt(s, 0, c) <= k < FatAt(s, 1))
    && !(EntryAt(s, 1, c) <= k < DataAt(s))
    && !(ClusterAt(s, c) <= k)
  }

  /** Only bytes of clusters from `c` on differ. */
  ghost predicate OnlyFrom(s: Shape, img: seq<byte>, img': seq<byte>, c: nat) {
    |img'| == |img| && forall k | Below(s, c, k) :: At(img', k) == At(img, k)
  }

  lemma {:induction false} LinkedIn(s: Shape, img: seq<byte>, c: nat, v: u32)
    requires Sound(s) && c < Clusters(s) + 2 && |img| == s.total * SECTOR
    ensures var img' := Linked(s, img, c, v);
      && |img'| == |img| && Entry(s, img', 0, c) == v && Entry(s, img', 1, c) == v
      && (forall k | !InEntry(s, c, k) :: At(img', k) == At(img, k))
  {
    hide PutWord;
    var a, b := EntryAt(s, 0, c), EntryAt(s, 1, c);
    PutWordIn(img, a, v);
    PutWordIn(PutWord(img, a, v), b, v);
  }

  predicate HasEntry(s: Shape, c: nat) { 4 * c + 4 <= s.fat * SECTOR }

  /** Both copies of the FAT agree in every entry. */
  ghost predicate Copies(s: Shape, img: seq<byte>) {
    forall c: nat | HasEntry(s, c) :: Entry(s, img, 0, c) == Entry(s, img, 1, c)
  }

  lemma {:induction false} LinkedOthers(s: Shape, img: seq<byte>, c: nat, v: u32, copy: nat, d: nat)
    requires Sound(s) && c < Clusters(s) + 2 && |img| == s.total * SECTOR && copy < 2 && HasEntry(s, d) && d != c
    ensures Entry(s, Linked(s, img, c, v), copy, d) == Entry(s, img, copy, d)
  {
    hide Linked, At;
    LinkedIn(s, img, c, v);
  }

  /** Writing the same word into both copies keeps them equal. */
  lemma {:induction false} LinkedCopies(s: Shape, img: seq<byte>, c: nat, v: u32)
    requires Sound(s) && c < Clusters(s) + 2 && |img| == s.total * SECTOR && Copies(s, img)
    ensures Copies(s, Linked(s, img, c, v))
  {
    hide Linked, Entry;
    var img' := Linked(s, img, c, v);
    forall d: nat | HasEntry(s, d) ensures Entry(s, img', 0, d) == Entry(s, img', 1, d) {
      if d == c {
        LinkedIn(s, img, c, v);
      } else {
        LinkedOthers(s, img, c, v, 0, d);
        LinkedOthers(s, img, c, v, 1, d);
      }
    }
  }

  // ---- Files ----

  function Length(data: seq<byte>): nat { Max(1, CeilDiv(|data|, SECTOR)) }

  /** The chain from `first` runs through `n` consecutive clusters and ends. */
  ghost predicate Chain(s: Shape, img: seq<byte>, first: nat, n: nat) {
    && n > 0 && (forall c | first <= c < first + n - 1 :: Entry(s, img, 0, c) == c + 1)
    && Entry(s, img, 0, first + n - 1) == END
  }

  /** A stored file: its chain and its bytes. */
  ghost predicate FileAt(s: Shape, img: seq<byte>, first: nat, data: seq<byte>) {
    && 2 <= first && first + Length(data) <= Clusters(s) + 2
    && Chain(s, img, first, Length(data)) && ClusterAt(s, first) >= 0 && HasAt(img, ClusterAt(s, first), data)
  }

  lemma {:induction false} EntryKept(s: Shape, img: seq<byte>, img': seq<byte>, c: nat, d: nat)
    requires Sound(s) && OnlyFrom(s, img, img', c) && d < c <= Clusters(s) + 2
    ensures Entry(s, img', 0, d) == Entry(s, img, 0, d)
  {
    hide At;
    var a := EntryAt(s, 0, d);
    assert Below(s, c, a) && Below(s, c, a + 1) && Below(s, c, a + 2) && Below(s, c, a + 3);
    hide Below, EntryAt;
  }

  /** A file is left alone by whatever is written for later clusters. */
  lemma {:induction false} FileKept(s: Shape, img: seq<byte>, img': seq<byte>, first: nat, data: seq<byte>, c: nat)
    requires Sound(s) && FileAt(s, img, first, data) && OnlyFrom(s, img, img', c)
    requires first + Length(data) <= c <= Clusters(s) + 2
    ensures FileAt(s, img', first, data)
  {
    hide At, Entry;
    forall d | first <= d < first + Length(data) ensures Entry(s, img', 0, d) == Entry(s, img, 0, d) {
      EntryKept(s, img, img', c, d);
    }
    var off := ClusterAt(s, first);
    forall k | 0 <= k < |data| ensures At(img', off + k) == data[k] {
      assert Below(s, c, off + k);
    }
  }

  /** What has been done of a file after `i` of its `n` clusters. */
  ghost predicate Partly(s: Shape, was: seq<byte>, img: seq<byte>, first: nat, i: nat, n: nat, data: seq<byte>) {
    && n > 0 && Copies(s, img) && OnlyFrom(s, was, img, first) && ClusterAt(s, first) >= 0
    && HasAt(img, ClusterAt(s, first), data[..Min(i * SECTOR, |data|)])
    && (forall c | first <= c < first + Min(i, n - 1) :: Entry(s, img, 0, c) == c + 1)
    && (i == n ==> Entry(s, img, 0, first + n - 1) == END)
  }

  lemma {:induction false} NotYet(s: Shape, img: seq<byte>, first: nat, n: nat, data: seq<byte>)
    requires Copies(s, img) && InRange(s, first) && |img| == s.total * SECTOR && n > 0
    ensures Partly(s, img, img, first, 0, n, data)
  {
  }

  /** The part of the data that goes into cluster `i`. */
  function Piece(data: seq<byte>, i: nat): seq<byte> {
    if i * SECTOR < |data| then data[i * SECTOR..Min((i + 1) * SECTOR, |data|)] else []
  }

  function Put(s: Shape, img: seq<byte>, c: nat, piece: seq<byte>): seq<byte>
    requires ClusterAt(s, c) >= 0
  {
    SliceAssign(img, ClusterAt(s, c), ClusterAt(s, c) + |piece|, piece)
  }

  lemma {:induction false} PutIn(s: Shape, img: seq<byte>, c: nat, piece: seq<byte>)
    requires Sound(s) && InRange(s, c) && |img| == s.total * SECTOR && |piece| <= SECTOR
    ensures ClusterAt(s, c) >= 0
    ensures var img' := Put(s, img, c, piece);
      && |img'| == |img| && HasAt(img', ClusterAt(s, c), piece)
      && forall k | !(ClusterAt(s, c) <= k < ClusterAt(s, c) + |piece|) :: At(img', k) == At(img, k)
  {
    hide At, SliceAssign;
    SliceAssignInPlace(img, ClusterAt(s, c), piece);
  }

  /** One turn of the loop: the piece, then the entry. */
  lemma {:induction false} OneMoreCluster(s: Shape, was: seq<byte>, img: seq<byte>, first: nat, i: nat, n: nat,
      data: seq<byte>)
    requires Sound(s) && Partly(s, was, img, first, i, n, data) && i < n == Length(data)
    requires 2 <= first && first + n <= Clusters(s) + 2 && |was| == s.total * SECTOR
    ensures ClusterAt(s, first + i) >= 0
    ensures var v := if i < n - 1 then first + i + 1 else END;
      Partly(s, was, Linked(s, Put(s, img, first + i, Piece(data, i)), first + i, v), first, i + 1, n, data)
  {
    hide At, Entry, HasAt, Copies, OnlyFrom, Put, Linked, EntryAt, Clusters;
    var c, piece := first + i, Piece(data, i);
    ClusterExists(s, first, i, n);
    SameSize(s, was, img, first);
    PutIn(s, img, c, piece);
    var mid := Put(s, img, c, piece);
    var v: u32 := if i < n - 1 then c + 1 else END;
    PutEntries(s, img, mid, c, |piece|);
    LinkedCopies(s, mid, c, v);
    LinkedIn(s, mid, c, v);
    var img' := Linked(s, mid, c, v);
    LinksMore(s, img, mid, img', first, i, n, v);
    OnlyLater(s, was, img, mid, img', first, c, |piece|);
    Grown(s, img, mid, img', first, i, n, data);
  }

  lemma {:induction false} ClusterExists(s: Shape, first: nat, i: nat, n: nat)
    requires Sound(s) && i < n && 2 <= first && first + n <= Clusters(s) + 2
    ensures InRange(s, first + i) && first + i < Clusters(s) + 2 && first + i + 1 < 0x0FFF_FFFF
      && HasEntry(s, first + i)
    ensures forall d: nat | d <= first + i :: HasEntry(s, d)
  {
  }

  lemma {:induction false} SameSize(s: Shape, was: seq<byte>, img: seq<byte>, c: nat)
    requires OnlyFrom(s, was, img, c)
    ensures |img| == |was|
  {
  }

  lemma {:induction false} LinksMore(s: Shape, img: seq<byte>, mid: seq<byte>, img': seq<byte>, first: nat, i: nat,
      n: nat, v: u32)
    requires Sound(s) && i < n && 2 <= first && first + n <= Clusters(s) + 2 && |mid| == s.total * SECTOR
    requires forall c | first <= c < first + Min(i, n - 1) :: Entry(s, img, 0, c) == c + 1
    requires forall d: nat | HasEntry(s, d) :: Entry(s, mid, 0, d) == Entry(s, img, 0, d)
    requires img' == Linked(s, mid, first + i, v) && v == if i < n - 1 then first + i + 1 else END
    ensures forall c | first <= c < first + Min(i + 1, n - 1) :: Entry(s, img', 0, c) == c + 1
    ensures i + 1 == n ==> Entry(s, img', 0, first + n - 1) == END
  {
    hide Entry, Linked;
    ClusterExists(s, first, i, n);
    LinkedIn(s, mid, first + i, v);
    forall c | first <= c < first + Min(i + 1, n - 1) ensures Entry(s, img', 0, c) == c + 1 {
      if c < first + i {
        LinkedOthers(s, mid, first + i, v, 0, c);
      }
    }
  }

  lemma {:induction false} PutEntries(s: Shape, img: seq<byte>, mid: seq<byte>, c: nat, n: nat)
    requires Sound(s) && InRange(s, c) && |mid| == |img| == s.total * SECTOR && Copies(s, img)
    requires forall k | !(ClusterAt(s, c) <= k < ClusterAt(s, c) + n) :: At(mid, k) == At(img, k)
    ensures Copies(s, mid) && forall d: nat | HasEntry(s, d) :: Entry(s, mid, 0, d) == Entry(s, img, 0, d)
  {
    hide At;
    forall copy: nat, d: nat | copy < 2 && HasEntry(s, d) ensures Entry(s, mid, copy, d) == Entry(s, img, copy, d) {
    }
    hide Entry;
    assert forall d: nat | HasEntry(s, d) :: Entry(s, mid, 0, d) == Entry(s, img, 0, d);
    assert forall d: nat | HasEntry(s, d) :: Entry(s, mid, 1, d) == Entry(s, img, 1, d);
  }

  lemma {:induction false} OnlyLater(s: Shape, was: seq<byte>, img: seq<byte>, mid: seq<byte>, img': seq<byte>,
      first: nat, c: nat, n: nat)
    requires Sound(s) && OnlyFrom(s, was, img, first) && 2 <= first <= c && InRange(s, c)
    requires |mid| == |img| == |img'|
    requires forall k | !(ClusterAt(s, c) <= k < ClusterAt(s, c) + n) :: At(mid, k) == At(img, k)
    requires forall k | !InEntry(s, c, k) :: At(img', k) == At(mid, k)
    ensures OnlyFrom(s, was, img', first)
  {
    hide At;
    forall k | Below(s, first, k) ensures At(img', k) == At(was, k) {
      assert At(img, k) == At(was, k);
      assert At(mid, k) == At(img, k);
    }
  }

  lemma {:induction false} Grown(s: Shape, img: seq<byte>, mid: seq<byte>, img': seq<byte>, first: nat, i: nat,
      n: nat, data: seq<byte>)
    requires Sound(s) && i < n == Length(data) && 2 <= first && first + n <= Clusters(s) + 2
    requires ClusterAt(s, first) >= 0 && HasAt(img, ClusterAt(s, first), data[..Min(i * SECTOR, |data|)])
      && |mid| == |img| == |img'|
    requires HasAt(mid, ClusterAt(s, first + i), Piece(data, i))
    requires forall k | !(ClusterAt(s, first + i) <= k < ClusterAt(s, first + i) + |Piece(data, i)|) ::
      At(mid, k) == At(img, k)
    requires var c := first + i;
      forall k | !InEntry(s, c, k) :: At(img', k) == At(mid, k)
    ensures HasAt(img', ClusterAt(s, first), data[..Min((i + 1) * SECTOR, |data|)])
  {
    hide At, HasAt;
    var off, front, piece := ClusterAt(s, first), data[..Min(i * SECTOR, |data|)], Piece(data, i);
    assert data[..Min((i + 1) * SECTOR, |data|)] == front + piece;
    assert ClusterAt(s, first + i) == off + i * SECTOR;
    EntriesBefore(s, first + i, off);
    KeptAt(img, mid, off, front);
    NothingAt(mid, off + |front|);
    HasAtBoth(mid, off, front, piece);
    KeptAt(mid, img', off, front + piece);
  }

  /** FAT entries lie before every cluster. */
  lemma {:induction false} EntriesBefore(s: Shape, c: nat, off: int)
    requires Sound(s) && c < Clusters(s) + 2 && off >= DataAt(s)
    ensures EntryAt(s, 0, c) + 4 <= off && EntryAt(s, 1, c) + 4 <= off
  {
  }

  lemma {:induction false} KeptAt(img: seq<byte>, img': seq<byte>, off: nat, piece: seq<byte>)
    requires HasAt(img, off, piece) && |img'| == |img|
    requires forall k | off <= k < off + |piece| :: At(img', k) == At(img, k)
    ensures HasAt(img', off, piece) && off + |piece| <= |img'|
  {
    hide At;
  }

  lemma {:induction false} NothingAt(img: seq<byte>, off: nat)
    requires off <= |img|
    ensures HasAt(img, off, [])
  {
  }

  lemma {:induction false} Complete(s: Shape, was: seq<byte>, img: seq<byte>, first: nat, data: seq<byte>)
    requires Partly(s, was, img, first, Length(data), Length(data), data)
    requires 2 <= first && first + Length(data) <= Clusters(s) + 2
    ensures FileAt(s, img, first, data) && Copies(s, img) && OnlyFrom(s, was, img, first)
  {
    hide At, Entry, Copies, OnlyFrom;
    assert data[..Min(Length(data) * SECTOR, |data|)] == data;
  }

  class Partition {
    const shape: Shape
    var img: seq<byte>
    var nextCluster: nat

    ghost predicate Valid()
      reads this
    {
      Sound(shape) && |img| == shape.total * SECTOR && 2 <= nextCluster <= Clusters(shape) + 2 && Copies(shape, img)
    }

    /** A partition with its FAT sized and the two reserved entries set. */
    constructor (total: nat)
      requires 35 <= total < 0x0FFF_0000
      ensures Valid() && shape.total == total && nextCluster == 2
      ensures Entry(shape, img, 0, 0) == 0x0FFF_FFF8 && Entry(shape, img, 0, 1) == END
    {
      var f := FatSize(total);
      var s := Shape(total, f);
      var blank := Zeros(total * SECTOR);
      BlankCopies(s, blank);
      hide Linked, Entry, Copies;
      LinkedCopies(s, blank, 0, 0x0FFF_FFF8);
      LinkedIn(s, blank, 0, 0x0FFF_FFF8);
      var one := Linked(s, blank, 0, 0x0FFF_FFF8);
      LinkedCopies(s, one, 1, END);
      LinkedIn(s, one, 1, END);
      LinkedOthers(s, one, 1, END, 0, 0);
      shape, nextCluster := s, 2;
      img := Linked(s, one, 1, END);
    }

    method AllocCluster() returns (c: nat)
      modifies `nextCluster
      ensures c == old(nextCluster) && nextCluster == c + 1
    {
      c := nextCluster;
      nextCluster := nextCluster + 1;
    }

    /** `set_fat_entry`: the same word into each copy. */
    method SetFatEntry(c: nat, v: u32)
      requires Valid() && c < Clusters(shape) + 2
      modifies `img
      ensures Valid() && img == Linked(shape, old(img), c, v)
    {
      hide Copies, Linked;
      ghost var was := img;
      LinkedCopies(shape, img, c, v);
      LinkedIn(shape, img, c, v);
      for copy := 0 to 2
        invariant copy == 0 ==> img == was
        invariant copy == 1 ==> img == PutWord(was, EntryAt(shape, 0, c), v)
        invariant copy == 2 ==> img == PutWord(PutWord(was, EntryAt(shape, 0, c), v), EntryAt(shape, 1, c), v)
      {
        img := PutWord(img, EntryAt(shape, copy, c), v);
      }
      LinkedIs(shape, was, c, v);
    }

    /** `write_file_to_clusters`: the file is stored in clusters that no earlier file has, and
        nothing of the earlier clusters changes. */
    method WriteFile(data: seq<byte>) returns (first: nat)
      requires Valid() && nextCluster + Length(data) <= Clusters(shape) + 2
      modifies this
      ensures Valid() && first == old(nextCluster) && nextCluster == first + Length(data)
      ensures FileAt(shape, img, first, data) && OnlyFrom(shape, old(img), img, first)
    {
      hide Copies, Linked, Entry, Put, Partly, Enough;
      ghost var was := img;
      var n := Length(data);
      first := AllocCluster();
      NotYet(shape, was, first, n, data);
      for i := 0 to n
        invariant Sound(shape) && |img| == |was| && Copies(shape, img)
          && nextCluster == first + (if i == 0 then 1 else i)
        invariant Partly(shape, was, img, first, i, n, data)
      {
        ghost var before := img;
        OneMoreCluster(shape, was, img, first, i, n, data);
        var c := first;
        if i > 0 {
          c := AllocCluster();
        }
        var piece := Piece(data, i);
        PutIn(shape, img, c, piece);
        PutEntries(shape, img, Put(shape, img, c, piece), c, |piece|);
        img := Put(shape, img, c, piece);
        if i < n - 1 {
          SetFatEntry(c, c + 1);
        } else {
          SetFatEntry(c, END);
        }
      }
      Complete(shape, was, img, first, data);
    }
  }

  function TotalLength(files: seq<seq<byte>>): nat {
    if files == [] then 0 else TotalLength(files[..|files| - 1]) + Length(files[|files| - 1])
  }

  /** Every file is stored, each in clusters of its own, in order. */
  ghost predicate AllStored(s: Shape, img: seq<byte>, files: seq<seq<byte>>, firsts: seq<nat>, next: nat) {
    && |firsts| == |files|
    && (forall i | 0 <= i < |files| :: FileAt(s, img, firsts[i], files[i]) && firsts[i] + Length(files[i]) <= next)
    && forall i, j | 0 <= i < j < |files| :: firsts[i] + Length(files[i]) <= firsts[j]
  }

  lemma {:induction false} AllKept(s: Shape, img: seq<byte>, img': seq<byte>, files: seq<seq<byte>>,
      firsts: seq<nat>, c: nat, data: seq<byte>)
    requires Sound(s) && AllStored(s, img, files, firsts, c) && OnlyFrom(s, img, img', c)
      && c <= Clusters(s) + 2 && FileAt(s, img', c, data)
    ensures AllStored(s, img', files + [data], firsts + [c], c + Length(data))
  {
    hide FileAt, OnlyFrom, Sound;
    forall i | 0 <= i < |files| ensures FileAt(s, img', firsts[i], files[i]) {
      FileKept(s, img, img', firsts[i], files[i], c);
    }
  }

  /** Any list of files that fits, one after the other. */
  method WriteFiles(p: Partition, files: seq<seq<byte>>) returns (firsts: seq<nat>)
    requires p.Valid() && p.nextCluster + TotalLength(files) <= Clusters(p.shape) + 2
    modifies p
    ensures p.Valid() && AllStored(p.shape, p.img, files, firsts, p.nextCluster)
    ensures p.nextCluster == old(p.nextCluster) + TotalLength(files)
  {
    hide Copies, FileAt, Sound, OnlyFrom, AllStored;
    firsts := [];
    NoneStored(p.shape, p.img, p.nextCluster);
    for i := 0 to |files|
      invariant p.Valid() && p.nextCluster == old(p.nextCluster) + TotalLength(files[..i])
      invariant AllStored(p.shape, p.img, files[..i], firsts, p.nextCluster)
    {
      ghost var was := p.img;
      assert files[..i + 1] == files[..i] + [files[i]] && files[..i + 1][..i] == files[..i];
      TotalGrows(files, i + 1);
      var first := p.WriteFile(files[i]);
      AllKept(p.shape, was, p.img, files[..i], firsts, first, files[i]);
      firsts := firsts + [first];
    }
    assert files[..|files|] == files;
  }

  lemma {:induction false} NoneStored(s: Shape, img: seq<byte>, next: nat)
    ensures AllStored(s, img, [], [], next)
  {
  }

  lemma {:induction false} TotalGrows(files: seq<seq<byte>>, i: nat)
    requires i <= |files|
    ensures TotalLength(files[..i]) <= TotalLength(files)
  {
    if i < |files| {
      var front := files[..|files| - 1];
      assert front[..i] == files[..i];
      TotalGrows(front, i);
    } else {
      assert files[..i] == files;
    }
  }

  lemma {:induction false} LinkedIs(s: Shape, img: seq<byte>, c: nat, v: u32)
    ensures Linked(s, img, c, v) == PutWord(PutWord(img, EntryAt(s, 0, c), v), EntryAt(s, 1, c), v)
  {
  }

  lemma {:induction false} BlankCopies(s: Shape, img: seq<byte>)
    requires forall k | 0 <= k < |img| :: img[k] == 0
    ensures Copies(s, img)
  {
  }

  // ---- The kernel's read ----

  /** `nextCluster` */
  function NextCluster(s: Shape, img: seq<byte>, c: nat): Option<nat> {
    var next := Entry(s, img, 0, c) % 0x1000_0000;
    if next >= BAD || next < 2 then None else Some(next)
  }

  lemma {:induction false} NextAlong(s: Shape, img: seq<byte>, first: nat, data: seq<byte>, i: nat)
    requires Sound(s) && FileAt(s, img, first, data) && i < Length(data)
    ensures NextCluster(s, img, first + i) == if i < Length(data) - 1 then Some(first + i + 1) else None
  {
    hide Entry, HasAt;
  }

  /** The bytes of a range that ends with the file. */
  function Slice(data: seq<byte>, offset: nat, count: nat): seq<byte> {
    data[Min(offset, |data|)..Min(offset + count, |data|)]
  }

  /** `fat32Read`: along the chain to the cluster of the offset, then cluster by cluster; for a
      stored file it returns exactly the bytes asked for. */
  method Read(s: Shape, img: seq<byte>, first: nat, size: nat, offset: nat, count: nat,
      ghost data: seq<byte>) returns (out: seq<byte>)
    requires Sound(s) && |img| == s.total * SECTOR && FileAt(s, img, first, data) && size == |data|
    ensures out == Slice(data, offset, count)
  {
    hide FileAt, NextCluster, Sound, Length, ClusterAt;
    out := [];
    var remaining := if offset < size then size - offset else 0;
    var toRead := Min(count, remaining);
    if toRead == 0 {
      return;
    }
    var cluster := first;
    var skip := offset / SECTOR;
    LengthCovers(data, skip);
    for i := 0 to skip
      invariant cluster == first + i
    {
      NextAlong(s, img, first, data, i);
      var next := NextCluster(s, img, cluster);
      if next.None? {
        return;
      }
      cluster := next.value;
    }
    var at: nat := offset - skip * SECTOR;
    ghost var i := skip;
    while |out| < toRead && 2 <= cluster < BAD
      invariant |out| <= toRead && out == data[offset..offset + |out|]
      invariant |out| < toRead ==> cluster == first + i && i * SECTOR + at == offset + |out| && at < SECTOR
      decreases toRead - |out|
    {
      LengthCovers(data, i);
      LengthCovers(data, i + 1);
      InChain(s, img, first, data, i);
      NextAlong(s, img, first, data, i);
      var base := ClusterAt(s, cluster);
      if base + SECTOR > |img| {
        break;
      }
      var chunk := Min(SECTOR - at, toRead - |out|);
      ClusterBytes(s, img, first, data, i, at, chunk);
      Joined(data, offset, |out|, chunk);
      out := out + img[base + at..base + at + chunk];
      at := 0;
      var next := NextCluster(s, img, cluster);
      if next.None? {
        break;
      }
      cluster := next.value;
      i := i + 1;
    }
    if |out| < toRead {
      LengthCovers(data, i);
      InChain(s, img, first, data, i);
    }
  }

  lemma {:induction false} Joined(data: seq<byte>, offset: nat, a: nat, b: nat)
    requires offset + a + b <= |data|
    ensures data[offset..offset + a] + data[offset + a..offset + a + b] == data[offset..offset + a + b]
  {
  }

  lemma {:induction false} LengthCovers(data: seq<byte>, i: nat)
    ensures i * SECTOR < |data| ==> i < Length(data)
  {
  }

  lemma {:induction false} InChain(s: Shape, img: seq<byte>, first: nat, data: seq<byte>, i: nat)
    requires Sound(s) && |img| == s.total * SECTOR && FileAt(s, img, first, data) && i < Length(data)
    ensures 2 <= first + i < BAD && 0 <= ClusterAt(s, first + i) && ClusterAt(s, first + i) + SECTOR <= |img|
  {
    hide Chain, HasAt;
  }

  lemma {:induction false} ClusterBytes(s: Shape, img: seq<byte>, first: nat, data: seq<byte>, i: nat, at: nat, n: nat)
    requires Sound(s) && FileAt(s, img, first, data) && i * SECTOR + at + n <= |data| && ClusterAt(s, first + i) >= 0
    requires ClusterAt(s, first + i) + at + n <= |img|
    ensures img[ClusterAt(s, first + i) + at..ClusterAt(s, first + i) + at + n] ==
      data[i * SECTOR + at..i * SECTOR + at + n]
  {
    hide Chain;
    var base, off := ClusterAt(s, first), i * SECTOR + at;
    assert ClusterAt(s, first + i) + at == base + off;
    var found, want := img[base + off..base + off + n], data[off..off + n];
    forall k | 0 <= k < n ensures found[k] == want[k] {
      assert At(img, base + (off + k)) == data[off + k];
    }
  }
}
