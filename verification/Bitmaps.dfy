/** Allocation bitmaps: single bits, counting the clear ones, and what the kernel tests on disk. */
module Bitmaps {
  import opened Bytes
  import opened Ext2Format

  type Bitmap = s: seq<bv8> | |s| == BLOCK_SIZE witness seq(BLOCK_SIZE, _ => 0)

  // ---- Bits ----

  /** `1 << k` */
  function Mask(k: nat): bv8
    requires k < 8
  {
    match k
    case 0 => 1 case 1 => 2 case 2 => 4 case 3 => 8
    case 4 => 16 case 5 => 32 case 6 => 64 case 7 => 128
  }

  predicate Bit(b: bv8, k: nat)
    requires k < 8
  {
    b & Mask(k) != 0
  }

  function WithBit(b: bv8, k: nat): bv8
    requires k < 8
  {
    b | Mask(k)
  }

  /** The kernel's `testBit`. */
  predicate TestBit(s: Bitmap, k: nat)
    requires k < 8 * BLOCK_SIZE
  {
    Bit(s[k / 8], k % 8)
  }

  function SetBit(s: Bitmap, k: nat): Bitmap
    requires k < 8 * BLOCK_SIZE
  {
    s[k / 8 := WithBit(s[k / 8], k % 8)]
  }

  lemma {:induction false} ByteBit(b: bv8, j: nat, k: nat)
    requires j < 8 && k < 8
    ensures Bit(WithBit(b, j), k) <==> j == k || Bit(b, k)
  {
  }

  lemma {:induction false} BitSet(s: Bitmap, j: nat, k: nat)
    requires j < 8 * BLOCK_SIZE && k < 8 * BLOCK_SIZE
    ensures TestBit(SetBit(s, j), k) <==> k == j || TestBit(s, k)
  {
    hide Bit, WithBit;
    ByteBit(s[j / 8], j % 8, k % 8);
  }

  const BLANK: Bitmap := seq(BLOCK_SIZE, _ => 0)

  lemma {:induction false} BlankBit(k: nat)
    requires k < 8 * BLOCK_SIZE
    ensures !TestBit(BLANK, k)
  {
  }

  /** The clear bits among the first `n`. */
  function ZeroBits(s: Bitmap, n: nat): nat
    requires n <= 8 * BLOCK_SIZE
  {
    if n == 0 then 0 else ZeroBits(s, n - 1) + if TestBit(s, n - 1) then 0 else 1
  }

  /** The first `n` bits say which numbers from `lo` on belong to `members`. */
  ghost predicate Records(s: Bitmap, members: set<nat>, lo: nat, n: nat) {
    n <= 8 * BLOCK_SIZE && forall k | 0 <= k < n :: TestBit(s, k) <==> lo + k in members
  }

  lemma {:induction false} RecordsMore(s: Bitmap, members: set<nat>, lo: nat, n: nat, b: nat)
    requires Records(s, members, lo, n)
    ensures Records(if lo <= b < lo + n then SetBit(s, b - lo) else s, members + {b}, lo, n)
  {
    hide TestBit, SetBit;
    var t := if lo <= b < lo + n then SetBit(s, b - lo) else s;
    forall k | 0 <= k < n ensures TestBit(t, k) <==> lo + k in members + {b} {
      assert TestBit(s, k) <==> lo + k in members;
      if lo <= b < lo + n {
        BitSet(s, b - lo, k);
      }
    }
  }

  ghost function Within(members: set<nat>, lo: nat, hi: nat): (r: set<nat>)
    ensures forall b: nat :: b in r <==> b in members && lo <= b < hi
  {
    set b | b in members && lo <= b < hi
  }

  /** The clear bits are what is left when the members are counted off. */
  lemma {:induction false} ZeroBitsCount(s: Bitmap, members: set<nat>, lo: nat, n: nat)
    requires Records(s, members, lo, n)
    ensures ZeroBits(s, n) == n - |Within(members, lo, lo + n)|
  {
    hide TestBit;
    if n == 0 {
      assert Within(members, lo, lo) == {};
    } else {
      ZeroBitsCount(s, members, lo, n - 1);
      var front, all := Within(members, lo, lo + n - 1), Within(members, lo, lo + n);
      assert TestBit(s, n - 1) <==> lo + (n - 1) in members;
      if TestBit(s, n - 1) {
        assert all == front + {lo + (n - 1)};
      } else {
        assert all == front;
      }
    }
  }

  // ---- On disk ----

  function Bits(s: seq<byte>): (r: seq<bv8>)
    ensures |r| == |s| && forall i | 0 <= i < |s| :: r[i] == s[i] as bv8
  {
    seq<bv8>(|s|, i requires 0 <= i < |s| => s[i] as bv8)
  }

  function Ints(s: seq<bv8>): (r: seq<byte>)
    ensures |r| == |s| && forall i | 0 <= i < |s| :: r[i] == s[i] as int
  {
    seq<byte>(|s|, i requires 0 <= i < |s| => s[i] as int)
  }

  lemma {:induction false} BackAgain(b: bv8)
    ensures (b as int) as bv8 == b
  {
  }

  /** The kernel's `testBit` on the bitmap in block `b`. */
  predicate BitOnDisk(img: seq<byte>, b: nat, k: nat) {
    Bit(At(img, b * BLOCK_SIZE + k / 8) as bv8, k % 8)
  }

  function ClearBits(img: seq<byte>, b: nat, n: nat): nat {
    if n == 0 then 0 else ClearBits(img, b, n - 1) + if BitOnDisk(img, b, n - 1) then 0 else 1
  }

  lemma {:induction false} DiskBit(img: seq<byte>, b: nat, s: Bitmap, k: nat)
    requires HasAt(img, b * BLOCK_SIZE, Ints(s)) && k < 8 * BLOCK_SIZE
    ensures BitOnDisk(img, b, k) <==> TestBit(s, k)
  {
    hide Bit;
    assert At(img, b * BLOCK_SIZE + k / 8) == Ints(s)[k / 8];
    BackAgain(s[k / 8]);
  }

  lemma {:induction false} DiskClear(img: seq<byte>, b: nat, s: Bitmap, n: nat)
    requires HasAt(img, b * BLOCK_SIZE, Ints(s)) && n <= 8 * BLOCK_SIZE
    ensures ClearBits(img, b, n) == ZeroBits(s, n)
  {
    hide BitOnDisk, TestBit, HasAt;
    if n > 0 {
      DiskClear(img, b, s, n - 1);
      DiskBit(img, b, s, n - 1);
    }
  }
}
