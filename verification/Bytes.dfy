/** Byte strings as the image writers build them: little-endian packing, reads that are
    total, and Python's slice assignment, which may change the length of its target. */
module Bytes {

  type byte = x: int | 0 <= x < 0x100
  type u16 = x: int | 0 <= x < 0x1_0000
  type u32 = x: int | 0 <= x < 0x1_0000_0000
  type u64 = x: int | 0 <= x < U64

  const U64: nat := 0x1_0000_0000_0000_0000

  /** A page of memory. */
  const PAGE: nat := 0x1000

  datatype Option<+T> = None | Some(value: T)

  function Min(a: int, b: int): int { if a < b then a else b }
  function Max(a: int, b: int): int { if a < b then b else a }

  /** The number of size-`unit` pieces that hold `n` bytes. */
  function CeilDiv(n: nat, unit: nat): nat
    requires unit > 0
  {
    (n + unit - 1) / unit
  }

  function At(s: seq<byte>, k: int): byte {
    if 0 <= k < |s| then s[k] else 0
  }

  function U16At(s: seq<byte>, k: int): u16 {
    At(s, k) + 0x100 * At(s, k + 1)
  }

  function U32At(s: seq<byte>, k: int): u32 {
    At(s, k) + 0x100 * At(s, k + 1) + 0x1_0000 * At(s, k + 2) + 0x100_0000 * At(s, k + 3)
  }

  function U64At(s: seq<byte>, k: int): u64 {
    U32At(s, k) + 0x1_0000_0000 * U32At(s, k + 4)
  }

  /** `n` bytes from address `k`. */
  function Window(s: seq<byte>, k: int, n: nat): (w: seq<byte>)
    ensures |w| == n && forall i | 0 <= i < n :: w[i] == At(s, k + i)
  {
    seq<byte>(n, i requires 0 <= i < n => At(s, k + i))
  }

  /** Byte `i` of the little-endian form of `n`. */
  function Digit(n: nat, i: nat): byte {
    if i == 0 then n % 0x100 else Digit(n / 0x100, i - 1)
  }

  /** `struct.pack('<H', n)` */
  function Le16(n: u16): (s: seq<byte>)
    ensures |s| == 2
  {
    seq<byte>(2, i requires 0 <= i => Digit(n, i))
  }

  /** `struct.pack('<I', n)` */
  function Le32(n: u32): (s: seq<byte>)
    ensures |s| == 4
  {
    seq<byte>(4, i requires 0 <= i => Digit(n, i))
  }

  lemma {:induction false} Le16Value(n: u16)
    ensures U16At(Le16(n), 0) == n
  {
    assert Digit(n, 1) == Digit(n / 0x100, 0);
  }

  lemma {:induction false} Le32Value(n: u32)
    ensures U32At(Le32(n), 0) == n
  {
    var n1 := n / 0x100;
    var n2 := n1 / 0x100;
    assert Digit(n, 1) == Digit(n1, 0) == n1 % 0x100;
    assert Digit(n, 2) == Digit(n1, 1) == Digit(n2, 0) == n2 % 0x100;
    assert Digit(n, 3) == Digit(n1, 2) == Digit(n2, 1) == Digit(n2 / 0x100, 0) == n2 / 0x100;
  }

  /** The eight bytes of a 64-bit word, stored at `k`, read as that word. */
  lemma {:induction false} StoredWord(s: seq<byte>, k: int, w: u64)
    requires forall j: nat | j < 8 :: At(s, k + j) == Digit(w, j)
    ensures U64At(s, k) == w
  {
    hide At, Digit;
    var lo, hi := w % 0x1_0000_0000, w / 0x1_0000_0000;
    Le32Value(lo);
    Le32Value(hi);
    forall j: nat | j < 4 ensures At(s, k + j) == At(Le32(lo), j) && At(s, k + 4 + j) == At(Le32(hi), j) {
      DigitHalves(w, j);
      assert At(s, k + (4 + j)) == Digit(w, 4 + j);
      PackedDigit(lo, j);
      PackedDigit(hi, j);
    }
  }

  lemma {:induction false} PackedDigit(n: u32, j: nat)
    requires j < 4
    ensures At(Le32(n), j) == Digit(n, j)
  {
  }

  /** The digits of a 64-bit word are those of its halves. */
  lemma {:induction false} DigitHalves(w: u64, j: nat)
    requires j < 4
    ensures Digit(w, j) == Digit(w % 0x1_0000_0000, j)
    ensures Digit(w, 4 + j) == Digit(w / 0x1_0000_0000, j)
  {
    LowDigit(w / 0x1_0000_0000, w % 0x1_0000_0000, j);
    var w1 := w / 0x100;
    var w2 := w1 / 0x100;
    var w3 := w2 / 0x100;
    assert Digit(w, 4 + j) == Digit(w1, 3 + j) == Digit(w2, 2 + j) == Digit(w3, 1 + j) == Digit(w3 / 0x100, j);
    assert w3 / 0x100 == w / 0x1_0000_0000;
  }

  lemma {:induction false} LowDigit(hi: nat, lo: u32, j: nat)
    requires j < 4
    ensures Digit(0x1_0000_0000 * hi + lo, j) == Digit(lo, j)
  {
    var w := 0x1_0000_0000 * hi + lo;
    var w1, l1 := w / 0x100, lo / 0x100;
    var w2, l2 := w1 / 0x100, l1 / 0x100;
    assert w1 == 0x100_0000 * hi + l1;
    assert w2 == 0x1_0000 * hi + l2;
    if j == 3 {
      assert w2 / 0x100 == 0x100 * hi + l2 / 0x100;
      assert Digit(w, 3) == Digit(w1, 2) == Digit(w2, 1) == Digit(w2 / 0x100, 0);
      assert Digit(lo, 3) == Digit(l1, 2) == Digit(l2, 1) == Digit(l2 / 0x100, 0);
    } else if j == 2 {
      assert Digit(w, 2) == Digit(w1, 1) == Digit(w2, 0) && Digit(lo, 2) == Digit(l1, 1) == Digit(l2, 0);
    } else if j == 1 {
      assert Digit(w, 1) == Digit(w1, 0) && Digit(lo, 1) == Digit(l1, 0);
    }
  }

  /** A 64-bit word read at `k` tells its eight bytes. */
  lemma {:induction false} WordBytes(s: seq<byte>, k: int, j: nat)
    requires j < 8
    ensures At(s, k + j) == Digit(U64At(s, k), j)
  {
    hide At, Digit, U32At;
    var w := U64At(s, k);
    assert w % 0x1_0000_0000 == U32At(s, k) && w / 0x1_0000_0000 == U32At(s, k + 4);
    if j < 4 {
      DigitHalves(w, j);
      HalfBytes(s, k, j);
    } else {
      DigitHalves(w, j - 4);
      HalfBytes(s, k + 4, j - 4);
    }
  }

  lemma {:induction false} HalfBytes(s: seq<byte>, k: int, j: nat)
    requires j < 4
    ensures At(s, k + j) == Digit(U32At(s, k), j)
  {
    var n := U32At(s, k);
    var n1 := n / 0x100;
    var n2 := n1 / 0x100;
    assert n1 == At(s, k + 1) + 0x100 * At(s, k + 2) + 0x1_0000 * At(s, k + 3);
    assert n2 == At(s, k + 2) + 0x100 * At(s, k + 3);
    assert Digit(n, 1) == Digit(n1, 0) && Digit(n, 2) == Digit(n1, 1) == Digit(n2, 0);
    assert Digit(n, 3) == Digit(n1, 2) == Digit(n2, 1) == Digit(n2 / 0x100, 0);
  }

  function Zeros(n: nat): (s: seq<byte>)
    ensures |s| == n
  {
    seq(n, _ => 0)
  }

  /** A table of 32-bit words, packed one after the other. */
  function PackWords(ws: seq<u32>): (s: seq<byte>)
    ensures |s| == 4 * |ws|
  {
    if ws == [] then [] else PackWords(ws[..|ws| - 1]) + Le32(ws[|ws| - 1])
  }

  lemma {:induction false} PackedWordAt(ws: seq<u32>, i: nat)
    requires i < |ws|
    ensures U32At(PackWords(ws), 4 * i) == ws[i]
  {
    var front := ws[..|ws| - 1];
    if i < |ws| - 1 {
      PackedWordAt(front, i);
    } else {
      var last := Le32(ws[|ws| - 1]);
      Le32Value(ws[|ws| - 1]);
      assert forall r | 0 <= r < 4 :: At(PackWords(ws), 4 * i + r) == At(last, r);
    }
  }

  lemma {:induction false} WordInPrefix(a: seq<byte>, b: seq<byte>, k: nat)
    requires k + 4 <= |a|
    ensures U32At(a + b, k) == U32At(a, k)
  {
  }

  /** A word is its two halves, low half first: `struct.pack('<HH', a, b)` packs a word. */
  lemma {:induction false} WordHalves(s: seq<byte>, k: int)
    ensures U32At(s, k) % 0x1_0000 == U16At(s, k)
    ensures U32At(s, k) / 0x1_0000 == U16At(s, k + 2)
  {
    assert U32At(s, k) == U16At(s, k) + 0x1_0000 * U16At(s, k + 2);
  }

  lemma {:induction false} HalvesPackAsWord(a: u16, b: u16)
    ensures Le16(a) + Le16(b) == Le32(a + 0x1_0000 * b)
  {
    var n := a + 0x1_0000 * b;
    assert n / 0x100 == a / 0x100 + 0x100 * b && n / 0x100 / 0x100 == b;
    assert Digit(n, 1) == Digit(n / 0x100, 0) && Digit(a, 1) == Digit(a / 0x100, 0);
    assert Digit(n, 2) == Digit(n / 0x100, 1) == Digit(b, 0);
    assert Digit(n, 3) == Digit(n / 0x100, 2) == Digit(b, 1);
  }

  /** Python's `s[lo:hi] = data`: the bounds are clipped to the length of `s`, and the
      result is longer or shorter than `s` when `data` is not as long as the slice. */
  function SliceAssign(s: seq<byte>, lo: nat, hi: nat, data: seq<byte>): seq<byte>
    requires lo <= hi
  {
    s[..Min(lo, |s|)] + data + s[Min(hi, |s|)..]
  }

  /** An assignment of matching length inside the target changes those bytes and no other. */
  lemma {:induction false} SliceAssignInPlace(s: seq<byte>, lo: nat, data: seq<byte>)
    requires lo + |data| <= |s|
    ensures var t := SliceAssign(s, lo, lo + |data|, data);
      && |t| == |s|
      && HasAt(t, lo, data)
      && (forall k | !(lo <= k < lo + |data|) :: At(t, k) == At(s, k))
  {
    var t := SliceAssign(s, lo, lo + |data|, data);
    assert forall k | 0 <= k < |data| :: t[lo + k] == data[k];
  }

  // ---- A piece of a longer string ----

  /** `piece` stands at offset `off` of `data`. */
  ghost predicate HasAt(data: seq<byte>, off: nat, piece: seq<byte>) {
    off + |piece| <= |data| && forall k | 0 <= k < |piece| :: At(data, off + k) == piece[k]
  }

  lemma {:induction false} HasAtBoth(data: seq<byte>, off: nat, a: seq<byte>, b: seq<byte>)
    ensures HasAt(data, off, a + b) <==> HasAt(data, off, a) && HasAt(data, off + |a|, b)
  {
    if HasAt(data, off, a + b) {
      assert forall k | 0 <= k < |a| :: (a + b)[k] == a[k];
      forall k | 0 <= k < |b| ensures At(data, off + |a| + k) == b[k] {
        assert (a + b)[|a| + k] == b[k];
      }
    }
    if HasAt(data, off, a) && HasAt(data, off + |a|, b) {
      forall k | 0 <= k < |a + b| ensures At(data, off + k) == (a + b)[k] {
        if k >= |a| {
          assert At(data, off + |a| + (k - |a|)) == b[k - |a|];
        }
      }
    }
  }

  lemma {:induction false} HasAtSelf(a: seq<byte>, b: seq<byte>)
    ensures HasAt(a + b, |a|, b)
  {
  }

  lemma {:induction false} HasAtWider(a: seq<byte>, b: seq<byte>, off: nat, piece: seq<byte>)
    requires HasAt(a, off, piece)
    ensures HasAt(a + b, off, piece)
  {
  }

  lemma {:induction false} HasAtWord(data: seq<byte>, off: nat, piece: seq<byte>, k: nat)
    requires HasAt(data, off, piece) && k + 4 <= |piece|
    ensures U32At(data, off + k) == U32At(piece, k)
  {
    assert piece[k] == At(piece, k) && piece[k + 1] == At(piece, k + 1);
    assert piece[k + 2] == At(piece, k + 2) && piece[k + 3] == At(piece, k + 3);
  }

  lemma {:induction false} HasAtHalf(data: seq<byte>, off: nat, piece: seq<byte>, k: nat)
    requires HasAt(data, off, piece) && k + 2 <= |piece|
    ensures U16At(data, off + k) == U16At(piece, k)
  {
    assert piece[k] == At(piece, k) && piece[k + 1] == At(piece, k + 1);
  }

  lemma {:induction false} HalfValue(s: seq<byte>, off: nat, n: u16)
    requires HasAt(s, off, Le16(n))
    ensures U16At(s, off) == n
  {
    hide Le16, U16At;
    HasAtHalf(s, off, Le16(n), 0);
    Le16Value(n);
  }

  lemma {:induction false} WordValue(s: seq<byte>, off: nat, n: u32)
    requires HasAt(s, off, Le32(n))
    ensures U32At(s, off) == n
  {
    hide Le32, U32At;
    HasAtWord(s, off, Le32(n), 0);
    Le32Value(n);
  }
}
