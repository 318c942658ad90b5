/** The ext4 inode checksum: computed by the image writer over a copy with the checksum fields
    zeroed, by the kernel piece by piece; what it detects and what it cannot. */
module InodeChecksum {
  import opened Crc32c
  import opened CrcKernel

  const SIZE: nat := 256
  const GENERATION: nat := 0x64
  const CSUM_LO: nat := 0x7C
  const CSUM_HI: nat := 0x82

  type Inode = s: seq<bv8> | |s| == SIZE witness seq(SIZE, _ => 0)

  function Le(x: bv32): (s: seq<bv8>)
    ensures |s| == 4
  {
    [(x & 0xFF) as bv8, ((x >> 8) & 0xFF) as bv8, ((x >> 16) & 0xFF) as bv8, (x >> 24) as bv8]
  }

  function WordAt(s: seq<bv8>, k: nat): bv32
    requires k + 4 <= |s|
  {
    (s[k] as bv32) | ((s[k + 1] as bv32) << 8) | ((s[k + 2] as bv32) << 16) | ((s[k + 3] as bv32) << 24)
  }

  function Zeroed(s: Inode, k: nat): Inode
    requires k + 2 <= SIZE
  {
    s[..k] + [0, 0] + s[k + 2..]
  }

  /** The copy the checksum is taken over. */
  function Masked(s: Inode): Inode {
    Zeroed(Zeroed(s, CSUM_LO), CSUM_HI)
  }

  function Seed(uuid: seq<bv8>, ino: bv32): Word {
    Update(Update(ONES, uuid), Le(ino))
  }

  /** `inode_checksum`: the generation is fed twice, once by itself and once inside the inode. */
  function Checksum(s: Inode, ino: bv32, uuid: seq<bv8>): Word {
    Xor(Update(Update(Seed(uuid, ino), Le(WordAt(s, GENERATION))), Masked(s)), ONES)
  }

  lemma {:induction false} LeOfBytes(a: bv8, b: bv8, c: bv8, d: bv8)
    ensures var x := (a as bv32) | ((b as bv32) << 8) | ((c as bv32) << 16) | ((d as bv32) << 24);
      Le(x) == [a, b, c, d]
  {
  }

  lemma {:induction false} LeOfWordAt(s: seq<bv8>, k: nat)
    requires k + 4 <= |s|
    ensures Le(WordAt(s, k)) == s[k..k + 4]
  {
    LeOfBytes(s[k], s[k + 1], s[k + 2], s[k + 3]);
    hide Le;
    assert s[k..k + 4] == [s[k], s[k + 1], s[k + 2], s[k + 3]];
  }

  /** The inode in the pieces the kernel feeds. */
  lemma {:induction false} MaskedPieces(s: Inode)
    ensures Masked(s) == s[..CSUM_LO] + [0, 0] + s[CSUM_LO + 2..CSUM_HI] + [0, 0] + s[CSUM_HI + 2..]
  {
  }

  // ---- The two implementations ----

  /** The writer's `inode_checksum`. */
  method ByCopy(t: seq<bv32>, s: Inode, ino: bv32, uuid: seq<bv8>) returns (sum: bv32)
    requires IsTable(t)
    ensures Word(sum) == Checksum(s, ino, uuid)
  {
    hide Update, Le, WordAt, IsTable, Masked;
    var seed := UpdateByTable(t, 0xFFFFFFFF, uuid);
    seed := UpdateByTable(t, seed, Le(ino));
    seed := UpdateByTable(t, seed, Le(WordAt(s, GENERATION)));
    var crc := UpdateByTable(t, seed, Masked(s));
    sum := crc ^ 0xFFFFFFFF;
  }

  /** The kernel's `computeChecksum`, which never builds the copy. */
  method ByPieces(t: seq<bv32>, s: Inode, ino: bv32, uuid: seq<bv8>) returns (sum: bv32)
    requires IsTable(t)
    ensures Word(sum) == Checksum(s, ino, uuid)
  {
    hide Update, Le, WordAt, IsTable, Masked;
    var crc := UpdateByTable(t, 0xFFFFFFFF, uuid);
    crc := UpdateByTable(t, crc, Le(ino));
    crc := UpdateByTable(t, crc, Le(WordAt(s, GENERATION)));
    ghost var c := Word(crc);
    crc := UpdateByTable(t, crc, s[..CSUM_LO]);
    crc := UpdateByTable(t, crc, [0, 0]);
    crc := UpdateByTable(t, crc, s[CSUM_LO + 2..CSUM_HI]);
    crc := UpdateByTable(t, crc, [0, 0]);
    crc := UpdateByTable(t, crc, s[CSUM_HI + 2..]);
    PiecesAreWhole(c, s);
    sum := crc ^ 0xFFFFFFFF;
  }

  lemma {:induction false} PiecesAreWhole(c: Word, s: Inode)
    ensures Update(Update(Update(Update(Update(c, s[..CSUM_LO]), [0, 0]), s[CSUM_LO + 2..CSUM_HI]), [0, 0]), s[CSUM_HI + 2..])
      == Update(c, Masked(s))
  {
    hide Update, Masked;
    var a, b, d := s[..CSUM_LO], s[CSUM_LO + 2..CSUM_HI], s[CSUM_HI + 2..];
    var z: seq<bv8> := [0, 0];
    MaskedPieces(s);
    UpdateBoth(c, a, z);
    UpdateBoth(c, a + z, b);
    UpdateBoth(c, a + z + b, z);
    UpdateBoth(c, a + z + b + z, d);
  }

  // ---- Storing and verifying ----

  function HalfAt(s: seq<bv8>, k: nat): bv32
    requires k + 2 <= |s|
  {
    (s[k] as bv32) | ((s[k + 1] as bv32) << 8)
  }

  /** The stored checksum, as `verifyChecksum` reads it. */
  function StoredSum(s: Inode): bv32 {
    (HalfAt(s, CSUM_HI) << 16) | HalfAt(s, CSUM_LO)
  }

  ghost predicate Verifies(s: Inode, ino: bv32, uuid: seq<bv8>) {
    Word(StoredSum(s)) == Checksum(s, ino, uuid)
  }

  /** The two halves written into the inode. */
  function WithSum(s: Inode, sum: bv32): Inode {
    s[..CSUM_LO] + Le(sum)[..2] + s[CSUM_LO + 2..CSUM_HI] + Le(sum)[2..] + s[CSUM_HI + 2..]
  }

  lemma {:induction false} WithSumStored(s: Inode, sum: bv32)
    ensures StoredSum(WithSum(s, sum)) == sum
  {
    var b, r := Le(sum), WithSum(s, sum);
    assert r[CSUM_LO] == b[0] && r[CSUM_LO + 1] == b[1] && r[CSUM_HI] == b[2] && r[CSUM_HI + 1] == b[3];
    hide WithSum;
    BytesOfWord(sum);
  }

  lemma {:induction false} BytesOfWord(x: bv32)
    ensures var b := Le(x);
      ((((b[2] as bv32) | ((b[3] as bv32) << 8)) << 16) | ((b[0] as bv32) | ((b[1] as bv32) << 8))) == x
  {
  }

  lemma {:induction false} WithSumElsewhere(s: Inode, sum: bv32)
    ensures Masked(WithSum(s, sum)) == Masked(s) && WordAt(WithSum(s, sum), GENERATION) == WordAt(s, GENERATION)
  {
    hide Le;
    var r := WithSum(s, sum);
    assert r[GENERATION] == s[GENERATION] && r[GENERATION + 1] == s[GENERATION + 1];
    assert r[GENERATION + 2] == s[GENERATION + 2] && r[GENERATION + 3] == s[GENERATION + 3];
    MaskedPieces(r);
    MaskedPieces(s);
    hide Masked;
    assert r[..CSUM_LO] == s[..CSUM_LO] && r[CSUM_LO + 2..CSUM_HI] == s[CSUM_LO + 2..CSUM_HI];
    assert r[CSUM_HI + 2..] == s[CSUM_HI + 2..];
  }

  lemma {:induction false} SumVerifies(s: Inode, sum: bv32, ino: bv32, uuid: seq<bv8>)
    requires Word(sum) == Checksum(s, ino, uuid)
    ensures Verifies(WithSum(s, sum), ino, uuid) && Masked(WithSum(s, sum)) == Masked(s)
  {
    hide Le, WordAt, Masked, StoredSum, Update, WithSum;
    WithSumStored(s, sum);
    WithSumElsewhere(s, sum);
  }

  /** `write_inode_ext4` computes the sum over a fresh inode and stores the halves; the kernel's
      check of the result succeeds. */
  method Seal(t: seq<bv32>, s: Inode, ino: bv32, uuid: seq<bv8>) returns (r: Inode)
    requires IsTable(t)
    ensures Verifies(r, ino, uuid) && Masked(r) == Masked(s)
  {
    hide IsTable, Masked, Verifies, Checksum, WithSum;
    var sum := ByCopy(t, s, ino, uuid);
    r := WithSum(s, sum);
    SumVerifies(s, sum, ino, uuid);
  }

  // ---- What is detected ----

  lemma {:induction false} LeInjective(x: bv32, y: bv32)
    requires Le(x) == Le(y)
    ensures x == y
  {
    BytesOfWord(x);
    BytesOfWord(y);
    hide Le;
  }

  /** A different inode number never has the same checksum. */
  lemma {:induction false} NumberDetected(s: Inode, ino: bv32, ino': bv32, uuid: seq<bv8>)
    requires Checksum(s, ino, uuid) == Checksum(s, ino', uuid)
    ensures ino == ino'
  {
    hide Update, Le, WordAt, Masked, Xor;
    var c, gen := Update(ONES, uuid), Le(WordAt(s, GENERATION));
    var a, b := Update(Seed(uuid, ino), gen), Update(Seed(uuid, ino'), gen);
    XorUndo(Update(a, Masked(s)), ONES);
    XorUndo(Update(b, Masked(s)), ONES);
    UpdateInjective(a, b, Masked(s));
    UpdateInjective(Seed(uuid, ino), Seed(uuid, ino'), gen);
    assert Le(ino) + [] == Le(ino) && Le(ino') + [] == Le(ino');
    WindowDetected(c, Le(ino), Le(ino'), []);
    LeInjective(ino, ino');
  }

  /** The inodes agree outside the four bytes from `p`. */
  ghost predicate AgreeOutside(s: Inode, s': Inode, p: nat) {
    p + 4 <= SIZE && forall i | 0 <= i < SIZE && !(p <= i < p + 4) :: s[i] == s'[i]
  }

  lemma {:induction false} MaskedWindow(s: Inode, s': Inode, p: nat)
    requires AgreeOutside(s, s', p)
    ensures AgreeOutside(Masked(s), Masked(s'), p)
  {
  }

  lemma {:induction false} WindowApart(m: Inode, m': Inode, p: nat)
    requires AgreeOutside(m, m', p)
    ensures m == m[..p] + (m[p..p + 4] + m[p + 4..]) && m' == m[..p] + (m'[p..p + 4] + m[p + 4..])
  {
  }

  /** A change confined to four consecutive bytes, with the generation left alone, keeps the
      checksum exactly when it touches nothing but the checksum fields. */
  lemma {:induction false} WindowDetectedIff(s: Inode, s': Inode, p: nat, ino: bv32, uuid: seq<bv8>)
    requires AgreeOutside(s, s', p) && WordAt(s, GENERATION) == WordAt(s', GENERATION)
    ensures Checksum(s, ino, uuid) == Checksum(s', ino, uuid) <==> Masked(s) == Masked(s')
  {
    hide Update, Le, WordAt, Masked, Xor;
    var c := Update(Seed(uuid, ino), Le(WordAt(s, GENERATION)));
    var m, m' := Masked(s), Masked(s');
    MaskedWindow(s, s', p);
    WindowApart(m, m', p);
    XorUndo(Update(c, m), ONES);
    XorUndo(Update(c, m'), ONES);
    UpdateBoth(c, m[..p], m[p..p + 4] + m[p + 4..]);
    UpdateBoth(c, m[..p], m'[p..p + 4] + m[p + 4..]);
    if Update(c, m) == Update(c, m') {
      WindowDetected(Update(c, m[..p]), m[p..p + 4], m'[p..p + 4], m[p + 4..]);
    }
  }

  /** A verified inode whose bytes change in one such window, outside the checksum fields,
      no longer verifies. */
  lemma {:induction false} CorruptionDetected(s: Inode, s': Inode, p: nat, ino: bv32, uuid: seq<bv8>)
    requires Verifies(s, ino, uuid) && AgreeOutside(s, s', p) && s != s'
    requires WordAt(s, GENERATION) == WordAt(s', GENERATION) && StoredSum(s) == StoredSum(s')
    ensures !Verifies(s', ino, uuid)
  {
    hide WordAt, Checksum;
    WindowDetectedIff(s, s', p, ino, uuid);
    SumFieldsSame(s, s');
    MaskedSame(s, s');
  }

  lemma {:induction false} SumFieldsSame(s: Inode, s': Inode)
    requires StoredSum(s) == StoredSum(s')
    ensures s[CSUM_LO..CSUM_LO + 2] == s'[CSUM_LO..CSUM_LO + 2] && s[CSUM_HI..CSUM_HI + 2] == s'[CSUM_HI..CSUM_HI + 2]
  {
    HalvesApart(s[CSUM_LO], s[CSUM_LO + 1], s[CSUM_HI], s[CSUM_HI + 1]);
    HalvesApart(s'[CSUM_LO], s'[CSUM_LO + 1], s'[CSUM_HI], s'[CSUM_HI + 1]);
    hide Le;
  }

  lemma {:induction false} HalvesApart(a: bv8, b: bv8, c: bv8, d: bv8)
    ensures Le((((c as bv32) | ((d as bv32) << 8)) << 16) | ((a as bv32) | ((b as bv32) << 8))) == [a, b, c, d]
  {
  }

  lemma {:induction false} MaskedSame(s: Inode, s': Inode)
    requires s[CSUM_LO..CSUM_LO + 2] == s'[CSUM_LO..CSUM_LO + 2] && s[CSUM_HI..CSUM_HI + 2] == s'[CSUM_HI..CSUM_HI + 2]
    ensures Masked(s) == Masked(s') ==> s == s'
  {
    if Masked(s) == Masked(s') {
      forall i | 0 <= i < SIZE ensures s[i] == s'[i] {
        if CSUM_LO <= i < CSUM_LO + 2 {
          assert s[CSUM_LO..CSUM_LO + 2][i - CSUM_LO] == s'[CSUM_LO..CSUM_LO + 2][i - CSUM_LO];
        } else if CSUM_HI <= i < CSUM_HI + 2 {
          assert s[CSUM_HI..CSUM_HI + 2][i - CSUM_HI] == s'[CSUM_HI..CSUM_HI + 2][i - CSUM_HI];
        } else {
          assert Masked(s)[i] == Masked(s')[i];
        }
      }
    }
  }

  // ---- The generation ----

  lemma {:induction false} PackOfLe(x: bv32)
    ensures var b := Le(x); Pack(b[0], b[1], b[2], b[3]) == Word(x)
  {
  }

  lemma {:induction false} FeedWord(c: Word, x: bv32)
    ensures Update(c, Le(x)) == Steps(Xor(c, Word(x)), 32)
  {
    hide Update, Steps, Xor, Le, Pack;
    var b := Le(x);
    assert b == [b[0], b[1], b[2], b[3]];
    AbsorbWord(c, b[0], b[1], b[2], b[3]);
    PackOfLe(x);
  }

  /** The register after the generation has been fed by itself and again inside the inode. */
  function FedTwice(c: Word, g: Word, pre: seq<bv8>): Word {
    Steps(Xor(Update(Steps(Xor(c, g), 32), pre), g), 32)
  }

  /** The 104 bytes between the two feedings carry the difference 832 steps on, where it
      meets itself. */
  lemma {:induction false} FedApart(c: Word, g: Word, d: Word, pre: seq<bv8>)
    requires |pre| == GENERATION
    ensures var x := Xor(Update(Steps(Xor(c, g), 32), pre), g);
      FedTwice(c, g, pre) == Steps(x, 32) && FedTwice(c, Xor(g, d), pre) == Steps(Xor(x, Xor(Steps(d, 832), d)), 32)
  {
    FedOnce(c, g, d, pre);
    hide Update, Steps, Xor;
    XorFour(Update(Steps(Xor(c, g), 32), pre), Steps(d, 832), g, d);
  }

  lemma {:induction false} MeetsItself(x: Word, d: Word)
    ensures Steps(Xor(x, Xor(Steps(d, 832), d)), 32) == Steps(x, 32) <==> d == ZERO || d == FIXED
  {
    hide Steps, Xor;
    var m := Xor(Steps(d, 832), d);
    if Steps(Xor(x, m), 32) == Steps(x, 32) {
      StepsInjective(Xor(x, m), x, 32);
      OnlyZeroKeeps(x, m);
      OnlyFixed832();
      assert Moved(d, 832) == ZERO;
    }
    if d == ZERO || d == FIXED {
      ReturnsAt832(d);
      XorSelf(d);
      XorZero(x);
    }
  }

  lemma {:induction false} ReturnsAt832(d: Word)
    requires d == ZERO || d == FIXED
    ensures Steps(d, 832) == d
  {
    FixedSteps(832);
    ZeroSteps(832);
  }

  lemma {:induction false} ZeroSteps(n: nat)
    ensures Steps(ZERO, n) == ZERO
  {
    ZeroStep();
    hide Step;
    if n > 0 {
      ZeroSteps(n - 1);
    }
  }

  lemma {:induction false} ZeroStep()
    ensures Step(ZERO) == ZERO
  {
  }

  lemma {:induction false} OnlyZeroKeeps(x: Word, e: Word)
    requires Xor(x, e) == x
    ensures e == ZERO
  {
  }

  lemma {:induction false} FedOnce(c: Word, g: Word, d: Word, pre: seq<bv8>)
    requires |pre| == GENERATION
    ensures Update(Steps(Xor(c, Xor(g, d)), 32), pre) == Xor(Update(Steps(Xor(c, g), 32), pre), Steps(d, 832))
  {
    hide Update, Steps, Xor;
    XorAssociates(c, g, d);
    StepsLinear(Xor(c, g), d, 32);
    UpdateLinear(Steps(Xor(c, g), 32), Steps(d, 32), pre);
    StepsBoth(d, 32, 800);
  }

  lemma {:induction false} MaskedAroundGeneration(s: Inode)
    ensures Masked(s) == s[..GENERATION] + (s[GENERATION..GENERATION + 4] + Masked(s)[GENERATION + 4..])
  {
  }

  lemma {:induction false} ChecksumFedTwice(s: Inode, ino: bv32, uuid: seq<bv8>)
    ensures Checksum(s, ino, uuid) ==
      Xor(Update(FedTwice(Seed(uuid, ino), Word(WordAt(s, GENERATION)), s[..GENERATION]), Masked(s)[GENERATION + 4..]), ONES)
  {
    hide Update, Steps, Xor, Le, WordAt, Masked, Seed;
    var c, x := Seed(uuid, ino), WordAt(s, GENERATION);
    var pre, post := s[..GENERATION], Masked(s)[GENERATION + 4..];
    MaskedAroundGeneration(s);
    LeOfWordAt(s, GENERATION);
    FeedWord(c, x);
    var c1 := Update(c, Le(x));
    UpdateBoth(c1, pre, Le(x) + post);
    UpdateBoth(Update(c1, pre), Le(x), post);
    FeedWord(Update(c1, pre), x);
  }

  lemma {:induction false} TailsKeepApart(a: Word, b: Word, post: seq<bv8>)
    ensures Xor(Update(a, post), ONES) == Xor(Update(b, post), ONES) <==> a == b
  {
    hide Update, Xor;
    XorUndo(Update(a, post), ONES);
    XorUndo(Update(b, post), ONES);
    if Update(a, post) == Update(b, post) {
      UpdateInjective(a, b, post);
    }
  }

  lemma {:induction false} FedTwiceIff(c: Word, g: Word, g': Word, pre: seq<bv8>)
    requires |pre| == GENERATION
    ensures FedTwice(c, g, pre) == FedTwice(c, g', pre) <==> Xor(g, g') == ZERO || Xor(g, g') == FIXED
  {
    hide Update, Steps, Xor, FedTwice;
    var d := Xor(g, g');
    XorOther(g, g');
    FedApart(c, g, d, pre);
    MeetsItself(Xor(Update(Steps(Xor(c, g), 32), pre), g), d);
  }

  lemma {:induction false} OnlyGenerationDiffers(s: Inode, s': Inode)
    requires AgreeOutside(s, s', GENERATION)
    ensures s[..GENERATION] == s'[..GENERATION] && Masked(s)[GENERATION + 4..] == Masked(s')[GENERATION + 4..]
  {
  }

  /** A change of the generation alone is lost exactly when it is the fixed value. */
  lemma {:induction false} GenerationIff(s: Inode, s': Inode, ino: bv32, uuid: seq<bv8>)
    requires AgreeOutside(s, s', GENERATION)
    ensures var d := Xor(Word(WordAt(s, GENERATION)), Word(WordAt(s', GENERATION)));
      Checksum(s, ino, uuid) == Checksum(s', ino, uuid) <==> d == ZERO || d == FIXED
  {
    OnlyGenerationDiffers(s, s');
    hide Update, Le, WordAt, Masked, Seed, Checksum, FedTwice, Xor, AgreeOutside;
    var g, g' := Word(WordAt(s, GENERATION)), Word(WordAt(s', GENERATION));
    var c, pre, post := Seed(uuid, ino), s[..GENERATION], Masked(s)[GENERATION + 4..];
    ChecksumFedTwice(s, ino, uuid);
    ChecksumFedTwice(s', ino, uuid);
    FedTwiceIff(c, g, g', pre);
    TailsKeepApart(FedTwice(c, g, pre), FedTwice(c, g', pre), post);
  }

  lemma {:induction false} XorOther(g: Word, g': Word)
    ensures Xor(g, Xor(g, g')) == g'
  {
  }

  // ---- Every window ----

  /** Both feedings of the generation, and the window, as differences of the register. */
  lemma {:induction false} FedWindow(c: Word, g: Word, g': Word, pre: seq<bv8>)
    ensures Update(Steps(Xor(c, g'), 32), pre) ==
      Xor(Update(Steps(Xor(c, g), 32), pre), Steps(Xor(g, g'), 32 + 8 * |pre|))
  {
    hide Update, Steps, Xor;
    var d := Xor(g, g');
    XorOther(g, g');
    XorAssociates(c, g, d);
    StepsLinear(Xor(c, g), d, 32);
    UpdateLinear(Steps(Xor(c, g), 32), Steps(d, 32), pre);
    StepsBoth(d, 32, 8 * |pre|);
  }

  lemma {:induction false} SameRegister(a: Word, e: Word, y: Word, y': Word)
    ensures Xor(a, y) == Xor(Xor(a, e), y') <==> Xor(y, y') == e
  {
    hide Xor;
    var z := Xor(y, y');
    XorOther(y, y');
    XorPair(a, y, z);
    XorUndo(Xor(a, e), y');
    XorUndo(Xor(a, z), y');
    XorSwap(a, e);
    XorSwap(a, z);
    XorUndo(e, a);
    XorUndo(z, a);
  }

  lemma {:induction false} AbsorbedIff(a: Word, e: Word, y: bv32, y': bv32)
    ensures Update(a, Le(y)) == Update(Xor(a, e), Le(y')) <==> Xor(Word(y), Word(y')) == e
  {
    hide Update, Steps, Xor, Le;
    FeedWord(a, y);
    FeedWord(Xor(a, e), y');
    SameRegister(a, e, Word(y), Word(y'));
    if Steps(Xor(a, Word(y)), 32) == Steps(Xor(Xor(a, e), Word(y')), 32) {
      StepsInjective(Xor(a, Word(y)), Xor(Xor(a, e), Word(y')), 32);
    }
  }

  /** A change confined to any four consecutive bytes, the generation included or not, keeps the
      checksum exactly when its difference is that of the generation, `8 * (p + 4)` steps on. */
  lemma {:induction false} WindowIff(s: Inode, s': Inode, p: nat, ino: bv32, uuid: seq<bv8>)
    requires AgreeOutside(s, s', p)
    ensures var generation := Xor(Word(WordAt(s, GENERATION)), Word(WordAt(s', GENERATION)));
      var window := Xor(Word(WordAt(Masked(s), p)), Word(WordAt(Masked(s'), p)));
      Checksum(s, ino, uuid) == Checksum(s', ino, uuid) <==> window == Steps(generation, 8 * (p + 4))
  {
    var pre, post := AroundWindow(s, s', p);
    hide Update, Le, WordAt, Masked, Xor, Steps, Seed, Checksum, AgreeOutside;
    var c, x, x' := Seed(uuid, ino), WordAt(s, GENERATION), WordAt(s', GENERATION);
    var y, y' := WordAt(Masked(s), p), WordAt(Masked(s'), p);
    FedByWindow(s, p, ino, uuid, pre, post);
    FedByWindow(s', p, ino, uuid, pre, post);
    var a := Update(Steps(Xor(c, Word(x)), 32), pre);
    var e := Steps(Xor(Word(x), Word(x')), 32 + 8 * p);
    FedWindow(c, Word(x), Word(x'), pre);
    AbsorbedIff(a, e, y, y');
    TailsKeepApart(Update(a, Le(y)), Update(Xor(a, e), Le(y')), post);
  }

  lemma {:induction false} AroundWindow(s: Inode, s': Inode, p: nat) returns (pre: seq<bv8>, post: seq<bv8>)
    requires AgreeOutside(s, s', p)
    ensures p + 4 <= SIZE && |pre| == p
    ensures Masked(s) == pre + (Masked(s)[p..p + 4] + post) && Masked(s') == pre + (Masked(s')[p..p + 4] + post)
  {
    MaskedWindow(s, s', p);
    hide Masked;
    WindowApart(Masked(s), Masked(s'), p);
    pre, post := Masked(s)[..p], Masked(s)[p + 4..];
  }

  /** The checksum with one window set apart. */
  lemma {:induction false} FedByWindow(s: Inode, p: nat, ino: bv32, uuid: seq<bv8>, pre: seq<bv8>, post: seq<bv8>)
    requires p + 4 <= SIZE && Masked(s) == pre + (Masked(s)[p..p + 4] + post)
    ensures var a := Update(Steps(Xor(Seed(uuid, ino), Word(WordAt(s, GENERATION))), 32), pre);
      Checksum(s, ino, uuid) == Xor(Update(Update(a, Le(WordAt(Masked(s), p))), post), ONES)
  {
    hide Update, Le, WordAt, Masked, Xor, Steps, Seed;
    var c, x, y := Seed(uuid, ino), WordAt(s, GENERATION), WordAt(Masked(s), p);
    LeOfWordAt(Masked(s), p);
    FeedWord(c, x);
    UpdateBoth(Update(c, Le(x)), pre, Le(y) + post);
    UpdateBoth(Update(Update(c, Le(x)), pre), Le(y), post);
  }
}
