/** CRC-32C (Castagnoli), as the image writer and the kernel compute it from a table, as a
    bit-serial register, and as the remainder of a polynomial division (section 12.1 of
    RFC 3720). */
module Crc32c {

  /** A 32-bit register. */
  datatype Word = Word(bits: bv32)

  const ZERO := Word(0)
  const ONE := Word(1)
  const ONES := Word(0xFFFFFFFF)
  const POLY := Word(0x82F63B78)

  predicate Low(c: Word) { c.bits & 1 == 1 }
  function Half(c: Word): Word { Word(c.bits >> 1) }
  function Quarter(c: Word): Word { Word(c.bits >> 4) }
  function Xor(a: Word, b: Word): Word { Word(a.bits ^ b.bits) }
  function Shift8(c: Word): Word { Word(c.bits >> 8) }
  function LowByte(c: Word): Word { Word(c.bits & 0xFF) }
  function HighPart(c: Word): Word { Word(c.bits & 0xFFFFFF00) }
  predicate ByteClear(c: Word) { c.bits & 0xFF == 0 }
  predicate NibbleClear(c: Word) { c.bits & 0xF == 0 }
  function OneIf(b: bool): Word { if b then ONE else ZERO }

  /** One step of the reflected register. */
  function Step(c: Word): Word {
    if Low(c) then Xor(Half(c), POLY) else Half(c)
  }

  function Steps(c: Word, n: nat): Word
    decreases n
  {
    if n == 0 then c else Steps(Step(c), n - 1)
  }

  // ---- Polynomial division ----

  /** Bit `i` of a word, lowest first. */
  function Bit(c: Word, i: nat): bool
    decreases i
  {
    if i == 0 then Low(c) else Bit(Half(c), i - 1)
  }

  /** The coefficients a register stands for, highest power first. */
  function Coefficients(c: Word): (s: seq<bool>)
    ensures |s| == 32
  {
    seq(32, i requires 0 <= i => Bit(c, i))
  }

  /** Removes the leading coefficient, subtracting the divisor if it is set. The divisor is
      x^32 and the 32 coefficients of `POLY`. */
  function Reduce(w: seq<bool>): (r: seq<bool>)
    requires |w| > 32
    ensures |r| == |w| - 1
  {
    seq(|w| - 1, i requires 0 <= i < |w| - 1 => w[i + 1] != (w[0] && i < 32 && Bit(POLY, i)))
  }

  /** The remainder left by long division. */
  function Remainder(w: seq<bool>): (r: seq<bool>)
    requires |w| >= 32
    ensures |r| == 32
    decreases |w|
  {
    if |w| == 32 then w else Remainder(Reduce(w))
  }

  /** The dividend: the message, then 32 zeros, with the starting value added to the front. */
  function Dividend(c: Word, m: seq<bool>): (w: seq<bool>)
    ensures |w| == |m| + 32
  {
    seq(|m| + 32, i requires 0 <= i => (i < |m| && m[i]) != (i < 32 && Bit(c, i)))
  }

  /** The bit-serial register, fed one message bit at a time. */
  function Serial(c: Word, m: seq<bool>): Word
    decreases |m|
  {
    if m == [] then c else Serial(Step(Xor(c, OneIf(m[0]))), m[1..])
  }

  // Facts about words, for the solver's bit-vector theory alone.

  lemma {:induction false} XorHalf(a: Word, b: Word)
    ensures Half(Xor(a, b)) == Xor(Half(a), Half(b))
  {
  }

  lemma {:induction false} XorLow(a: Word, b: Word)
    ensures Low(Xor(a, b)) == (Low(a) != Low(b))
  {
  }

  lemma {:induction false} Half4(c: Word)
    ensures Half(Half(Half(Half(c)))) == Quarter(c)
  {
  }

  lemma {:induction false} ShiftOut(c: Word)
    ensures !Low(Quarter(Quarter(Quarter(Quarter(Quarter(Quarter(Quarter(Quarter(c)))))))))
  {
  }

  lemma {:induction false} XorBit(c: Word, b: bool)
    ensures var c' := Xor(c, OneIf(b)); Low(c') == (Low(c) != b) && Half(c') == Half(c)
  {
  }

  lemma {:induction false} BitOfXor(a: Word, b: Word, i: nat)
    ensures Bit(Xor(a, b), i) == (Bit(a, i) != Bit(b, i))
    decreases i
  {
    hide Low, Half, Xor;
    XorLow(a, b);
    if i > 0 {
      XorHalf(a, b);
      BitOfXor(Half(a), Half(b), i - 1);
    }
  }

  lemma {:induction false} BitPast4(c: Word, i: nat)
    requires i >= 4
    ensures Bit(c, i) == Bit(Quarter(c), i - 4)
  {
    hide Low, Half, Quarter;
    assert Bit(c, i) == Bit(Half(c), i - 1) == Bit(Half(Half(c)), i - 2);
    assert Bit(Half(Half(c)), i - 2) == Bit(Half(Half(Half(c))), i - 3) == Bit(Half(Half(Half(Half(c)))), i - 4);
    Half4(c);
  }

  lemma {:induction false} BitPastEnd(c: Word)
    ensures !Bit(c, 32)
  {
    hide Low, Half, Quarter;
    BitPast4(c, 32);
    var c2 := Quarter(Quarter(c));
    BitPast4(Quarter(c), 28);
    BitPast4(c2, 24);
    var c4 := Quarter(Quarter(c2));
    BitPast4(Quarter(c2), 20);
    BitPast4(c4, 16);
    var c6 := Quarter(Quarter(c4));
    BitPast4(Quarter(c4), 12);
    BitPast4(c6, 8);
    BitPast4(Quarter(c6), 4);
    ShiftOut(c);
  }

  lemma {:induction false} BitOfStep(c: Word, i: nat)
    requires i < 32
    ensures Bit(Step(c), i) == ((i < 31 && Bit(c, i + 1)) != (Low(c) && Bit(POLY, i)))
  {
    hide Low, Half, Xor;
    BitOfXor(Half(c), POLY, i);
    BitPastEnd(c);
  }

  /** Dividing out the leading coefficient is one step of the register. */
  lemma {:induction false} DivideOnce(c: Word, m: seq<bool>)
    requires m != []
    ensures Reduce(Dividend(c, m)) == Dividend(Step(Xor(c, OneIf(m[0]))), m[1..])
  {
    var c' := Xor(c, OneIf(m[0]));
    XorBit(c, m[0]);
    hide Low, Half, Step, Xor, OneIf;
    var w, w' := Dividend(c, m), Dividend(Step(c'), m[1..]);
    assert w[0] == (m[0] != Bit(c, 0)) == Low(c');
    forall i | 0 <= i < |m| + 31 ensures Reduce(w)[i] == w'[i] {
      CoefficientStep(c, c', m, i);
    }
  }

  lemma {:induction false} CoefficientStep(c: Word, c': Word, m: seq<bool>, i: nat)
    requires m != [] && i < |m| + 31 && Half(c') == Half(c)
    ensures (Dividend(c, m)[i + 1] != (Low(c') && i < 32 && Bit(POLY, i))) == Dividend(Step(c'), m[1..])[i]
  {
    hide Low, Half, Step;
    assert Bit(c', i + 1) == Bit(Half(c'), i) == Bit(c, i + 1);
    assert Dividend(c, m)[i + 1] == ((i + 1 < |m| && m[i + 1]) != (i + 1 < 32 && Bit(c, i + 1)));
    if i < 32 {
      BitOfStep(c', i);
    }
  }

  /** The register after a message is the remainder of the message polynomial. */
  lemma {:induction false} SerialIsRemainder(c: Word, m: seq<bool>)
    ensures Remainder(Dividend(c, m)) == Coefficients(Serial(c, m))
    decreases |m|
  {
    if m == [] {
      assert Dividend(c, m) == Coefficients(c);
    } else {
      hide Step, Dividend, Reduce, Coefficients, Xor, OneIf;
      DivideOnce(c, m);
      SerialIsRemainder(Step(Xor(c, OneIf(m[0]))), m[1..]);
    }
  }

  // ---- Bytes ----

  function Wide(b: bv8): Word { Word(b as bv32) }

  /** One byte through the register: eight steps after adding the byte to the low end. */
  function ByteStep(c: Word, b: bv8): Word {
    Steps(Xor(c, Wide(b)), 8)
  }

  function Update(c: Word, data: seq<bv8>): Word
    decreases |data|
  {
    if data == [] then c else Update(ByteStep(c, data[0]), data[1..])
  }

  function BitsOf(x: Word, k: nat): (s: seq<bool>)
    ensures |s| == k
  {
    seq(k, i requires 0 <= i => Bit(x, i))
  }

  /** The message bits, lowest bit of each byte first. */
  function MessageBits(data: seq<bv8>): seq<bool> {
    if data == [] then [] else BitsOf(Wide(data[0]), 8) + MessageBits(data[1..])
  }

  function HalfN(z: Word, k: nat): Word
    decreases k
  {
    if k == 0 then z else HalfN(Half(z), k - 1)
  }

  lemma {:induction false} StepAbsorbs(c: Word, x: Word)
    ensures Step(Xor(c, x)) == Xor(Step(Xor(c, OneIf(Low(x)))), Half(x))
  {
    XorLow(c, x);
    XorHalf(c, x);
    XorBit(c, Low(x));
    XorShuffle(Half(c), Half(x), POLY);
    hide Low, Half, Xor, OneIf;
  }

  lemma {:induction false} XorShuffle(a: Word, b: Word, p: Word)
    ensures Xor(Xor(a, b), p) == Xor(Xor(a, p), b)
  {
  }

  lemma {:induction false} XorZero(a: Word)
    ensures Xor(a, ZERO) == a
  {
  }

  lemma {:induction false} BitsOfTail(x: Word, k: nat)
    requires k > 0
    ensures BitsOf(x, k)[0] == Low(x) && BitsOf(x, k)[1..] == BitsOf(Half(x), k - 1)
  {
    hide Low, Half;
  }

  /** Feeding the low `k` bits of `x`, which has no more, is `k` steps from `c + x`. */
  lemma {:induction false} FeedBits(c: Word, x: Word, k: nat)
    requires HalfN(x, k) == ZERO
    ensures Serial(c, BitsOf(x, k)) == Steps(Xor(c, x), k)
    decreases k
  {
    if k == 0 {
      XorZero(c);
    } else {
      hide Low, Half, Xor, Step, OneIf, BitsOf;
      StepAbsorbs(c, x);
      BitsOfTail(x, k);
      FeedBits(Step(Xor(c, OneIf(Low(x)))), Half(x), k - 1);
    }
  }

  lemma {:induction false} HalfN8(z: Word)
    ensures HalfN(z, 8) == Half(Half(Half(Half(Half(Half(Half(Half(z))))))))
  {
    hide Half;
    var z4 := Half(Half(Half(Half(z))));
    assert HalfN(z, 8) == HalfN(Half(z), 7) == HalfN(Half(Half(z)), 6);
    assert HalfN(Half(Half(z)), 6) == HalfN(Half(Half(Half(z))), 5) == HalfN(z4, 4);
    assert HalfN(z4, 4) == HalfN(Half(z4), 3) == HalfN(Half(Half(z4)), 2);
    assert HalfN(Half(Half(z4)), 2) == HalfN(Half(Half(Half(z4))), 1) == HalfN(Half(Half(Half(Half(z4)))), 0);
  }

  lemma {:induction false} ByteFits(b: bv8)
    ensures HalfN(Wide(b), 8) == ZERO
  {
    HalfN8(Wide(b));
    hide HalfN;
  }

  lemma {:induction false} SerialBoth(c: Word, a: seq<bool>, b: seq<bool>)
    ensures Serial(c, a + b) == Serial(Serial(c, a), b)
    decreases |a|
  {
    hide Step, Xor, OneIf;
    if a == [] {
      assert a + b == b;
    } else {
      assert (a + b)[1..] == a[1..] + b;
      SerialBoth(Step(Xor(c, OneIf(a[0]))), a[1..], b);
    }
  }

  /** Byte by byte and bit by bit are the same register. */
  lemma {:induction false} UpdateIsSerial(c: Word, data: seq<bv8>)
    ensures Update(c, data) == Serial(c, MessageBits(data))
    decreases |data|
  {
    if data != [] {
      hide Step, Xor, OneIf, Wide, Serial, BitsOf;
      ByteFits(data[0]);
      FeedBits(c, Wide(data[0]), 8);
      SerialBoth(c, BitsOf(Wide(data[0]), 8), MessageBits(data[1..]));
      UpdateIsSerial(ByteStep(c, data[0]), data[1..]);
    }
  }

  /** Chained updates are one update over the concatenation. */
  lemma {:induction false} UpdateBoth(c: Word, a: seq<bv8>, b: seq<bv8>)
    ensures Update(c, a + b) == Update(Update(c, a), b)
    decreases |a|
  {
    hide ByteStep;
    if a == [] {
      assert a + b == b;
    } else {
      assert (a + b)[1..] == a[1..] + b;
      UpdateBoth(ByteStep(c, a[0]), a[1..], b);
    }
  }

  // ---- The table ----

  ghost predicate LowClear(z: Word, k: nat)
    decreases k
  {
    k == 0 || (!Low(z) && LowClear(Half(z), k - 1))
  }

  lemma {:induction false} StepShifts(a: Word, z: Word)
    requires !Low(z)
    ensures Step(Xor(a, z)) == Xor(Step(a), Half(z))
  {
    XorLow(a, z);
    XorHalf(a, z);
    XorShuffle(Half(a), Half(z), POLY);
    hide Low, Half, Xor;
  }

  /** Bits that do not reach the low end only shift. */
  lemma {:induction false} StepsShift(a: Word, z: Word, k: nat)
    requires LowClear(z, k)
    ensures Steps(Xor(a, z), k) == Xor(Steps(a, k), HalfN(z, k))
    decreases k
  {
    hide Low, Half, Xor, Step;
    if k > 0 {
      StepShifts(a, z);
      StepsShift(Step(a), Half(z), k - 1);
    }
  }

  lemma {:induction false} LowClear8(z: Word)
    requires ByteClear(z)
    ensures LowClear(z, 8) && HalfN(z, 8) == Shift8(z)
  {
    var z4 := Half(Half(Half(Half(z))));
    hide Low, Half, Quarter, Shift8, ByteClear, NibbleClear;
    HalfN8(z);
    NibbleLow(z);
    NibbleHigh(z);
    QuarterTwice(z);
    Half4(z);
    Half4(z4);
    NibbleBits(z);
    NibbleBits(z4);
    assert LowClear(Half(Half(Half(Half(z4)))), 0);
    assert LowClear(Half(Half(Half(z4))), 1) && LowClear(Half(Half(z4)), 2) && LowClear(Half(z4), 3) && LowClear(z4, 4);
    assert LowClear(Half(Half(Half(z))), 5) && LowClear(Half(Half(z)), 6) && LowClear(Half(z), 7);
  }

  lemma {:induction false} NibbleLow(z: Word)
    requires ByteClear(z)
    ensures NibbleClear(z)
  {
  }

  lemma {:induction false} NibbleHigh(z: Word)
    requires ByteClear(z)
    ensures NibbleClear(Quarter(z))
  {
  }

  lemma {:induction false} QuarterTwice(z: Word)
    ensures Quarter(Quarter(z)) == Shift8(z)
  {
  }

  lemma {:induction false} NibbleBits(z: Word)
    requires NibbleClear(z)
    ensures !Low(z) && !Low(Half(z)) && !Low(Half(Half(z))) && !Low(Half(Half(Half(z))))
  {
  }

  lemma {:induction false} SplitWord(y: Word)
    ensures Xor(LowByte(y), HighPart(y)) == y
  {
  }

  lemma {:induction false} HighPartClear(y: Word)
    ensures ByteClear(HighPart(y))
  {
  }

  lemma {:induction false} HighPartShift(y: Word)
    ensures Shift8(HighPart(y)) == Shift8(y)
  {
  }

  lemma {:induction false} ByteShiftsOut(crc: bv32, b: bv8)
    ensures Shift8(Xor(Word(crc), Wide(b))) == Word(crc >> 8)
    ensures LowByte(Xor(Word(crc), Wide(b))) == Word((crc ^ b as bv32) & 0xFF)
  {
  }

  /** Eight steps: what the low byte turns into, and a shift for the rest. */
  lemma {:induction false} StepsOfWord(y: Word)
    ensures Steps(y, 8) == Xor(Steps(LowByte(y), 8), Shift8(y))
  {
    hide HalfN, Steps, Xor, LowByte, HighPart, Shift8, ByteClear;
    SplitWord(y);
    HighPartClear(y);
    HighPartShift(y);
    LowClear8(HighPart(y));
    StepsShift(LowByte(y), HighPart(y), 8);
  }

  lemma {:induction false} TableStep(crc: bv32, b: bv8)
    ensures Xor(Steps(Word((crc ^ b as bv32) & 0xFF), 8), Word(crc >> 8)) == ByteStep(Word(crc), b)
  {
    hide Steps, Xor, LowByte, Shift8, Wide;
    StepsOfWord(Xor(Word(crc), Wide(b)));
    ByteShiftsOut(crc, b);
  }

  /** The table entry for byte value `i`. */
  function Row(i: nat): Word
    requires i < 256
  {
    Steps(Word(i as bv32), 8)
  }

  ghost predicate IsTable(t: seq<bv32>) {
    |t| == 256 && forall i: nat | i < 256 :: Word(t[i]) == Row(i)
  }

  /** `_init_crc32c` */
  method InitTable() returns (t: seq<bv32>)
    ensures IsTable(t)
  {
    hide Row;
    t := [];
    for i := 0 to 256
      invariant |t| == i && forall j: nat | j < i :: Word(t[j]) == Row(j)
    {
      var crc := EightSteps(i);
      t := t + [crc];
    }
  }

  method EightSteps(i: nat) returns (crc: bv32)
    requires i < 256
    ensures Word(crc) == Row(i)
  {
    crc := i as bv32;
    ghost var start := Word(crc);
    hide Steps;
    for k := 0 to 8
      invariant Steps(Word(crc), 8 - k) == Steps(start, 8)
    {
      StepBits(crc, 8 - k);
      crc := if crc & 1 == 1 then (crc >> 1) ^ 0x82F63B78 else crc >> 1;
    }
    StepBits(crc, 0);
  }

  lemma {:induction false} StepBits(crc: bv32, n: nat)
    ensures n > 0 ==>
      Steps(Word(crc), n) == Steps(Word(if crc & 1 == 1 then (crc >> 1) ^ 0x82F63B78 else crc >> 1), n - 1)
    ensures Steps(Word(crc), 0) == Word(crc)
  {
  }

  lemma {:induction false} RowOf(x: bv32)
    requires x & 0xFF == x
    ensures 0 <= x as int < 256 && Row(x as int) == Steps(Word(x), 8)
  {
    assert (x as int) as bv32 == x;
    hide Steps;
  }

  /** `crc32c_update`: the table-driven loop computes the register. */
  method UpdateByTable(t: seq<bv32>, start: bv32, data: seq<bv8>) returns (crc: bv32)
    requires IsTable(t)
    ensures Word(crc) == Update(Word(start), data)
  {
    crc := start;
    for i := 0 to |data|
      invariant Update(Word(crc), data[i..]) == Update(Word(start), data)
    {
      crc := TableLookup(t, crc, data[i]);
      assert data[i..][1..] == data[i + 1..];
    }
    assert data[|data|..] == [];
  }

  method TableLookup(t: seq<bv32>, crc: bv32, b: bv8) returns (next: bv32)
    requires IsTable(t)
    ensures Word(next) == ByteStep(Word(crc), b)
  {
    hide Row, Steps, ByteStep;
    var x: bv32 := (crc ^ b as bv32) & 0xFF;
    assert x & 0xFF == x;
    RowOf(x);
    TableStep(crc, b);
    next := t[x as int] ^ (crc >> 8);
  }

  // ---- What a change does to the register ----

  predicate High(c: Word) { c.bits & 0x80000000 != 0 }
  function Unstep(c: Word): Word {
    if High(c) then Word(((c.bits ^ 0x82F63B78) << 1) | 1) else Word(c.bits << 1)
  }

  /** A step can be undone. */
  lemma {:induction false} StepUndone(a: Word)
    ensures Unstep(Step(a)) == a
  {
  }

  lemma {:induction false} StepsInjective(a: Word, b: Word, n: nat)
    requires Steps(a, n) == Steps(b, n)
    ensures a == b
    decreases n
  {
    hide Step, Unstep;
    if n > 0 {
      StepsInjective(Step(a), Step(b), n - 1);
      StepUndone(a);
      StepUndone(b);
    }
  }

  lemma {:induction false} XorUndo(a: Word, b: Word)
    ensures Xor(Xor(a, b), b) == a
  {
  }

  lemma {:induction false} XorSwap(a: Word, b: Word)
    ensures Xor(a, b) == Xor(b, a)
  {
  }

  lemma {:induction false} XorAssociates(a: Word, b: Word, c: Word)
    ensures Xor(Xor(a, b), c) == Xor(a, Xor(b, c))
  {
  }

  /** Different registers stay different over the same bytes. */
  lemma {:induction false} UpdateInjective(a: Word, b: Word, data: seq<bv8>)
    requires Update(a, data) == Update(b, data)
    ensures a == b
    decreases |data|
  {
    if data != [] {
      hide Xor, Wide, Steps;
      var x := Wide(data[0]);
      UpdateInjective(ByteStep(a, data[0]), ByteStep(b, data[0]), data[1..]);
      StepsInjective(Xor(a, x), Xor(b, x), 8);
      XorUndo(a, x);
      XorUndo(b, x);
    }
  }

  function Up8(c: Word): Word { Word(c.bits << 8) }

  /** Four bytes as one little-endian word. */
  function Pack(b0: bv8, b1: bv8, b2: bv8, b3: bv8): Word {
    Above(b0, Above(b1, Above(b2, Wide(b3))))
  }

  function Above(b: bv8, c: Word): Word { Xor(Wide(b), Up8(c)) }

  predicate Short(c: Word) { c.bits & 0xFF000000 == 0 }

  lemma {:induction false} AboveShift(b: bv8, c: Word)
    requires Short(c)
    ensures Shift8(Up8(c)) == c
  {
  }

  lemma {:induction false} AboveLow(b: bv8, c: Word)
    ensures LowByte(Above(b, c)) == Wide(b)
  {
  }

  lemma {:induction false} AboveHigh(b: bv8, c: Word)
    requires Short(c)
    ensures Shift8(Above(b, c)) == c
  {
  }

  lemma {:induction false} UpClear(c: Word)
    ensures ByteClear(Up8(c))
  {
  }

  lemma {:induction false} WideInjective(a: bv8, b: bv8)
    requires Wide(a) == Wide(b)
    ensures a == b
  {
  }

  lemma {:induction false} PackShort(b1: bv8, b2: bv8, b3: bv8)
    ensures Short(Wide(b3))
    ensures Short(Above(b2, Wide(b3)))
    ensures Short(Above(b1, Above(b2, Wide(b3))))
  {
    ShortOne(b3);
    ShortTwo(b2, b3);
    ShortThree(b1, b2, b3);
    hide Short, Above, Wide;
  }

  lemma {:induction false} ShortOne(b: bv8)
    ensures Short(Wide(b))
  {
  }

  lemma {:induction false} ShortTwo(b2: bv8, b3: bv8)
    ensures Short(Above(b2, Wide(b3)))
  {
  }

  lemma {:induction false} ShortThree(b1: bv8, b2: bv8, b3: bv8)
    ensures Short(Above(b1, Above(b2, Wide(b3))))
  {
  }

  /** The first byte of a word is absorbed; the others move down. */
  lemma {:induction false} AbsorbByte(c: Word, b: bv8, rest: Word)
    requires Short(rest)
    ensures Steps(Xor(c, Above(b, rest)), 8) == Xor(ByteStep(c, b), rest)
  {
    hide Xor, Wide, Steps, Up8, Short, Shift8, ByteClear, HalfN;
    AboveShift(b, rest);
    UpClear(rest);
    LowClear8(Up8(rest));
    XorAssociates(c, Wide(b), Up8(rest));
    StepsShift(Xor(c, Wide(b)), Up8(rest), 8);
  }

  lemma {:induction false} StepsBoth(c: Word, m: nat, n: nat)
    ensures Steps(c, m + n) == Steps(Steps(c, m), n)
    decreases m
  {
    hide Step;
    if m > 0 {
      StepsBoth(Step(c), m - 1, n);
    }
  }

  lemma {:induction false} AbsorbFour(c: Word, b0: bv8, b1: bv8, b2: bv8, b3: bv8)
    ensures Steps(Xor(c, Pack(b0, b1, b2, b3)), 32) == ByteStep(ByteStep(ByteStep(ByteStep(c, b0), b1), b2), b3)
  {
    hide Xor, Wide, Steps, Short, Above;
    PackShort(b1, b2, b3);
    var p0 := Xor(c, Pack(b0, b1, b2, b3));
    StepsBoth(p0, 8, 24);
    AbsorbByte(c, b0, Above(b1, Above(b2, Wide(b3))));
    var p1 := Steps(p0, 8);
    StepsBoth(p1, 8, 16);
    AbsorbByte(ByteStep(c, b0), b1, Above(b2, Wide(b3)));
    var p2 := Steps(p1, 8);
    StepsBoth(p2, 8, 8);
    AbsorbByte(ByteStep(ByteStep(c, b0), b1), b2, Wide(b3));
  }

  /** Four bytes through the register are 32 steps after adding their word. */
  lemma {:induction false} AbsorbWord(c: Word, b0: bv8, b1: bv8, b2: bv8, b3: bv8)
    ensures Update(c, [b0, b1, b2, b3]) == Steps(Xor(c, Pack(b0, b1, b2, b3)), 32)
  {
    hide Steps, Xor, Pack, ByteStep, Update;
    AbsorbFour(c, b0, b1, b2, b3);
    FourBytes(c, b0, b1, b2, b3);
  }

  lemma {:induction false} FourBytes(c: Word, b0: bv8, b1: bv8, b2: bv8, b3: bv8)
    ensures Update(c, [b0, b1, b2, b3]) == ByteStep(ByteStep(ByteStep(ByteStep(c, b0), b1), b2), b3)
  {
    hide ByteStep;
    assert [b0, b1, b2, b3][1..] == [b1, b2, b3] && [b1, b2, b3][1..] == [b2, b3] && [b2, b3][1..] == [b3];
    var c2 := ByteStep(ByteStep(c, b0), b1);
    assert Update(c, [b0, b1, b2, b3]) == Update(ByteStep(c, b0), [b1, b2, b3]) == Update(c2, [b2, b3]);
    assert Update(c2, [b2, b3]) == Update(ByteStep(c2, b2), [b3]) == Update(ByteStep(ByteStep(c2, b2), b3), []);
  }

  /** Two words with the same bits have the same bytes. */
  lemma {:induction false} PackInjective(a0: bv8, a1: bv8, a2: bv8, a3: bv8, b0: bv8, b1: bv8, b2: bv8, b3: bv8)
    requires Pack(a0, a1, a2, a3) == Pack(b0, b1, b2, b3)
    ensures a0 == b0 && a1 == b1 && a2 == b2 && a3 == b3
  {
    hide Wide, Short, Above, LowByte, Shift8;
    PackShort(a1, a2, a3);
    PackShort(b1, b2, b3);
    AboveApart(a0, Above(a1, Above(a2, Wide(a3))), b0, Above(b1, Above(b2, Wide(b3))));
    AboveApart(a1, Above(a2, Wide(a3)), b1, Above(b2, Wide(b3)));
    AboveApart(a2, Wide(a3), b2, Wide(b3));
    WideInjective(a3, b3);
  }

  lemma {:induction false} AboveApart(a: bv8, x: Word, b: bv8, y: Word)
    requires Short(x) && Short(y) && Above(a, x) == Above(b, y)
    ensures a == b && x == y
  {
    hide Wide, Short, Above, LowByte, Shift8;
    AboveLow(a, x);
    AboveLow(b, y);
    AboveHigh(a, x);
    AboveHigh(b, y);
    WideInjective(a, b);
  }

  /** A change confined to four bytes is never lost, whatever follows. */
  lemma {:induction false} WindowDetected(c: Word, w: seq<bv8>, w': seq<bv8>, tail: seq<bv8>)
    requires |w| == |w'| == 4 && Update(c, w + tail) == Update(c, w' + tail)
    ensures w == w'
  {
    hide Steps, Xor, Pack, Update;
    UpdateBoth(c, w, tail);
    UpdateBoth(c, w', tail);
    UpdateInjective(Update(c, w), Update(c, w'), tail);
    assert w == [w[0], w[1], w[2], w[3]] && w' == [w'[0], w'[1], w'[2], w'[3]];
    var p, p' := Pack(w[0], w[1], w[2], w[3]), Pack(w'[0], w'[1], w'[2], w'[3]);
    AbsorbWord(c, w[0], w[1], w[2], w[3]);
    AbsorbWord(c, w'[0], w'[1], w'[2], w'[3]);
    StepsInjective(Xor(c, p), Xor(c, p'), 32);
    XorSwap(c, p);
    XorSwap(c, p');
    XorUndo(p, c);
    XorUndo(p', c);
    PackInjective(w[0], w[1], w[2], w[3], w'[0], w'[1], w'[2], w'[3]);
  }
}
