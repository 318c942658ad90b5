/** Records packed field by field, and the superblock, which is read the same way. */
module Packing {
  import opened Bytes

  /** One `struct.pack_into`. */
  datatype Field = Field(at: nat, bytes: seq<byte>)

  function PutAll(data: seq<byte>, fs: seq<Field>): seq<byte> {
    if fs == [] then data
    else
      var f := fs[|fs| - 1];
      SliceAssign(PutAll(data, fs[..|fs| - 1]), f.at, f.at + |f.bytes|, f.bytes)
  }

  /** The fields follow one another inside `size` bytes. */
  ghost predicate InOrder(fs: seq<Field>, size: nat) {
    && (forall i | 0 <= i < |fs| :: fs[i].at + |fs[i].bytes| <= size)
    && forall i, j | 0 <= i < j < |fs| :: fs[i].at + |fs[i].bytes| <= fs[j].at
  }

  /** Every field is in place, and bytes outside the fields are as they were. */
  lemma {:induction false} AllPut(data: seq<byte>, fs: seq<Field>)
    requires InOrder(fs, |data|)
    ensures |PutAll(data, fs)| == |data|
    ensures forall i | 0 <= i < |fs| :: HasAt(PutAll(data, fs), fs[i].at, fs[i].bytes)
    ensures forall k | (forall i | 0 <= i < |fs| :: !(fs[i].at <= k < fs[i].at + |fs[i].bytes|)) ::
      At(PutAll(data, fs), k) == At(data, k)
  {
    hide At, SliceAssign;
    if fs != [] {
      var front, f := fs[..|fs| - 1], fs[|fs| - 1];
      AllPut(data, front);
      var before := PutAll(data, front);
      SliceAssignInPlace(before, f.at, f.bytes);
      var after := PutAll(data, fs);
      forall i | 0 <= i < |fs| ensures HasAt(after, fs[i].at, fs[i].bytes) {
        if i < |front| {
          assert HasAt(before, front[i].at, front[i].bytes);
        }
      }
      forall k | (forall i | 0 <= i < |fs| :: !(fs[i].at <= k < fs[i].at + |fs[i].bytes|))
        ensures At(after, k) == At(data, k)
      {
        assert forall i | 0 <= i < |front| :: front[i] == fs[i];
      }
    }
  }

  lemma {:induction false} Sorted(fs: seq<Field>, size: nat)
    requires forall i | 0 <= i < |fs| - 1 :: fs[i].at + |fs[i].bytes| <= fs[i + 1].at
    requires fs != [] ==> fs[|fs| - 1].at + |fs[|fs| - 1].bytes| <= size
    ensures InOrder(fs, size)
  {
    if |fs| > 1 {
      var front := fs[..|fs| - 1];
      Sorted(front, fs[|fs| - 1].at);
    }
  }

  // ---- The superblock ----

  const SUPER_AT: nat := 1024
  const SUPER_SIZE: nat := 1024
  const SUPER_MAGIC: u16 := 0xEF53

  function SuperWord(img: seq<byte>, at: nat): u32 { U32At(img, SUPER_AT + at) }

  function SuperHalf(img: seq<byte>, at: nat): u16 { U16At(img, SUPER_AT + at) }

  lemma {:induction false} SuperWordRead(img: seq<byte>, sb: seq<byte>, at: nat, n: u32)
    requires HasAt(img, SUPER_AT, sb) && |sb| == SUPER_SIZE && HasAt(sb, at, Le32(n))
    ensures SuperWord(img, at) == n
  {
    hide Le32, U32At;
    WordValue(sb, at, n);
    HasAtWord(img, SUPER_AT, sb, at);
  }

  lemma {:induction false} SuperHalfRead(img: seq<byte>, sb: seq<byte>, at: nat, n: u16)
    requires HasAt(img, SUPER_AT, sb) && |sb| == SUPER_SIZE && HasAt(sb, at, Le16(n))
    ensures SuperHalf(img, at) == n
  {
    hide Le16, U16At;
    HalfValue(sb, at, n);
    HasAtHalf(img, SUPER_AT, sb, at);
  }
}
