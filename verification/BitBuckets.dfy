/** The byte-sized buckets of a CFBitVector; bit 0 of a bucket is the most significant. */
module BitBuckets {

  function Weight(i: nat): bv8
    requires i < 8
  {
    match i
    case 0 => 0x80
    case 1 => 0x40
    case 2 => 0x20
    case 3 => 0x10
    case 4 => 0x08
    case 5 => 0x04
    case 6 => 0x02
    case _ => 0x01
  }

  function Bit(b: bv8, i: nat): bool
    requires i < 8
  {
    b & Weight(i) != 0
  }

  /** `__CFBitVectorBit` reads the same bit with a shift. */
  lemma ShiftReadsBit(b: bv8, i: nat)
    requires i < 8
    ensures (b >> (7 - i)) & 1 == 1 <==> Bit(b, i)
  {
  }

  function Shifted(b: bv8, n: nat): bv8
    requires n < 8
  {
    b << n
  }

  lemma ShiftBit(b: bv8, n: nat, j: nat)
    requires n < 8 && j < 8
    ensures Bit(Shifted(b, n), j) <==> n + j < 8 && Bit(b, n + j)
  {
    assert n == 0 || n == 1 || n == 2 || n == 3 || n == 4 || n == 5 || n == 6 || n == 7;
  }

  lemma ShiftNone(b: bv8)
    ensures Shifted(b, 0) == b
  {
  }

  lemma BucketOf(k: nat, j: nat)
    requires j < 8
    ensures (8 * k + j) / 8 == k && (8 * k + j) % 8 == j
  {
  }

  /** `__CFBitBucketMask` */
  function Mask(bottom: nat, top: nat): bv8
    requires bottom <= top < 8
  {
    (0xFF << (8 - top + bottom - 1)) >> bottom
  }

  lemma MaskBits(bottom: nat, top: nat)
    requires bottom <= top < 8
    ensures forall i: nat | i < 8 :: Bit(Mask(bottom, top), i) <==> bottom <= i <= top
  {
    forall i: nat | i < 8
      ensures Bit(Mask(bottom, top), i) <==> bottom <= i <= top
    {
      MaskBit(bottom, top, i);
    }
  }

  lemma MaskBit(bottom: nat, top: nat, i: nat)
    requires bottom <= top < 8 && i < 8
    ensures Bit(Mask(bottom, top), i) <==> bottom <= i <= top
  {
  }

  /** The masked bits of `b` in `a`. */
  function Merged(a: bv8, b: bv8, mask: bv8): bv8 {
    (a & !mask) | (b & mask)
  }

  lemma MergedAt(a: bv8, b: bv8, mask: bv8, w: bv8)
    requires w in {0x80, 0x40, 0x20, 0x10, 0x08, 0x04, 0x02, 0x01}
    ensures Merged(a, b, mask) & w != 0 <==> if mask & w != 0 then b & w != 0 else a & w != 0
  {
  }

  lemma WeightIsPower(i: nat)
    requires i < 8
    ensures Weight(i) in {0x80, 0x40, 0x20, 0x10, 0x08, 0x04, 0x02, 0x01}
  {
  }

  lemma MergedBits(a: bv8, b: bv8, mask: bv8)
    ensures forall i: nat | i < 8 :: Bit(Merged(a, b, mask), i) == if Bit(mask, i) then Bit(b, i) else Bit(a, i)
  {
    hide Merged, Weight;
    forall i: nat | i < 8
      ensures Bit(Merged(a, b, mask), i) == if Bit(mask, i) then Bit(b, i) else Bit(a, i)
    {
      WeightIsPower(i);
      MergedAt(a, b, mask, Weight(i));
    }
  }

  lemma AndBit(a: bv8, mask: bv8, i: nat)
    requires i < 8
    ensures Bit(a & mask, i) <==> Bit(a, i) && Bit(mask, i)
  {
  }

  lemma FlippedBit(a: bv8, i: nat)
    requires i < 8
    ensures Bit(0xFF ^ a, i) <==> !Bit(a, i)
    ensures Bit(!a, i) <==> !Bit(a, i)
  {
  }

  lemma ConstantBit(i: nat)
    requires i < 8
    ensures !Bit(0, i) && Bit(0xFF, i)
  {
  }

  /** How many of the first `n` bits are set. */
  function BitCount(b: bv8, n: nat): nat
    requires n <= 8
  {
    if n == 0 then 0 else BitCount(b, n - 1) + (if Bit(b, n - 1) then 1 else 0)
  }

  /** `__CFNibbleBitCount` */
  function NibbleCount(n: bv8): nat
    requires n < 16
  {
    match n
    case 0 => 0
    case 1 => 1
    case 2 => 1
    case 3 => 2
    case 4 => 1
    case 5 => 2
    case 6 => 2
    case 7 => 3
    case 8 => 1
    case 9 => 2
    case 10 => 2
    case 11 => 3
    case 12 => 2
    case 13 => 3
    case 14 => 3
    case _ => 4
  }

  function One(b: bool): nat {
    if b then 1 else 0
  }

  lemma NibbleBits(n: bv8)
    requires n < 16
    ensures NibbleCount(n) == One(n & 8 != 0) + One(n & 4 != 0) + One(n & 2 != 0) + One(n & 1 != 0)
  {
  }

  lemma LowNibble(b: bv8)
    ensures var n := b & 0xF;
      && n < 16
      && (n & 8 != 0 <==> b & 8 != 0) && (n & 4 != 0 <==> b & 4 != 0)
      && (n & 2 != 0 <==> b & 2 != 0) && (n & 1 != 0 <==> b & 1 != 0)
  {
  }

  lemma HighNibble(b: bv8)
    ensures var n := (b >> 4) & 0xF;
      && n < 16
      && (n & 8 != 0 <==> b & 0x80 != 0) && (n & 4 != 0 <==> b & 0x40 != 0)
      && (n & 2 != 0 <==> b & 0x20 != 0) && (n & 1 != 0 <==> b & 0x10 != 0)
  {
  }

  /** The table, looked up for both nibbles, counts the set bits. */
  lemma NibblesCountBits(b: bv8)
    ensures b & 0xF < 16 && (b >> 4) & 0xF < 16
    ensures NibbleCount(b & 0xF) + NibbleCount((b >> 4) & 0xF) == BitCount(b, 8)
  {
    LowNibble(b);
    HighNibble(b);
    NibbleBits(b & 0xF);
    NibbleBits((b >> 4) & 0xF);
    BitCountSum(b);
  }

  lemma BitCountSum(b: bv8)
    ensures BitCount(b, 8) == One(b & 0x80 != 0) + One(b & 0x40 != 0) + One(b & 0x20 != 0) + One(b & 0x10 != 0)
                             + One(b & 0x08 != 0) + One(b & 0x04 != 0) + One(b & 0x02 != 0) + One(b & 0x01 != 0)
  {
    BitsOneByOne(b);
    hide BitCount, One;
  }

  lemma BitsOneByOne(b: bv8)
    ensures BitCount(b, 8) == One(Bit(b, 0)) + One(Bit(b, 1)) + One(Bit(b, 2)) + One(Bit(b, 3))
                             + One(Bit(b, 4)) + One(Bit(b, 5)) + One(Bit(b, 6)) + One(Bit(b, 7))
  {
    hide Bit;
    assert BitCount(b, 1) == One(Bit(b, 0));
    assert BitCount(b, 2) == BitCount(b, 1) + One(Bit(b, 1));
    assert BitCount(b, 3) == BitCount(b, 2) + One(Bit(b, 2));
    assert BitCount(b, 4) == BitCount(b, 3) + One(Bit(b, 3));
    assert BitCount(b, 5) == BitCount(b, 4) + One(Bit(b, 4));
    assert BitCount(b, 6) == BitCount(b, 5) + One(Bit(b, 5));
    assert BitCount(b, 7) == BitCount(b, 6) + One(Bit(b, 6));
  }

  /** Buckets with the same bits are the same. */
  lemma SameBits(a: bv8, b: bv8)
    requires forall i: nat | i < 8 :: Bit(a, i) == Bit(b, i)
    ensures a == b
  {
    assert Bit(a, 0) == Bit(b, 0) && Bit(a, 1) == Bit(b, 1) && Bit(a, 2) == Bit(b, 2) && Bit(a, 3) == Bit(b, 3);
    assert Bit(a, 4) == Bit(b, 4) && Bit(a, 5) == Bit(b, 5) && Bit(a, 6) == Bit(b, 6) && Bit(a, 7) == Bit(b, 7);
  }

  /** What the single-bit operations shift into place. */
  function Selector(i: nat): bv8
    requires i < 8
  {
    1 << (7 - i)
  }

  lemma SelectorIsWeight(i: nat)
    requires i < 8
    ensures Selector(i) == Weight(i)
  {
  }
}
