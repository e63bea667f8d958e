/** CFBitVector: every operation on a range changes, counts or extracts exactly the bits of the range. */
module BitVector {
  import opened BitBuckets
  import opened BitMapper

  function RoundUpCapacity(capacity: nat): nat {
    var needed := if capacity == 0 then 1 else capacity;
    (needed + 63) / 64 * 64
  }

  /** A bucket with one bit set or cleared. */
  function WithBit(b: bv8, j: nat, value: bool): bv8
    requires j < 8
  {
    if value then b | Selector(j) else b & !Selector(j)
  }

  class Vector {
    var count: nat
    var capacity: nat
    var buckets: array<bv8>

    ghost predicate Valid()
      reads this
    {
      count <= capacity && buckets.Length == capacity / 8 + 1
    }

    ghost function Bits(): seq<bv8>
      reads this, buckets
    {
      buckets[..]
    }

    /** `__CFBitVectorInit` without bytes */
    constructor (numBits: nat)
      ensures Valid() && fresh(buckets) && count == numBits
      ensures forall i: nat | i < 8 * buckets.Length :: !BitAt(Bits(), i)
    {
      count := numBits;
      var rounded := RoundUpCapacity(numBits);
      capacity := rounded;
      buckets := new bv8[rounded / 8 + 1](_ => 0);
      new;
      ConstantBits();
    }

    /** `CFBitVectorGetBitAtIndex` */
    method GetBitAtIndex(idx: nat) returns (bit: bool)
      requires Valid() && idx < count
      ensures bit == BitAt(Bits(), idx) && (bit <==> (buckets[idx / 8] >> (7 - idx % 8)) & 1 == 1)
    {
      ShiftReadsBit(buckets[idx / 8], idx % 8);
      bit := (buckets[idx / 8] >> (7 - idx % 8)) & 1 == 1;
    }

    /** The mapper's turn on part of a bucket, which keeps the other bits. */
    method MapPart(k: nat, lo: nat, hi: nat, mapper: Mapper, c: Context,
                   ghost before: seq<bv8>, ghost from: nat, ghost length: nat,
                   ghost start: Context) returns (c': Context)
      requires k < buckets.Length && lo <= hi < 8 && (lo == 0 || from == 8 * k + lo)
      requires mapper.Extracts? ==> MoreToExtract(from, 8 * k + lo, length)
      requires mapper.Extracts? ==> hi == 7 || 8 * k + hi + 1 == from + length
      requires Progress(mapper, before, buckets[..], from, 8 * k + lo, length, start, c)
      modifies buckets
      ensures Progress(mapper, before, buckets[..], from, 8 * k + hi + 1, length, start, c')
    {
      hide Bit, Mask, Merged, MapBit, Stepped, Progress;
      ghost var mid := buckets[..];
      ReadyToExtract(mapper, before, mid, from, 8 * k + lo, length, start, c);
      var mask := Mask(lo, hi);
      var newVal;
      newVal, c' := ApplyMapper(mapper, buckets[k], lo, hi, c);
      MaskBits(lo, hi);
      MergedBits(buckets[k], newVal, mask);
      buckets[k] := Merged(buckets[k], newVal, mask);
      ProgressStep(mapper, before, mid, buckets[..], from, length, k, lo, hi, start, c, c', buckets[k]);
    }

    /** The mapper's turn on a whole bucket. */
    method MapWhole(k: nat, mapper: Mapper, c: Context,
                    ghost before: seq<bv8>, ghost from: nat, ghost length: nat,
                    ghost start: Context) returns (c': Context)
      requires k < buckets.Length && (mapper.Extracts? ==> MoreToExtract(from, 8 * k, length))
      requires Progress(mapper, before, buckets[..], from, 8 * k, length, start, c)
      modifies buckets
      ensures Progress(mapper, before, buckets[..], from, 8 * k + 8, length, start, c')
    {
      hide Bit, MapBit, Stepped, Progress;
      ghost var mid := buckets[..];
      ReadyToExtract(mapper, before, mid, from, 8 * k, length, start, c);
      var newVal;
      newVal, c' := ApplyMapper(mapper, buckets[k], 0, 7, c);
      buckets[k] := newVal;
      ProgressStep(mapper, before, mid, buckets[..], from, length, k, 0, 7, start, c, c', buckets[k]);
    }

    /** `__CFBitVectorInternalMap`: ramps up to a bucket boundary, takes whole buckets, ramps down. */
    method InternalMap(from: nat, length: nat, mapper: Mapper, start: Context) returns (c: Context)
      requires from + length <= 8 * buckets.Length
      requires mapper.Extracts? ==> start == Context(0, [], 0, from % 8, length)
      modifies buckets
      ensures Progress(mapper, old(buckets[..]), buckets[..], from, from + length, length, start, c)
    {
      hide Progress;
      ghost var before := buckets[..];
      ProgressStart(mapper, before, from, length, start);
      c := start;
      if length == 0 {
        return;
      }
      var k := from / 8;
      var lo := from % 8;
      var rest: nat := 0;
      var hi := lo + length - 1;
      if lo + length >= 8 {
        hi := 7;
        rest := length - (8 - lo);
      }
      c := MapPart(k, lo, hi, mapper, c, before, from, length, start);
      k := k + 1;
      var nBuckets: nat := rest / 8;
      rest := rest - nBuckets * 8;
      while nBuckets > 0
        invariant rest < 8 && from < 8 * k
        invariant nBuckets > 0 || rest > 0 ==> from + length == 8 * k + 8 * nBuckets + rest
        invariant nBuckets > 0 || rest > 0 ==> from % 8 == 0 ==> length >= 8
        invariant Progress(mapper, before, buckets[..], from, from + length - 8 * nBuckets - rest, length, start, c)
      {
        c := MapWhole(k, mapper, c, before, from, length, start);
        k := k + 1;
        nBuckets := nBuckets - 1;
      }
      if rest != 0 {
        c := MapPart(k, 0, rest - 1, mapper, c, before, from, length, start);
      }
    }

    /** Maps a range, by what it means for single bits. */
    method MapRange(from: nat, length: nat, mapper: Mapper, start: Context) returns (c: Context)
      requires from + length <= 8 * buckets.Length
      requires mapper.Extracts? ==> start == Context(0, [], 0, from % 8, length)
      modifies buckets
      ensures forall i: nat | i < 8 * buckets.Length ::
                BitAt(Bits(), i) == if from <= i < from + length then MapBit(mapper, old(BitAt(Bits(), i)))
                    else old(BitAt(Bits(), i))
      ensures mapper.Counts? || mapper.Extracts? ==> Bits() == old(Bits())
      ensures mapper.Counts? ==> c.count == start.count + CountIn(Bits(), from, from + length, mapper.value)
      ensures mapper.Extracts? && length > 0 ==> Delivered(Bits(), from, from + length, c.out)
    {
      hide BitAt, MapBit, CountIn, Delivered, Mapped;
      ghost var before := Bits();
      c := InternalMap(from, length, mapper, start);
      MappedBits(before, Bits(), from, from + length, mapper);
      if mapper.Counts? || mapper.Extracts? {
        NothingMapped(before, Bits(), from, from + length, mapper);
      }
    }

    /** `CFBitVectorGetCountOfBit` */
    method GetCountOfBit(from: nat, length: nat, value: bool) returns (r: nat)
      requires Valid() && from + length <= count
      modifies buckets
      ensures r == CountIn(Bits(), from, from + length, value) && Bits() == old(Bits())
    {
      if length == 0 {
        return 0;
      }
      var c := MapRange(from, length, Counts(value), Context(0, [], 0, 0, 0));
      r := c.count;
    }

    /** `CFBitVectorContainsBit` */
    method ContainsBit(from: nat, length: nat, value: bool) returns (r: bool)
      requires Valid() && from + length <= count
      modifies buckets
      ensures Bits() == old(Bits())
      ensures r <==> exists i: nat :: from <= i < from + length && BitAt(Bits(), i) == value
    {
      hide BitAt;
      var n := GetCountOfBit(from, length, value);
      NoneCounted(Bits(), from, from + length, value);
      r := n != 0;
    }

    /**
      * `CFBitVectorGetBits`: the bytes that it writes. They hold the range if it starts on a byte boundary
      * or lies within a byte; of any other range only one byte is written, from the last bucket.
      */
    method GetBits(from: nat, length: nat) returns (bytes: seq<bv8>)
      requires Valid() && from + length <= count
      modifies buckets
      ensures Bits() == old(Bits())
      ensures from % 8 == 0 || from % 8 + length <= 8 ==> Right(Bits(), from, length, bytes)
      ensures from % 8 != 0 && from % 8 + length > 8 ==> LastOnly(Bits(), from % 8, from + length, bytes)
    {
      hide Bit, Extracted, LastOnly;
      if length == 0 {
        return [];
      }
      var c := MapRange(from, length, Extracts, Context(0, [], 0, from % 8, length));
      bytes := c.out;
      if from % 8 == 0 {
        ExtractedBits(Bits(), from, length, bytes);
      } else if from % 8 + length <= 8 {
        WithinByte(Bits(), from, length, bytes);
      }
    }

    /** `CFBitVectorFlipBits` */
    method FlipBits(from: nat, length: nat)
      requires Valid() && from + length <= count
      modifies buckets
      ensures forall i: nat | i < 8 * buckets.Length ::
                BitAt(Bits(), i) == (old(BitAt(Bits(), i)) != (from <= i < from + length))
    {
      if length == 0 {
        return;
      }
      var _ := MapRange(from, length, Flips, Context(0, [], 0, 0, 0));
    }

    /** `CFBitVectorSetBits` */
    method SetBits(from: nat, length: nat, value: bool)
      requires Valid() && from + length <= count
      modifies buckets
      ensures forall i: nat | i < 8 * buckets.Length ::
                BitAt(Bits(), i) == if from <= i < from + length then value else old(BitAt(Bits(), i))
    {
      if length == 0 {
        return;
      }
      if value {
        var _ := MapRange(from, length, Ones, Context(0, [], 0, 0, 0));
      } else {
        var _ := MapRange(from, length, Zeroes, Context(0, [], 0, 0, 0));
      }
    }

    /** `CFBitVectorSetAllBits` */
    method SetAllBits(value: bool)
      requires Valid()
      modifies buckets
      ensures forall i: nat | i < 8 * buckets.Length :: BitAt(Bits(), i) == if i < count then value
          else old(BitAt(Bits(), i))
    {
      hide Bit;
      var nBuckets := count / 8;
      var leftover := count - nBuckets * 8;
      if 0 < leftover {
        SetBits(nBuckets * 8, leftover, value);
      }
      ghost var mid := Bits();
      ConstantBits();
      var fill: bv8 := if value then 0xFF else 0;
      forall k | 0 <= k < nBuckets {
        buckets[k] := fill;
      }
      forall i: nat | i < 8 * buckets.Length
        ensures BitAt(Bits(), i) == if i < 8 * nBuckets then value else BitAt(mid, i)
      {
        assert i < 8 * nBuckets <==> i / 8 < nBuckets;
      }
    }

    /** `__CFBitVectorGrow`; the bits of new buckets are arbitrary. */
    method Grow(numNewValues: nat)
      requires Valid()
      modifies this`capacity, this`buckets
      ensures Valid() && fresh(buckets) && count + numNewValues <= capacity <= count + numNewValues + 64
      ensures capacity % 64 == 0
      ensures forall i: nat | i < count :: BitAt(Bits(), i) == old(BitAt(Bits(), i))
    {
      hide Bit;
      var rounded := RoundUpCapacity(count + numNewValues);
      var size := rounded / 8 + 1;
      var grown := new bv8[size];
      forall k | 0 <= k < size && k < buckets.Length {
        grown[k] := buckets[k];
      }
      capacity := rounded;
      buckets := grown;
    }

    /** `CFBitVectorSetCount`: the old bits stay, and new bits read zero. */
    method SetCount(newCount: nat)
      requires Valid()
      modifies this, buckets
      ensures Valid() && count == newCount && (buckets == old(buckets) || fresh(buckets))
      ensures forall i: nat | i < newCount :: BitAt(Bits(), i) == (i < old(count) && old(BitAt(Bits(), i)))
    {
      hide BitAt, MapBit;
      if count < newCount {
        Grow(newCount - count);
        ClearNew(newCount);
      }
      count := newCount;
    }

    /** The bits from the count up to a new count read zero, and the counted bits stay. */
    method ClearNew(newCount: nat)
      requires Valid() && count < newCount <= capacity
      modifies buckets
      ensures forall i: nat | i < newCount :: BitAt(Bits(), i) == (i < count && old(BitAt(Bits(), i)))
    {
      hide BitAt;
      var _ := MapRange(count, newCount - count, Zeroes, Context(0, [], 0, 0, 0));
    }

    /** `CFBitVectorSetBitAtIndex` */
    method SetBitAtIndex(idx: nat, value: bool)
      requires Valid() && idx < count
      modifies buckets
      ensures forall i: nat | i < 8 * buckets.Length :: BitAt(Bits(), i) == if i == idx then value
          else old(BitAt(Bits(), i))
    {
      hide Bit, BitAt, WithBit;
      var k, j := idx / 8, idx % 8;
      ghost var before := Bits();
      buckets[k] := WithBit(buckets[k], j, value);
      OneBit(before[k], j, value);
      assert Bits() == before[k := buckets[k]];
      OneBitChanged(before, k, j, buckets[k]);
    }

    /** `CFBitVectorFlipBitAtIndex` */
    method FlipBitAtIndex(idx: nat)
      requires Valid() && idx < count
      modifies buckets
      ensures forall i: nat | i < 8 * buckets.Length :: BitAt(Bits(), i) == (old(BitAt(Bits(), i)) != (i == idx))
    {
      hide Bit, Weight, BitAt, Selector;
      var k, j := idx / 8, idx % 8;
      ghost var before := Bits();
      SelectorIsWeight(j);
      buckets[k] := buckets[k] ^ Selector(j);
      OneFlip(before[k], j);
      assert Bits() == before[k := buckets[k]];
      OneBitChanged(before, k, j, buckets[k]);
    }
  }

  /** The failing cases of the extraction: every range across a byte boundary that starts inside a byte. */
  method CrossingRange(from: nat, length: nat) returns (v: Vector, bytes: seq<bv8>)
    requires from % 8 != 0 && from % 8 + length > 8
    ensures fresh(v) && v.Valid() && from + length <= v.count && !Right(v.Bits(), from, length, bytes)
  {
    hide Bit, LastOnly, Right;
    v := new Vector(from + length);
    v.SetBitAtIndex(from, true);
    bytes := v.GetBits(from, length);
    ghost var k := (from + length - 1) / 8;
    BucketOf(k, from % 8);
    assert !BitAt(v.Bits(), 8 * k + from % 8);
    AcrossBytes(v.Bits(), from, length, bytes);
  }

  lemma OneBitChanged(before: seq<bv8>, k: nat, j: nat, new': bv8)
    requires k < |before| && j < 8 && forall i: nat | i < 8 && i != j :: Bit(new', i) == Bit(before[k], i)
    ensures BitAt(before, 8 * k + j) == Bit(before[k], j)
    ensures forall i: nat | i < 8 * |before| ::
              BitAt(before[k := new'], i) == if i == 8 * k + j then Bit(new', j) else BitAt(before, i)
  {
    hide Bit;
    assert (8 * k + j) / 8 == k && (8 * k + j) % 8 == j;
    forall i: nat | i < 8 * |before|
      ensures BitAt(before[k := new'], i) == if i == 8 * k + j then Bit(new', j) else BitAt(before, i)
    {
      assert i == 8 * (i / 8) + i % 8;
    }
  }

  lemma OneBit(b: bv8, j: nat, value: bool)
    requires j < 8
    ensures forall i: nat | i < 8 :: Bit(WithBit(b, j, value), i) == if i == j then value else Bit(b, i)
  {
    SelectorIsWeight(j);
    hide Selector;
    forall i: nat | i < 8
      ensures Bit(WithBit(b, j, value), i) == if i == j then value else Bit(b, i)
    {
    }
  }

  lemma OneFlip(b: bv8, j: nat)
    requires j < 8
    ensures forall i: nat | i < 8 :: Bit(b ^ Weight(j), i) == (Bit(b, i) != (i == j))
  {
    forall i: nat | i < 8
      ensures Bit(b ^ Weight(j), i) == (Bit(b, i) != (i == j))
    {
    }
  }
}
