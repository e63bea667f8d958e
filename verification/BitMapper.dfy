/** The range mapper of CFBitVector, one bucket at a time, against what it means bit by bit. */
module BitMapper {
  import opened BitBuckets

  /** The bucket functions that the source passes to its range mapper. */
  datatype Mapper = Zeroes | Ones | Flips | Counts(value: bool) | Extracts

  /**
    * What mappers keep between buckets: the count so far; the bytes extracted so far, the place of the
    * current one, the bits to skip in each bucket and the bits still to come.
    */
  datatype Context = Context(count: nat, out: seq<bv8>, cur: nat, initBits: nat, totalBits: int)

  /** What a mapper means for one bit. */
  function MapBit(mapper: Mapper, bit: bool): bool {
    match mapper
    case Zeroes => false
    case Ones => true
    case Flips => !bit
    case _ => bit
  }

  function BitAt(s: seq<bv8>, i: nat): bool
    requires i < 8 * |s|
  {
    Bit(s[i / 8], i % 8)
  }

  /** The bits from `from` up to `end` are mapped, and no other bit has changed. */
  ghost predicate Mapped(before: seq<bv8>, after: seq<bv8>, from: nat, end: nat, mapper: Mapper) {
    && |after| == |before|
    && forall k: nat, j: nat | k < |before| && j < 8 ::
         Bit(after[k], j) == if from <= 8 * k + j < end then MapBit(mapper, Bit(before[k], j)) else Bit(before[k], j)
  }

  lemma MappedAt(before: seq<bv8>, after: seq<bv8>, from: nat, end: nat, mapper: Mapper, i: nat)
    requires Mapped(before, after, from, end, mapper) && i < 8 * |before|
    ensures |after| == |before|
    ensures BitAt(after, i) == if from <= i < end then MapBit(mapper, BitAt(before, i)) else BitAt(before, i)
  {
  }

  /** How many bits in a range have a value. */
  function CountIn(s: seq<bv8>, from: nat, end: nat, value: bool): nat
    requires end <= 8 * |s|
    decreases end
  {
    if end <= from then 0 else CountIn(s, from, end - 1, value) + (if BitAt(s, end - 1) == value then 1 else 0)
  }

  /** The bits from a bucket boundary on, packed most significant first, with a zero tail. */
  ghost predicate Extracted(before: seq<bv8>, first: nat, end: nat, out: seq<bv8>) {
    && first + |out| <= |before| && 8 * |out| >= end - 8 * first > 8 * |out| - 8
    && forall k: nat, j: nat | k < |out| && j < 8 ::
         Bit(out[k], j) <==> 8 * (first + k) + j < end && Bit(before[first + k], j)
  }

  /** One bucket's turn of the mapper: the bits `lo` to `hi` of bucket `k`. */
  lemma MapBucket(before: seq<bv8>, mid: seq<bv8>, after: seq<bv8>, from: nat, k: nat, lo: nat, hi: nat,
      mapper: Mapper, new': bv8)
    requires Mapped(before, mid, from, 8 * k + lo, mapper) && k < |mid| && lo <= hi < 8 && from <= 8 * k + lo
    requires lo == 0 || from == 8 * k + lo
    requires forall j: nat | j < 8 ::
               Bit(new', j) == if lo <= j <= hi then MapBit(mapper, Bit(mid[k], j)) else Bit(mid[k], j)
    requires after == mid[k := new']
    ensures Mapped(before, after, from, 8 * k + hi + 1, mapper)
  {
    forall k': nat, j: nat | k' < |before| && j < 8
      ensures Bit(after[k'], j)
              == if from <= 8 * k' + j < 8 * k + hi + 1 then MapBit(mapper, Bit(before[k'], j)) else Bit(before[k'], j)
    {
      assert k' == k ==> Bit(after[k'], j) == Bit(new', j);
    }
  }

  /** The bits `lo` to `hi` of a bucket that have a value, as set bits. */
  function Matching(bucket: bv8, value: bool, lo: nat, hi: nat): bv8
    requires lo <= hi < 8
  {
    if value then bucket & Mask(lo, hi) else !bucket & Mask(lo, hi)
  }

  lemma MaskedBit(bucket: bv8, lo: nat, hi: nat, j: nat)
    requires lo <= hi < 8 && j < 8
    ensures Bit(bucket & Mask(lo, hi), j) <==> lo <= j <= hi && Bit(bucket, j)
  {
    hide Bit, Mask;
    MaskBit(lo, hi, j);
    AndBit(bucket, Mask(lo, hi), j);
  }

  lemma MatchingBit(bucket: bv8, value: bool, lo: nat, hi: nat, j: nat)
    requires lo <= hi < 8 && j < 8
    ensures Bit(Matching(bucket, value, lo, hi), j) <==> lo <= j <= hi && Bit(bucket, j) == value
  {
    hide Bit, Mask;
    MaskedBit(bucket, lo, hi, j);
    MaskedBit(!bucket, lo, hi, j);
    FlippedBit(bucket, j);
  }

  lemma MatchingBits(bucket: bv8, value: bool, lo: nat, hi: nat)
    requires lo <= hi < 8
    ensures forall j: nat | j < 8 ::
              Bit(Matching(bucket, value, lo, hi), j) <==> lo <= j <= hi && Bit(bucket, j) == value
  {
    hide Bit, Mask, Matching;
    forall j: nat | j < 8
      ensures Bit(Matching(bucket, value, lo, hi), j) <==> lo <= j <= hi && Bit(bucket, j) == value
    {
      MatchingBit(bucket, value, lo, hi, j);
    }
  }

  /** What a mapper's turn on the bits `lo` to `hi` of a bucket does to its context. */
  predicate Stepped(mapper: Mapper, bucket: bv8, lo: nat, hi: nat, c: Context, c': Context)
    requires lo <= hi < 8
  {
    match mapper
    case Counts(value) => c'.count == c.count + BitCount(Matching(bucket, value, lo, hi), 8)
    case Extracts =>
      && c.cur <= |c.out| && c.initBits < 8 && c'.initBits == c.initBits
      && c'.out == c.out[..c.cur] + [Shifted(Matching(bucket, true, lo, hi), c.initBits)]
      && (c.initBits == 0 && c.totalBits >= 8 ==> c'.cur == c.cur + 1 && c'.totalBits == c.totalBits)
      && (c.initBits > 0 ==> c'.cur == c.cur && c'.totalBits >= 0 && c'.totalBits >= c.totalBits - (8 - c.initBits))
    case _ => true
  }

  /** `__CFBitVectorCountBits` */
  method CountBits(bucket: bv8, value: bool, lo: nat, hi: nat, count: nat) returns (r: nat)
    requires lo <= hi < 8
    ensures r == count + BitCount(Matching(bucket, value, lo, hi), 8)
  {
    var val := Matching(bucket, value, lo, hi);
    NibblesCountBits(val);
    hide BitCount, NibbleCount;
    r := count + NibbleCount(val & 0xF);
    val := val >> 4;
    r := r + NibbleCount(val & 0xF);
  }

  /**
    * `__CFBitVectorGetBits`. The flag that keeps the first `initBits` bits of a bucket from completing
    * the byte before is set at the start and cleared only where it is clear, so that a range that starts
    * inside a byte never moves on to the next byte.
    */
  method GetBucketBits(bucket: bv8, lo: nat, hi: nat, c: Context) returns (c': Context)
    requires lo <= hi < 8 && c.cur <= |c.out| && c.totalBits > 0 && c.initBits < 8
    ensures Stepped(Extracts, bucket, lo, hi, c, c')
  {
    hide Matching, Shifted;
    c' := c;
    var val := Matching(bucket, true, lo, hi);
    var nBits := if 8 - c.initBits < c.totalBits then 8 - c.initBits else c.totalBits;
    if 0 < c.initBits {
      val := Shifted(val, c.initBits);
    } else {
      ShiftNone(val);
    }
    if 8 <= nBits {
      c' := c.(out := c.out[..c.cur] + [val], cur := c.cur + 1);
      nBits := nBits - 8;
    }
    if 0 < nBits {
      c' := c.(out := c.out[..c.cur] + [val], totalBits := c.totalBits - nBits);
    }
  }

  /** The bucket functions. */
  method ApplyMapper(mapper: Mapper, bucket: bv8, lo: nat, hi: nat, c: Context) returns (b: bv8, c': Context)
    requires lo <= hi < 8
    requires mapper.Extracts? ==> c.cur <= |c.out| && c.totalBits > 0 && c.initBits < 8
    ensures forall i: nat | i < 8 :: Bit(b, i) == MapBit(mapper, Bit(bucket, i))
    ensures Stepped(mapper, bucket, lo, hi, c, c')
  {
    hide Bit, BitCount, Matching;
    b, c' := bucket, c;
    match mapper
    case Zeroes =>
      b := 0;
      ConstantBits();
    case Ones =>
      b := 0xFF;
      ConstantBits();
    case Flips =>
      b := 0xFF ^ bucket;
      FlippedBits(bucket);
    case Counts(value) =>
      var count := CountBits(bucket, value, lo, hi, c.count);
      c' := c.(count := count);
    case Extracts =>
      c' := GetBucketBits(bucket, lo, hi, c);
  }

  lemma ConstantBits()
    ensures forall i: nat | i < 8 :: !Bit(0, i) && Bit(0xFF, i)
  {
    forall i: nat | i < 8
      ensures !Bit(0, i) && Bit(0xFF, i)
    {
      ConstantBit(i);
    }
  }

  lemma FlippedBits(b: bv8)
    ensures forall i: nat | i < 8 :: (Bit(0xFF ^ b, i) <==> !Bit(b, i)) && (Bit(!b, i) <==> !Bit(b, i))
  {
    forall i: nat | i < 8
      ensures (Bit(0xFF ^ b, i) <==> !Bit(b, i)) && (Bit(!b, i) <==> !Bit(b, i))
    {
      FlippedBit(b, i);
    }
  }

  /** Counting the set bits of a masked bucket counts the bits of the range in it. */
  lemma CountBucket(s: seq<bv8>, from: nat, k: nat, lo: nat, hi: nat, value: bool, bucket: bv8)
    requires k < |s| && lo <= hi < 8 && from <= 8 * k + lo
    requires forall j: nat | lo <= j < 8 :: Bit(bucket, j) == Bit(s[k], j)
    ensures CountIn(s, from, 8 * k + hi + 1, value)
            == CountIn(s, from, 8 * k + lo, value) + BitCount(Matching(bucket, value, lo, hi), 8)
  {
    hide Bit, Mask, Matching, CountIn, BitCount;
    var val := Matching(bucket, value, lo, hi);
    MatchingBits(bucket, value, lo, hi);
    NoneBelow(val, lo);
    CountUpTo(s, from, k, lo, hi + 1, value, val);
    NoneFrom(val, hi + 1, 8);
  }

  lemma {:induction false} NoneBelow(val: bv8, lo: nat)
    requires lo <= 8 && forall j: nat | j < lo :: !Bit(val, j)
    ensures BitCount(val, lo) == 0
  {
    if lo > 0 {
      NoneBelow(val, lo - 1);
    }
  }

  lemma {:induction false} NoneFrom(val: bv8, hi: nat, n: nat)
    requires hi <= n <= 8 && forall j: nat | hi <= j < 8 :: !Bit(val, j)
    ensures BitCount(val, n) == BitCount(val, hi)
  {
    if n > hi {
      NoneFrom(val, hi, n - 1);
    }
  }

  lemma {:induction false} CountUpTo(s: seq<bv8>, from: nat, k: nat, lo: nat, n: nat, value: bool, val: bv8)
    requires k < |s| && lo <= n <= 8 && from <= 8 * k + lo
    requires forall j: nat | lo <= j < n :: Bit(val, j) <==> Bit(s[k], j) == value
    ensures CountIn(s, from, 8 * k + n, value) == CountIn(s, from, 8 * k + lo, value) + BitCount(val,
        n) - BitCount(val, lo)
  {
    hide Bit;
    if n > lo {
      CountUpTo(s, from, k, lo, n - 1, value, val);
      assert (8 * k + n - 1) / 8 == k && (8 * k + n - 1) % 8 == n - 1;
    }
  }

  /** The state of a range map that has dealt with the bits before `pos`. */
  ghost predicate Progress(mapper: Mapper, before: seq<bv8>, now: seq<bv8>, from: nat, pos: nat, length: nat,
                           start: Context, c: Context) {
    && from <= pos && Mapped(before, now, from, pos, mapper)
    && (mapper.Counts? ==> pos <= 8 * |before| && c.count == start.count + CountIn(before, from, pos, mapper.value))
    && (mapper.Extracts? ==> Extracting(before, from, pos, length, c))
  }

  /** The one byte that is left of a range that starts inside a byte: its part of the last bucket. */
  ghost predicate LastOnly(before: seq<bv8>, initBits: nat, end: nat, out: seq<bv8>) {
    && 0 < end <= 8 * |before| && |out| == 1
    && var k := (end - 1) / 8;
      forall j: nat | j < 8 ::
        Bit(out[0], j) <==> initBits + j < 8 && 8 * k + initBits + j < end && Bit(before[k], initBits + j)
  }

  /** The bytes that an extraction leaves. */
  ghost predicate Delivered(before: seq<bv8>, from: nat, end: nat, out: seq<bv8>) {
    if from % 8 == 0 then Extracted(before, from / 8, end, out) else LastOnly(before, from % 8, end, out)
  }

  ghost predicate Extracting(before: seq<bv8>, from: nat, pos: nat, length: nat, c: Context) {
    && c.initBits == from % 8
    && (pos == from ==> c.out == []) && (pos > from ==> Delivered(before, from, pos, c.out))
    && if c.initBits == 0
       then (pos == from || length >= 8 ==> c.totalBits == length && c.cur == |c.out|)
       else c.cur == 0 && c.totalBits >= 0 && c.totalBits >= length - (pos - from)
  }

  lemma ProgressStart(mapper: Mapper, s: seq<bv8>, from: nat, length: nat, c: Context)
    requires mapper.Extracts? ==> c == Context(c.count, [], 0, from % 8, length)
    requires from <= 8 * |s|
    ensures Progress(mapper, s, s, from, from, length, c, c)
  {
  }

  /** The turn at `pos` is not the one after the last. */
  predicate MoreToExtract(from: nat, pos: nat, length: nat) {
    pos < from + length && (from % 8 == 0 ==> length >= 8 || from == pos)
  }

  lemma ReadyToExtract(mapper: Mapper, before: seq<bv8>, now: seq<bv8>, from: nat, pos: nat, length: nat,
                       start: Context, c: Context)
    requires Progress(mapper, before, now, from, pos, length, start, c)
    requires mapper.Extracts? ==> MoreToExtract(from, pos, length)
    ensures mapper.Extracts? ==> c.cur <= |c.out| && c.totalBits > 0 && c.initBits < 8
  {
  }

  /** One bucket's turn, on snapshots. */
  lemma ProgressStep(mapper: Mapper, before: seq<bv8>, mid: seq<bv8>, now: seq<bv8>, from: nat, length: nat,
                     k: nat, lo: nat, hi: nat, start: Context, c: Context, c': Context, new': bv8)
    requires Progress(mapper, before, mid, from, 8 * k + lo, length, start, c)
    requires k < |mid| && lo <= hi < 8 && (lo == 0 || from == 8 * k + lo)
    requires forall j: nat | j < 8 ::
               Bit(new', j) == if lo <= j <= hi then MapBit(mapper, Bit(mid[k], j)) else Bit(mid[k], j)
    requires now == mid[k := new'] && Stepped(mapper, mid[k], lo, hi, c, c')
    requires mapper.Extracts? ==> MoreToExtract(from, 8 * k + lo, length)
    requires mapper.Extracts? ==> hi == 7 || 8 * k + hi + 1 == from + length
    ensures Progress(mapper, before, now, from, 8 * k + hi + 1, length, start, c')
  {
    hide Bit, Matching, BitCount, CountIn, MapBit, Extracting, Mapped;
    MappedBuckets(before, mid, from, 8 * k + lo, mapper);
    MapBucket(before, mid, now, from, k, lo, hi, mapper, new');
    assert forall j: nat | lo <= j < 8 :: Bit(mid[k], j) == Bit(before[k], j);
    if mapper.Counts? {
      CountBucket(before, from, k, lo, hi, mapper.value, mid[k]);
    }
    if mapper.Extracts? {
      if from % 8 == 0 {
        ExtractStep(before, from, length, k, lo, hi, mid[k], c, c');
      } else {
        SkipStep(before, from, length, k, lo, hi, mid[k], c, c');
      }
    }
  }

  lemma MappedBuckets(before: seq<bv8>, mid: seq<bv8>, from: nat, pos: nat, mapper: Mapper)
    requires Mapped(before, mid, from, pos, mapper)
    ensures |mid| == |before|
    ensures forall k: nat, j: nat | k < |mid| && j < 8 && pos <= 8 * k + j :: Bit(mid[k], j) == Bit(before[k], j)
  {
  }

  /** A turn of an extraction that starts on a bucket boundary adds a byte. */
  lemma ExtractStep(before: seq<bv8>, from: nat, length: nat, k: nat, lo: nat, hi: nat, bucket: bv8, c: Context,
      c': Context)
    requires k < |before| && lo <= hi < 8 && (lo == 0 || from == 8 * k + lo) && from % 8 == 0 && from <= 8 * k + lo
    requires Extracting(before, from, 8 * k + lo, length, c) && Stepped(Extracts, bucket, lo, hi, c, c')
    requires MoreToExtract(from, 8 * k + lo, length) && (hi == 7 || 8 * k + hi + 1 == from + length)
    requires forall j: nat | lo <= j < 8 :: Bit(bucket, j) == Bit(before[k], j)
    ensures Extracting(before, from, 8 * k + hi + 1, length, c')
  {
    hide Bit, Matching, Extracted, Shifted;
    assert c.totalBits == length && c.out[..c.cur] == c.out;
    ExtractBucket(before, from, k, lo, hi, bucket, c.out);
    ShiftNone(Matching(bucket, true, lo, hi));
    assert c'.out == c.out + [Matching(bucket, true, lo, hi)];
  }

  /** Any other turn overwrites the first byte. */
  lemma SkipStep(before: seq<bv8>, from: nat, length: nat, k: nat, lo: nat, hi: nat, bucket: bv8, c: Context,
      c': Context)
    requires k < |before| && lo <= hi < 8 && (lo == 0 || from == 8 * k + lo) && from % 8 != 0 && from <= 8 * k + lo
    requires Extracting(before, from, 8 * k + lo, length, c) && Stepped(Extracts, bucket, lo, hi, c, c')
    requires hi == 7 || 8 * k + hi + 1 == from + length
    requires forall j: nat | lo <= j < 8 :: Bit(bucket, j) == Bit(before[k], j)
    ensures Extracting(before, from, 8 * k + hi + 1, length, c')
  {
    hide Bit, Matching, Shifted, LastOnly;
    SkipBucket(before, c.initBits, k, lo, hi, bucket, c'.out);
  }

  lemma SkipBucket(before: seq<bv8>, initBits: nat, k: nat, lo: nat, hi: nat, bucket: bv8, out: seq<bv8>)
    requires k < |before| && lo <= hi < 8 && initBits < 8 && (lo == 0 || lo == initBits)
    requires out == [Shifted(Matching(bucket, true, lo, hi), initBits)]
    requires forall j: nat | lo <= j < 8 :: Bit(bucket, j) == Bit(before[k], j)
    ensures LastOnly(before, initBits, 8 * k + hi + 1, out)
  {
    hide Bit, Matching, Shifted;
    var val := Matching(bucket, true, lo, hi);
    MatchingBits(bucket, true, lo, hi);
    BucketOf(k, hi);
    forall j: nat | j < 8
      ensures Bit(out[0], j) <==>
              initBits + j < 8 && 8 * k + initBits + j < 8 * k + hi + 1 && Bit(before[k], initBits + j)
    {
      ShiftBit(val, initBits, j);
    }
  }

  lemma ExtractBucket(before: seq<bv8>, from: nat, k: nat, lo: nat, hi: nat, bucket: bv8, out: seq<bv8>)
    requires k < |before| && lo <= hi < 8 && from % 8 == 0 && from <= 8 * k + lo && (lo == 0 || from == 8 * k + lo)
    requires if from == 8 * k + lo then out == [] else Extracted(before, from / 8, 8 * k + lo, out)
    requires forall j: nat | lo <= j < 8 :: Bit(bucket, j) == Bit(before[k], j)
    ensures Extracted(before, from / 8, 8 * k + hi + 1, out + [Matching(bucket, true, lo, hi)])
  {
    hide Bit, Matching;
    MatchingBits(bucket, true, lo, hi);
    var out' := out + [Matching(bucket, true, lo, hi)];
    assert lo == 0 && from / 8 + |out| == k;
    forall m: nat, j: nat | m < |out'| && j < 8
      ensures Bit(out'[m], j) <==> 8 * (from / 8 + m) + j < 8 * k + hi + 1 && Bit(before[from / 8 + m], j)
    {
      if m < |out| {
        assert out'[m] == out[m];
      }
    }
  }

  lemma MappedBits(before: seq<bv8>, after: seq<bv8>, from: nat, end: nat, mapper: Mapper)
    requires Mapped(before, after, from, end, mapper)
    ensures |after| == |before|
    ensures forall i: nat | i < 8 * |before| ::
              BitAt(after, i) == if from <= i < end then MapBit(mapper, BitAt(before, i)) else BitAt(before, i)
  {
    forall i: nat | i < 8 * |before|
      ensures BitAt(after, i) == if from <= i < end then MapBit(mapper, BitAt(before, i)) else BitAt(before, i)
    {
      MappedAt(before, after, from, end, mapper, i);
    }
  }

  /** A mapper that only looks leaves every bucket as it was. */
  lemma NothingMapped(before: seq<bv8>, after: seq<bv8>, from: nat, end: nat, mapper: Mapper)
    requires Mapped(before, after, from, end, mapper) && (mapper.Counts? || mapper.Extracts?)
    ensures after == before
  {
    hide Bit;
    forall k | 0 <= k < |before|
      ensures after[k] == before[k]
    {
      SameBits(after[k], before[k]);
    }
  }

  /** The bits of the range, packed from the front, with a zero tail. */
  ghost predicate Right(s: seq<bv8>, from: nat, length: nat, bytes: seq<bv8>)
    requires from + length <= 8 * |s|
  {
    && |bytes| == (length + 7) / 8
    && forall i: nat | i < 8 * |bytes| :: BitAt(bytes, i) <==> i < length && BitAt(s, from + i)
  }

  /** A range within one byte is what its last bucket has of it. */
  lemma WithinByte(s: seq<bv8>, from: nat, length: nat, out: seq<bv8>)
    requires 0 < length && from % 8 + length <= 8 && from + length <= 8 * |s|
    requires LastOnly(s, from % 8, from + length, out)
    ensures Right(s, from, length, out)
  {
    hide LastOnly, Right;
    assert from == 8 * (from / 8) + from % 8;
    WithinBucket(s, from / 8, from % 8, length, out);
  }

  lemma BitAtIn(s: seq<bv8>, k: nat, j: nat)
    requires k < |s| && j < 8
    ensures BitAt(s, 8 * k + j) == Bit(s[k], j)
  {
    BucketOf(k, j);
  }

  lemma LastIn(s: seq<bv8>, lo: nat, k: nat, hi: nat, out: seq<bv8>)
    requires hi < 8 && k < |s| && LastOnly(s, lo, 8 * k + hi + 1, out)
    ensures |out| == 1
    ensures forall j: nat | j < 8 :: Bit(out[0], j) <==> lo + j <= hi && Bit(s[k], lo + j)
  {
    hide Bit;
    BucketOf(k, hi);
  }

  lemma WithinBit(s: seq<bv8>, k: nat, lo: nat, length: nat, out: seq<bv8>, i: nat)
    requires 0 < length && lo + length <= 8 && k < |s| && |out| == 1 && i < 8
    requires forall j: nat | j < 8 :: Bit(out[0], j) <==> lo + j <= lo + length - 1 && Bit(s[k], lo + j)
    ensures BitAt(out, i) <==> i < length && BitAt(s, 8 * k + lo + i)
  {
    hide Bit, BitAt;
    BitAtIn(out, 0, i);
    if i < length {
      BitAtIn(s, k, lo + i);
    }
  }

  lemma WithinBucket(s: seq<bv8>, k: nat, lo: nat, length: nat, out: seq<bv8>)
    requires 0 < length && lo + length <= 8 && k < |s|
    requires LastOnly(s, lo, 8 * k + lo + length, out)
    ensures Right(s, 8 * k + lo, length, out)
  {
    hide Bit, BitAt, LastOnly;
    LastIn(s, lo, k, lo + length - 1, out);
    forall i: nat | i < 8
      ensures BitAt(out, i) <==> i < length && BitAt(s, 8 * k + lo + i)
    {
      WithinBit(s, k, lo, length, out, i);
    }
    assert (length + 7) / 8 == 1;
  }

  /** Across a byte boundary, a first bit that is set is lost where the last bucket is zero. */
  lemma AcrossBytes(s: seq<bv8>, from: nat, length: nat, out: seq<bv8>)
    requires from % 8 + length > 8 && from + length <= 8 * |s|
    requires LastOnly(s, from % 8, from + length, out)
    requires BitAt(s, from) && !Bit(s[(from + length - 1) / 8], from % 8)
    ensures !Right(s, from, length, out)
  {
    assert !BitAt(out, 0);
  }

  lemma ExtractedBits(s: seq<bv8>, from: nat, length: nat, out: seq<bv8>)
    requires from % 8 == 0 && Extracted(s, from / 8, from + length, out)
    ensures |out| == (length + 7) / 8
    ensures forall i: nat | i < 8 * |out| :: BitAt(out, i) <==> i < length && BitAt(s, from + i)
  {
    hide Bit;
    forall i: nat | i < 8 * |out|
      ensures from + i < 8 * |s| && (BitAt(out, i) <==> i < length && BitAt(s, from + i))
    {
      assert (from + i) / 8 == from / 8 + i / 8 && (from + i) % 8 == i % 8;
    }
  }

  /** Every bit of a range has one value or the other. */
  lemma {:induction false} CountsAddUp(s: seq<bv8>, from: nat, end: nat)
    requires from <= end <= 8 * |s|
    ensures CountIn(s, from, end, true) + CountIn(s, from, end, false) == end - from
    decreases end
  {
    hide BitAt;
    if from < end {
      CountsAddUp(s, from, end - 1);
    }
  }

  /** A count is the number of positions in the range whose bit has the value. */
  lemma {:induction false} CountIsSize(s: seq<bv8>, from: nat, end: nat, value: bool)
    requires from <= end <= 8 * |s|
    ensures CountIn(s, from, end, value) == |set i: nat | from <= i < end && BitAt(s, i) == value|
    decreases end
  {
    hide BitAt;
    var all := set i: nat | from <= i < end && BitAt(s, i) == value;
    if from < end {
      CountIsSize(s, from, end - 1, value);
      var init := set i: nat | from <= i < end - 1 && BitAt(s, i) == value;
      if BitAt(s, end - 1) == value {
        assert all == init + {end - 1};
      } else {
        assert all == init;
      }
    } else {
      assert all == {};
    }
  }

  /** A count is zero exactly if no bit of the range has the value. */
  lemma {:induction false} NoneCounted(s: seq<bv8>, from: nat, end: nat, value: bool)
    requires from <= end <= 8 * |s|
    ensures CountIn(s, from, end, value) == 0 <==> forall i: nat | from <= i < end :: BitAt(s, i) != value
    decreases end
  {
    hide BitAt;
    if from < end {
      NoneCounted(s, from, end - 1, value);
    }
  }
}
