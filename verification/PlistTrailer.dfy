/** The trailer and the offset table, and their validation by __CFBinaryPlistGetTopLevelInfo. */
module PlistTrailer {
  import opened PlistBytes
  import opened PlistTrees

  /** The last 32 bytes of the file. */
  datatype Trailer = Trailer(
    offsetIntSize: nat, objectRefSize: nat, numObjects: nat, topObject: nat, offsetTableOffset: nat)

  const TRAILER_SIZE: nat := 32
  const MAGIC: seq<Byte> := [0x62, 0x70, 0x6c, 0x69, 0x73, 0x74, 0x30]  // "bplist0"

  function TrailerOf(data: seq<Byte>): Trailer
    requires |data| >= TRAILER_SIZE
  {
    var at := |data| - TRAILER_SIZE;
    Trailer(data[at + 6], data[at + 7], SizedInt(data, at + 8, 8), SizedInt(data, at + 16, 8),
        SizedInt(data, at + 24, 8))
  }

  /** The offset table and the object area lie inside the data; what validation establishes. */
  predicate Fits(data: seq<Byte>, tr: Trailer) {
    && tr.numObjects >= 1 && tr.offsetIntSize >= 1 && tr.objectRefSize >= 1
    && 9 <= tr.offsetTableOffset <= |data|
    && tr.offsetTableOffset + Span(tr.numObjects, tr.offsetIntSize) <= |data|
  }

  lemma EntryInTable(data: seq<Byte>, tr: Trailer, ref: nat)
    requires Fits(data, tr) && ref < tr.numObjects
    ensures tr.offsetTableOffset + Span(ref, tr.offsetIntSize) + tr.offsetIntSize <= |data|
  {
    FieldInSpan(ref, tr.numObjects, tr.offsetIntSize);
  }

  function TableEntry(data: seq<Byte>, tr: Trailer, ref: nat): nat
    requires Fits(data, tr) && ref < tr.numObjects
  {
    EntryInTable(data, tr, ref);
    SizedInt(data, tr.offsetTableOffset + Span(ref, tr.offsetIntSize), tr.offsetIntSize)
  }

  /** The conditions on the trailer fields alone. */
  predicate TrailerSound(length: nat, tr: Trailer) {
    && 1 <= tr.numObjects <= LONG_MAX
    && tr.topObject < tr.numObjects
    && 9 <= tr.offsetTableOffset <= LONG_MAX
    && 1 <= tr.offsetIntSize && 1 <= tr.objectRefSize
    && length == tr.offsetTableOffset + Span(tr.numObjects, tr.offsetIntSize) + TRAILER_SIZE
    && (tr.objectRefSize < 8 ==> tr.numObjects < Pow256(tr.objectRefSize))
    && (tr.offsetIntSize < 8 ==> tr.offsetTableOffset < Pow256(tr.offsetIntSize))
  }

  /** The files the reader starts on: magic, trailer, and an offset table that stays in bounds. */
  ghost predicate Accepts(data: seq<Byte>) {
    && |data| >= TRAILER_SIZE + 9
    && MAGIC <= data
    && var tr := TrailerOf(data);
    && TrailerSound(|data|, tr)
    && Fits(data, tr)
    && (forall i | 0 <= i < tr.numObjects :: TableEntry(data, tr, i) < tr.offsetTableOffset)
    && 8 <= TableEntry(data, tr, tr.topObject)
  }

  lemma TrailerFitsData(data: seq<Byte>, tr: Trailer)
    requires TrailerSound(|data|, tr)
    ensures Fits(data, tr)
  {
  }

  function TopOffset(data: seq<Byte>): nat
    requires Accepts(data)
  {
    TableEntry(data, TrailerOf(data), TrailerOf(data).topObject)
  }

  method ReadTrailer(data: seq<Byte>) returns (tr: Trailer)
    requires TRAILER_SIZE <= |data|
    ensures tr == TrailerOf(data)
  {
    var at := |data| - TRAILER_SIZE;
    var numObjects := GetSizedInt(data, at + 8, 8);
    var topObject := GetSizedInt(data, at + 16, 8);
    var offsetTableOffset := GetSizedInt(data, at + 24, 8);
    tr := Trailer(data[at + 6], data[at + 7], numObjects, topObject, offsetTableOffset);
  }

  lemma QuotientBelow(n: nat, x: nat, y: nat)
    requires x > 0
    ensures n / x < y <==> n < x * y
  {
    var q := n / x;
    assert x * q <= n < x * q + x;
    if q < y {
      ProductGrows(x, q + 1, y);
    } else {
      ProductGrows(x, y, q);
    }
  }

  lemma {:induction false} ProductGrows(x: nat, a: nat, b: nat)
    requires a <= b
    ensures x * a <= x * b
  {
  }

  /** `__check_uint64_mul_unsigned_unsigned`: the product in 64 bits; overflow is added to the errors so far. */
  method CheckedMul(x: nat, y: nat, err: bool) returns (r: nat, err': bool)
    requires x < TWO_64 && y < TWO_64
    ensures r == x * y % TWO_64 && (err' <==> err || TWO_64 <= x * y) && (!err' ==> r == x * y)
  {
    if x == 0 {
      return 0, err;
    }
    QuotientBelow(UINT64_MAX, x, y);
    r, err' := x * y % TWO_64, err || UINT64_MAX / x < y;
  }

  /** `__check_uint64_add_unsigned_unsigned` */
  method CheckedAdd(x: nat, y: nat, err: bool) returns (r: nat, err': bool)
    requires x < TWO_64 && y < TWO_64
    ensures r == (x + y) % TWO_64 && (err' <==> err || TWO_64 <= x + y)
  {
    r, err' := (x + y) % TWO_64, err || UINT64_MAX - y < x;
  }

  /** The checks on the sizes of table and data, which must neither overflow nor miss the length. */
  method CheckSizes(length: nat, tr: Trailer) returns (ok: bool)
    requires length <= LONG_MAX && 9 <= tr.offsetTableOffset <= LONG_MAX
    requires 1 <= tr.numObjects <= LONG_MAX && 1 <= tr.offsetIntSize < 256
    ensures ok <==> length == tr.offsetTableOffset + Span(tr.numObjects, tr.offsetIntSize) + TRAILER_SIZE
  {
    hide Span;
    SpanIsProduct(tr.numObjects, tr.offsetIntSize);
    CountBelowSpan(tr.numObjects, tr.offsetIntSize);
    var offsetTableSize, err := CheckedMul(tr.numObjects, tr.offsetIntSize, false);
    if err || offsetTableSize < 1 { return false; }
    ok := CheckSums(length, tr.offsetTableOffset, offsetTableSize);
  }

  method CheckSums(length: nat, offsetTableOffset: nat, offsetTableSize: nat) returns (ok: bool)
    requires length <= LONG_MAX && 9 <= offsetTableOffset <= LONG_MAX && offsetTableSize < TWO_64
    ensures ok <==> length == offsetTableOffset + offsetTableSize + TRAILER_SIZE
  {
    var sum, err := CheckedAdd(8, offsetTableOffset - 8, false);
    sum, err := CheckedAdd(sum, offsetTableSize, err);
    sum, err := CheckedAdd(sum, TRAILER_SIZE, err);
    ok := !err && length == sum;
  }

  /**
    * The checks of `__CFBinaryPlistGetTopLevelInfo` on the trailer fields, in order, up to those on
    * pointers into the data, which cannot overflow after them.
    */
  method CheckTrailer(length: nat, tr: Trailer) returns (ok: bool)
    requires TRAILER_SIZE + 9 <= length <= LONG_MAX && tr.offsetIntSize < 256
    ensures ok <==> TrailerSound(length, tr)
    ensures ok <==>
              && 1 <= tr.numObjects <= LONG_MAX && tr.topObject < tr.numObjects
              && 9 <= tr.offsetTableOffset <= LONG_MAX && 1 <= tr.offsetIntSize && 1 <= tr.objectRefSize
              && length == tr.offsetTableOffset + tr.numObjects * tr.offsetIntSize + 32
              && (tr.objectRefSize < 8 ==> tr.numObjects < Pow256(tr.objectRefSize))
              && (tr.offsetIntSize < 8 ==> tr.offsetTableOffset < Pow256(tr.offsetIntSize))
  {
    SpanIsProduct(tr.numObjects, tr.offsetIntSize);
    hide Span;
    ok := false;
    if LONG_MAX < tr.numObjects || LONG_MAX < tr.offsetTableOffset { return; }
    if tr.numObjects < 1 || tr.numObjects <= tr.topObject { return; }
    if tr.offsetTableOffset < 9 { return; }
    if length - TRAILER_SIZE <= tr.offsetTableOffset {
      if tr.offsetIntSize >= 1 {
        CountBelowSpan(tr.numObjects, tr.offsetIntSize);
      }
      return;
    }
    if tr.offsetIntSize < 1 || tr.objectRefSize < 1 { return; }
    var sizesFit := CheckSizes(length, tr);
    if !sizesFit { return; }
    if tr.objectRefSize < 8 && Pow256(tr.objectRefSize) <= tr.numObjects { return; }
    if tr.offsetIntSize < 8 && Pow256(tr.offsetIntSize) <= tr.offsetTableOffset { return; }
    ok := true;
  }

  method ReadTableEntry(data: seq<Byte>, tr: Trailer, ref: nat) returns (off: nat)
    requires Fits(data, tr) && ref < tr.numObjects
    ensures off == TableEntry(data, tr, ref)
  {
    EntryInTable(data, tr, ref);
    SpanIsProduct(ref, tr.offsetIntSize);
    off := GetSizedInt(data, tr.offsetTableOffset + ref * tr.offsetIntSize, tr.offsetIntSize);
  }

  /** The loop of `__CFBinaryPlistGetTopLevelInfo` over the offset table. */
  method CheckOffsetTable(data: seq<Byte>, tr: Trailer) returns (ok: bool)
    requires Fits(data, tr)
    ensures ok <==> forall i | 0 <= i < tr.numObjects :: TableEntry(data, tr, i) < tr.offsetTableOffset
  {
    var maxOffset := tr.offsetTableOffset - 1;
    for idx := 0 to tr.numObjects
      invariant forall i | 0 <= i < idx :: TableEntry(data, tr, i) <= maxOffset
    {
      var off := ReadTableEntry(data, tr, idx);
      if maxOffset < off { return false; }
    }
    return true;
  }

  /** `__CFBinaryPlistGetTopLevelInfo`. */
  method GetTopLevelInfo(data: seq<Byte>) returns (ok: bool, marker: Byte, offset: nat, tr: Trailer)
    requires |data| <= LONG_MAX
    ensures ok <==> Accepts(data)
    ensures ok ==> |data| >= 41 && data[..7] == [0x62, 0x70, 0x6c, 0x69, 0x73, 0x74, 0x30]
    ensures ok ==> tr == TrailerOf(data) && Fits(data, tr)
    ensures ok ==> forall i | 0 <= i < tr.numObjects :: TableEntry(data, tr, i) < tr.offsetTableOffset
    ensures ok ==> offset == TableEntry(data, tr, tr.topObject) && 8 <= offset < tr.offsetTableOffset
    ensures ok ==> marker == data[offset]
  {
    ok, marker, offset, tr := false, 0, 0, Trailer(0, 0, 0, 0, 0);
    if |data| < TRAILER_SIZE + 8 + 1 { return; }
    if data[..7] != MAGIC { return; }
    tr := ReadTrailer(data);
    var sound := CheckTrailer(|data|, tr);
    if !sound { return; }
    TrailerFitsData(data, tr);
    var inBounds := CheckOffsetTable(data, tr);
    if !inBounds { return; }
    offset := ReadTableEntry(data, tr, tr.topObject);
    if offset < 8 || tr.offsetTableOffset <= offset { return; }
    marker := data[offset];
    ok := true;
  }
}
