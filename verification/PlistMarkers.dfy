/** What each marker byte reads as, in numbers: also the forms that the writer never produces. */
module PlistMarkers {
  import opened PlistBytes
  import opened PlistTrees
  import opened PlistTrailer
  import opened PlistFormat
  import PlistParse

  /** Null and the booleans; no other marker below 0x10 is read. */
  lemma SimpleMarkers(data: seq<Byte>, tr: Trailer, off: nat)
    requires Fits(data, tr) && InObjects(tr, off) && data[off] < 0x10
    ensures data[off] == 0x00 ==> ParseAt(data, tr, off) == Scalar(Null)
    ensures data[off] == 0x08 ==> ParseAt(data, tr, off) == Scalar(Bool(false))
    ensures data[off] == 0x09 ==> ParseAt(data, tr, off) == Scalar(Bool(true))
    ensures data[off] !in {0x00, 0x08, 0x09} ==> ParseAt(data, tr, off) == Bad
  {
  }

  lemma ReservedMarkers(data: seq<Byte>, tr: Trailer, off: nat)
    requires Fits(data, tr) && InObjects(tr, off) && data[off] / 16 in {0x7, 0x9, 0xb, 0xe, 0xf}
    ensures ParseAt(data, tr, off) == Bad
  {
  }

  lemma Pow2Values()
    ensures Pow2(0) == 1 && Pow2(1) == 2 && Pow2(2) == 4 && Pow2(3) == 8 && Pow2(4) == 16
  {
    assert Pow2(2) == 2 * Pow2(1);
    assert Pow2(3) == 2 * Pow2(2);
    assert Pow2(4) == 2 * Pow2(3);
  }

  lemma {:induction false} Pow2Grows(n: nat)
    requires n >= 5
    ensures Pow2(n) >= 32
  {
    if n == 5 {
      Pow2Values();
    } else {
      Pow2Grows(n - 1);
    }
  }

  lemma OneByte(data: seq<Byte>, at: nat)
    requires at < |data|
    ensures SizedInt(data, at, 1) == data[at]
  {
    var s := data[at..at + 1];
    assert s[..0] == [] && s[0] == data[at];
    assert Number(s) == Number(s[..0]) * 0x100 + s[0];
  }

  lemma TwoBytes(data: seq<Byte>, at: nat)
    requires at + 1 < |data|
    ensures SizedInt(data, at, 2) == data[at] as int * 0x100 + data[at + 1]
  {
    var s := data[at..at + 2];
    assert s[..1] == [data[at]] && [data[at]][..0] == [];
    assert Number([data[at]]) == data[at];
    assert Number(s) == Number(s[..1]) * 0x100 + s[1];
  }

  lemma WholeNumber(data: seq<Byte>, at: nat, size: nat)
    requires at + size <= |data| && size <= 8
    ensures SizedInt(data, at, size) == Number(data[at..at + size]) < Pow256(size)
  {
    NumberBelow(data[at..at + size]);
    WidthBelow(size);
    SmallRemainder(Number(data[at..at + size]));
  }

  lemma WidthBelow(size: nat)
    requires size <= 8
    ensures Pow256(size) <= TWO_64
  {
    Pow256Values();
    Pow256Monotone(size, 8);
  }

  lemma SmallRemainder(n: nat)
    requires n < TWO_64
    ensures n % TWO_64 == n
  {
  }

  lemma {:induction false} NumberBelow(s: seq<Byte>)
    ensures Number(s) < Pow256(|s|)
  {
    if s != [] {
      NumberBelow(s[..|s| - 1]);
    }
  }

  /**
    * Integers of one, two and four bytes are unsigned, of eight bytes signed, of sixteen bytes 128-bit
    * numbers of which only the low half is kept; longer ones are not read.
    */
  lemma IntegerMarkers(data: seq<Byte>, tr: Trailer, off: nat)
    requires Fits(data, tr) && InObjects(tr, off) && data[off] / 16 == 1
    ensures data[off] == 0x10 && off + 1 < tr.offsetTableOffset ==>
              ParseAt(data, tr, off) == Scalar(Int(data[off + 1]))
    ensures data[off] == 0x11 && off + 2 < tr.offsetTableOffset ==>
              ParseAt(data, tr, off) == Scalar(Int(data[off + 1] as int * 0x100 + data[off + 2]))
    ensures data[off] == 0x12 && off + 4 < tr.offsetTableOffset ==>
              ParseAt(data, tr, off) == Scalar(Int(Number(data[off + 1..off + 5])))
    ensures data[off] == 0x13 && off + 8 < tr.offsetTableOffset ==>
              var n: int := Number(data[off + 1..off + 9]);
              ParseAt(data, tr, off)
              == Scalar(Int(if n < 0x8000_0000_0000_0000 then n else n - 0x1_0000_0000_0000_0000))
    ensures data[off] == 0x14 && off + 16 < tr.offsetTableOffset ==>
              ParseAt(data, tr, off) == Scalar(Int128(0, Number(data[off + 9..off + 17])))
    ensures data[off] > 0x14 ==> ParseAt(data, tr, off) == Bad
  {
    hide Number, SizedInt;
    Pow2Values();
    Pow256Values();
    var room := tr.offsetTableOffset - off;
    if data[off] == 0x10 && 1 < room {
      OneByte(data, off + 1);
    } else if data[off] == 0x11 && 2 < room {
      TwoBytes(data, off + 1);
    } else if data[off] == 0x12 && 4 < room {
      WholeNumber(data, off + 1, 4);
    } else if data[off] == 0x13 && 8 < room {
      WholeNumber(data, off + 1, 8);
    } else if data[off] == 0x14 && 16 < room {
      LowHalfOnly(data, off + 1);
    } else if data[off] > 0x14 {
      Pow2Grows(data[off] % 16);
    }
  }

  lemma LowHalfOnly(data: seq<Byte>, at: nat)
    requires at + 16 <= |data|
    ensures SizedInt(data, at, 16) == Number(data[at + 8..at + 16])
  {
    hide Number;
    var a, b := data[at..at + 8], data[at + 8..at + 16];
    assert data[at..at + 16] == a + b;
    NumberBelow(b);
    Pow256Values();
    PlistParse.LowHalf(a, b, Number(b));
  }

  /** Reals of four and of eight bytes, and dates: the bits of an IEEE number, high byte first. */
  lemma RealMarkers(data: seq<Byte>, tr: Trailer, off: nat)
    requires Fits(data, tr) && InObjects(tr, off) && data[off] / 16 in {0x2, 0x3}
    ensures data[off] == 0x22 && off + 4 < tr.offsetTableOffset ==>
              ParseAt(data, tr, off) == Scalar(Number32(Number(data[off + 1..off + 5])))
    ensures data[off] == 0x23 && off + 8 < tr.offsetTableOffset ==>
              ParseAt(data, tr, off) == Scalar(Number64(Number(data[off + 1..off + 9])))
    ensures data[off] == 0x33 && off + 8 < tr.offsetTableOffset ==>
              ParseAt(data, tr, off) == Scalar(Date(Number(data[off + 1..off + 9])))
    ensures data[off] !in {0x22, 0x23, 0x33} ==> ParseAt(data, tr, off) == Bad
  {
    hide Number, SizedInt, Number32, Number64;
    if data[off] == 0x22 && off + 4 < tr.offsetTableOffset {
      WholeNumber(data, off + 1, 4);
    } else if data[off] in {0x23, 0x33} && off + 8 < tr.offsetTableOffset {
      WholeNumber(data, off + 1, 8);
    }
  }

  /** Data and text of fewer than 15 elements: bytes as they are, a unit for a byte, and a unit for two bytes. */
  lemma TextMarkers(data: seq<Byte>, tr: Trailer, off: nat)
    requires Fits(data, tr) && InObjects(tr, off) && data[off] / 16 in {0x4, 0x5, 0x6} && data[off] % 16 < 15
    ensures var n, at, shape := data[off] % 16, off + 1, ParseAt(data, tr, off);
      && (data[off] == 0x40 + n && off + n < tr.offsetTableOffset ==> shape == Scalar(Data(data[at..at + n])))
      && (data[off] == 0x50 + n && off + n < tr.offsetTableOffset ==>
            && shape.Scalar? && shape.s.Text? && |shape.s.chars| == n
            && forall i | 0 <= i < n :: shape.s.chars[i] == data[at + i])
      && (data[off] == 0x60 + n && off + 2 * n < tr.offsetTableOffset ==>
            && shape.Scalar? && shape.s.Text? && |shape.s.chars| == n
            && forall i | 0 <= i < n :: shape.s.chars[i] == data[at + 2 * i] as int * 0x100 + data[at + 2 * i + 1])
      && (off + (if data[off] / 16 == 6 then 2 * n else n) >= tr.offsetTableOffset ==> shape == Bad)
  {
  }

  /** A UID has up to 16 bytes, and is read if it fits 32 bits. */
  lemma UIDMarkers(data: seq<Byte>, tr: Trailer, off: nat)
    requires Fits(data, tr) && InObjects(tr, off) && data[off] / 16 == 8
    requires off + data[off] % 16 + 1 < tr.offsetTableOffset && data[off] % 16 < 8
    ensures var n := Number(data[off + 1..off + 2 + data[off] % 16]);
      ParseAt(data, tr, off) == if n < 0x1_0000_0000 then Scalar(UID(n)) else Bad
  {
    hide Number, SizedInt;
    WholeNumber(data, off + 1, data[off] % 16 + 1);
  }

  /**
    * Arrays, sets and dictionaries of fewer than 15 entries: as many references as there are members,
    * twice as many for a dictionary, right behind the marker.
    */
  lemma ContainerMarkers(data: seq<Byte>, tr: Trailer, off: nat)
    requires Fits(data, tr) && InObjects(tr, off) && data[off] % 16 < 15
    ensures var n := data[off] % 16;
      && (data[off] == 0xa0 + n && off + n * tr.objectRefSize < tr.offsetTableOffset ==>
            ParseAt(data, tr, off) == Container(ArrayTag, n, off + 1))
      && (data[off] == 0xc0 + n && off + n * tr.objectRefSize < tr.offsetTableOffset ==>
            ParseAt(data, tr, off) == Container(SetTag, n, off + 1))
      && (data[off] == 0xd0 + n && off + 2 * n * tr.objectRefSize < tr.offsetTableOffset ==>
            ParseAt(data, tr, off) == Container(DictTag, 2 * n, off + 1))
  {
    hide Span;
    var n := data[off] % 16;
    SpanIsProduct(n, tr.objectRefSize);
    SpanIsProduct(2 * n, tr.objectRefSize);
  }
}
