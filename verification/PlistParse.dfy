/** Reading back, one object at a time, what the writer's encodings put into a file. */
module PlistParse {
  import opened PlistBytes
  import opened PlistTrees
  import opened PlistTrailer
  import opened PlistFormat
  import opened PlistFlatten
  import opened PlistEncoding

  /** The bytes `b` stand in the data at `off`. */
  predicate At(data: seq<Byte>, off: nat, b: seq<Byte>) {
    off + |b| <= |data| && data[off..off + |b|] == b
  }

  lemma AtSplit(data: seq<Byte>, off: nat, a: seq<Byte>, b: seq<Byte>)
    requires At(data, off, a + b)
    ensures At(data, off, a) && At(data, off + |a|, b)
  {
    var s := data[off..off + |a| + |b|];
    assert data[off..off + |a|] == s[..|a|];
    assert data[off + |a|..off + |a| + |b|] == s[|a|..];
  }

  lemma AtByte(data: seq<Byte>, off: nat, m: Byte, rest: seq<Byte>)
    requires At(data, off, [m] + rest)
    ensures off < |data| && data[off] == m && At(data, off + 1, rest)
  {
    AtSplit(data, off, [m], rest);
    assert data[off] == data[off..off + 1][0];
  }

  lemma NumberAt(data: seq<Byte>, at: nat, n: nat, width: nat)
    requires width <= 8 && n < Pow256(width)
    requires At(data, at, BigEndian(n, width))
    ensures SizedInt(data, at, width) == n
  {
    SizedIntReads(data, at, width, n);
  }

  lemma WidthOf(n: nat)
    requires n < TWO_64
    ensures var w := ByteWidth(n); w <= 8 && n < Pow256(w) && Pow2(LogWidth(w)) == w && LogWidth(w) <= 3
  {
    Pow256Values();
    assert Pow2(1) == 2 * Pow2(0);
    assert Pow2(2) == 2 * Pow2(1);
    assert Pow2(3) == 2 * Pow2(2);
  }

  lemma ReadIntBack(data: seq<Byte>, at: nat, end: nat, n: nat)
    requires n < TWO_64 && At(data, at, IntBytes(n)) && end < |data|
    requires at + |IntBytes(n)| <= end + 1
    ensures ReadInt(data, at, end) == Some(Counted(n, at + |IntBytes(n)|))
  {
    var w := ByteWidth(n);
    WidthOf(n);
    AtByte(data, at, 0x10 + LogWidth(w), BigEndian(n, w));
    NumberAt(data, at + 1, n, w);
  }

  lemma ReadCountBack(data: seq<Byte>, off: nat, end: nat, marker: Byte, count: nat)
    requires marker % 16 == 0 && count <= LONG_MAX && end < |data|
    requires At(data, off, CountBytes(marker, count))
    requires off + |CountBytes(marker, count)| <= end + 1
    ensures off <= end
    ensures data[off] / 16 == marker / 16
    ensures ReadCount(data, off, end) == Some(Counted(count, off + |CountBytes(marker, count)|))
  {
    if count < 15 {
      AtByte(data, off, marker + count, []);
    } else {
      AtByte(data, off, marker + 0xf, IntBytes(count));
      ReadIntBack(data, off + 1, end, count);
    }
  }

  lemma UnsignedSigned(v: int)
    requires -0x8000_0000_0000_0000 <= v < 0x8000_0000_0000_0000
    ensures Signed64(Unsigned64(v)) == v
  {
    if v < 0 {
      assert v + TWO_64 == (v + TWO_64) % TWO_64;
      assert (v + TWO_64) % TWO_64 == v % TWO_64;
    }
  }

  /** The object at `off`, inside the object area, is the encoding `b`. */
  ghost predicate Placed(data: seq<Byte>, tr: Trailer, off: nat, b: seq<Byte>) {
    Fits(data, tr) && 8 <= off && Inside(data, off, tr.offsetTableOffset - 1, b)
  }

  predicate Inside(data: seq<Byte>, off: nat, end: nat, b: seq<Byte>) {
    0 < |b| && At(data, off, b) && off + |b| <= end + 1 <= LONG_MAX && end < |data|
  }

  lemma ParseIntBack(data: seq<Byte>, off: nat, end: nat, v: int)
    requires ScalarInRange(Int(v)) && Inside(data, off, end, IntBytes(Unsigned64(v)))
    ensures data[off] / 16 == 1 && ParseInt(data, off, end) == Scalar(Int(v))
  {
    var n := Unsigned64(v);
    var w := ByteWidth(n);
    WidthOf(n);
    AtByte(data, off, 0x10 + LogWidth(w), BigEndian(n, w));
    NumberAt(data, off + 1, n, w);
    UnsignedSigned(v);
  }

  lemma LowHalf(a: seq<Byte>, b: seq<Byte>, low: nat)
    requires |b| == 8 && Number(b) == low < TWO_64
    ensures Number(a + b) % TWO_64 == low
  {
    var h, p := Number(a), Pow256(8);
    NumberSplit(a, b);
    assert p == TWO_64 by { Pow256Values(); }
    ModAddMultiple(low, h);
    assert Number(a + b) == h * TWO_64 + low;
  }

  lemma {:induction false} NumberSplit(a: seq<Byte>, b: seq<Byte>)
    ensures Number(a + b) == Number(a) * Pow256(|b|) + Number(b)
  {
    if b == [] {
      assert a + b == a;
    } else {
      var init := b[..|b| - 1];
      NumberSplit(a, init);
      assert (a + b)[..|a + b| - 1] == a + init;
      calc {
        Number(a + b);
        Number(a + init) * 256 + b[|b| - 1];
        (Number(a) * Pow256(|init|) + Number(init)) * 256 + b[|b| - 1];
        Number(a) * Pow256(|init|) * 256 + (Number(init) * 256 + b[|b| - 1]);
        { MulAssoc(Number(a), Pow256(|init|)); }
        Number(a) * Pow256(|b|) + Number(b);
      }
    }
  }

  lemma MulAssoc(x: nat, y: nat)
    ensures x * y * 256 == x * (256 * y)
  {
  }

  /** Only the low 64 bits of a 128-bit number come back. */
  lemma ParseInt128Back(data: seq<Byte>, off: nat, end: nat, high: int, low: nat)
    requires ScalarInRange(Int128(high, low)) && Inside(data, off, end, ScalarBytes(Int128(high, low)))
    ensures data[off] / 16 == 1 && ParseInt(data, off, end) == Scalar(Int128(0, low))
  {
    hide BigEndian, Unsigned64;
    var s := BigEndian(Unsigned64(high), 8) + BigEndian(low, 8);
    AtByte(data, off, 0x14, s);
    assert Number(BigEndian(low, 8)) == low by {
      Pow256Values();
      NumberOfBigEndian(low, 8);
    }
    LowHalf(BigEndian(Unsigned64(high), 8), BigEndian(low, 8), low);
    assert data[off + 1..off + 1 + 16] == s;
    assert Pow2(4) == 16 by {
      assert Pow2(1) == 2 * Pow2(0);
      assert Pow2(2) == 2 * Pow2(1);
      assert Pow2(3) == 2 * Pow2(2);
    }
  }

  /** A marker followed by `width` bytes of a number. */
  lemma FixedBack(data: seq<Byte>, off: nat, end: nat, marker: Byte, bits: nat, width: nat)
    requires 0 < width <= 8 && bits < Pow256(width)
    requires Inside(data, off, end, [marker] + BigEndian(bits, width))
    ensures data[off] == marker && Within(off + 1, width, end) && SizedInt(data, off + 1, width) == bits
  {
    AtByte(data, off, marker, BigEndian(bits, width));
    NumberAt(data, off + 1, bits, width);
  }

  lemma ParseRealBack(data: seq<Byte>, off: nat, end: nat, s: Scalar)
    requires s.Real32? || s.Real64?
    requires ScalarInRange(s) && Inside(data, off, end, ScalarBytes(s))
    ensures data[off] / 16 == 2 && ParseReal(data, off, end) == Scalar(CanonScalar(s))
  {
    Pow256Values();
    if s.Real32? {
      FixedBack(data, off, end, 0x22, s.bits, 4);
    } else {
      FixedBack(data, off, end, 0x23, s.bits, 8);
    }
  }

  lemma ParseDateBack(data: seq<Byte>, off: nat, end: nat, bits: nat)
    requires bits < TWO_64 && Inside(data, off, end, ScalarBytes(Date(bits)))
    ensures data[off] / 16 == 3 && ParseDate(data, off, end) == Scalar(Date(bits))
  {
    Pow256Values();
    FixedBack(data, off, end, 0x33, bits, 8);
  }

  lemma ParseUIDBack(data: seq<Byte>, off: nat, end: nat, v: nat)
    requires v < TWO_32 && Inside(data, off, end, UIDBytes(v))
    ensures data[off] / 16 == 8 && ParseUID(data, off, end) == Scalar(UID(v))
  {
    WidthOf(v);
    FixedBack(data, off, end, 0x80 + (ByteWidth(v) - 1), v, ByteWidth(v));
  }

  lemma ParseDataBack(data: seq<Byte>, off: nat, end: nat, bytes: seq<Byte>)
    requires |bytes| < TWO_64 && Inside(data, off, end, CountBytes(0x40, |bytes|) + bytes)
    ensures data[off] / 16 == 4 && ParseData(data, off, end) == Scalar(Data(bytes))
  {
    hide CountBytes, ReadCount;
    AtSplit(data, off, CountBytes(0x40, |bytes|), bytes);
    ReadCountBack(data, off, end, 0x40, |bytes|);
  }

  lemma AsciiTextBack(data: seq<Byte>, at: nat, chars: seq<nat>)
    requires Ascii(chars) && At(data, at, AsciiBytes(chars))
    ensures AsciiText(data, at, |chars|) == chars
  {
    forall i | 0 <= i < |chars|
      ensures AsciiText(data, at, |chars|)[i] == chars[i]
    {
      assert data[at + i] == data[at..at + |chars|][i] == AsciiBytes(chars)[i];
    }
  }

  lemma ParseAsciiBack(data: seq<Byte>, off: nat, end: nat, chars: seq<nat>)
    requires |chars| < TWO_64 && Ascii(chars)
    requires Inside(data, off, end, CountBytes(0x50, |chars|) + AsciiBytes(chars))
    ensures data[off] / 16 == 5 && ParseAscii(data, off, end) == Scalar(Text(chars))
  {
    hide CountBytes, ReadCount, AsciiText, AsciiBytes;
    var head := CountBytes(0x50, |chars|);
    AtSplit(data, off, head, AsciiBytes(chars));
    ReadCountBack(data, off, end, 0x50, |chars|);
    AsciiTextBack(data, off + |head|, chars);
  }

  lemma UnicodeUnit(data: seq<Byte>, at: nat, chars: seq<nat>, i: nat)
    requires At(data, at, UnicodeBytes(chars)) && i < |chars| && chars[i] < 0x1_0000
    ensures data[at + 2 * i] as int * 256 + data[at + 2 * i + 1] == chars[i]
  {
    var s := UnicodeBytes(chars);
    assert data[at + 2 * i] == data[at..at + |s|][2 * i] == s[2 * i];
    assert data[at + 2 * i + 1] == data[at..at + |s|][2 * i + 1] == s[2 * i + 1];
    assert (2 * i + 1) / 2 == i;
  }

  lemma UnicodeTextBack(data: seq<Byte>, at: nat, chars: seq<nat>)
    requires ScalarInRange(Text(chars)) && At(data, at, UnicodeBytes(chars))
    ensures Text16(data, at, |chars|) == chars
  {
    forall i | 0 <= i < |chars|
      ensures Text16(data, at, |chars|)[i] == chars[i]
    {
      UnicodeUnit(data, at, chars, i);
    }
  }

  lemma ParseUnicodeBack(data: seq<Byte>, off: nat, end: nat, chars: seq<nat>)
    requires ScalarInRange(Text(chars))
    requires Inside(data, off, end, CountBytes(0x60, |chars|) + UnicodeBytes(chars))
    ensures data[off] / 16 == 6 && ParseUnicode(data, off, end) == Scalar(Text(chars))
  {
    hide CountBytes, ReadCount, Text16;
    var head := CountBytes(0x60, |chars|);
    AtSplit(data, off, head, UnicodeBytes(chars));
    ReadCountBack(data, off, end, 0x60, |chars|);
    UnicodeTextBack(data, off + |head|, chars);
  }

  lemma ParseNumberBack(data: seq<Byte>, off: nat, end: nat, s: Scalar)
    requires s.Int? || s.Int128? || s.Real32? || s.Real64?
    requires ScalarInRange(s) && Inside(data, off, end, ScalarBytes(s))
    ensures ParseLeaf(data, off, end) == Scalar(CanonScalar(s))
  {
    hide ParseInt, ParseReal, IntBytes, BigEndian;
    if s.Int? {
      ParseIntBack(data, off, end, s.v);
    } else if s.Int128? {
      ParseInt128Back(data, off, end, s.high, s.low);
    } else {
      ParseRealBack(data, off, end, s);
    }
  }

  lemma ParseTextBack(data: seq<Byte>, off: nat, end: nat, chars: seq<nat>)
    requires ScalarInRange(Text(chars)) && Inside(data, off, end, TextBytes(chars))
    ensures ParseLeaf(data, off, end) == Scalar(Text(chars))
  {
    hide ParseAscii, ParseUnicode, CountBytes, AsciiBytes, UnicodeBytes, Ascii;
    if Ascii(chars) {
      ParseAsciiBack(data, off, end, chars);
    } else {
      ParseUnicodeBack(data, off, end, chars);
    }
  }

  lemma ParseLeafBack(data: seq<Byte>, off: nat, end: nat, s: Scalar)
    requires ScalarInRange(s) && !s.Null?
    requires Inside(data, off, end, ScalarBytes(s))
    ensures ParseLeaf(data, off, end) == Scalar(CanonScalar(s))
  {
    hide ParseInt, ParseReal, ParseDate, ParseData, ParseAscii, ParseUnicode, ParseUID, IntBytes, UIDBytes, TextBytes,
        CountBytes;
    if s.Text? {
      ParseTextBack(data, off, end, s.chars);
    } else if s.Bool? {
      AtByte(data, off, if s.b then 0x09 else 0x08, []);
    } else if s.Data? {
      ParseDataBack(data, off, end, s.bytes);
    } else if s.Date? {
      ParseDateBack(data, off, end, s.bits);
    } else if s.UID? {
      ParseUIDBack(data, off, end, s.value);
    } else {
      ParseNumberBack(data, off, end, s);
    }
  }

  /** Every leaf the writer emits is read back, up to the high half of 128-bit numbers. */
  lemma ParseScalarBack(data: seq<Byte>, tr: Trailer, off: nat, s: Scalar)
    requires ScalarInRange(s) && !s.Null?
    requires Placed(data, tr, off, ScalarBytes(s))
    ensures ParseAt(data, tr, off) == Scalar(CanonScalar(s))
  {
    hide ParseInt, ParseReal, ParseDate, ParseData, ParseAscii, ParseUnicode, ParseUID, ParseContainer, ScalarBytes;
    ParseLeafBack(data, off, tr.offsetTableOffset - 1, s);
  }

  lemma ParsedContainer(data: seq<Byte>, tr: Trailer, off: nat, tag: Tag, count: nat, refs: nat)
    requires Fits(data, tr) && InObjects(tr, off) && tag != SetTag
    requires data[off] / 16 == TagMarker(tag) / 16
    requires tag == DictTag ==> count % 2 == 0
    requires ReadCount(data, off, tr.offsetTableOffset - 1)
             == Some(Counted(if tag == DictTag then count / 2 else count, refs))
    requires Within(refs, Span(count, tr.objectRefSize), tr.offsetTableOffset - 1)
    ensures ParseAt(data, tr, off) == Container(tag, count, refs)
  {
    hide ReadCount, ParseLeaf;
    if tag == DictTag {
      assert 2 * (count / 2) == count;
    }
  }

  lemma CountOfContainer(data: seq<Byte>, tr: Trailer, off: nat, tag: Tag, count: nat, refs: nat)
    requires Fits(data, tr) && InObjects(tr, off) && tag != SetTag && tr.offsetTableOffset <= LONG_MAX
    requires tag == DictTag ==> count % 2 == 0
    requires refs + Span(count, tr.objectRefSize) <= tr.offsetTableOffset
    requires var n := if tag == DictTag then count / 2 else count;
      n < TWO_64 && At(data, off, CountBytes(TagMarker(tag), n)) && refs == off + |CountBytes(TagMarker(tag), n)|
    ensures ParseAt(data, tr, off) == Container(tag, count, refs)
  {
    CountBelowSpan(count, tr.objectRefSize);
    ReadCountBack(data, off, tr.offsetTableOffset - 1, TagMarker(tag), if tag == DictTag then count / 2 else count);
    ParsedContainer(data, tr, off, tag, count, refs);
  }

  /** A container is read back with its members' references in place. */
  lemma ParseContainerBack(data: seq<Byte>, tr: Trailer, off: nat, tag: Tag, members: seq<Ref>, objtable: map<Ref, nat>)
    requires AllIn(members, objtable) && |members| < TWO_64 && tag != SetTag
    requires tag == DictTag ==> |members| % 2 == 0
    requires Placed(data, tr, off, ObjectBytes(Multi(tag, members), objtable, tr.objectRefSize))
    ensures var refs := off + |CountBytes(TagMarker(tag), ContainerCount(tag, members))|;
      && ParseAt(data, tr, off) == Container(tag, |members|, refs)
      && At(data, refs, RefBytes(members, |members|, objtable, tr.objectRefSize))
      && refs + Span(|members|, tr.objectRefSize) <= tr.offsetTableOffset
  {
    hide CountBytes, RefBytes, ParseAt;
    var head := CountBytes(TagMarker(tag), ContainerCount(tag, members));
    var tail := RefBytes(members, |members|, objtable, tr.objectRefSize);
    assert ObjectBytes(Multi(tag, members), objtable, tr.objectRefSize) == head + tail;
    AtSplit(data, off, head, tail);
    RefBytesLength(members, |members|, objtable, tr.objectRefSize);
    CountOfContainer(data, tr, off, tag, |members|, off + |head|);
  }
}
