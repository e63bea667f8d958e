/** `_appendInt` to `_appendObject`, and `__CFBinaryPlistWrite`. */
module PlistAppend {
  import opened PlistBytes
  import opened PlistTrees
  import opened PlistFlatten
  import opened PlistEncoding
  import opened PlistWriter

  /** A marker byte and what follows it. */
  method AppendMarked(buf: WriteBuffer, marker: Byte, bytes: seq<Byte>)
    requires buf.Valid()
    modifies buf, buf.stream, buf.buffer
    ensures buf.Valid() && buf.logical == old(buf.logical) + ([marker] + bytes)
    ensures old(buf.error) ==> buf.error
  {
    buf.BufferWrite([marker]);
    buf.BufferWrite(bytes);
  }

  /** `_appendInt`. */
  method AppendInt(buf: WriteBuffer, bigint: nat)
    requires buf.Valid() && bigint < TWO_64
    modifies buf, buf.stream, buf.buffer
    ensures buf.Valid() && buf.logical == old(buf.logical) + IntBytes(bigint)
    ensures bigint <= 0xff ==> buf.logical == old(buf.logical) + [0x10, bigint]
    ensures 0x100 <= bigint <= 0xffff ==> buf.logical == old(buf.logical) + [0x11, bigint / 0x100, bigint % 0x100]
    ensures 0x1_0000 <= bigint <= 0xffff_ffff ==> buf.logical == old(buf.logical) + ([0x12] + BigEndian(bigint, 4))
    ensures 0x1_0000_0000 <= bigint ==> buf.logical == old(buf.logical) + ([0x13] + BigEndian(bigint, 8))
    ensures old(buf.error) ==> buf.error
  {
    IntForm(bigint);
    var nbytes, marker;
    if bigint <= 0xff {
      nbytes, marker := 1, 0x10;
    } else if bigint <= 0xffff {
      nbytes, marker := 2, 0x11;
    } else if bigint <= 0xffff_ffff {
      nbytes, marker := 4, 0x12;
    } else {
      nbytes, marker := 8, 0x13;
    }
    assert IntBytes(bigint) == [marker] + BigEndian(bigint, nbytes);
    AppendMarked(buf, marker, BigEndian(bigint, nbytes));
  }

  /** `_appendUID`. */
  method AppendUID(buf: WriteBuffer, value: nat)
    requires buf.Valid() && value < TWO_32
    modifies buf, buf.stream, buf.buffer
    ensures buf.Valid() && buf.logical == old(buf.logical) + UIDBytes(value)
    ensures value <= 0xff ==> buf.logical == old(buf.logical) + [0x80, value]
    ensures 0x100 <= value <= 0xffff ==> buf.logical == old(buf.logical) + [0x81, value / 0x100, value % 0x100]
    ensures 0x1_0000 <= value ==> buf.logical == old(buf.logical) + ([0x83] + BigEndian(value, 4))
    ensures old(buf.error) ==> buf.error
  {
    UIDForm(value);
    var nbytes := if value <= 0xff then 1 else if value <= 0xffff then 2 else 4;
    AppendMarked(buf, 0x80 + (nbytes - 1), BigEndian(value, nbytes));
  }

  method AppendCount(buf: WriteBuffer, marker: Byte, count: nat)
    requires buf.Valid() && marker % 16 == 0 && count < TWO_64
    modifies buf, buf.stream, buf.buffer
    ensures buf.Valid() && buf.logical == old(buf.logical) + CountBytes(marker, count)
    ensures count < 15 ==> buf.logical == old(buf.logical) + [marker + count]
    ensures 15 <= count <= 0xff ==> buf.logical == old(buf.logical) + [marker + 0xf, 0x10, count]
    ensures 0x100 <= count <= 0xffff ==>
              buf.logical == old(buf.logical) + [marker + 0xf, 0x11, count / 0x100, count % 0x100]
    ensures old(buf.error) ==> buf.error
  {
    CountForm(marker, count);
    ghost var before := buf.logical;
    if count < 15 {
      buf.BufferWrite([marker + count]);
    } else {
      buf.BufferWrite([marker + 0xf]);
      AppendInt(buf, count);
      assert before + [marker + 0xf] + IntBytes(count) == before + ([marker + 0xf] + IntBytes(count));
    }
  }

  /** A marker with its count, and what follows. */
  method AppendCounted(buf: WriteBuffer, marker: Byte, count: nat, bytes: seq<Byte>)
    requires buf.Valid() && marker % 16 == 0 && count < TWO_64
    modifies buf, buf.stream, buf.buffer
    ensures buf.Valid() && buf.logical == old(buf.logical) + (CountBytes(marker, count) + bytes)
    ensures old(buf.error) ==> buf.error
  {
    AppendCount(buf, marker, count);
    buf.BufferWrite(bytes);
  }

  /** CFStringGetBytes in ASCII: how many leading characters convert. */
  method ConvertibleToAscii(chars: seq<nat>) returns (ret: nat)
    ensures ret == |chars| <==> Ascii(chars)
  {
    ret := 0;
    while ret < |chars| && chars[ret] < 0x80
      invariant ret <= |chars| && forall i | 0 <= i < ret :: chars[i] < 0x80
    {
      ret := ret + 1;
    }
  }

  /** `_appendString`. */
  method AppendString(buf: WriteBuffer, chars: seq<nat>)
    requires buf.Valid() && |chars| < TWO_64
    modifies buf, buf.stream, buf.buffer
    ensures buf.Valid()
    ensures (forall i | 0 <= i < |chars| :: chars[i] < 0x80) ==>
              buf.logical == old(buf.logical) + (CountBytes(0x50, |chars|) + AsciiBytes(chars))
    ensures (exists i | 0 <= i < |chars| :: chars[i] >= 0x80) ==>
              buf.logical == old(buf.logical) + (CountBytes(0x60, |chars|) + UnicodeBytes(chars))
    ensures buf.logical == old(buf.logical) + TextBytes(chars)
    ensures old(buf.error) ==> buf.error
  {
    hide CountBytes, AsciiBytes, UnicodeBytes;
    var ret := ConvertibleToAscii(chars);
    var ascii := ret == |chars|;
    var bytes: seq<Byte> := if ascii then AsciiBytes(chars) else UnicodeBytes(chars);
    var marker := if ascii then 0x50 else 0x60;
    assert TextBytes(chars) == CountBytes(marker, |chars|) + bytes;
    AppendCounted(buf, marker, |chars|, bytes);
  }

  /** `_appendNumber`. */
  method AppendNumber(buf: WriteBuffer, s: Scalar)
    requires buf.Valid() && (s.Int? || s.Int128? || s.Real32? || s.Real64?) && ScalarInRange(s)
    modifies buf, buf.stream, buf.buffer
    ensures buf.Valid() && buf.logical == old(buf.logical) + ScalarBytes(s)
    ensures s.Int? && 0 <= s.v <= 0xff ==> buf.logical == old(buf.logical) + [0x10, s.v]
    ensures s.Int? && s.v < 0 ==> buf.logical == old(buf.logical) + ([0x13] + BigEndian(TWO_64 + s.v, 8))
    ensures s.Real32? ==> buf.logical == old(buf.logical) + ([0x22] + BigEndian(s.bits, 4))
    ensures s.Real64? ==> buf.logical == old(buf.logical) + ([0x23] + BigEndian(s.bits, 8))
    ensures s.Int128? ==>
              var high := if s.high < 0 then TWO_64 + s.high else s.high;
              buf.logical == old(buf.logical) + ([0x14] + (BigEndian(high, 8) + BigEndian(s.low, 8)))
    ensures old(buf.error) ==> buf.error
  {
    hide BigEndian, IntBytes;
    if s.Int? {
      AppendInt(buf, Unsigned64(s.v));
    } else {
      var marker, bytes;
      match s {
        case Real32(bits) => marker, bytes := 0x22, BigEndian(bits, 4);
        case Real64(bits) => marker, bytes := 0x23, BigEndian(bits, 8);
        case Int128(high, low) => marker, bytes := 0x14, BigEndian(Unsigned64(high), 8) + BigEndian(low, 8);
      }
      assert ScalarBytes(s) == [marker] + bytes;
      AppendMarked(buf, marker, bytes);
    }
  }

  method AppendData(buf: WriteBuffer, bytes: seq<Byte>)
    requires buf.Valid() && |bytes| < TWO_64
    modifies buf, buf.stream, buf.buffer
    ensures buf.Valid() && buf.logical == old(buf.logical) + ScalarBytes(Data(bytes))
    ensures old(buf.error) ==> buf.error
  {
    AppendCounted(buf, 0x40, |bytes|, bytes);
  }

  /** The leaf cases of `_appendObject`. */
  method AppendScalar(buf: WriteBuffer, s: Scalar)
    requires buf.Valid() && ScalarInRange(s) && !s.Null?
    modifies buf, buf.stream, buf.buffer
    ensures buf.Valid() && buf.logical == old(buf.logical) + ScalarBytes(s)
    ensures s.Bool? ==> buf.logical == old(buf.logical) + [if s.b then 0x09 else 0x08]
    ensures s.Date? ==> buf.logical == old(buf.logical) + ([0x33] + BigEndian(s.bits, 8))
    ensures s.Data? && |s.bytes| < 15 ==> buf.logical == old(buf.logical) + ([0x40 + |s.bytes|] + s.bytes)
    ensures old(buf.error) ==> buf.error
  {
    hide BigEndian, IntBytes, UIDBytes, TextBytes;
    if s.Text? {
      AppendString(buf, s.chars);
    } else if s.Bool? {
      buf.BufferWrite([if s.b then 0x09 else 0x08]);
    } else if s.Data? {
      AppendData(buf, s.bytes);
    } else if s.Date? {
      AppendMarked(buf, 0x33, BigEndian(s.bits, 8));
    } else if s.UID? {
      AppendUID(buf, s.value);
    } else {
      AppendNumber(buf, s);
    }
  }

  /** The loop of `_appendObject` over the members of a container. */
  method AppendRefs(buf: WriteBuffer, members: seq<Ref>, objtable: map<Ref, nat>, objRefSize: nat)
    requires buf.Valid() && AllIn(members, objtable)
    modifies buf, buf.stream, buf.buffer
    ensures buf.Valid()
    ensures buf.logical == old(buf.logical) + RefBytes(members, |members|, objtable, objRefSize)
    ensures old(buf.error) ==> buf.error
  {
    for idx := 0 to |members|
      invariant buf.Valid()
      invariant buf.logical == old(buf.logical) + RefBytes(members, idx, objtable, objRefSize)
      invariant old(buf.error) ==> buf.error
    {
      var refnum := objtable[members[idx]];
      buf.BufferWrite(BigEndian(refnum, objRefSize));
    }
  }

  /** `_appendObject`. */
  method AppendObject(buf: WriteBuffer, o: Object, objtable: map<Ref, nat>, objRefSize: nat) returns (success: bool)
    requires buf.Valid() && Encodable(o, objtable)
    modifies buf, buf.stream, buf.buffer
    ensures buf.Valid() && buf.logical == old(buf.logical) + ObjectBytes(o, objtable, objRefSize)
    ensures o.Multi? && o.tag == ArrayTag ==>
              && AllIn(o.members, objtable)
              && buf.logical == old(buf.logical) + (CountBytes(0xa0, |o.members|)
                                                    + RefBytes(o.members, |o.members|, objtable, objRefSize))
    ensures o.Multi? && o.tag == DictTag ==>
              && AllIn(o.members, objtable)
              && buf.logical == old(buf.logical) + (CountBytes(0xd0, |o.members| / 2)
                                                    + RefBytes(o.members, |o.members|, objtable, objRefSize))
    ensures old(buf.error) ==> buf.error
    ensures success <==> WritableObject(o)
    ensures success <==> if o.Single? then !o.s.Null? else o.tag != SetTag
    ensures !success ==> buf.logical == old(buf.logical)
  {
    hide CountBytes, RefBytes;
    success := WritableObject(o);
    match o
    case Single(s) =>
      if !s.Null? { AppendScalar(buf, s); }
    case Multi(tag, members) =>
      if tag == SetTag { return; }
      AppendCount(buf, TagMarker(tag), ContainerCount(tag, members));
      AppendRefs(buf, members, objtable, objRefSize);
  }

  /** The objects number fewer than 2^32, and take fewer than 2^64 bytes. */
  ghost predicate SizesFit(g: Graph, plist: Ref, t: Tree)
    requires Represents(g, plist, t) && InRange(t)
  {
    FlattenedIsEncodable(g, plist, t);
    var st := Flattened(g, plist, t, EMPTY);
    |st.objlist| < TWO_32 && Offset(g, st, ByteWidth(|st.objlist|), |st.objlist|) < TWO_64
  }

  /** The graph holds a value of 64-bit sizes. */
  ghost predicate CanWrite(g: Graph, plist: Ref, t: Tree) {
    Represents(g, plist, t) && InRange(t) && SizesFit(g, plist, t)
  }

  /** Sizes are all that the tables of a value have to meet. */
  lemma TablesFit(g: Graph, plist: Ref, t: Tree)
    requires CanWrite(g, plist, t)
    ensures FileFits(g, Flattened(g, plist, t, EMPTY))
  {
    hide Offset, Body, Flattened;
    FlattenedIsEncodable(g, plist, t);
    TopIsFirst(g, plist, t);
  }

  ghost function PlistFile(g: Graph, plist: Ref, t: Tree): seq<Byte>
    requires CanWrite(g, plist, t)
  {
    TablesFit(g, plist, t);
    FileBytes(g, Flattened(g, plist, t, EMPTY))
  }

  /** One round of the loop over the objects: note the position, then write. */
  method WriteObject(g: Graph, buf: WriteBuffer, idx: nat, objlist: seq<Ref>, objtable: map<Ref, nat>, refSize: nat,
      ghost st: Flat)
      returns (at: nat, success: bool)
    requires st.objlist == objlist && st.objtable == objtable && AllEncodable(g, st) && idx < |objlist|
    requires buf.Valid() && buf.logical == Body(g, st, refSize, idx)
    modifies buf, buf.stream, buf.buffer
    ensures buf.Valid() && (old(buf.error) ==> buf.error)
    ensures buf.logical == Body(g, st, refSize, idx + 1)
    ensures !buf.error ==> at == Offset(g, st, refSize, idx)
    ensures success <==> WritableObject(g[objlist[idx]])
  {
    at := buf.written + buf.used;
    assert !buf.error ==> at == |buf.logical|;
    success := AppendObject(buf, g[objlist[idx]], objtable, refSize);
  }

  lemma OffsetsExtend(g: Graph, st: Flat, refSize: nat, offsets: seq<nat>, at: nat)
    requires AllEncodable(g, st) && OffsetsRight(g, st, refSize, offsets)
    requires |offsets| < |st.objlist| && at == Offset(g, st, refSize, |offsets|)
    ensures OffsetsRight(g, st, refSize, offsets + [at])
  {
  }

  /** The loop that writes the objects and records where each one starts. */
  method WriteObjects(g: Graph, buf: WriteBuffer, objlist: seq<Ref>, objtable: map<Ref, nat>, refSize: nat,
      ghost st: Flat)
      returns (success: bool, offsets: seq<nat>)
    requires st.objlist == objlist && st.objtable == objtable && AllEncodable(g, st)
    requires buf.Valid() && buf.logical == HEADER
    modifies buf, buf.stream, buf.buffer
    ensures buf.Valid()
    ensures success <==> !HasUnwritable(g, st, 0)
    ensures success ==> buf.logical == Body(g, st, refSize, |objlist|) && |offsets| == |objlist|
    ensures success && !buf.error ==> OffsetsRight(g, st, refSize, offsets)
  {
    offsets := [];
    for idx := 0 to |objlist|
      invariant buf.Valid()
      invariant buf.logical == Body(g, st, refSize, idx)
      invariant |offsets| == idx
      invariant !buf.error ==> OffsetsRight(g, st, refSize, offsets)
      invariant forall i | 0 <= i < idx :: WritableObject(g[objlist[i]])
    {
      var at, ok := WriteObject(g, buf, idx, objlist, objtable, refSize, st);
      if !ok {
        assert HasUnwritable(g, st, 0);
        return false, offsets;
      }
      if !buf.error {
        OffsetsExtend(g, st, refSize, offsets, at);
      }
      offsets := offsets + [at];
    }
    success := true;
  }

  /** The loop that writes the offset table. */
  method WriteOffsets(buf: WriteBuffer, offsets: seq<nat>, intSize: nat, ghost g: Graph, ghost st: Flat,
      ghost refSize: nat)
    requires buf.Valid() && AllEncodable(g, st) && |offsets| == |st.objlist|
    requires !buf.error ==> OffsetsRight(g, st, refSize, offsets)
    modifies buf, buf.stream, buf.buffer
    ensures buf.Valid() && (old(buf.error) ==> buf.error)
    ensures !buf.error ==> buf.logical == old(buf.logical) + OffsetBytes(g, st, refSize, intSize, |offsets|)
  {
    hide Offset, Body, BigEndian, ByteWidth;
    for idx := 0 to |offsets|
      invariant buf.Valid() && (old(buf.error) ==> buf.error)
      invariant !buf.error ==> buf.logical == old(buf.logical) + OffsetBytes(g, st, refSize, intSize, idx)
    {
      buf.BufferWrite(BigEndian(offsets[idx], intSize));
    }
  }

  /** The trailer, and the last flush. */
  method WriteTrailer(buf: WriteBuffer, intSize: Byte, refSize: Byte, count: nat, tableOffset: nat)
    requires buf.Valid()
    modifies buf, buf.stream, buf.buffer
    ensures buf.error == buf.stream.failed && (old(buf.error) ==> buf.error)
    ensures !buf.error ==>
      buf.stream.received == buf.start + (old(buf.logical) + TrailerBytes(intSize, refSize, count, tableOffset))
  {
    buf.BufferWrite(TrailerBytes(intSize, refSize, count, tableOffset));
    buf.BufferFlush();
  }

  /** The end of the object area, and the width of the offsets into it. */
  method TableLayout(buf: WriteBuffer) returns (tableOffset: nat, intSize: nat)
    requires buf.Valid() && |buf.logical| < TWO_64
    ensures tableOffset < TWO_64 && 0 < intSize <= 8
    ensures !buf.error ==> tableOffset == |buf.logical| && intSize == ByteWidth(|buf.logical|)
  {
    // after an error the counters are stale, and the file is abandoned later
    tableOffset := (buf.written + buf.used) % TWO_64;
    intSize := ByteCount(tableOffset);
  }

  /** The last part of `__CFBinaryPlistWrite`: offset table, trailer and flush. */
  method Finish(g: Graph, buf: WriteBuffer, offsets: seq<nat>, refSize: nat, ghost st: Flat) returns (length: nat)
    requires FileFits(g, st) && refSize == ByteWidth(|st.objlist|) && |offsets| == |st.objlist|
    requires buf.Valid() && buf.logical == Body(g, st, refSize, |st.objlist|)
    requires !buf.error ==> OffsetsRight(g, st, refSize, offsets)
    modifies buf, buf.stream, buf.buffer
    ensures length > 0 <==> !buf.stream.failed
    ensures length > 0 ==> length == |FileBytes(g, st)| && buf.stream.received == buf.start + FileBytes(g, st)
  {
    hide Body, OffsetBytes, TrailerBytes, OffsetsRight;
    ghost var body := buf.logical;
    var lengthSoFar, intSize := TableLayout(buf);
    WriteOffsets(buf, offsets, intSize, g, st, refSize);
    ghost var withTable := buf.logical;
    length := lengthSoFar + |offsets| * intSize;
    SpanIsProduct(|offsets|, intSize);
    WriteTrailer(buf, intSize, refSize, |offsets|, lengthSoFar);
    length := length + 32;
    if buf.error { return 0; }
    ghost var table := OffsetBytes(g, st, refSize, intSize, |offsets|);
    assert withTable == body + table;
    OffsetBytesLength(g, st, refSize, intSize, |offsets|);
  }

  /** `__CFBinaryPlistWrite`: the length of the file, or 0 if the value or the stream was refused. */
  method Write(g: Graph, plist: Ref, stream: Stream, ghost t: Tree) returns (length: nat)
    requires CanWrite(g, plist, t)
    requires !stream.failed
    modifies stream
    ensures length > 0 <==> Writable(t) && !stream.failed
    ensures length > 0 ==>
      && length == |PlistFile(g, plist, t)|
      && stream.received == old(stream.received) + PlistFile(g, plist, t)
  {
    var flat := new Flattener();
    flat.Flatten(g, plist, t);
    ghost var st := flat.Tables();
    TablesFit(g, plist, t);
    EntriesReflectTree(g, plist, t, EMPTY);
    var cnt := |flat.objlist|;
    var buf := new WriteBuffer(stream);
    buf.BufferWrite(HEADER);
    var refSize := ByteCount(cnt);
    var success, offsets := WriteObjects(g, buf, flat.objlist, flat.objtable, refSize, st);
    if !success { return 0; }
    length := Finish(g, buf, offsets, refSize, st);
  }
}
