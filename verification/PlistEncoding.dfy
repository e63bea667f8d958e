/** The bytes the writer produces, as functions of the object graph. */
module PlistEncoding {
  import opened PlistBytes
  import opened PlistTrees
  import opened PlistFlatten

  function Unsigned64(v: int): (n: nat)
    ensures n < TWO_64
  {
    v % TWO_64
  }

  function LogWidth(size: nat): nat {
    if size == 1 then 0 else if size == 2 then 1 else if size == 4 then 2 else 3
  }

  function IntBytes(n: nat): seq<Byte> {
    [0x10 + LogWidth(ByteWidth(n))] + BigEndian(n, ByteWidth(n))
  }

  /** A marker with its count; counts of 15 and more follow as an integer. */
  function CountBytes(marker: Byte, count: nat): (s: seq<Byte>)
    requires marker % 16 == 0
  {
    if count < 15 then [marker + count] else [marker + 0xf] + IntBytes(count)
  }

  /** The marker tells the width, which is the least that holds the number; the bytes are big-endian. */
  lemma IntForm(n: nat)
    requires n < TWO_64
    ensures n <= 0xff ==> IntBytes(n) == [0x10, n]
    ensures 0x100 <= n <= 0xffff ==> IntBytes(n) == [0x11, n / 0x100, n % 0x100]
    ensures 0x1_0000 <= n <= 0xffff_ffff ==> IntBytes(n) == [0x12] + BigEndian(n, 4)
    ensures 0x1_0000_0000 <= n ==> IntBytes(n) == [0x13] + BigEndian(n, 8)
  {
    if n <= 0xff {
      assert BigEndian(n, 1) == [n];
    } else if n <= 0xffff {
      assert BigEndian(n / 256, 1) == [n / 256];
      assert BigEndian(n, 2) == [n / 256, n % 256];
    }
  }

  /** Counts below 15 stand in the marker; others follow it as integers of least width. */
  lemma CountForm(marker: Byte, count: nat)
    requires marker % 16 == 0 && count < TWO_64
    ensures count < 15 ==> CountBytes(marker, count) == [marker + count]
    ensures 15 <= count <= 0xff ==> CountBytes(marker, count) == [marker + 0xf, 0x10, count]
    ensures 0x100 <= count <= 0xffff ==>
              CountBytes(marker, count) == [marker + 0xf, 0x11, count / 0x100, count % 0x100]
    ensures 0x1_0000 <= count <= 0xffff_ffff ==>
              CountBytes(marker, count) == [marker + 0xf, 0x12] + BigEndian(count, 4)
    ensures 0x1_0000_0000 <= count ==> CountBytes(marker, count) == [marker + 0xf, 0x13] + BigEndian(count, 8)
  {
    IntForm(count);
  }

  function AsciiBytes(chars: seq<nat>): (s: seq<Byte>)
    ensures |s| == |chars|
  {
    seq(|chars|, i requires 0 <= i < |chars| => chars[i] % 256)
  }

  function UnicodeBytes(chars: seq<nat>): (s: seq<Byte>)
    ensures |s| == 2 * |chars|
  {
    seq(2 * |chars|, i requires 0 <= i < 2 * |chars| =>
      if i % 2 == 0 then chars[i / 2] / 256 % 256 else chars[i / 2] % 256)
  }

  predicate Ascii(chars: seq<nat>) {
    forall i | 0 <= i < |chars| :: chars[i] < 0x80
  }

  function UIDBytes(v: nat): seq<Byte> {
    [0x80 + (ByteWidth(v) - 1)] + BigEndian(v, ByteWidth(v))
  }

  function TextBytes(chars: seq<nat>): seq<Byte> {
    if Ascii(chars) then CountBytes(0x50, |chars|) + AsciiBytes(chars)
    else CountBytes(0x60, |chars|) + UnicodeBytes(chars)
  }

  /** A UID tells its width less one in the marker. */
  lemma UIDForm(v: nat)
    requires v < TWO_32
    ensures v <= 0xff ==> UIDBytes(v) == [0x80, v]
    ensures 0x100 <= v <= 0xffff ==> UIDBytes(v) == [0x81, v / 0x100, v % 0x100]
    ensures 0x1_0000 <= v ==> UIDBytes(v) == [0x83] + BigEndian(v, 4)
  {
    if v <= 0xff {
      assert BigEndian(v, 1) == [v];
    } else if v <= 0xffff {
      assert BigEndian(v / 256, 1) == [v / 256];
      assert BigEndian(v, 2) == [v / 256, v % 256];
    }
  }

  /** Text of units below 0x80 is written a byte for a unit. */
  lemma AsciiForm(chars: seq<nat>)
    requires forall i | 0 <= i < |chars| :: chars[i] < 0x80
    ensures TextBytes(chars) == CountBytes(0x50, |chars|) + AsciiBytes(chars)
    ensures forall i | 0 <= i < |chars| :: AsciiBytes(chars)[i] == chars[i]
  {
    hide CountBytes;
  }

  /** Any other text is written two bytes for a unit, the high one first. */
  lemma UnicodeForm(chars: seq<nat>, i: nat)
    requires i < |chars| && chars[i] >= 0x80
    ensures TextBytes(chars) == CountBytes(0x60, |chars|) + UnicodeBytes(chars)
  {
    hide CountBytes, UnicodeBytes;
  }

  lemma UnicodeUnits(chars: seq<nat>, i: nat)
    requires i < |chars| && chars[i] < 0x1_0000
    ensures UnicodeBytes(chars)[2 * i] == chars[i] / 0x100 && UnicodeBytes(chars)[2 * i + 1] == chars[i] % 0x100
  {
  }

  function ScalarBytes(s: Scalar): seq<Byte> {
    match s
    case Null => []
    case Bool(b) => [if b then 0x09 else 0x08]
    case Int(v) => IntBytes(Unsigned64(v))
    case Int128(high, low) => [0x14] + (BigEndian(Unsigned64(high), 8) + BigEndian(low, 8))
    case Real32(bits) => [0x22] + BigEndian(bits, 4)
    case Real64(bits) => [0x23] + BigEndian(bits, 8)
    case Date(bits) => [0x33] + BigEndian(bits, 8)
    case Data(bytes) => CountBytes(0x40, |bytes|) + bytes
    case Text(chars) => TextBytes(chars)
    case UID(v) => UIDBytes(v)
  }

  function TagMarker(tag: Tag): (m: Byte)
    ensures m % 16 == 0
  {
    if tag == ArrayTag then 0xa0 else if tag == SetTag then 0xc0 else 0xd0
  }

  function ContainerCount(tag: Tag, members: seq<Ref>): nat {
    if tag == DictTag then |members| / 2 else |members|
  }

  predicate AllIn(members: seq<Ref>, objtable: map<Ref, nat>) {
    forall i | 0 <= i < |members| :: members[i] in objtable
  }

  /** The references of the first `n` members. */
  function RefBytes(members: seq<Ref>, n: nat, objtable: map<Ref, nat>, refSize: nat): seq<Byte>
    requires n <= |members| && AllIn(members, objtable)
  {
    if n == 0 then []
    else RefBytes(members, n - 1, objtable, refSize) + BigEndian(objtable[members[n - 1]], refSize)
  }

  lemma {:induction false} RefBytesLength(members: seq<Ref>, n: nat, objtable: map<Ref, nat>, refSize: nat)
    requires n <= |members| && AllIn(members, objtable)
    ensures |RefBytes(members, n, objtable, refSize)| == Span(n, refSize)
  {
    if n > 0 {
      RefBytesLength(members, n - 1, objtable, refSize);
    }
  }

  predicate Encodable(o: Object, objtable: map<Ref, nat>) {
    match o
    case Single(s) => ScalarInRange(s)
    case Multi(tag, members) => tag == SetTag || (AllIn(members, objtable) && |members| < TWO_64)
  }

  /** Nulls and sets are refused by the writer and contribute nothing. */
  function ObjectBytes(o: Object, objtable: map<Ref, nat>, refSize: nat): seq<Byte>
    requires Encodable(o, objtable)
  {
    match o
    case Single(s) => ScalarBytes(s)
    case Multi(tag, members) =>
      if tag == SetTag then [] else
      CountBytes(TagMarker(tag), ContainerCount(tag, members)) + RefBytes(members, |members|, objtable, refSize)
  }

  const HEADER: seq<Byte> := [0x62, 0x70, 0x6c, 0x69, 0x73, 0x74, 0x30, 0x30]  // "bplist00"

  ghost predicate AllEncodable(g: Graph, st: Flat) {
    forall i | 0 <= i < |st.objlist| :: st.objlist[i] in g && Encodable(g[st.objlist[i]], st.objtable)
  }

  /** The flattener numbers every member of what it lists, so all of a value in range can be encoded. */
  lemma FlattenedIsEncodable(g: Graph, plist: Ref, t: Tree)
    requires Represents(g, plist, t) && InRange(t)
    ensures AllEncodable(g, Flattened(g, plist, t, EMPTY))
  {
    var st := Flattened(g, plist, t, EMPTY);
    TopIsFirst(g, plist, t);
    EntriesReflectTree(g, plist, t, EMPTY);
    forall i | 0 <= i < |st.objlist|
      ensures st.objlist[i] in g && Encodable(g[st.objlist[i]], st.objtable)
    {
      assert AllNumbered(g, st.objlist[i], st.objtable);
      assert ObjectInRange(g[st.objlist[i]]);
    }
  }

  /** The header and the first `n` objects. */
  ghost function Body(g: Graph, st: Flat, refSize: nat, n: nat): (s: seq<Byte>)
    requires AllEncodable(g, st) && n <= |st.objlist|
    ensures |s| >= 8
  {
    if n == 0 then HEADER
    else Body(g, st, refSize, n - 1) + ObjectBytes(g[st.objlist[n - 1]], st.objtable, refSize)
  }

  ghost function Offset(g: Graph, st: Flat, refSize: nat, i: nat): nat
    requires AllEncodable(g, st) && i <= |st.objlist|
  {
    |Body(g, st, refSize, i)|
  }

  /** The recorded offsets are the positions of the objects in the finished file. */
  ghost predicate OffsetsRight(g: Graph, st: Flat, refSize: nat, offsets: seq<nat>)
    requires AllEncodable(g, st)
  {
    && |offsets| <= |st.objlist|
    && forall i | 0 <= i < |offsets| :: offsets[i] == Offset(g, st, refSize, i)
  }

  /** The offset table: where each of the first `n` objects starts. */
  ghost function OffsetBytes(g: Graph, st: Flat, refSize: nat, intSize: nat, n: nat): seq<Byte>
    requires AllEncodable(g, st) && n <= |st.objlist|
  {
    if n == 0 then []
    else OffsetBytes(g, st, refSize, intSize, n - 1) + BigEndian(Offset(g, st, refSize, n - 1), intSize)
  }

  lemma {:induction false} OffsetBytesLength(g: Graph, st: Flat, refSize: nat, intSize: nat, n: nat)
    requires AllEncodable(g, st) && n <= |st.objlist|
    ensures |OffsetBytes(g, st, refSize, intSize, n)| == Span(n, intSize)
  {
    if n > 0 {
      OffsetBytesLength(g, st, refSize, intSize, n - 1);
    }
  }

  function TrailerBytes(intSize: Byte, refSize: Byte, count: nat, tableOffset: nat): (s: seq<Byte>)
    ensures |s| == 32
  {
    [0, 0, 0, 0, 0, 0, intSize, refSize] + BigEndian(count, 8) + BigEndian(0, 8) + BigEndian(tableOffset, 8)
  }

  /** Sizes that fit the machine: fewer than 2^32 objects and an object area below 2^64 bytes. */
  ghost predicate FileFits(g: Graph, st: Flat) {
    && AllEncodable(g, st)
    && 0 < |st.objlist| < TWO_32
    && Offset(g, st, ByteWidth(|st.objlist|), |st.objlist|) < TWO_64
  }

  /** The finished file for a flattened graph. */
  ghost function FileBytes(g: Graph, st: Flat): (s: seq<Byte>)
    requires FileFits(g, st)
  {
    var count := |st.objlist|;
    var refSize := ByteWidth(count);
    var body := Body(g, st, refSize, count);
    var intSize := ByteWidth(|body|);
    body + OffsetBytes(g, st, refSize, intSize, count) + TrailerBytes(intSize, refSize, count, |body|)
  }
}
