/**
  * What the bytes at an offset mean. `ParseAt` is the part of the reader that looks at one object;
  * `Denotes` is a declarative account of a whole value, by recursion on the value, with no
  * cache, no path set and no depth.
  */
module PlistFormat {
  import opened PlistBytes
  import opened PlistTrees
  import opened PlistTrailer

  datatype Option<+T> = None | Some(value: T)

  /** One object: unreadable, a leaf, or a container with `count` references starting at `refs`. */
  datatype Shape = Bad | Scalar(s: Scalar) | Container(tag: Tag, count: nat, refs: nat)

  /** A number and the position after it. */
  datatype Counted = Counted(n: nat, next: nat)

  function Pow2(n: nat): (p: nat)
    ensures p > 0
  {
    if n == 0 then 1 else 2 * Pow2(n - 1)
  }

  function Signed64(bits: nat): int {
    if bits < 0x8000_0000_0000_0000 then bits else bits - TWO_64
  }

  function Text16(data: seq<Byte>, at: nat, count: nat): (chars: seq<nat>)
    requires at + 2 * count <= |data|
    ensures |chars| == count
  {
    seq(count, i requires 0 <= i < count => data[at + 2 * i] as int * 256 + data[at + 2 * i + 1])
  }

  function AsciiText(data: seq<Byte>, at: nat, count: nat): (chars: seq<nat>)
    requires at + count <= |data|
    ensures |chars| == count
  {
    seq(count, i requires 0 <= i < count => data[at + i])
  }

  /** `_readInt`. Only the low eight bits of the byte count reach `_getSizedInt`. */
  function ReadInt(data: seq<Byte>, at: nat, end: nat): (r: Option<Counted>)
    requires end < |data|
    ensures r.Some? ==> r.value.next <= end + 1
  {
    if end < at || data[at] / 16 != 1 then None
    else
      var cnt := Pow2(data[at] % 16);
      if end < at + cnt then None
      else Some(Counted(SizedInt(data, at + 1, cnt % 256), at + 1 + cnt))
  }

  /** The element count of a counted object at `off`: in the marker, or in an integer after it. */
  function ReadCount(data: seq<Byte>, off: nat, end: nat): (r: Option<Counted>)
    requires off <= end < |data|
    ensures r.Some? ==> off < r.value.next <= end + 1
  {
    if data[off] % 16 != 0xf then Some(Counted(data[off] % 16, off + 1))
    else
      var r := ReadInt(data, off + 1, end);
      if r.None? || LONG_MAX < r.value.n then None else r
  }

  /** `size` bytes starting at `at` end at or before `end`. */
  predicate Within(at: nat, size: nat, end: nat) {
    at + size <= end + 1
  }

  predicate InObjects(tr: Trailer, off: nat) {
    8 <= off < tr.offsetTableOffset
  }

  function ParseSimple(marker: Byte): Shape {
    if marker == 0x00 then Scalar(Null)
    else if marker == 0x08 then Scalar(Bool(false))
    else if marker == 0x09 then Scalar(Bool(true))
    else Bad
  }

  function ParseInt(data: seq<Byte>, off: nat, end: nat): Shape
    requires off <= end < |data|
  {
    var cnt := Pow2(data[off] % 16);
    if !Within(off + 1, cnt, end) || 16 < cnt then Bad
    else
      var bits := SizedInt(data, off + 1, cnt);
      if 8 < cnt then Scalar(Int128(0, bits)) else Scalar(Int(Signed64(bits)))
  }

  function ParseReal(data: seq<Byte>, off: nat, end: nat): Shape
    requires off <= end < |data|
  {
    if data[off] % 16 == 2 && Within(off + 1, 4, end) then Scalar(Number32(SizedInt(data, off + 1, 4)))
    else if data[off] % 16 == 3 && Within(off + 1, 8, end) then Scalar(Number64(SizedInt(data, off + 1, 8)))
    else Bad
  }

  function ParseDate(data: seq<Byte>, off: nat, end: nat): Shape
    requires off <= end < |data|
  {
    if data[off] == 0x33 && Within(off + 1, 8, end) then Scalar(Date(SizedInt(data, off + 1, 8))) else Bad
  }

  function ParseData(data: seq<Byte>, off: nat, end: nat): Shape
    requires off <= end < |data|
  {
    var c := ReadCount(data, off, end);
    if c.None? || !Within(c.value.next, c.value.n, end) then Bad
    else Scalar(Data(data[c.value.next..c.value.next + c.value.n]))
  }

  /** CFString takes bytes of 0x80 and above in ASCII encoding for the characters of ISO Latin 1. */
  function ParseAscii(data: seq<Byte>, off: nat, end: nat): Shape
    requires off <= end < |data|
  {
    var c := ReadCount(data, off, end);
    if c.None? || !Within(c.value.next, c.value.n, end) then Bad
    else Scalar(Text(AsciiText(data, c.value.next, c.value.n)))
  }

  function ParseUnicode(data: seq<Byte>, off: nat, end: nat): Shape
    requires off <= end < |data|
  {
    var c := ReadCount(data, off, end);
    if c.None? || !Within(c.value.next, 2 * c.value.n, end) then Bad
    else Scalar(Text(Text16(data, c.value.next, c.value.n)))
  }

  function ParseUID(data: seq<Byte>, off: nat, end: nat): Shape
    requires off <= end < |data|
  {
    var cnt := data[off] % 16 + 1;
    if !Within(off + 1, cnt, end) then Bad
    else
      var bits := SizedInt(data, off + 1, cnt);
      if TWO_32 <= bits then Bad else Scalar(UID(bits))
  }

  /** A dictionary of n entries holds 2n references, keys first. */
  function ParseContainer(data: seq<Byte>, tr: Trailer, off: nat, tag: Tag): Shape
    requires off < tr.offsetTableOffset <= |data|
  {
    var end := tr.offsetTableOffset - 1;
    var c := ReadCount(data, off, end);
    if c.None? then Bad
    else
      var count := if tag == DictTag then 2 * c.value.n else c.value.n;
      if !Within(c.value.next, Span(count, tr.objectRefSize), end) then Bad
      else Container(tag, count, c.value.next)
  }

  /** The leaf cases of the marker switch. */
  function ParseLeaf(data: seq<Byte>, off: nat, end: nat): Shape
    requires off <= end < |data|
  {
    var kind := data[off] / 16;
    if kind == 0x0 then ParseSimple(data[off])
    else if kind == 0x1 then ParseInt(data, off, end)
    else if kind == 0x2 then ParseReal(data, off, end)
    else if kind == 0x3 then ParseDate(data, off, end)
    else if kind == 0x4 then ParseData(data, off, end)
    else if kind == 0x5 then ParseAscii(data, off, end)
    else if kind == 0x6 then ParseUnicode(data, off, end)
    else if kind == 0x8 then ParseUID(data, off, end)
    else Bad
  }

  /** The marker switch of `__CFBinaryPlistCreateObjectFiltered`. */
  function ParseAt(data: seq<Byte>, tr: Trailer, off: nat): Shape
    requires Fits(data, tr) && InObjects(tr, off)
  {
    var kind := data[off] / 16;
    if kind == 0xa then ParseContainer(data, tr, off, ArrayTag)
    else if kind == 0xc then ParseContainer(data, tr, off, SetTag)
    else if kind == 0xd then ParseContainer(data, tr, off, DictTag)
    else ParseLeaf(data, off, tr.offsetTableOffset - 1)
  }

  /** `_getOffsetOfRefAt`: where the reference stored at `at` leads. */
  function RefTarget(data: seq<Byte>, tr: Trailer, at: nat): nat
    requires Fits(data, tr)
  {
    if at < 8 || tr.offsetTableOffset - tr.objectRefSize < at then UINT64_MAX
    else
      var ref := SizedInt(data, at, tr.objectRefSize);
      if tr.numObjects <= ref then UINT64_MAX else TableEntry(data, tr, ref)
  }

  /** The offset that the i-th reference of a container leads to. */
  function KidAt(data: seq<Byte>, tr: Trailer, refs: nat, i: nat): nat
    requires Fits(data, tr)
  {
    RefTarget(data, tr, refs + Span(i, tr.objectRefSize))
  }

  /** The bytes at `off` stand for `t`. */
  ghost predicate Denotes(data: seq<Byte>, tr: Trailer, off: nat, t: Tree)
    requires Fits(data, tr)
    decreases t
  {
    && InObjects(tr, off)
    && match ParseAt(data, tr, off)
       case Bad => false
       case Scalar(s) => t == Leaf(s)
       case Container(tag, count, refs) =>
         && t.Node? && t.tag == tag && |t.kids| == count
         && (tag == DictTag ==> forall i | 0 <= i < count / 2 :: t.kids[i].Leaf?)
         && forall i | 0 <= i < count :: Denotes(data, tr, KidAt(data, tr, refs, i), t.kids[i])
  }

  /** The bytes at `off` stand for some value. */
  ghost predicate Decodable(data: seq<Byte>, tr: Trailer, off: nat)
    requires Fits(data, tr)
  {
    exists t :: Denotes(data, tr, off, t)
  }

  /** An offset has at most one meaning. */
  lemma {:induction false} DenotesUnique(data: seq<Byte>, tr: Trailer, off: nat, t: Tree, u: Tree)
    requires Fits(data, tr)
    requires Denotes(data, tr, off, t) && Denotes(data, tr, off, u)
    ensures t == u
    decreases t
  {
    var shape := ParseAt(data, tr, off);
    if shape.Container? {
      forall i | 0 <= i < shape.count
        ensures t.kids[i] == u.kids[i]
      {
        DenotesUnique(data, tr, KidAt(data, tr, shape.refs, i), t.kids[i], u.kids[i]);
      }
      assert t.kids == u.kids;
    }
  }

  ghost predicate HasSmaller(data: seq<Byte>, tr: Trailer, off: nat, size: nat)
    requires Fits(data, tr)
  {
    exists u :: Denotes(data, tr, off, u) && Size(u) < size
  }

  /** Every meaning of `above` is a value strictly larger than one that `off` stands for. */
  ghost predicate Above(data: seq<Byte>, tr: Trailer, above: nat, off: nat)
    requires Fits(data, tr)
  {
    forall t :: Denotes(data, tr, above, t) ==> HasSmaller(data, tr, off, Size(t))
  }

  /** An object that is above itself, which is to say on a reference cycle, stands for nothing. */
  lemma CycleHasNoMeaning(data: seq<Byte>, tr: Trailer, off: nat)
    requires Fits(data, tr) && Above(data, tr, off, off)
    ensures !Decodable(data, tr, off)
  {
    if Decodable(data, tr, off) {
      var t :| Denotes(data, tr, off, t);
      assert HasSmaller(data, tr, off, Size(t));
      var u :| Denotes(data, tr, off, u) && Size(u) < Size(t);
      DenotesUnique(data, tr, off, t, u);
      assert false;
    }
  }

  /** A container is above the objects it refers to. */
  lemma ContainerAboveKid(data: seq<Byte>, tr: Trailer, off: nat, i: nat)
    requires Fits(data, tr) && InObjects(tr, off)
    requires ParseAt(data, tr, off).Container? && i < ParseAt(data, tr, off).count
    ensures Above(data, tr, off, KidAt(data, tr, ParseAt(data, tr, off).refs, i))
  {
    var kid := KidAt(data, tr, ParseAt(data, tr, off).refs, i);
    forall t | Denotes(data, tr, off, t)
      ensures HasSmaller(data, tr, kid, Size(t))
    {
      assert Denotes(data, tr, kid, t.kids[i]);
      KidIsSmaller(t, i);
    }
  }

  lemma AboveTransitive(data: seq<Byte>, tr: Trailer, a: nat, b: nat, c: nat)
    requires Fits(data, tr)
    requires Above(data, tr, a, b) && Above(data, tr, b, c)
    ensures Above(data, tr, a, c)
  {
    forall t | Denotes(data, tr, a, t)
      ensures HasSmaller(data, tr, c, Size(t))
    {
      assert HasSmaller(data, tr, b, Size(t));
      var s :| Denotes(data, tr, b, s) && Size(s) < Size(t);
      assert HasSmaller(data, tr, c, Size(s));
    }
  }
}
