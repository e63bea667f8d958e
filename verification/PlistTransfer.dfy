/** From a graph through a file and back: the writer and the reader, one after the other. */
module PlistTransfer {
  import opened PlistBytes
  import opened PlistTrees
  import opened PlistTrailer
  import opened PlistFormat
  import opened PlistFlatten
  import opened PlistEncoding
  import opened PlistWriter
  import opened PlistAppend
  import opened PlistReader
  import opened PlistRoundTrip

  /** Writes a value to an empty stream and reads it back from what the stream took. */
  method WriteThenParse(g: Graph, plist: Ref, stream: Stream, ghost t: Tree)
      returns (written: bool, ok: bool, back: Tree)
    requires CanWrite(g, plist, t) && |PlistFile(g, plist, t)| <= LONG_MAX
    requires !stream.failed && stream.received == []
    modifies stream
    ensures written <==> Writable(t) && !stream.failed
    ensures written ==> (ok <==> KeysPrimitive(t)) && (ok ==> back == Canon(t))
    ensures written && FitsReader(t) && KeysPrimitive(t) ==> back == t
  {
    hide Writable, KeysPrimitive, Denotes, Accepts, CanWrite, PlistFile;
    ok, back := false, Leaf(Null);
    var length := Write(g, plist, stream, t);
    written := length > 0;
    if written {
      RoundTrip(g, plist, t);
      CanonIsIdentity(t);
      assert stream.received == PlistFile(g, plist, t);
      ghost var calls;
      ok, back, calls := TryParse(stream.received);
    }
  }

  /** A dictionary with an empty array for a key. */
  const KEYED: Tree := Node(DictTag, [Node(ArrayTag, []), Leaf(Bool(true))])
  const KEYED_GRAPH: Graph := map[0 := Multi(DictTag, [1, 2]), 1 := Multi(ArrayTag, []), 2 := Single(Bool(true))]

  /** A graph of one number. */
  function OneNumber(s: Scalar): Graph {
    map[0 := Single(s)]
  }

  lemma KeyedTables()
    ensures Represents(KEYED_GRAPH, 0, KEYED) && InRange(KEYED) && Writable(KEYED) && !KeysPrimitive(KEYED)
    ensures Flattened(KEYED_GRAPH, 0, KEYED, EMPTY) == Flat([0, 1, 2], map[0 := 0, 1 := 1, 2 := 2], {})
  {
    var g := KEYED_GRAPH;
    assert Represents(g, 1, KEYED.kids[0]) && Represents(g, 2, KEYED.kids[1]);
    var st1 := AddObject(EMPTY, 0, g[0]);
    assert FlattenedMembers(g, 0, KEYED, 0, st1) == st1;
    var st2 := Flattened(g, 1, KEYED.kids[0], st1);
    assert st2 == AddObject(st1, 1, g[1]);
    assert FlattenedMembers(g, 0, KEYED, 1, st1) == st2;
    assert FlattenedMembers(g, 0, KEYED, 2, st1) == AddObject(st2, 2, g[2]);
    assert !KEYED.kids[0].Leaf?;
  }

  lemma KeyedSizes()
    ensures CanWrite(KEYED_GRAPH, 0, KEYED) && |PlistFile(KEYED_GRAPH, 0, KEYED)| <= LONG_MAX
  {
    var g, st := KEYED_GRAPH, Flat([0, 1, 2], map[0 := 0, 1 := 1, 2 := 2], {});
    KeyedTables();
    FlattenedIsEncodable(g, 0, KEYED);
    RefBytesLength([1, 2], 2, st.objtable, 1);
    RefBytesLength([], 0, st.objtable, 1);
    assert ByteWidth(3) == 1;
    assert Offset(g, st, 1, 0) == 8;
    assert |ObjectBytes(g[0], st.objtable, 1)| == 3;
    assert |ObjectBytes(g[1], st.objtable, 1)| == 1;
    assert |ObjectBytes(g[2], st.objtable, 1)| == 1;
    assert Offset(g, st, 1, 1) == 11;
    assert Offset(g, st, 1, 2) == 12;
    assert Offset(g, st, 1, 3) == 13;
    TablesFit(g, 0, KEYED);
    FileLength(g, st);
  }

  /** A container as a key: the file is written and accepted, and cannot be read. */
  lemma ContainerKeyIsNotRead()
    ensures CanWrite(KEYED_GRAPH, 0, KEYED) && Writable(KEYED)
    ensures var file := PlistFile(KEYED_GRAPH, 0, KEYED);
      Accepts(file) && !Decodable(file, TrailerOf(file), TopOffset(file))
  {
    hide PlistFile, Accepts, Decodable, CanWrite;
    KeyedTables();
    KeyedSizes();
    RoundTrip(KEYED_GRAPH, 0, KEYED);
  }

  lemma OneNumberSizes(s: Scalar)
    requires (s.Int128? || s.Real32? || s.Real64?) && ScalarInRange(s)
    ensures CanWrite(OneNumber(s), 0, Leaf(s)) && |PlistFile(OneNumber(s), 0, Leaf(s))| <= LONG_MAX
    ensures Writable(Leaf(s)) && KeysPrimitive(Leaf(s))
  {
    var g, st := OneNumber(s), Flat([0], map[0 := 0], {0});
    assert Flattened(g, 0, Leaf(s), EMPTY) == st;
    FlattenedIsEncodable(g, 0, Leaf(s));
    assert ByteWidth(1) == 1;
    assert Offset(g, st, 1, 0) == 8;
    assert Offset(g, st, 1, 1) <= 25;
    TablesFit(g, 0, Leaf(s));
    FileLength(g, st);
  }

  /** One number: its file stands for its canonical form, and for itself only if that is the same. */
  lemma NumberIsReadAs(s: Scalar)
    requires (s.Int128? || s.Real32? || s.Real64?) && ScalarInRange(s)
    ensures CanWrite(OneNumber(s), 0, Leaf(s)) && Writable(Leaf(s))
    ensures var file := PlistFile(OneNumber(s), 0, Leaf(s));
      && Accepts(file) && Denotes(file, TrailerOf(file), TopOffset(file), Leaf(CanonScalar(s)))
      && (Denotes(file, TrailerOf(file), TopOffset(file), Leaf(s)) <==> CanonScalar(s) == s)
  {
    hide PlistFile, Accepts, Denotes, CanWrite, CanonScalar;
    OneNumberSizes(s);
    RoundTrip(OneNumber(s), 0, Leaf(s));
    var file := PlistFile(OneNumber(s), 0, Leaf(s));
    var u :| Denotes(file, TrailerOf(file), TopOffset(file), u);
    assert u == Leaf(CanonScalar(s));
  }

  /** A high half: 2^64 is read back as 0. */
  lemma HighHalfIsLost()
    ensures CanWrite(OneNumber(Int128(1, 0)), 0, Leaf(Int128(1, 0)))
    ensures var file := PlistFile(OneNumber(Int128(1, 0)), 0, Leaf(Int128(1, 0)));
      && Accepts(file) && Denotes(file, TrailerOf(file), TopOffset(file), Leaf(Int128(0, 0)))
      && !Denotes(file, TrailerOf(file), TopOffset(file), Leaf(Int128(1, 0)))
  {
    hide PlistFile, Accepts, Denotes, CanWrite;
    NumberIsReadAs(Int128(1, 0));
  }

  /** The bits of infinity in 32 bits. */
  const INFINITY_32: nat := 0x7f80_0000

  /** A 32-bit infinity is read back as the 64-bit one. */
  lemma InfinityIsWidened()
    ensures CanWrite(OneNumber(Real32(INFINITY_32)), 0, Leaf(Real32(INFINITY_32)))
    ensures var file := PlistFile(OneNumber(Real32(INFINITY_32)), 0, Leaf(Real32(INFINITY_32)));
      && Accepts(file) && Denotes(file, TrailerOf(file), TopOffset(file), Leaf(Real64(POSITIVE_INFINITY_BITS)))
      && !Denotes(file, TrailerOf(file), TopOffset(file), Leaf(Real32(INFINITY_32)))
  {
    hide PlistFile, Accepts, Denotes, CanWrite;
    NumberIsReadAs(Real32(INFINITY_32));
  }
}
