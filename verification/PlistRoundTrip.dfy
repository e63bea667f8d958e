/** Whatever is written is accepted, and read back as the same value. */
module PlistRoundTrip {
  import opened PlistBytes
  import opened PlistTrees
  import opened PlistTrailer
  import opened PlistFormat
  import opened PlistFlatten
  import opened PlistEncoding
  import opened PlistAppend
  import opened PlistParse

  /** The trailer of a finished file. */
  ghost function FileTrailer(g: Graph, st: Flat): Trailer
    requires FileFits(g, st)
  {
    var refSize := ByteWidth(|st.objlist|);
    var tableOffset := Offset(g, st, refSize, |st.objlist|);
    Trailer(ByteWidth(tableOffset), refSize, |st.objlist|, 0, tableOffset)
  }

  lemma FileLength(g: Graph, st: Flat)
    requires FileFits(g, st)
    ensures var tr := FileTrailer(g, st);
      |FileBytes(g, st)| == tr.offsetTableOffset + Span(tr.numObjects, tr.offsetIntSize) + TRAILER_SIZE
  {
    var tr := FileTrailer(g, st);
    OffsetBytesLength(g, st, tr.objectRefSize, tr.offsetIntSize, tr.numObjects);
  }

  /** The three parts of the file, each in its place. */
  lemma FileParts(g: Graph, st: Flat)
    requires FileFits(g, st)
    ensures var tr := FileTrailer(g, st);
      var file := FileBytes(g, st);
      && At(file, 0, Body(g, st, tr.objectRefSize, tr.numObjects))
      && At(file, tr.offsetTableOffset, OffsetBytes(g, st, tr.objectRefSize, tr.offsetIntSize, tr.numObjects))
      && |file| >= TRAILER_SIZE
      && At(file, |file| - TRAILER_SIZE,
            TrailerBytes(tr.offsetIntSize, tr.objectRefSize, tr.numObjects, tr.offsetTableOffset))
  {
    var tr := FileTrailer(g, st);
    var file := FileBytes(g, st);
    var body := Body(g, st, tr.objectRefSize, tr.numObjects);
    var table := OffsetBytes(g, st, tr.objectRefSize, tr.offsetIntSize, tr.numObjects);
    var trailer := TrailerBytes(tr.offsetIntSize, tr.objectRefSize, tr.numObjects, tr.offsetTableOffset);
    assert file == body + table + trailer;
    assert file[..|body|] == body;
    assert file[|body|..|body| + |table|] == table;
    assert file[|body| + |table|..] == trailer;
    assert file[|body| + |table|..|body| + |table| + 32] == trailer;
  }

  lemma TrailerFields(data: seq<Byte>, intSize: Byte, refSize: Byte, count: nat, tableOffset: nat)
    requires |data| >= TRAILER_SIZE && count < TWO_64 && tableOffset < TWO_64
    requires At(data, |data| - TRAILER_SIZE, TrailerBytes(intSize, refSize, count, tableOffset))
    ensures TrailerOf(data) == Trailer(intSize, refSize, count, 0, tableOffset)
  {
    hide BigEndian, Number;
    var at := |data| - TRAILER_SIZE;
    var head := [0, 0, 0, 0, 0, 0, intSize, refSize];
    Pow256Values();
    AtSplit(data, at, head + BigEndian(count, 8) + BigEndian(0, 8), BigEndian(tableOffset, 8));
    AtSplit(data, at, head + BigEndian(count, 8), BigEndian(0, 8));
    AtSplit(data, at, head, BigEndian(count, 8));
    NumberAt(data, at + 8, count, 8);
    NumberAt(data, at + 16, 0, 8);
    NumberAt(data, at + 24, tableOffset, 8);
    assert data[at + 6] == data[at..at + 8][6];
    assert data[at + 7] == data[at..at + 8][7];
  }

  lemma TrailerOfFile(g: Graph, st: Flat)
    requires FileFits(g, st)
    ensures |FileBytes(g, st)| >= TRAILER_SIZE && TrailerOf(FileBytes(g, st)) == FileTrailer(g, st)
  {
    var tr := FileTrailer(g, st);
    FileParts(g, st);
    TrailerFields(FileBytes(g, st), tr.offsetIntSize, tr.objectRefSize, tr.numObjects, tr.offsetTableOffset);
  }

  lemma {:induction false} BodyGrows(g: Graph, st: Flat, refSize: nat, i: nat, n: nat)
    requires AllEncodable(g, st) && i <= n <= |st.objlist|
    ensures Body(g, st, refSize, i) <= Body(g, st, refSize, n)
    decreases n
  {
    if i < n {
      BodyGrows(g, st, refSize, i, n - 1);
    }
  }

  lemma {:induction false} BodyNotEmpty(g: Graph, st: Flat, refSize: nat, n: nat)
    requires AllEncodable(g, st) && 0 < n <= |st.objlist| && !HasUnwritable(g, st, 0)
    ensures Offset(g, st, refSize, n - 1) < Offset(g, st, refSize, n)
  {
    assert WritableObject(g[st.objlist[n - 1]]);
  }

  lemma HeaderMagic()
    ensures MAGIC <= HEADER
  {
  }

  lemma FileFitsLayout(g: Graph, st: Flat)
    requires FileFits(g, st) && !HasUnwritable(g, st, 0)
    ensures 9 <= FileTrailer(g, st).offsetTableOffset
    ensures Fits(FileBytes(g, st), FileTrailer(g, st))
    ensures |FileBytes(g, st)| >= TRAILER_SIZE + 9 && MAGIC <= FileBytes(g, st)
  {
    var tr := FileTrailer(g, st);
    FileLength(g, st);
    BodyGrows(g, st, tr.objectRefSize, 0, tr.numObjects);
    BodyGrows(g, st, tr.objectRefSize, 0, tr.numObjects - 1);
    BodyNotEmpty(g, st, tr.objectRefSize, tr.numObjects);
    HeaderMagic();
    FileParts(g, st);
    assert MAGIC <= Body(g, st, tr.objectRefSize, tr.numObjects);
    assert Body(g, st, tr.objectRefSize, tr.numObjects) <= FileBytes(g, st);
  }

  /** How a file starts, and the unused bytes of its trailer. */
  lemma FileFrame(g: Graph, st: Flat)
    requires FileFits(g, st)
    ensures |FileBytes(g, st)| >= 40
    ensures FileBytes(g, st)[..8] == [0x62, 0x70, 0x6c, 0x69, 0x73, 0x74, 0x30, 0x30]
    ensures FileBytes(g, st)[|FileBytes(g, st)| - 32..|FileBytes(g, st)| - 26] == [0, 0, 0, 0, 0, 0]
  {
    hide OffsetBytes;
    var tr, file := FileTrailer(g, st), FileBytes(g, st);
    var body := Body(g, st, tr.objectRefSize, tr.numObjects);
    BodyGrows(g, st, tr.objectRefSize, 0, tr.numObjects);
    var trailer := TrailerBytes(tr.offsetIntSize, tr.objectRefSize, tr.numObjects, tr.offsetTableOffset);
    FileParts(g, st);
    assert body[..8] == HEADER && file[..|body|] == body;
    assert file[..8] == body[..8];
    assert file[|file| - 32..] == trailer;
    assert trailer[..6] == [0, 0, 0, 0, 0, 0];
    assert file[|file| - 32..|file| - 26] == trailer[..6];
  }

  lemma SliceOfFront(rest: seq<Byte>, last: seq<Byte>, lo: nat, hi: nat)
    requires lo <= hi <= |rest|
    ensures (rest + last)[lo..hi] == rest[lo..hi]
  {
  }

  lemma SliceOfBack(rest: seq<Byte>, last: seq<Byte>)
    ensures (rest + last)[|rest|..|rest| + |last|] == last
  {
  }

  /** The entry at byte `lo` of the offset table, where lo is i widths. */
  lemma {:induction false} OffsetEntry(g: Graph, st: Flat, refSize: nat, intSize: nat, i: nat, n: nat, lo: nat)
    requires AllEncodable(g, st) && i < n <= |st.objlist| && lo == Span(i, intSize)
    ensures lo + intSize <= |OffsetBytes(g, st, refSize, intSize, n)|
    ensures OffsetBytes(g, st, refSize, intSize, n)[lo..lo + intSize] == BigEndian(Offset(g, st, refSize, i), intSize)
    decreases n
  {
    hide Body, Offset, BigEndian;
    OffsetBytesLength(g, st, refSize, intSize, n - 1);
    var rest := OffsetBytes(g, st, refSize, intSize, n - 1);
    var last := BigEndian(Offset(g, st, refSize, n - 1), intSize);
    if i < n - 1 {
      OffsetEntry(g, st, refSize, intSize, i, n - 1, lo);
      SliceOfFront(rest, last, lo, lo + intSize);
    } else {
      SliceOfBack(rest, last);
    }
  }

  lemma {:induction false} RefEntry(members: seq<Ref>, n: nat, objtable: map<Ref, nat>, refSize: nat, i: nat, lo: nat)
    requires i < n <= |members| && AllIn(members, objtable) && lo == Span(i, refSize)
    ensures lo + refSize <= |RefBytes(members, n, objtable, refSize)|
    ensures RefBytes(members, n, objtable, refSize)[lo..lo + refSize] == BigEndian(objtable[members[i]], refSize)
    decreases n
  {
    hide BigEndian;
    RefBytesLength(members, n - 1, objtable, refSize);
    var rest := RefBytes(members, n - 1, objtable, refSize);
    var last := BigEndian(objtable[members[n - 1]], refSize);
    if i < n - 1 {
      RefEntry(members, n - 1, objtable, refSize, i, lo);
      SliceOfFront(rest, last, lo, lo + refSize);
    } else {
      SliceOfBack(rest, last);
    }
  }

  lemma SubAt(data: seq<Byte>, off: nat, b: seq<Byte>, lo: nat, hi: nat)
    requires At(data, off, b) && lo <= hi <= |b|
    ensures At(data, off + lo, b[lo..hi])
  {
    forall k | 0 <= k < hi - lo
      ensures data[off + lo..off + hi][k] == b[lo..hi][k]
    {
      assert data[off..off + |b|][lo + k] == b[lo + k];
    }
    assert data[off + lo..off + hi] == b[lo..hi];
  }

  lemma ReadEntry(data: seq<Byte>, tr: Trailer, table: seq<Byte>, ref: nat, n: nat, lo: nat)
    requires Fits(data, tr) && ref < tr.numObjects && tr.offsetIntSize <= 8 && n < Pow256(tr.offsetIntSize)
    requires At(data, tr.offsetTableOffset, table)
    requires lo == Span(ref, tr.offsetIntSize) && lo + tr.offsetIntSize <= |table|
    requires table[lo..lo + tr.offsetIntSize] == BigEndian(n, tr.offsetIntSize)
    ensures TableEntry(data, tr, ref) == n
  {
    var at := tr.offsetTableOffset + lo;
    SubAt(data, tr.offsetTableOffset, table, lo, lo + tr.offsetIntSize);
    NumberAt(data, at, n, tr.offsetIntSize);
    TableEntryAt(data, tr, ref, at);
  }

  lemma TableEntryAt(data: seq<Byte>, tr: Trailer, ref: nat, at: nat)
    requires Fits(data, tr) && ref < tr.numObjects
    requires at == tr.offsetTableOffset + Span(ref, tr.offsetIntSize) && at + tr.offsetIntSize <= |data|
    ensures TableEntry(data, tr, ref) == SizedInt(data, at, tr.offsetIntSize)
  {
  }

  lemma ReadRef(data: seq<Byte>, tr: Trailer, refs: nat, table: seq<Byte>, i: nat, ref: nat, lo: nat)
    requires Fits(data, tr) && ref < tr.numObjects && tr.objectRefSize <= 8 && ref < Pow256(tr.objectRefSize)
    requires 8 <= refs && refs + |table| <= tr.offsetTableOffset && At(data, refs, table)
    requires lo == Span(i, tr.objectRefSize) && lo + tr.objectRefSize <= |table|
    requires table[lo..lo + tr.objectRefSize] == BigEndian(ref, tr.objectRefSize)
    ensures KidAt(data, tr, refs, i) == TableEntry(data, tr, ref)
  {
    SubAt(data, refs, table, lo, lo + tr.objectRefSize);
    NumberAt(data, refs + lo, ref, tr.objectRefSize);
    RefTargetAt(data, tr, refs + lo, ref);
  }

  lemma RefTargetAt(data: seq<Byte>, tr: Trailer, at: nat, ref: nat)
    requires Fits(data, tr) && 8 <= at && at + tr.objectRefSize <= tr.offsetTableOffset && ref < tr.numObjects
    requires SizedInt(data, at, tr.objectRefSize) == ref
    ensures RefTarget(data, tr, at) == TableEntry(data, tr, ref)
  {
  }

  lemma WidthsOfFile(g: Graph, st: Flat)
    requires FileFits(g, st)
    ensures var tr := FileTrailer(g, st);
      && 0 < tr.objectRefSize <= 8 && 0 < tr.offsetIntSize <= 8
      && tr.numObjects < Pow256(tr.objectRefSize) && tr.offsetTableOffset < Pow256(tr.offsetIntSize)
  {
    ByteWidthIsLeast(|st.objlist|);
    ByteWidthIsLeast(FileTrailer(g, st).offsetTableOffset);
  }

  /** The reader finds in the table the offset the writer recorded. */
  lemma TableEntryOfFile(g: Graph, st: Flat, i: nat)
    requires FileFits(g, st) && !HasUnwritable(g, st, 0) && i < |st.objlist|
    requires Fits(FileBytes(g, st), FileTrailer(g, st))
    ensures var tr := FileTrailer(g, st);
      TableEntry(FileBytes(g, st), tr, i) == Offset(g, st, tr.objectRefSize, i)
  {
    hide FileBytes, OffsetBytes, TableEntry, BigEndian;
    var tr := FileTrailer(g, st);
    var table := OffsetBytes(g, st, tr.objectRefSize, tr.offsetIntSize, tr.numObjects);
    var n := Offset(g, st, tr.objectRefSize, i);
    assert n <= tr.offsetTableOffset by { BodyGrows(g, st, tr.objectRefSize, i, tr.numObjects); }
    WidthsOfFile(g, st);
    assert At(FileBytes(g, st), tr.offsetTableOffset, table) by { FileParts(g, st); }
    OffsetEntry(g, st, tr.objectRefSize, tr.offsetIntSize, i, tr.numObjects, Span(i, tr.offsetIntSize));
    ReadEntry(FileBytes(g, st), tr, table, i, n, Span(i, tr.offsetIntSize));
  }

  lemma OffsetBelowTable(g: Graph, st: Flat, i: nat)
    requires FileFits(g, st) && !HasUnwritable(g, st, 0) && i < |st.objlist|
    ensures var tr := FileTrailer(g, st);
      8 <= Offset(g, st, tr.objectRefSize, i) < tr.offsetTableOffset
  {
    hide ObjectBytes, ByteWidth;
    var tr := FileTrailer(g, st);
    BodyNotEmpty(g, st, tr.objectRefSize, i + 1);
    BodyGrows(g, st, tr.objectRefSize, i + 1, tr.numObjects);
  }

  /** The finished file passes the trailer validation, with the first object on top. */
  lemma FileAccepted(g: Graph, st: Flat)
    requires FileFits(g, st) && !HasUnwritable(g, st, 0)
    requires |FileBytes(g, st)| <= LONG_MAX
    ensures Accepts(FileBytes(g, st))
    ensures TopOffset(FileBytes(g, st)) == Offset(g, st, ByteWidth(|st.objlist|), 0)
  {
    var tr := FileTrailer(g, st);
    var file := FileBytes(g, st);
    FileFitsLayout(g, st);
    TrailerOfFile(g, st);
    FileLength(g, st);
    forall i | 0 <= i < tr.numObjects
      ensures TableEntry(file, tr, i) < tr.offsetTableOffset
    {
      TableEntryOfFile(g, st, i);
      OffsetBelowTable(g, st, i);
    }
    TableEntryOfFile(g, st, 0);
    OffsetBelowTable(g, st, 0);
  }

  lemma MiddleAt(file: seq<Byte>, whole: seq<Byte>, pre: seq<Byte>, b: seq<Byte>)
    requires At(file, 0, whole) && pre + b <= whole
    ensures At(file, |pre|, b)
  {
    SubAt(file, 0, whole, |pre|, |pre| + |b|);
    assert whole[|pre|..|pre| + |b|] == (pre + b)[|pre|..] == b;
  }

  /** The i-th object stands in the file at the offset recorded for it. */
  lemma ObjectPlaced(g: Graph, st: Flat, i: nat)
    requires FileFits(g, st) && !HasUnwritable(g, st, 0) && i < |st.objlist|
    requires |FileBytes(g, st)| <= LONG_MAX
    ensures var tr := FileTrailer(g, st);
      Placed(FileBytes(g, st), tr, Offset(g, st, tr.objectRefSize, i),
             ObjectBytes(g[st.objlist[i]], st.objtable, tr.objectRefSize))
  {
    var tr := FileTrailer(g, st);
    FileFitsLayout(g, st);
    BodyNotEmpty(g, st, tr.objectRefSize, i + 1);
    BodyGrows(g, st, tr.objectRefSize, i + 1, tr.numObjects);
    var body := Body(g, st, tr.objectRefSize, tr.numObjects);
    assert At(FileBytes(g, st), 0, body) by { FileParts(g, st); }
    MiddleAt(FileBytes(g, st), body, Body(g, st, tr.objectRefSize, i),
             ObjectBytes(g[st.objlist[i]], st.objtable, tr.objectRefSize));
  }

  /** A reference in a container leads to its member. */
  lemma KidOfFile(g: Graph, st: Flat, members: seq<Ref>, refs: nat, i: nat)
    requires FileFits(g, st) && !HasUnwritable(g, st, 0) && i < |members|
    requires AllIn(members, st.objtable) && st.objtable[members[i]] < |st.objlist|
    requires Fits(FileBytes(g, st), FileTrailer(g, st)) && 8 <= refs
    requires var tr := FileTrailer(g, st);
      && At(FileBytes(g, st), refs, RefBytes(members, |members|, st.objtable, tr.objectRefSize))
      && refs + Span(|members|, tr.objectRefSize) <= tr.offsetTableOffset
    ensures var tr := FileTrailer(g, st);
      KidAt(FileBytes(g, st), tr, refs, i) == Offset(g, st, tr.objectRefSize, st.objtable[members[i]])
  {
    hide FileBytes, RefBytes, Offset, KidAt, BigEndian;
    var tr := FileTrailer(g, st);
    WidthsOfFile(g, st);
    RefBytesLength(members, |members|, st.objtable, tr.objectRefSize);
    RefEntry(members, |members|, st.objtable, tr.objectRefSize, i, Span(i, tr.objectRefSize));
    ReadRef(FileBytes(g, st), tr, refs, RefBytes(members, |members|, st.objtable, tr.objectRefSize), i,
        st.objtable[members[i]],
            Span(i, tr.objectRefSize));
    TableEntryOfFile(g, st, st.objtable[members[i]]);
  }

  /** Ready for the round trip: flattened, complete, and written. */
  ghost predicate Written(g: Graph, st: Flat) {
    && FileFits(g, st) && !HasUnwritable(g, st, 0) && |FileBytes(g, st)| <= LONG_MAX
    && Consistent(g, st) && MembersNumbered(g, st, 0)
    && Fits(FileBytes(g, st), FileTrailer(g, st))
  }

  /** Where object `r` stands in the file. */
  ghost function Place(g: Graph, st: Flat, r: Ref): nat
    requires FileFits(g, st) && Consistent(g, st) && r in st.objtable
  {
    Offset(g, st, ByteWidth(|st.objlist|), st.objtable[r])
  }

  lemma ParsedMember(g: Graph, st: Flat, r: Ref)
    requires Written(g, st) && r in st.objtable
    ensures r in g && Encodable(g[r], st.objtable) && WritableObject(g[r])
    ensures var tr := FileTrailer(g, st);
      Placed(FileBytes(g, st), tr, Place(g, st, r), ObjectBytes(g[r], st.objtable, tr.objectRefSize))
  {
    hide FileBytes, ObjectBytes;
    var i := st.objtable[r];
    assert st.objlist[i] == r;
    assert WritableObject(g[st.objlist[i]]);
    ObjectPlaced(g, st, i);
  }

  /** The references of object `r` stand at `refs`. */
  ghost predicate RefsStand(g: Graph, st: Flat, r: Ref, refs: nat)
    requires FileFits(g, st) && r in g && g[r].Multi? && AllIn(g[r].members, st.objtable)
  {
    var tr := FileTrailer(g, st);
    var members := g[r].members;
    && 8 <= refs
    && At(FileBytes(g, st), refs, RefBytes(members, |members|, st.objtable, tr.objectRefSize))
    && refs + Span(|members|, tr.objectRefSize) <= tr.offsetTableOffset
  }

  lemma RefsLead(g: Graph, st: Flat, r: Ref, refs: nat, i: nat)
    requires Written(g, st) && r in g && g[r].Multi? && AllIn(g[r].members, st.objtable)
    requires RefsStand(g, st, r, refs) && i < |g[r].members|
    ensures KidAt(FileBytes(g, st), FileTrailer(g, st), refs, i) == Place(g, st, g[r].members[i])
  {
    KidOfFile(g, st, g[r].members, refs, i);
  }

  lemma ParsedMembers(g: Graph, st: Flat, r: Ref) returns (refs: nat)
    requires Written(g, st) && r in st.objtable && r in g && g[r].Multi?
    requires g[r].tag == DictTag ==> |g[r].members| % 2 == 0
    ensures g[r].tag != SetTag && AllIn(g[r].members, st.objtable)
    ensures RefsStand(g, st, r, refs)
    ensures var tr := FileTrailer(g, st);
      && InObjects(tr, Place(g, st, r))
      && ParseAt(FileBytes(g, st), tr, Place(g, st, r)) == Container(g[r].tag, |g[r].members|, refs)
  {
    hide FileBytes, CountBytes, RefBytes, ParseAt;
    var tr := FileTrailer(g, st);
    var members := g[r].members;
    ParsedMember(g, st, r);
    ParseContainerBack(FileBytes(g, st), tr, Place(g, st, r), g[r].tag, members, st.objtable);
    refs := Place(g, st, r) + |CountBytes(TagMarker(g[r].tag), ContainerCount(g[r].tag, members))|;
  }

  lemma ParsedLeaf(g: Graph, st: Flat, r: Ref)
    requires Written(g, st) && r in st.objtable && r in g && g[r].Single?
    ensures InObjects(FileTrailer(g, st), Place(g, st, r))
    ensures ParseAt(FileBytes(g, st), FileTrailer(g, st), Place(g, st, r)) == Scalar(CanonScalar(g[r].s))
  {
    hide FileBytes, ParseAt, ScalarBytes;
    ParsedMember(g, st, r);
    ParseScalarBack(FileBytes(g, st), FileTrailer(g, st), Place(g, st, r), g[r].s);
  }

  /** Writing then reading gives the value back, provided all dictionary keys are leaves. */
  lemma {:induction false} ReadsBack(g: Graph, st: Flat, r: Ref, t: Tree)
    requires Written(g, st) && Represents(g, r, t) && r in st.objtable && KeysPrimitive(t)
    ensures Denotes(FileBytes(g, st), FileTrailer(g, st), Place(g, st, r), Canon(t))
    decreases t
  {
    hide FileBytes, ParseAt, KidAt, ObjectBytes, Place, RefsStand;
    match g[r]
    case Single(s) =>
      ParsedLeaf(g, st, r);
    case Multi(tag, members) =>
      var refs := ParsedMembers(g, st, r);
      forall i | 0 <= i < |members|
        ensures Denotes(FileBytes(g, st), FileTrailer(g, st), KidAt(FileBytes(g, st), FileTrailer(g, st), refs, i),
            Canon(t).kids[i])
      {
        RefsLead(g, st, r, refs, i);
        ReadsBack(g, st, members[i], t.kids[i]);
      }
  }

  /** Whatever the reader makes of the file is the value, and its dictionary keys are leaves. */
  lemma {:induction false} ReadsOnlyBack(g: Graph, st: Flat, r: Ref, t: Tree, u: Tree)
    requires Written(g, st) && Represents(g, r, t) && r in st.objtable
    requires Denotes(FileBytes(g, st), FileTrailer(g, st), Place(g, st, r), u)
    ensures KeysPrimitive(t) && u == Canon(t)
    decreases t
  {
    hide FileBytes, ParseAt, KidAt, ObjectBytes, Place, RefsStand;
    match g[r]
    case Single(s) =>
      ParsedLeaf(g, st, r);
    case Multi(tag, members) =>
      var refs := ParsedMembers(g, st, r);
      forall i | 0 <= i < |members|
        ensures KeysPrimitive(t.kids[i]) && u.kids[i] == Canon(t.kids[i])
      {
        RefsLead(g, st, r, refs, i);
        ReadsOnlyBack(g, st, members[i], t.kids[i], u.kids[i]);
      }
      assert u.kids == Canon(t).kids;
  }

  lemma WrittenFile(g: Graph, plist: Ref, t: Tree)
    requires CanWrite(g, plist, t) && Writable(t) && |PlistFile(g, plist, t)| <= LONG_MAX
    ensures var st := Flattened(g, plist, t, EMPTY);
      && FileFits(g, st) && Written(g, st) && plist in st.objtable
      && Accepts(PlistFile(g, plist, t))
      && TrailerOf(PlistFile(g, plist, t)) == FileTrailer(g, st)
      && TopOffset(PlistFile(g, plist, t)) == Place(g, st, plist)
  {
    var st := Flattened(g, plist, t, EMPTY);
    TablesFit(g, plist, t);
    TopIsFirst(g, plist, t);
    EntriesReflectTree(g, plist, t, EMPTY);
    FileFitsLayout(g, st);
    TrailerOfFile(g, st);
    FileAccepted(g, st);
  }

  /**
    * The round trip. A written file is accepted; it decodes exactly when every dictionary key is a
    * leaf; and the one value it can stand for is the value written, with the high halves of
    * 128-bit numbers cleared.
    */
  lemma RoundTrip(g: Graph, plist: Ref, t: Tree)
    requires CanWrite(g, plist, t) && Writable(t) && |PlistFile(g, plist, t)| <= LONG_MAX
    ensures var file := PlistFile(g, plist, t);
      && Accepts(file)
      && (Decodable(file, TrailerOf(file), TopOffset(file)) <==> KeysPrimitive(t))
      && forall u :: Denotes(file, TrailerOf(file), TopOffset(file), u) ==> u == Canon(t)
  {
    var st := Flattened(g, plist, t, EMPTY);
    var file := PlistFile(g, plist, t);
    TablesFit(g, plist, t);
    WrittenFile(g, plist, t);
    if KeysPrimitive(t) {
      ReadsBack(g, st, plist, t);
    }
    forall u | Denotes(file, TrailerOf(file), TopOffset(file), u)
      ensures KeysPrimitive(t) && u == Canon(t)
    {
      ReadsOnlyBack(g, st, plist, t, u);
    }
  }

  /** The value itself comes back exactly when keys are leaves and no 128-bit number has high bits. */
  lemma RoundTripExact(g: Graph, plist: Ref, t: Tree)
    requires CanWrite(g, plist, t) && Writable(t) && |PlistFile(g, plist, t)| <= LONG_MAX
    ensures var file := PlistFile(g, plist, t);
      Accepts(file) && (Denotes(file, TrailerOf(file), TopOffset(file), t) <==> KeysPrimitive(t) && FitsReader(t))
  {
    RoundTrip(g, plist, t);
    CanonIsIdentity(t);
    var file := PlistFile(g, plist, t);
    if KeysPrimitive(t) {
      var u :| Denotes(file, TrailerOf(file), TopOffset(file), u);
    }
  }
}
