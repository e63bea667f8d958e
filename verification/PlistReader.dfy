/** The recursive reader of CFBinaryPList.c, with its offset cache and its path set. */
module PlistReader {
  import opened PlistBytes
  import opened PlistTrees
  import opened PlistTrailer
  import opened PlistFormat

  /** The `objects` dictionary: values already built, by offset. */
  class ObjectTable {
    var entries: map<nat, Tree>

    constructor ()
      ensures entries == map[]
    {
      entries := map[];
    }

    ghost predicate Sound(data: seq<Byte>, tr: Trailer)
      requires Fits(data, tr)
      reads this
    {
      forall off :: off in entries ==> Denotes(data, tr, off, entries[off])
    }
  }

  /** The `set` of container offsets on the path down to the current object. */
  class OffsetSet {
    var offsets: set<nat>

    constructor ()
      ensures offsets == {}
    {
      offsets := {};
    }
  }

  /** The path set holds offsets of the object area that are all above `off`. */
  ghost predicate PathSound(data: seq<Byte>, tr: Trailer, offsets: set<nat>, off: nat)
    requires Fits(data, tr)
  {
    forall p :: p in offsets ==> InObjects(tr, p) && Above(data, tr, p, off)
  }

  /** How many calls deep the reader can go, from a call with this path set at this depth. */
  function CallBound(tr: Trailer, offsets: Option<set<nat>>, depth: nat): int
    requires 9 <= tr.offsetTableOffset
  {
    var n := tr.offsetTableOffset - 8;
    match offsets
    case Some(s) => n - |s| + 1
    case None => if depth <= 15 then 17 - depth + n else n + 1
  }

  lemma {:induction false} RangeSize(s: set<nat>, lo: nat, hi: nat)
    requires lo <= hi
    requires forall p :: p in s ==> lo <= p < hi
    ensures |s| <= hi - lo
    decreases hi
  {
    if lo == hi {
      assert s == {};
    } else {
      var rest := s - {hi - 1};
      RangeSize(rest, lo, hi - 1);
      assert s <= rest + {hi - 1};
      assert |s| <= |rest| + 1;
    }
  }

  /** A path set cannot hold more offsets than there are bytes in the object area. */
  lemma PathFits(tr: Trailer, offsets: set<nat>)
    requires 9 <= tr.offsetTableOffset
    requires forall p :: p in offsets ==> InObjects(tr, p)
    ensures |offsets| <= tr.offsetTableOffset - 8
  {
    RangeSize(offsets, 8, tr.offsetTableOffset);
  }

  lemma PathExtends(data: seq<Byte>, tr: Trailer, offsets: set<nat>, off: nat, i: nat)
    requires Fits(data, tr) && InObjects(tr, off)
    requires PathSound(data, tr, offsets, off)
    requires ParseAt(data, tr, off).Container? && i < ParseAt(data, tr, off).count
    ensures PathSound(data, tr, offsets + {off}, KidAt(data, tr, ParseAt(data, tr, off).refs, i))
    ensures PathSound(data, tr, {off}, KidAt(data, tr, ParseAt(data, tr, off).refs, i))
  {
    var kid := KidAt(data, tr, ParseAt(data, tr, off).refs, i);
    ContainerAboveKid(data, tr, off, i);
    forall p | p in offsets
      ensures Above(data, tr, p, kid)
    {
      AboveTransitive(data, tr, p, off, kid);
    }
  }

  /** If one reference fails, or a key is a container, the container stands for nothing. */
  lemma BadKidSpoilsContainer(data: seq<Byte>, tr: Trailer, off: nat, i: nat)
    requires Fits(data, tr) && InObjects(tr, off)
    requires ParseAt(data, tr, off).Container? && i < ParseAt(data, tr, off).count
    requires
      var shape := ParseAt(data, tr, off);
      var kid := KidAt(data, tr, shape.refs, i);
      || !Decodable(data, tr, kid)
      || exists t :: Denotes(data, tr, kid, t) && shape.tag == DictTag && i < shape.count / 2 && !t.Leaf?
    ensures !Decodable(data, tr, off)
  {
    var shape := ParseAt(data, tr, off);
    var kid := KidAt(data, tr, shape.refs, i);
    if Decodable(data, tr, off) {
      var u :| Denotes(data, tr, off, u);
      assert Denotes(data, tr, kid, u.kids[i]);
      if exists t :: Denotes(data, tr, kid, t) && shape.tag == DictTag && i < shape.count / 2 && !t.Leaf? {
        var t :| Denotes(data, tr, kid, t) && shape.tag == DictTag && i < shape.count / 2 && !t.Leaf?;
        DenotesUnique(data, tr, kid, t, u.kids[i]);
      }
      assert false;
    }
  }

  /**
    * `__CFBinaryPlistCreateObjectFiltered`, for immutable values and without key paths. `objects`
    * and `path` may be absent. `calls` is the deepest nesting of calls, this one included.
    */
  method CreateObject(data: seq<Byte>, tr: Trailer, startOffset: nat, objects: ObjectTable?, path: OffsetSet?,
      curDepth: nat)
      returns (ok: bool, plist: Tree, ghost calls: nat)
    requires Fits(data, tr)
    requires objects != null ==> objects.Sound(data, tr)
    requires path != null ==> PathSound(data, tr, path.offsets, startOffset)
    modifies objects, path
    ensures ok <==> Decodable(data, tr, startOffset)
    ensures ok ==> Denotes(data, tr, startOffset, plist)
    ensures objects != null ==> objects.Sound(data, tr)
    ensures ok && path != null ==> path.offsets == old(path.offsets)
    ensures calls <= old(CallBound(tr, if path == null then None else Some(path.offsets), curDepth))
    decreases
      if path == null then (if curDepth <= 15 then 17 - curDepth else 1) else 0,
      if path == null then 0 else tr.offsetTableOffset - |path.offsets|, 1
  {
    ok, plist, calls := false, Leaf(Null), 1;
    if path != null {
      PathFits(tr, path.offsets);
    }
    if objects != null && startOffset in objects.entries {
      return true, objects.entries[startOffset], 1;
    }
    if path != null && startOffset in path.offsets {
      CycleHasNoMeaning(data, tr, startOffset);
      return;
    }
    if !(8 <= startOffset <= tr.offsetTableOffset - 1) { return; }
    var shape := ParseAt(data, tr, startOffset);
    match shape
    case Bad => return;
    case Scalar(s) =>
      plist := Leaf(s);
      assert Denotes(data, tr, startOffset, plist);
      if objects != null && !s.Null? && !s.Bool? {
        objects.entries := objects.entries[startOffset := plist];
      }
      return true, plist, 1;
    case Container(tag, count, refs) =>
      ok, plist, calls := CreateContainer(data, tr, startOffset, tag, count, refs, objects, path, curDepth);
  }

  /** The first references of a container, decoded in order, with only leaves among the keys. */
  ghost predicate KidsDenote(data: seq<Byte>, tr: Trailer, tag: Tag, count: nat, refs: nat, list: seq<Tree>)
    requires Fits(data, tr)
  {
    && |list| <= count
    && (forall i | 0 <= i < |list| :: Denotes(data, tr, KidAt(data, tr, refs, i), list[i]))
    && (tag == DictTag ==> forall i | 0 <= i < |list| && i < count / 2 :: list[i].Leaf?)
  }

  /** The loop over the references; `inner` is the path set, if any, with the container in it. */
  method CreateKids(data: seq<Byte>, tr: Trailer, startOffset: nat, tag: Tag, count: nat, refs: nat,
                    objects: ObjectTable?, inner: OffsetSet?, curDepth: nat)
      returns (ok: bool, list: seq<Tree>, ghost calls: nat)
    requires Fits(data, tr) && InObjects(tr, startOffset)
    requires ParseAt(data, tr, startOffset) == Container(tag, count, refs)
    requires objects != null ==> objects.Sound(data, tr)
    requires inner != null ==>
      && startOffset in inner.offsets && |inner.offsets| <= tr.offsetTableOffset - 8
      && PathSound(data, tr, inner.offsets - {startOffset}, startOffset)
    requires inner == null ==> curDepth <= 15
    modifies objects, inner
    ensures objects != null ==> objects.Sound(data, tr)
    ensures ok ==> |list| == count && KidsDenote(data, tr, tag, count, refs, list)
    ensures ok && inner != null ==> inner.offsets == old(inner.offsets)
    ensures !ok ==> !Decodable(data, tr, startOffset)
    ensures calls <= old(CallBound(tr, if inner == null then None else Some(inner.offsets), curDepth + 1))
    decreases
      if inner == null then 16 - curDepth else 0,
      if inner == null then 0 else tr.offsetTableOffset - |inner.offsets|, 2
  {
    hide ParseAt, RefTarget, Above;
    ok, list, calls := false, [], 0;
    for idx := 0 to count
      invariant |list| == idx && KidsDenote(data, tr, tag, count, refs, list)
      invariant objects != null ==> objects.Sound(data, tr)
      invariant inner != null ==> inner.offsets == old(inner.offsets)
      invariant calls <= old(CallBound(tr, if inner == null then None else Some(inner.offsets), curDepth + 1))
    {
      if inner != null {
        PathExtends(data, tr, inner.offsets - {startOffset}, startOffset, idx);
        assert inner.offsets - {startOffset} + {startOffset} == inner.offsets;
      }
      var off := KidAt(data, tr, refs, idx);
      var kidOk, pl;
      ghost var below;
      kidOk, pl, below := CreateObject(data, tr, off, objects, inner, curDepth + 1);
      calls := if below > calls then below else calls;
      if !kidOk || (tag == DictTag && idx < count / 2 && !pl.Leaf?) {
        BadKidSpoilsContainer(data, tr, startOffset, idx);
        return;
      }
      list := list + [pl];
    }
    ok := true;
  }

  /** The container cases of the switch. */
  method CreateContainer(data: seq<Byte>, tr: Trailer, startOffset: nat, tag: Tag, count: nat, refs: nat,
                         objects: ObjectTable?, path: OffsetSet?, curDepth: nat)
      returns (ok: bool, plist: Tree, ghost calls: nat)
    requires Fits(data, tr) && InObjects(tr, startOffset)
    requires ParseAt(data, tr, startOffset) == Container(tag, count, refs)
    requires objects != null ==> objects.Sound(data, tr)
    requires path != null ==> PathSound(data, tr, path.offsets, startOffset) && startOffset !in path.offsets
    modifies objects, path
    ensures ok <==> Decodable(data, tr, startOffset)
    ensures ok ==> Denotes(data, tr, startOffset, plist)
    ensures objects != null ==> objects.Sound(data, tr)
    ensures ok && path != null ==> path.offsets == old(path.offsets)
    ensures calls <= old(CallBound(tr, if path == null then None else Some(path.offsets), curDepth))
    decreases
      if path == null then (if curDepth <= 15 then 17 - curDepth else 1) else 0,
      if path == null then 0 else tr.offsetTableOffset - |path.offsets|, 0
  {
    var inner := path;
    if inner == null && 15 < curDepth {
      inner := new OffsetSet();
    }
    ghost var before := if inner == null then {} else inner.offsets;
    if inner != null {
      inner.offsets := inner.offsets + {startOffset};
      PathFits(tr, inner.offsets);
      assert inner.offsets - {startOffset} == before;
    }
    var list;
    ok, list, calls := CreateKids(data, tr, startOffset, tag, count, refs, objects, inner, curDepth);
    calls := calls + 1;
    plist := Node(tag, list);
    if !ok { return; }
    assert Denotes(data, tr, startOffset, plist);
    if inner != null {
      inner.offsets := inner.offsets - {startOffset};
    }
    if objects != null {
      objects.entries := objects.entries[startOffset := plist];
    }
  }

  /** `__CFTryParseBinaryPlist`: validate, then decode the top object with a fresh cache. */
  method TryParse(data: seq<Byte>) returns (ok: bool, plist: Tree, ghost calls: nat)
    requires |data| <= LONG_MAX
    ensures ok <==> Accepts(data) && Decodable(data, TrailerOf(data), TopOffset(data))
    ensures ok ==> Denotes(data, TrailerOf(data), TopOffset(data), plist)
    ensures Accepts(data) ==> calls <= 17 + (TrailerOf(data).offsetTableOffset - 8)
  {
    ok, plist, calls := false, Leaf(Null), 0;
    if 8 <= |data| {
      var found, marker, offset, tr := GetTopLevelInfo(data);
      if found {
        var objects := new ObjectTable();
        ok, plist, calls := CreateObject(data, tr, offset, objects, null, 0);
      }
    }
  }
}
