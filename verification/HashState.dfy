/**
  * The invariant of a CFBasicHash between steps, on a snapshot of its buckets, and how each kind
  * of write to the buckets keeps it.
  */
module HashState {
  import opened HashProbe
  import opened HashSlots
  import opened HashSizes

  /** The largest count that counts of the given width are allowed to reach. */
  function CountLimit(width: nat): nat {
    if width == 0 then 0x7f else if width == 1 then 0x7fff else if width == 2 then 0x7fff_ffff else LONG_MAX
  }

  /** Counts of one, two, four and eight bytes keep their top bit clear. */
  lemma CountLimits()
    ensures CountLimit(0) == 127 && CountLimit(1) == 32_767 && CountLimit(2) == 2_147_483_647
    ensures CountLimit(3) == 9_223_372_036_854_775_807
  {
  }

  /** One live slot for each entry, where a search comes to it, and no others; the load is within the limit. */
  ghost predicate Sound(l: Layout, s: Slots, m: Contents, idx: nat, used: nat, width: nat) {
    && idx < NUM_SIZES && width < 4
    && |s.values| == Size(idx)
    && Models(l, s, m) && AllReached(l, s, Root(idx))
    && used == LiveCount(s.values) == |m|
    && used <= Capacity(idx)
    && forall i | 0 <= i < |s.counts| :: s.counts[i] <= CountLimit(width)
  }

  lemma AddSound(l: Layout, s: Slots, m: Contents, idx: nat, used: nat, width: nat, i: nat, key: Word, value: Word)
    requires Sound(l, s, m, idx, used, width) && i < |s.values| && !LiveAt(s, i) && Fits(l, key, value)
    requires l.keyClass(key) !in m && used < Capacity(idx)
    requires PathTo(l, s, Root(idx), l.hash(l.keyClass(key)), i)
    ensures Sound(l, Write(l, s, i, key, value, 1), m[l.keyClass(key) := Entry(key, value, 1)], idx, used + 1, width)
    ensures TombCount(Write(l, s, i, key, value, 1).values)
            == TombCount(s.values) - (if s.values[i] == DELETED then 1 else 0)
  {
    hide Models, AllReached, PathTo;
    ModelsShape(l, s, m);
    AddModels(l, s, m, i, key, value, 1);
    WriteReached(l, s, Root(idx), i, key, value, 1);
    CountsAfterUpdate(s.values, i, Encode(value));
  }

  lemma ReplaceSound(l: Layout, s: Slots, m: Contents, idx: nat, used: nat, width: nat, i: nat, key: Word, value: Word)
    requires Sound(l, s, m, idx, used, width) && Fits(l, key, value)
    requires SlotOf(l, s, i, l.keyClass(key))
    ensures l.keyClass(key) in m && var k := l.keyClass(key); var c := EntryAt(l, s, i).count;
      && c == m[k].count
      && Sound(l, Write(l, s, i, key, value, c), m[k := Entry(key, value, c)], idx, used, width)
      && TombCount(Write(l, s, i, key, value, c).values) == TombCount(s.values)
  {
    hide AllReached, Reached;
    var c := EntryAt(l, s, i).count;
    LiveReached(l, s, Root(idx), i);
    WriteReached(l, s, Root(idx), i, key, value, c);
    ReplaceModels(l, s, m, i, key, value, c);
    CountsAfterUpdate(s.values, i, Encode(value));
  }

  lemma EraseSound(l: Layout, s: Slots, m: Contents, idx: nat, used: nat, width: nat, i: nat)
    requires Sound(l, s, m, idx, used, width) && LiveAt(s, i)
    ensures used > 0 && Sound(l, Erase(l, s, i), m - {ClassAt(l, s, i)}, idx, used - 1, width)
    ensures TombCount(Erase(l, s, i).values) == TombCount(s.values) + 1
  {
    hide Models, AllReached;
    ModelsShape(l, s, m);
    EraseModels(l, s, m, i);
    EraseReached(l, s, Root(idx), i);
    CountsAfterUpdate(s.values, i, DELETED);
    HasLive(s.values, i);
    var k := ClassAt(l, s, i);
    assert m == (m - {k})[k := m[k]];
  }

  lemma RecountSound(l: Layout, s: Slots, m: Contents, idx: nat, used: nat, width: nat, i: nat, count: nat)
    requires Sound(l, s, m, idx, used, width) && LiveAt(s, i) && l.hasCounts
    requires 0 < count && width < 4 && count <= CountLimit(width)
    ensures var k := ClassAt(l, s, i);
      && k in m
      && Sound(l, Recount(s, i, count), m[k := m[k].(count := count)], idx, used, width)
  {
    hide Models, AllReached;
    ModelsShape(l, s, m);
    RecountModels(l, s, m, i, count);
    RecountReached(l, s, Root(idx), i, count);
  }

  lemma SoundFacts(l: Layout, s: Slots, m: Contents, idx: nat, used: nat, width: nat)
    requires Sound(l, s, m, idx, used, width)
    ensures idx < NUM_SIZES && width < 4 && Models(l, s, m) && Shaped(l, s) && Paired(l, s)
    ensures AllReached(l, s, Root(idx))
    ensures |s.values| == Size(idx) && used == LiveCount(s.values) == |m| && used <= Capacity(idx)
    ensures forall i | 0 <= i < |s.counts| :: s.counts[i] <= CountLimit(width)
  {
  }

  lemma SoundAgain(l: Layout, s: Slots, m: Contents, idx: nat, used: nat, width: nat)
    requires idx < NUM_SIZES && width < 4 && |s.values| == Size(idx) && used <= Capacity(idx)
    requires Models(l, s, m) && used == LiveCount(s.values) == |m|
    requires AllReached(l, s, Root(idx))
    requires forall i | 0 <= i < |s.counts| :: s.counts[i] <= CountLimit(width)
    ensures Sound(l, s, m, idx, used, width)
  {
  }

  lemma FreeCountIsZero(l: Layout, s: Slots, m: Contents, i: nat)
    requires Models(l, s, m) && i < |s.values| && !LiveAt(s, i)
    ensures l.hasCounts ==> s.counts[i] == 0
  {
  }

  lemma WiderSound(l: Layout, s: Slots, m: Contents, idx: nat, used: nat, width: nat, wider: nat)
    requires Sound(l, s, m, idx, used, width) && width <= wider < 4
    ensures Sound(l, s, m, idx, used, wider)
  {
  }

  lemma LiveReached(l: Layout, s: Slots, root: nat, i: nat)
    requires Shaped(l, s) && AllReached(l, s, root) && LiveAt(s, i)
    ensures PathTo(l, s, root, l.hash(ClassAt(l, s, i)), i)
  {
    assert Reached(l, s, root, i);
  }

  /**
    * What a search for a key promises: its live slot, or a slot on its path to fill, unless all
    * slots are taken.
    */
  ghost predicate Located(l: Layout, s: Slots, m: Contents, root: nat, key: Word, idx: int, count: nat)
    requires Shaped(l, s)
  {
    var k := l.keyClass(key);
    && -1 <= idx < |s.values|
    && if k in m
       then idx >= 0 && SlotOf(l, s, idx, k) && count == EntryAt(l, s, idx).count == m[k].count > 0
       else
         && count == 0
         && if idx >= 0 then Fillable(l, s, root, k, idx) && FirstFree(l, s, root, k, idx)
            else LiveCount(s.values) == |s.values|
  }

  /** The first slot on the path of class `k` that is not live. */
  ghost predicate FirstFree(l: Layout, s: Slots, root: nat, k: int, i: nat) {
    |s.values| > 1 && !LiveAt(s, i) && exists d: nat :: ComesFirst(l, s, root, k, i, d)
  }

  ghost predicate ComesFirst(l: Layout, s: Slots, root: nat, k: int, i: nat, d: nat)
    requires |s.values| > 1
  {
    ProbeFor(l, s, root, k, d) == i && forall e: nat | e < d :: LiveAt(s, ProbeFor(l, s, root, k, e))
  }

  /** A slot that an addition of a key of class `k` can fill. */
  ghost predicate Fillable(l: Layout, s: Slots, root: nat, k: int, i: nat) {
    i < |s.values| && !LiveAt(s, i) && PathTo(l, s, root, l.hash(k), i)
  }

  lemma {:induction false} AllLive(values: seq<Word>)
    requires forall i | 0 <= i < |values| :: Live(values[i])
    ensures LiveCount(values) == |values|
  {
    if values != [] {
      AllLive(values[..|values| - 1]);
    }
  }

  lemma FoundLocated(l: Layout, s: Slots, m: Contents, root: nat, key: Word, i: nat)
    requires Models(l, s, m) && SlotOf(l, s, i, l.keyClass(key))
    ensures Located(l, s, m, root, key, i, EntryAt(l, s, i).count)
  {
  }

  /** The slot that the search for class `k` looks at on turn `d`. */
  function ProbeFor(l: Layout, s: Slots, root: nat, k: int, d: nat): (i: nat)
    requires |s.values| > 1
    ensures i < |s.values|
  {
    ProbeAt(l.style, |s.values|, root, l.hash(k), d)
  }

  /** A search that has looked at `i` slots, none of them empty or of class `k`, and met `deletedIdx`. */
  ghost predicate Searched(l: Layout, s: Slots, root: nat, k: int, i: nat, deletedIdx: int)
    requires Shaped(l, s) && |s.values| > 1
  {
    && (forall e: nat | e < i ::
          s.values[ProbeFor(l, s, root, k, e)] != EMPTY && !SlotOf(l, s, ProbeFor(l, s, root, k, e), k))
    && (deletedIdx == -1 ==> forall e: nat | e < i :: LiveAt(s, ProbeFor(l, s, root, k, e)))
    && (deletedIdx != -1 ==> deletedIdx >= 0 && MetDeleted(l, s, root, k, i, deletedIdx))
  }

  ghost predicate MetDeleted(l: Layout, s: Slots, root: nat, k: int, i: nat, deletedIdx: nat)
    requires |s.values| > 1
  {
    exists e: nat :: e < i && ComesFirst(l, s, root, k, deletedIdx, e) && s.values[deletedIdx] == DELETED
  }

  lemma SearchStart(l: Layout, s: Slots, root: nat, k: int)
    requires Shaped(l, s) && |s.values| > 1
    ensures Searched(l, s, root, k, 0, -1)
  {
  }

  lemma NowhereToLook(l: Layout, s: Slots, m: Contents, root: nat, key: Word)
    requires Models(l, s, m) && s.values == []
    ensures Located(l, s, m, root, key, -1, 0)
  {
  }

  lemma SearchStep(l: Layout, s: Slots, root: nat, k: int, i: nat, deletedIdx: int)
    requires Shaped(l, s) && |s.values| > 1 && Searched(l, s, root, k, i, deletedIdx)
    requires s.values[ProbeFor(l, s, root, k, i)] != EMPTY && !SlotOf(l, s, ProbeFor(l, s, root, k, i), k)
    ensures LiveAt(s, ProbeFor(l, s, root, k, i)) || deletedIdx != -1 ==> Searched(l, s, root, k, i + 1, deletedIdx)
    ensures !LiveAt(s, ProbeFor(l, s, root, k, i)) && deletedIdx == -1 ==>
              Searched(l, s, root, k, i + 1, ProbeFor(l, s, root, k, i))
  {
    if deletedIdx != -1 {
      var e: nat :| e < i && ComesFirst(l, s, root, k, deletedIdx, e) && s.values[deletedIdx] == DELETED;
      assert e < i + 1;
    } else if !LiveAt(s, ProbeFor(l, s, root, k, i)) {
      assert ComesFirst(l, s, root, k, ProbeFor(l, s, root, k, i), i);
    }
  }

  /** An absent key, or one that the search came to already: its path ends before any empty slot. */
  lemma NotFurtherOn(l: Layout, s: Slots, m: Contents, root: nat, k: int, i: nat, deletedIdx: int)
    requires Models(l, s, m) && AllReached(l, s, root) && |s.values| > 1 && Searched(l, s, root, k, i, deletedIdx)
    requires i >= |s.values| || s.values[ProbeFor(l, s, root, k, i)] == EMPTY
    ensures k !in m
  {
    if k in m {
      var j :| SlotOf(l, s, j, k);
      LiveReached(l, s, root, j);
      NotThere(l, s, root, k, i, deletedIdx, j);
    }
  }

  lemma NotThere(l: Layout, s: Slots, root: nat, k: int, i: nat, deletedIdx: int, j: nat)
    requires Shaped(l, s) && |s.values| > 1 && Searched(l, s, root, k, i, deletedIdx)
    requires i >= |s.values| || s.values[ProbeFor(l, s, root, k, i)] == EMPTY
    requires j < |s.values| && PathTo(l, s, root, l.hash(k), j)
    ensures !SlotOf(l, s, j, k)
  {
    var d: nat :| PathAt(l, s, root, l.hash(k), j, d);
    assert ProbeFor(l, s, root, k, d) == j;
  }

  /** A tombstone that the search met is on the path. */
  lemma DeletedFillable(l: Layout, s: Slots, root: nat, k: int, i: nat, deletedIdx: int)
    requires Shaped(l, s) && |s.values| > 1 && Searched(l, s, root, k, i, deletedIdx) && i <= |s.values|
    ensures deletedIdx != -1 ==>
              deletedIdx >= 0 && Fillable(l, s, root, k, deletedIdx) && FirstFree(l, s, root, k, deletedIdx)
  {
    if deletedIdx != -1 {
      var e: nat :| e < i && ComesFirst(l, s, root, k, deletedIdx, e) && s.values[deletedIdx] == DELETED;
      forall e': nat | e' < e
        ensures s.values[ProbeAt(l.style, |s.values|, root, l.hash(k), e')] != EMPTY
      {
        assert s.values[ProbeFor(l, s, root, k, e')] != EMPTY;
      }
      assert PathAt(l, s, root, l.hash(k), deletedIdx, e);
    }
  }

  lemma EmptyFillable(l: Layout, s: Slots, root: nat, k: int, i: nat, deletedIdx: int)
    requires Shaped(l, s) && |s.values| > 1 && Searched(l, s, root, k, i, deletedIdx) && i < |s.values|
    requires s.values[ProbeFor(l, s, root, k, i)] == EMPTY
    ensures Fillable(l, s, root, k, ProbeFor(l, s, root, k, i))
    ensures deletedIdx == -1 ==> FirstFree(l, s, root, k, ProbeFor(l, s, root, k, i))
  {
    if deletedIdx == -1 {
      assert ComesFirst(l, s, root, k, ProbeFor(l, s, root, k, i), i);
    }
    forall e: nat | e < i
      ensures s.values[ProbeAt(l.style, |s.values|, root, l.hash(k), e)] != EMPTY
    {
      assert s.values[ProbeFor(l, s, root, k, e)] != EMPTY;
    }
    assert PathAt(l, s, root, l.hash(k), ProbeFor(l, s, root, k, i), i);
  }

  /** The search has met an empty slot. */
  lemma SearchEnds(l: Layout, s: Slots, m: Contents, root: nat, key: Word, i: nat, deletedIdx: int)
    requires Models(l, s, m) && AllReached(l, s, root) && |s.values| > 1 && i < |s.values|
    requires Searched(l, s, root, l.keyClass(key), i, deletedIdx)
    requires s.values[ProbeFor(l, s, root, l.keyClass(key), i)] == EMPTY
    ensures Located(l, s, m, root, key,
                    if deletedIdx == -1 then ProbeFor(l, s, root, l.keyClass(key), i) else deletedIdx, 0)
  {
    hide Models, AllReached, Searched, PathTo;
    ModelsShape(l, s, m);
    NotFurtherOn(l, s, m, root, l.keyClass(key), i, deletedIdx);
    EmptyFillable(l, s, root, l.keyClass(key), i, deletedIdx);
    DeletedFillable(l, s, root, l.keyClass(key), i, deletedIdx);
  }

  /** The search has looked at as many slots as there are, and so at all of them. */
  lemma SearchOver(l: Layout, s: Slots, m: Contents, root: nat, key: Word, deletedIdx: int)
    requires Models(l, s, m) && AllReached(l, s, root) && |s.values| > 1
    requires Covers(l.style, |s.values|, root)
    requires Searched(l, s, root, l.keyClass(key), |s.values|, deletedIdx)
    ensures Located(l, s, m, root, key, deletedIdx, 0)
  {
    var k := l.keyClass(key);
    NotFurtherOn(l, s, m, root, k, |s.values|, deletedIdx);
    DeletedFillable(l, s, root, k, |s.values|, deletedIdx);
    if deletedIdx == -1 {
      forall i | 0 <= i < |s.values|
        ensures Live(s.values[i])
      {
        assert ComesTo(l.style, |s.values|, root, l.hash(k), i);
        var d: nat :| d < |s.values| && ProbeAt(l.style, |s.values|, root, l.hash(k), d) == i;
        assert LiveAt(s, ProbeFor(l, s, root, k, d));
      }
      AllLive(s.values);
    }
  }

  /** A search for an empty slot that has looked at `i` others. */
  ghost predicate Passed(l: Layout, s: Slots, root: nat, k: int, i: nat)
    requires |s.values| > 1
  {
    forall e: nat | e < i :: s.values[ProbeFor(l, s, root, k, e)] != EMPTY
  }

  /** Where there is an empty slot, covering probes come to one. */
  lemma EmptyAhead(l: Layout, s: Slots, root: nat, k: int) returns (d: nat)
    requires |s.values| > 1 && Covers(l.style, |s.values|, root)
    requires LiveCount(s.values) < |s.values| && TombCount(s.values) == 0
    ensures d < |s.values| && s.values[ProbeFor(l, s, root, k, d)] == EMPTY
  {
    NoTombs(s.values);
    var b := FindFree(s.values);
    assert ComesTo(l.style, |s.values|, root, l.hash(k), b);
    d :| d < |s.values| && ProbeAt(l.style, |s.values|, root, l.hash(k), d) == b;
  }

  lemma PassedFillable(l: Layout, s: Slots, root: nat, k: int, i: nat)
    requires |s.values| > 1 && Passed(l, s, root, k, i) && i < |s.values|
    requires s.values[ProbeFor(l, s, root, k, i)] == EMPTY
    ensures Fillable(l, s, root, k, ProbeFor(l, s, root, k, i))
  {
    forall e: nat | e < i
      ensures s.values[ProbeAt(l.style, |s.values|, root, l.hash(k), e)] != EMPTY
    {
      assert s.values[ProbeFor(l, s, root, k, e)] != EMPTY;
    }
    assert PathAt(l, s, root, l.hash(k), ProbeFor(l, s, root, k, i), i);
  }

  /** A rehash that has dealt with the first `i` of the old slots `s`; `done` are their entries. */
  ghost predicate Moved(l: Layout, s: Slots, m: Contents, root: nat, limit: nat, i: nat, t: Slots, done: Contents) {
    && Models(l, s, m) && Models(l, t, done) && AllReached(l, t, root)
    && i <= |s.values|
    && (forall j: nat | LiveAt(s, j) :: ClassAt(l, s, j) in done <==> j < i)
    && (forall c | c in done :: c in m && done[c] == m[c])
    && LiveCount(t.values) == LiveCount(s.values[..i])
    && TombCount(t.values) == 0
    && forall j | 0 <= j < |t.counts| :: t.counts[j] <= limit
  }

  lemma MoveStart(l: Layout, s: Slots, m: Contents, root: nat, limit: nat, t: Slots)
    requires Models(l, s, m) && Shaped(l, t)
    requires forall j | 0 <= j < |t.values| :: t.values[j] == EMPTY
    requires forall j | 0 <= j < |t.keys| :: t.keys[j] == EMPTY
    requires forall j | 0 <= j < |t.counts| :: t.counts[j] == 0
    ensures Moved(l, s, m, root, limit, 0, t, map[])
  {
    NoSlotsModelNothing(l, t);
    CountsOfEmpty(t.values);
  }

  lemma MoveSkip(l: Layout, s: Slots, m: Contents, root: nat, limit: nat, i: nat, t: Slots, done: Contents)
    requires Moved(l, s, m, root, limit, i, t, done) && i < |s.values| && !LiveAt(s, i)
    ensures Moved(l, s, m, root, limit, i + 1, t, done)
  {
    hide Models, AllReached;
    ModelsShape(l, s, m);
    ModelsShape(l, t, done);
    CountsOfPrefix(s.values, i);
  }

  lemma LiveFacts(l: Layout, s: Slots, m: Contents, i: nat)
    requires Models(l, s, m) && LiveAt(s, i)
    ensures ClassAt(l, s, i) in m && m[ClassAt(l, s, i)] == EntryAt(l, s, i) && EntryAt(l, s, i).count > 0
    ensures forall j | LiveAt(s, j) && j != i :: ClassAt(l, s, j) != ClassAt(l, s, i)
  {
  }

  lemma MoveStep(l: Layout, s: Slots, m: Contents, root: nat, limit: nat, i: nat, t: Slots, done: Contents, b: nat)
    requires Moved(l, s, m, root, limit, i, t, done) && i < |s.values| && LiveAt(s, i)
    requires b < |t.values| && t.values[b] == EMPTY
    requires PathTo(l, t, root, l.hash(ClassAt(l, s, i)), b)
    requires EntryAt(l, s, i).count <= limit
    ensures var e := EntryAt(l, s, i);
      Moved(l, s, m, root, limit, i + 1, Write(l, t, b, e.key, e.value, e.count), done[ClassAt(l, s, i) := e])
  {
    hide Models, AllReached, PathTo;
    ModelsShape(l, s, m);
    ModelsShape(l, t, done);
    LiveFacts(l, s, m, i);
    var e := EntryAt(l, s, i);
    DecodingIsFaithful(s.values[i]);
    if l.hasKeys {
      DecodingIsFaithful(s.keys[i]);
    }
    AddModels(l, t, done, b, e.key, e.value, e.count);
    WriteReached(l, t, root, b, e.key, e.value, e.count);
    CountsAfterUpdate(t.values, b, Encode(e.value));
    CountsOfPrefix(s.values, i);
  }

  lemma SameKeysSameContents(a: Contents, b: Contents)
    requires a.Keys <= b.Keys && b.Keys <= a.Keys
    requires forall c | c in b.Keys :: a[c] == b[c]
    ensures a == b
  {
    assert a.Keys == b.Keys;
    assert forall c | c in a.Keys :: a[c] == b[c];
  }

  lemma SameEntries(a: Contents, b: Contents)
    requires forall c :: c in a <==> c in b
    requires forall c | c in b :: a[c] == b[c]
    ensures a == b
  {
    assert a.Keys <= b.Keys by {
      forall c | c in a.Keys
        ensures c in b.Keys
      {
        assert c in a;
      }
    }
    assert b.Keys <= a.Keys by {
      forall c | c in b.Keys
        ensures c in a.Keys
      {
        assert c in b;
      }
    }
    SameKeysSameContents(a, b);
  }

  lemma MoveEnd(l: Layout, s: Slots, m: Contents, root: nat, limit: nat, t: Slots, done: Contents)
    requires Moved(l, s, m, root, limit, |s.values|, t, done)
    ensures done == m && LiveCount(t.values) == LiveCount(s.values)
  {
    assert s.values[..|s.values|] == s.values;
    forall c | c in m
      ensures c in done && done[c] == m[c]
    {
      var j :| SlotOf(l, s, j, c);
    }
    SameEntries(done, m);
  }

  /** What adding a key does: a new entry, or one more of a counted entry until the count is full. */
  function Added(l: Layout, m: Contents, key: Word, value: Word): (r: Contents)
  {
    var k := l.keyClass(key);
    if k !in m then m[k := Entry(key, value, 1)]
    else if l.hasCounts && m[k].count < LONG_MAX then m[k := m[k].(count := m[k].count + 1)]
    else m
  }

  /** What replacing does: a present entry takes the new key and value and keeps its count. */
  function Replaced(l: Layout, m: Contents, key: Word, value: Word): (r: Contents)
  {
    var k := l.keyClass(key);
    if k in m then m[k := Entry(key, value, m[k].count)] else m
  }

  function Assigned(l: Layout, m: Contents, key: Word, value: Word): (r: Contents) {
    if l.keyClass(key) in m then Replaced(l, m, key, value) else Added(l, m, key, value)
  }

  /** What removing a key does: the entry goes, or loses one unless its count is full. */
  function Removed(l: Layout, m: Contents, key: Word): (r: Contents) {
    var k := l.keyClass(key);
    if !Storable(key) || k !in m then m
    else if m[k].count <= 1 then m - {k}
    else if l.hasCounts && m[k].count < LONG_MAX then m[k := m[k].(count := m[k].count - 1)]
    else m
  }

  /** Adding, entry by entry: a new key has its value once; a present one is counted where there are counts. */
  lemma AddedSays(l: Layout, m: Contents, key: Word, value: Word)
    ensures var k, r := l.keyClass(key), Added(l, m, key, value);
      && k in r && (k !in m ==> r[k].key == key && r[k].value == value && r[k].count == 1)
      && (k in m ==> r[k].key == m[k].key && r[k].value == m[k].value
                     && r[k].count == m[k].count + if l.hasCounts && m[k].count < LONG_MAX then 1 else 0)
      && forall c | c != k :: (c in r <==> c in m) && (c in m ==> r[c] == m[c])
  {
  }

  /** Replacing: a present key has the new key and value and its old count. */
  lemma ReplacedSays(l: Layout, m: Contents, key: Word, value: Word)
    ensures var k, r := l.keyClass(key), Replaced(l, m, key, value);
      && (k in r <==> k in m)
      && (k in m ==> r[k].key == key && r[k].value == value && r[k].count == m[k].count)
      && forall c | c != k :: (c in r <==> c in m) && (c in m ==> r[c] == m[c])
  {
  }

  /** Setting: the key has the new key and value, and its old count or one. */
  lemma AssignedSays(l: Layout, m: Contents, key: Word, value: Word)
    ensures var k, r := l.keyClass(key), Assigned(l, m, key, value);
      && k in r && r[k].key == key && r[k].value == value && r[k].count == (if k in m then m[k].count else 1)
      && forall c | c != k :: (c in r <==> c in m) && (c in m ==> r[c] == m[c])
  {
  }

  /** Removing: a count above one and not full loses one, a count of one takes the entry with it. */
  lemma RemovedSays(l: Layout, m: Contents, key: Word)
    requires forall c | c in m :: m[c].count > 0 && (!l.hasCounts ==> m[c].count == 1)
    ensures var k, r := l.keyClass(key), Removed(l, m, key);
      && (k in r <==> k in m && (!Storable(key) || m[k].count > 1))
      && (k in r ==> r[k].key == m[k].key && r[k].value == m[k].value
                     && r[k].count == m[k].count - if Storable(key) && m[k].count < LONG_MAX then 1 else 0)
      && forall c | c != k :: (c in r <==> c in m) && (c in m ==> r[c] == m[c])
  {
  }
}
