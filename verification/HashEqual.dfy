/**
  * Counting a table and comparing two tables. The comparison walks only the first table, and the
  * equality of the counts covers what the second may hold besides.
  */
module HashEqual {
  import HashCover
  import opened HashProbe
  import opened HashSizes
  import opened HashSlots
  import opened HashState
  import opened HashTable

  /** The sum of all counts. */
  ghost function Total(m: Contents): nat
    decreases |m|
  {
    if c :| c in m then
      Smaller(m, c);
      m[c].count + Total(m - {c})
    else
      0
  }

  lemma Smaller(m: Contents, c: int)
    requires c in m
    ensures |m - {c}| == |m| - 1
  {
    assert m == (m - {c})[c := m[c]];
  }

  lemma {:induction false} TotalWithout(m: Contents, c: int)
    requires c in m
    ensures Total(m) == m[c].count + Total(m - {c})
    decreases |m|
  {
    var d :| d in m.Keys && Total(m) == m[d].count + Total(m - {d});
    if d != c {
      Smaller(m, c);
      Smaller(m, d);
      TotalWithout(m - {d}, c);
      TotalWithout(m - {c}, d);
      assert m - {d} - {c} == m - {c} - {d};
    }
  }

  lemma TotalWith(m: Contents, c: int, e: Entry)
    requires c !in m
    ensures Total(m[c := e]) == Total(m) + e.count
  {
    TotalWithout(m[c := e], c);
    assert m[c := e] - {c} == m;
  }

  lemma NoneLeft(m: Contents)
    requires forall c :: c !in m
    ensures m == map[] && |m| == 0
  {
    SameEntries(m, map[]);
  }

  /** A part of the contents has the total of the whole only if it is the whole. */
  lemma {:induction false} TotalOfPart(part: Contents, whole: Contents)
    requires forall c | c in part :: c in whole && whole[c].count == part[c].count
    requires forall c | c in whole :: whole[c].count > 0
    ensures Total(part) <= Total(whole)
    ensures Total(part) == Total(whole) <==> forall c | c in whole :: c in part
    decreases |whole|
  {
    if c :| c in whole {
      TotalWithout(whole, c);
      Smaller(whole, c);
      if c in part {
        TotalWithout(part, c);
        TotalOfPart(part - {c}, whole - {c});
        assert forall d | d in whole && d != c :: d in whole - {c} && (d in part <==> d in part - {c});
      } else {
        TotalOfPart(part, whole - {c});
      }
    } else {
      NoneLeft(whole);
      NoneLeft(part);
    }
  }

  lemma {:induction false} TotalOfSingles(m: Contents)
    requires forall c | c in m :: m[c].count == 1
    ensures Total(m) == |m|
    decreases |m|
  {
    if c :| c in m {
      Smaller(m, c);
      TotalWithout(m, c);
      TotalOfSingles(m - {c});
    } else {
      NoneLeft(m);
    }
  }

  /** A walk that has passed the first `i` buckets; `done` are the entries met. */
  ghost predicate Walked(l: Layout, s: Slots, m: Contents, i: nat, done: Contents) {
    && Models(l, s, m) && i <= |s.values|
    && (forall j: nat | LiveAt(s, j) :: ClassAt(l, s, j) in done <==> j < i)
    && (forall c | c in done :: c in m && done[c] == m[c])
  }

  lemma WalkStep(l: Layout, s: Slots, m: Contents, i: nat, done: Contents)
    requires Walked(l, s, m, i, done) && i < |s.values|
    ensures !LiveAt(s, i) ==> Walked(l, s, m, i + 1, done)
    ensures LiveAt(s, i) ==> var k := ClassAt(l, s, i); var e := EntryAt(l, s, i);
      && k in m && k !in done && m[k] == e && e.count > 0
      && Walked(l, s, m, i + 1, done[k := e]) && |done[k := e]| == |done| + 1
      && Total(done[k := e]) == Total(done) + e.count
  {
    if LiveAt(s, i) {
      LiveFacts(l, s, m, i);
      TotalWith(done, ClassAt(l, s, i), EntryAt(l, s, i));
      hide Models;
    }
  }

  lemma WalkStart(l: Layout, s: Slots, m: Contents)
    requires Models(l, s, m)
    ensures Walked(l, s, m, 0, map[])
  {
  }

  lemma WalkEnd(l: Layout, s: Slots, m: Contents, done: Contents)
    requires Walked(l, s, m, |s.values|, done)
    ensures done == m
  {
    forall c | c in m
      ensures c in done
    {
      var j :| SlotOf(l, s, j, c);
    }
    SameEntries(done, m);
  }

  /** A walk that has met as many entries as there are can stop. */
  lemma {:induction false} WalkComplete(done: Contents, m: Contents)
    requires |done| == |m| && forall c | c in done :: c in m && done[c] == m[c]
    ensures done == m
    decreases |m|
  {
    if c :| c in done {
      Smaller(done, c);
      Smaller(m, c);
      WalkComplete(done - {c}, m - {c});
      assert done == (done - {c})[c := done[c]] && m == (m - {c})[c := m[c]];
    } else {
      NoneLeft(done);
      if c :| c in m {
        Smaller(m, c);
      } else {
        NoneLeft(m);
      }
    }
  }

  lemma WalkDone(l: Layout, s: Slots, m: Contents, i: nat, done: Contents)
    requires Walked(l, s, m, i, done) && (|done| == |m| || i == |s.values|)
    ensures done == m
  {
    if i == |s.values| {
      WalkEnd(l, s, m, done);
    } else {
      WalkComplete(done, m);
    }
  }

  lemma CountsArePositive(l: Layout, s: Slots, m: Contents)
    requires Models(l, s, m)
    ensures forall c | c in m :: m[c].count > 0 && (!l.hasCounts ==> m[c].count == 1)
  {
    forall c | c in m
      ensures m[c].count > 0 && (!l.hasCounts ==> m[c].count == 1)
    {
      var j :| SlotOf(l, s, j, c);
    }
  }

  /** A sum as a CFIndex keeps it: 64 bits, two's complement. */
  function AsIndex(n: int): (r: int)
    ensures 0 <= r + LONG_MAX + 1 < WORD && (r - n) % WORD == 0
  {
    (n + LONG_MAX + 1) % WORD - LONG_MAX - 1
  }

  lemma IndexSum(n: int, c: int)
    ensures AsIndex(AsIndex(n) + c) == AsIndex(n + c)
  {
  }

  /** The kept number is the remainder, or that less 2^64. */
  lemma IndexIsRemainder(n: nat)
    ensures AsIndex(n) == if n % WORD <= LONG_MAX then n % WORD else n % WORD - WORD
  {
    var q, r := n / WORD, n % WORD;
    assert n == q * WORD + r;
    if r <= LONG_MAX {
      assert (n + LONG_MAX + 1) / WORD == q;
    } else {
      assert (n + LONG_MAX + 1) / WORD == q + 1;
    }
  }

  /** What a CFIndex keeps decides numbers of 64 bits, and no others. */
  lemma IndexDecides(n: nat, m: nat)
    ensures AsIndex(n) == AsIndex(m) <==> n % WORD == m % WORD
    ensures AsIndex(n) == n <==> n <= LONG_MAX
  {
    IndexIsRemainder(n);
    IndexIsRemainder(m);
    hide AsIndex;
  }

  lemma FreeOrLive(l: Layout, s: Slots, m: Contents, i: nat)
    requires Models(l, s, m) && i < |s.values| && l.hasCounts
    ensures s.counts[i] == if LiveAt(s, i) then EntryAt(l, s, i).count else 0
  {
  }

  /** The loop over all buckets, free ones included. */
  method SumCounts(l: Layout, values: array<Word>, counts: array<nat>, ghost s: Slots, ghost m: Contents)
    returns (total: int)
    requires Models(l, s, m) && l.hasCounts && s.values == values[..] && s.counts == counts[..]
    ensures total == AsIndex(Total(m))
  {
    hide Models, AsIndex, Walked;
    ghost var done: Contents := map[];
    WalkStart(l, s, m);
    ModelsShape(l, s, m);
    IndexDecides(0, 0);
    total := 0;
    var idx := 0;
    while idx < values.Length
      invariant idx <= values.Length && Walked(l, s, m, idx, done)
      invariant total == AsIndex(Total(done))
    {
      WalkStep(l, s, m, idx, done);
      FreeOrLive(l, s, m, idx);
      IndexSum(Total(done), counts[idx]);
      total := AsIndex(total + counts[idx]);
      if LiveAt(s, idx) {
        done := done[ClassAt(l, s, idx) := EntryAt(l, s, idx)];
      }
      idx := idx + 1;
    }
    WalkEnd(l, s, m, done);
  }

  /** `CFBasicHashGetCount`, whose sum is a CFIndex. */
  method GetCount(t: BasicHash) returns (total: int)
    requires t.Valid()
    ensures total == AsIndex(Total(t.contents))
  {
    hide Models, LiveCount, TombCount, AllReached, ProbesCover, AsIndex;
    CountsArePositive(t.layout, t.Buckets(), t.contents);
    if !t.layout.hasCounts {
      TotalOfSingles(t.contents);
      CapacityBounded(t.numBucketsIdx);
      IndexDecides(t.used, 0);
      return t.used;
    }
    total := SumCounts(t.layout, t.values, t.counts, t.Buckets(), t.contents);
  }

  /** Two tables hold the same: equal keys, equally often, with equal values where there are keys. */
  ghost predicate SameContents(l: Layout, valueClass: Word -> int, a: Contents, b: Contents) {
    && (forall c :: c in a <==> c in b)
    && forall c | c in a :: SameEntry(l, valueClass, a[c], b[c])
  }

  predicate SameEntry(l: Layout, valueClass: Word -> int, a: Entry, b: Entry) {
    a.count == b.count && (l.hasKeys ==> valueClass(a.value) == valueClass(b.value))
  }

  /** Every entry of one is in the other. */
  ghost predicate Covered(l: Layout, valueClass: Word -> int, a: Contents, b: Contents) {
    forall c | c in a :: c in b && SameEntry(l, valueClass, a[c], b[c])
  }

  /** With equal totals, one-way inclusion is equality. */
  lemma CoverageDecides(l: Layout, valueClass: Word -> int, a: Contents, b: Contents)
    requires forall c | c in b :: b[c].count > 0
    ensures SameContents(l, valueClass, a, b) <==> Covered(l, valueClass, a, b) && Total(a) == Total(b)
  {
    if Covered(l, valueClass, a, b) {
      TotalOfPart(a, b);
    }
  }

  lemma NothingCounted(m: Contents)
    requires forall c | c in m :: m[c].count > 0
    ensures Total(m) == 0 ==> forall c :: c !in m
  {
    if c :| c in m {
      TotalWithout(m, c);
    }
  }

  /** What the comparison answers: the totals are compared as far as a CFIndex keeps them. */
  ghost predicate Verdict(l: Layout, valueClass: Word -> int, a: Contents, b: Contents) {
    && AsIndex(Total(a)) == AsIndex(Total(b))
    && (AsIndex(Total(a)) == 0 || Covered(l, valueClass, a, b))
  }

  /**
    * Tables that make the answer wrong: totals that differ by a multiple of 2^64 where the first table
    * is a part of the second, or that are multiples of 2^64 and so seem to be zero.
    */
  ghost predicate Misleading(l: Layout, valueClass: Word -> int, a: Contents, b: Contents) {
    && Total(a) % WORD == Total(b) % WORD
    && if Total(a) % WORD == 0
       then Total(a) != Total(b) || !Covered(l, valueClass, a, b)
       else Total(a) != Total(b) && Covered(l, valueClass, a, b)
  }

  /** The answer is right for exactly the tables that do not mislead it; totals below 2^64 never do. */
  lemma VerdictIsRight(l: Layout, valueClass: Word -> int, a: Contents, b: Contents)
    requires forall c | c in a :: a[c].count > 0
    requires forall c | c in b :: b[c].count > 0
    ensures (Verdict(l, valueClass, a, b) <==> SameContents(l, valueClass, a, b)) <==> !Misleading(l, valueClass, a, b)
    ensures Total(a) < WORD && Total(b) < WORD ==> !Misleading(l, valueClass, a, b)
  {
    hide AsIndex, Total, SameContents, SameEntry;
    IndexDecides(Total(a), Total(b));
    IndexDecides(Total(a), 0);
    IndexDecides(0, 0);
    CoverageDecides(l, valueClass, a, b);
    NothingCounted(a);
  }

  const FULL: Contents := map[1 := Entry(1, 1, LONG_MAX), 2 := Entry(2, 2, LONG_MAX), 3 := Entry(3, 3, 2)]

  /** Three counts that a bag can hold, and whose sum is 2^64. */
  lemma FullBagSeemsEmpty(l: Layout, valueClass: Word -> int)
    ensures Total(FULL) == WORD && Verdict(l, valueClass, FULL, map[]) && !SameContents(l, valueClass, FULL, map[])
  {
    var e1, e2, e3 := Entry(1, 1, LONG_MAX), Entry(2, 2, LONG_MAX), Entry(3, 3, 2);
    TotalWith(map[], 1, e1);
    TotalWith(map[1 := e1], 2, e2);
    TotalWith(map[1 := e1, 2 := e2], 3, e3);
    var full: Contents := map[1 := e1, 2 := e2, 3 := e3];
    assert full == map[1 := e1, 2 := e2][3 := e3];
    assert map[1 := e1, 2 := e2] == map[1 := e1][2 := e2];
    assert 1 in full;
  }

  lemma SameSays(l: Layout, valueClass: Word -> int, a: Contents, b: Contents)
    ensures SameContents(l, valueClass, a, b) <==>
            && (forall c :: c in a <==> c in b)
            && forall c | c in a && c in b ::
                 a[c].count == b[c].count && (l.hasKeys ==> valueClass(a[c].value) == valueClass(b[c].value))
  {
  }

  /** What the verdict on two tables means. */
  lemma VerdictMeans(a: BasicHash, b: BasicHash, valueClass: Word -> int)
    requires a.Valid() && b.Valid() && a.layout == b.layout
    ensures var verdict, same := Verdict(a.layout, valueClass, a.contents, b.contents),
                SameContents(a.layout, valueClass, a.contents, b.contents);
      && ((verdict <==> same) <==> !Misleading(a.layout, valueClass, a.contents, b.contents))
      && (Total(a.contents) <= LONG_MAX && Total(b.contents) <= LONG_MAX ==> (verdict <==> same))
  {
    hide Models, LiveCount, TombCount, SameContents, Total, AllReached, ProbesCover, AsIndex, Misleading, Covered;
    CountsArePositive(a.layout, a.Buckets(), a.contents);
    CountsArePositive(b.layout, b.Buckets(), b.contents);
    VerdictIsRight(a.layout, valueClass, a.contents, b.contents);
  }

  /** `CFBasicHashesAreEqual` */
  method AreEqual(a: BasicHash, b: BasicHash, valueClass: Word -> int) returns (equal: bool)
    requires a.Valid() && b.Valid() && a.layout == b.layout
    ensures equal <==> Verdict(a.layout, valueClass, a.contents, b.contents)
    ensures (equal <==> SameContents(a.layout, valueClass, a.contents, b.contents)) <==>
            !Misleading(a.layout, valueClass, a.contents, b.contents)
    ensures Total(a.contents) <= LONG_MAX && Total(b.contents) <= LONG_MAX ==>
              (equal <==> SameContents(a.layout, valueClass, a.contents, b.contents))
    ensures Total(a.contents) <= LONG_MAX && Total(b.contents) <= LONG_MAX ==>
              (equal <==>
                && (forall c :: c in a.contents <==> c in b.contents)
                && (forall c | c in a.contents && c in b.contents ::
                      && a.contents[c].count == b.contents[c].count
                      && (a.layout.hasKeys ==> valueClass(a.contents[c].value) == valueClass(b.contents[c].value))))
  {
    SameSays(a.layout, valueClass, a.contents, b.contents);
    hide Models, LiveCount, TombCount, Located, SameContents, Total, Walked, AllReached, ProbesCover, AsIndex;
    hide Misleading, Covered, SameEntry;
    VerdictMeans(a, b, valueClass);
    var countA := GetCount(a);
    var countB := GetCount(b);
    if countA != countB {
      return false;
    }
    if countA == 0 {
      return true;
    }
    equal := Walk(a, b, valueClass);
  }

  /** Looks up the entry of one live bucket of the first table in the second. */
  method Matches(a: BasicHash, b: BasicHash, idx: nat, valueClass: Word -> int) returns (ok: bool)
    requires a.Valid() && b.Valid() && a.layout == b.layout && LiveAt(a.Buckets(), idx)
    ensures var k := ClassAt(a.layout, a.Buckets(), idx);
      ok <==> k in b.contents && SameEntry(a.layout, valueClass, EntryAt(a.layout, a.Buckets(), idx), b.contents[k])
  {
    hide Models, LiveCount, TombCount, Located, AllReached, ProbesCover;
    ModelsShape(a.layout, a.Buckets(), a.contents);
    ModelsShape(b.layout, b.Buckets(), b.contents);
    var key := a.KeyIn(idx);
    LiveFacts(a.layout, a.Buckets(), a.contents, idx);
    var bucket, count := b.FindBucket(key);
    b.KeyFound(key, bucket, count);
    if a.CountIn(idx) != count {
      return false;
    }
    LiveFacts(b.layout, b.Buckets(), b.contents, bucket);
    if a.layout.hasKeys && valueClass(Decode(a.values[idx])) != valueClass(Decode(b.values[bucket])) {
      return false;
    }
    return true;
  }

  lemma NothingCovered(l: Layout, valueClass: Word -> int, b: Contents)
    ensures Covered(l, valueClass, map[], b)
  {
  }

  lemma CoveredStep(l: Layout, valueClass: Word -> int, done: Contents, a: Contents, b: Contents, k: int)
    requires Covered(l, valueClass, done, b) && k in a
    ensures k in b && SameEntry(l, valueClass, a[k], b[k]) ==> Covered(l, valueClass, done[k := a[k]], b)
    ensures !(k in b && SameEntry(l, valueClass, a[k], b[k])) ==> !Covered(l, valueClass, a, b)
  {
  }

  /** One bucket of the walk. */
  method WalkBucket(a: BasicHash, b: BasicHash, idx: nat, valueClass: Word -> int, ghost done: Contents)
      returns (ok: bool, live: bool, ghost met: Contents)
    requires a.Valid() && b.Valid() && a.layout == b.layout && idx < a.values.Length
    requires Walked(a.layout, a.Buckets(), a.contents, idx, done) && Covered(a.layout, valueClass, done, b.contents)
    ensures !ok ==> !Covered(a.layout, valueClass, a.contents, b.contents)
    ensures ok ==> Walked(a.layout, a.Buckets(), a.contents, idx + 1, met)
    ensures ok ==> Covered(a.layout, valueClass, met, b.contents) && |met| == |done| + if live then 1 else 0
  {
    hide Models, Sound, LiveCount, TombCount, Located, Total, Walked, SameEntry, ProbesCover, Covered, EntryAt, ClassAt;
    ghost var s := a.Buckets();
    SoundFacts(a.layout, s, a.contents, a.numBucketsIdx, a.used, a.countsWidth);
    WalkStep(a.layout, s, a.contents, idx, done);
    ok, live, met := true, Live(a.values[idx]), done;
    if live {
      ok := Matches(a, b, idx, valueClass);
      CoveredStep(a.layout, valueClass, done, a.contents, b.contents, ClassAt(a.layout, s, idx));
      met := done[ClassAt(a.layout, s, idx) := EntryAt(a.layout, s, idx)];
    }
  }

  /** Looks up every entry of the first table in the second, until one differs. */
  method Walk(a: BasicHash, b: BasicHash, valueClass: Word -> int) returns (equal: bool)
    requires a.Valid() && b.Valid() && a.layout == b.layout
    ensures equal <==> Covered(a.layout, valueClass, a.contents, b.contents)
  {
    hide Models, Sound, LiveCount, TombCount, Located, Total, Walked, SameEntry, ProbesCover, Covered, EntryAt, ClassAt;
    ghost var s := a.Buckets();
    ghost var done: Contents := map[];
    SoundFacts(a.layout, s, a.contents, a.numBucketsIdx, a.used, a.countsWidth);
    WalkStart(a.layout, s, a.contents);
    hide AllReached, Paired, BasicHash.Core, BasicHash.Valid;
    NothingCovered(a.layout, valueClass, b.contents);
    var remaining: nat := a.used;
    var idx := 0;
    while 0 < remaining && idx < a.values.Length
      invariant idx <= a.values.Length && remaining + |done| == a.used
      invariant Walked(a.layout, s, a.contents, idx, done)
      invariant Covered(a.layout, valueClass, done, b.contents)
    {
      var ok, live;
      ok, live, done := WalkBucket(a, b, idx, valueClass, done);
      if !ok {
        return false;
      }
      if live {
        remaining := remaining - 1;
      }
      idx := idx + 1;
    }
    WalkDone(a.layout, s, a.contents, idx, done);
    return true;
  }

  /** Adds a new key a number of times. */
  method AddTimes(t: BasicHash, key: Word, n: nat)
    requires t.Valid() && t.layout.hasCounts && Fits(t.layout, key, key) && 0 < n <= LONG_MAX
    requires t.layout.keyClass(key) !in t.contents && t.used < t.MaxLoad()
    modifies t, t.values, t.keys, t.counts
    ensures t.Valid() && fresh(t.Repr() - old(t.Repr()))
    ensures t.contents == old(t.contents)[t.layout.keyClass(key) := Entry(key, key, n)]
  {
    hide Models, Sound, LiveCount, TombCount, Capacity, AllReached, Added, BasicHash.Valid, BasicHash.Core;
    ghost var m, k := t.contents, t.layout.keyClass(key);
    AddedAgain(t.layout, m, key, 0);
    var _ := t.AddValue(key, key);
    for i := 1 to n
      invariant t.Valid() && fresh(t.Repr() - old(t.Repr()))
      invariant t.contents == m[k := Entry(key, key, i)]
    {
      AddedAgain(t.layout, m, key, i);
      var _ := t.AddValue(key, key);
    }
  }

  /** One more of a key that has been added `i` times. */
  lemma AddedAgain(l: Layout, m: Contents, key: Word, i: nat)
    requires l.hasCounts && i < LONG_MAX && l.keyClass(key) !in m
    ensures var k := l.keyClass(key);
      Added(l, if i == 0 then m else m[k := Entry(key, key, i)], key, key) == m[k := Entry(key, key, i + 1)]
  {
  }

  lemma RoomForThree(t: BasicHash)
    requires t.Valid() && !t.fastGrow && t.layout.style == Linear && |t.contents| < 3
    ensures t.used < t.MaxLoad()
  {
    hide Models, AllReached, ProbesCover;
    assert Capacity(NUM_SIZES - 1) > 3;
  }

  /** Sets with counts, and one hash code for all keys. */
  const BAGS: Layout := Layout(false, true, (w: Word) => w, (c: int) => 0, Linear)

  method NewBag() returns (t: BasicHash)
    ensures fresh(t.Repr()) && t.Valid() && t.layout == BAGS && !t.fastGrow && t.contents == map[]
  {
    HashCover.LinearProbesCover();
    t := new BasicHash(BAGS, false);
  }

  method AddToBag(t: BasicHash, key: Word, n: nat)
    requires t.Valid() && t.layout == BAGS && !t.fastGrow && |t.contents| < 3 && key !in t.contents
    requires Storable(key) && 0 < n <= LONG_MAX
    modifies t, t.values, t.keys, t.counts
    ensures t.Valid() && fresh(t.Repr() - old(t.Repr()))
    ensures t.contents == old(t.contents)[key := Entry(key, key, n)] && |t.contents| == |old(t.contents)| + 1
  {
    hide Models, Sound, LiveCount, TombCount, ProbesCover, Capacity;
    RoomForThree(t);
    AddTimes(t, key, n);
  }

  lemma SmallWordsAreStorable()
    ensures forall w: Word | w < 4 :: Storable(w)
  {
  }

  /** A bag of two keys, each as often as can be. */
  method TwoFullCounts() returns (t: BasicHash)
    ensures fresh(t.Repr()) && t.Valid() && t.layout == BAGS && !t.fastGrow && |t.contents| == 2
    ensures t.contents == map[1 := Entry(1, 1, LONG_MAX), 2 := Entry(2, 2, LONG_MAX)]
  {
    hide Models, Sound, LiveCount, TombCount, ProbesCover, Capacity, AllReached, Storable;
    hide BasicHash.Valid, BasicHash.Core;
    t := NewBag();
    SmallWordsAreStorable();
    AddToBag(t, 1, LONG_MAX);
    AddToBag(t, 2, LONG_MAX);
  }

  /** The bag of three keys. */
  method FullBag() returns (t: BasicHash)
    ensures fresh(t.Repr()) && t.Valid() && t.layout == BAGS && t.contents == FULL
  {
    hide Models, Sound, LiveCount, TombCount, ProbesCover, Capacity, AllReached, Storable;
    hide BasicHash.Valid, BasicHash.Core;
    t := TwoFullCounts();
    SmallWordsAreStorable();
    AddToBag(t, 3, 2);
  }

  /** The failing case of the comparison, on tables: a bag of three keys equals an empty one. */
  method FullBagEqualsEmpty() returns (full: BasicHash, empty: BasicHash, equal: bool)
    ensures fresh(full.Repr()) && full.Valid() && full.contents == FULL
    ensures fresh(empty.Repr()) && empty.Valid() && empty.contents == map[]
    ensures full.layout == empty.layout && equal
  {
    hide Models, Sound, LiveCount, TombCount, ProbesCover, AsIndex, Total, Covered, Misleading, SameContents, Verdict;
    empty := NewBag();
    full := FullBag();
    FullBagSeemsEmpty(BAGS, (w: Word) => w);
    equal := AreEqual(full, empty, (w: Word) => w);
  }
}
