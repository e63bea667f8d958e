/**
  * CFBasicHash: an open-addressing table with tombstones, growth and shrink policies and
  * counts that widen on demand. Every operation keeps the table sound and changes what the
  * table stands for exactly as the map functions of HashState say.
  */
module HashTable {
  import opened HashProbe
  import opened HashSlots
  import opened HashSizes
  import opened HashState

  /** The field that counts tombstones has 16 bits. */
  const DELETED_LIMIT: nat := 0x1_0000

  datatype Look = Empty | Deleted | Match | Other

  class BasicHash {
    const layout: Layout
    const fastGrow: bool
    var numBucketsIdx: nat
    var used: nat
    var deleted: nat
    var countsWidth: nat
    var values: array<Word>
    var keys: array<Word>
    var counts: array<nat>
    ghost var contents: Contents

    ghost function Repr(): set<object>
      reads this
    {
      {this, values, keys, counts}
    }

    ghost function Buckets(): Slots
      reads this, values, keys, counts
    {
      Slots(values[..], keys[..], counts[..])
    }

    /** All of the invariant but the tombstone count, which a rehash does not rely on. */
    ghost predicate Core()
      reads this, values, keys, counts
    {
      && values != keys && Sound(layout, Buckets(), contents, numBucketsIdx, used, countsWidth)
      && numBucketsIdx < UsableSizes(layout.style) && ProbesCover(layout.style)
    }

    ghost predicate Valid()
      reads this, values, keys, counts
    {
      Core() && deleted == TombCount(values[..]) < DELETED_LIMIT
    }

    /**
      * What the invariant says: one live slot for each entry, which the probes for its key come to before
      * any empty slot, exact counts of live slots and tombstones, and a load within the buckets.
      */
    lemma InvariantSays()
      requires Valid()
      ensures used == LiveCount(values[..]) == |contents| && deleted == TombCount(values[..]) < DELETED_LIMIT
      ensures used <= Capacity(numBucketsIdx) <= Size(numBucketsIdx) == values.Length
      ensures forall c | c in contents :: exists i :: OnlySlot(i, c) && EntryAt(layout, Buckets(), i) == contents[c]
      ensures forall i: nat | i < values.Length && Live(values[i]) ::
                && ClassAt(layout, Buckets(), i) in contents
                && PathTo(layout, Buckets(), Root(numBucketsIdx), layout.hash(ClassAt(layout, Buckets(), i)), i)
    {
      hide PathTo, ProbesCover;
      var s := Buckets();
      LoadFits(numBucketsIdx);
      forall c | c in contents
        ensures exists i :: OnlySlot(i, c) && EntryAt(layout, s, i) == contents[c]
      {
        var i :| SlotOf(layout, s, i, c);
        LiveFacts(layout, s, contents, i);
        assert OnlySlot(i, c);
      }
      forall i: nat | i < values.Length && Live(values[i])
        ensures ClassAt(layout, s, i) in contents
        ensures PathTo(layout, s, Root(numBucketsIdx), layout.hash(ClassAt(layout, s, i)), i)
      {
        LiveFacts(layout, s, contents, i);
        LiveReached(layout, s, Root(numBucketsIdx), i);
      }
    }

    /** Bucket `i` is the one live bucket of class `c`. */
    ghost predicate OnlySlot(i: nat, c: int)
      requires Shaped(layout, Buckets())
      reads this, values, keys, counts
    {
      SlotOf(layout, Buckets(), i, c) && forall j | SlotOf(layout, Buckets(), j, c) :: j == i
    }

    /** How many live slots the table may have before growth fails. */
    function MaxLoad(): nat {
      Capacity(UsableSizes(layout.style) - if fastGrow then 2 else 1)
    }

    /** What the largest size can carry. */
    function LargestCapacity(): nat {
      Capacity(UsableSizes(layout.style) - 1)
    }

    constructor (layout: Layout, fastGrow: bool)
      requires ProbesCover(layout.style)
      ensures Valid() && fresh(Repr()) && contents == map[]
      ensures this.layout == layout && this.fastGrow == fastGrow
    {
      this.layout := layout;
      this.fastGrow := fastGrow;
      numBucketsIdx, used, deleted, countsWidth := 0, 0, 0, 0;
      values := new Word[0];
      keys := new Word[0];
      counts := new nat[0];
      contents := map[];
      new;
      LoadFits(0);
      NoSlotsModelNothing(layout, Buckets());
      CountsOfEmpty(values[..]);
    }

    function KeyIn(i: nat): Word
      requires i < values.Length && (layout.hasKeys ==> i < keys.Length)
      reads this, values, keys
    {
      Decode(if layout.hasKeys then keys[i] else values[i])
    }

    function CountIn(i: nat): nat
      requires layout.hasCounts ==> i < counts.Length
      reads this, counts
    {
      if layout.hasCounts then counts[i] else 1
    }

    /** The word that the search looks at. */
    function KeyWord(i: nat): Word
      requires i < values.Length && (layout.hasKeys ==> i < keys.Length)
      reads this, values, keys
    {
      if layout.hasKeys then keys[i] else values[i]
    }

    /**
      * The live bucket of a key, or else a bucket that an addition should fill: the first tombstone
      * on the path of the key, or the empty bucket that ends it.
      */
    method FindBucket(key: Word) returns (idx: int, count: nat)
      requires Core()
      ensures Located(layout, Buckets(), contents, Root(numBucketsIdx), key, idx, count)
      ensures layout.keyClass(key) in contents ==>
                && 0 <= idx < values.Length && Live(values[idx]) && layout.keyClass(KeyIn(idx)) == layout.keyClass(key)
                && count == CountIn(idx) == contents[layout.keyClass(key)].count
      ensures layout.keyClass(key) !in contents ==>
                count == 0 && (idx >= 0 ==> idx < values.Length && !Live(values[idx]))
    {
      hide Models, Located, Searched, AllReached, Covers, LiveCount, WalkAt, Advance;
      SoundFacts(layout, Buckets(), contents, numBucketsIdx, used, countsWidth);
      if numBucketsIdx == 0 {
        NowhereToLook(layout, Buckets(), contents, Root(0), key);
        LocatedSays(key, -1, 0);
        return -1, 0;
      }
      idx, count := Probe(key);
      LocatedSays(key, idx, count);
    }

    lemma LocatedSays(key: Word, idx: int, count: nat)
      requires Core() && Located(layout, Buckets(), contents, Root(numBucketsIdx), key, idx, count)
      ensures layout.keyClass(key) in contents ==>
                && 0 <= idx < values.Length && Live(values[idx]) && layout.keyClass(KeyIn(idx)) == layout.keyClass(key)
                && count == CountIn(idx) == contents[layout.keyClass(key)].count
      ensures layout.keyClass(key) !in contents ==>
                count == 0 && (idx >= 0 ==> idx < values.Length && !Live(values[idx]))
    {
      hide AllReached, ProbesCover, FirstFree;
    }

    /** What a search finds in a bucket. */
    method LookAt(i: nat, k: int) returns (r: Look)
      requires Shaped(layout, Buckets()) && Paired(layout, Buckets()) && i < values.Length
      ensures r == Empty <==> values[i] == EMPTY
      ensures r == Deleted <==> values[i] == DELETED
      ensures r == Match <==> SlotOf(layout, Buckets(), i, k)
    {
      var currKey := KeyWord(i);
      assert currKey == KeySlot(layout, Buckets(), i);
      r := if currKey == EMPTY then Empty
      else if currKey == DELETED then Deleted
      else if layout.keyClass(Decode(currKey)) == k then Match
      else Other;
    }

    /** The probing loop, in each of the styles. */
    method Probe(key: Word) returns (idx: int, count: nat)
      requires Core() && numBucketsIdx > 0
      ensures Located(layout, Buckets(), contents, Root(numBucketsIdx), key, idx, count)
    {
      hide Models, Sound, Located, Searched, AllReached, Covers, ProbesCover, LiveCount, WalkAt, Advance, Size, Root,
          SlotOf, Shaped;
      ghost var s := Buckets();
      SoundFacts(layout, s, contents, numBucketsIdx, used, countsWidth);
      CoversSize(layout.style, numBucketsIdx);
      var k := layout.keyClass(key);
      var hashCode := layout.hash(k);
      var n, root := Size(numBucketsIdx), Root(numBucketsIdx);
      var w := Start(n, root, hashCode);
      WalkUnfolds(layout.style, n, root, hashCode, 0);
      SearchStart(layout, s, root, k);
      var deletedIdx: int := -1;
      for i := 0 to n
        invariant w == WalkAt(layout.style, n, root, hashCode, i)
        invariant Searched(layout, s, root, k, i, deletedIdx)
      {
        var bucket := LookAt(w.probe, k);
        if bucket == Empty {
          SearchEnds(layout, s, contents, root, key, i, deletedIdx);
          return if deletedIdx == -1 then w.probe else deletedIdx, 0;
        } else if bucket == Match {
          FoundLocated(layout, s, contents, root, key, w.probe);
          return w.probe, CountIn(w.probe);
        }
        SearchStep(layout, s, root, k, i, deletedIdx);
        if bucket == Deleted && deletedIdx == -1 {
          deletedIdx := w.probe;
        }
        WalkUnfolds(layout.style, n, root, hashCode, i + 1);
        w := Advance(layout.style, n, root, hashCode, w);
      }
      SearchOver(layout, s, contents, root, key, deletedIdx);
      return deletedIdx, 0;
    }

    /** The bucket for a key known to be absent from a table without tombstones. */
    method FindBucketNoCollision(key: Word) returns (idx: nat)
      requires values.Length > 1 && Shaped(layout, Buckets()) && Paired(layout, Buckets())
      requires numBucketsIdx < NUM_SIZES && values.Length == Size(numBucketsIdx)
      requires Covers(layout.style, values.Length, Root(numBucketsIdx))
      requires LiveCount(values[..]) < values.Length && TombCount(values[..]) == 0
      ensures idx < values.Length && values[idx] == EMPTY
      ensures Fillable(layout, Buckets(), Root(numBucketsIdx), layout.keyClass(key), idx)
    {
      hide Fillable, Covers, LiveCount, TombCount, WalkAt, Advance;
      ghost var s := Buckets();
      var k := layout.keyClass(key);
      var hashCode := layout.hash(k);
      var n, root := Size(numBucketsIdx), Root(numBucketsIdx);
      ghost var end := EmptyAhead(layout, s, root, k);
      var w := Start(n, root, hashCode);
      WalkUnfolds(layout.style, n, root, hashCode, 0);
      var i := 0;
      while KeyWord(w.probe) != EMPTY
        invariant i <= end && w == WalkAt(layout.style, n, root, hashCode, i)
        invariant Passed(layout, s, root, k, i)
        decreases end - i
      {
        i := i + 1;
        WalkUnfolds(layout.style, n, root, hashCode, i);
        w := Advance(layout.style, n, root, hashCode, w);
      }
      PassedFillable(layout, s, root, k, i);
      return w.probe;
    }

    /** Puts the live entries of the old buckets into the new, empty ones. */
    method Reinsert(oldValues: array<Word>, oldKeys: array<Word>, oldCounts: array<nat>)
      requires values != keys && oldValues !in {values, keys} && oldKeys !in {values, keys} && oldCounts != counts
      requires numBucketsIdx < NUM_SIZES && values.Length == Size(numBucketsIdx)
      requires values.Length == 0 || (values.Length > 1 && Covers(layout.style, values.Length, Root(numBucketsIdx)))
      requires Moved(layout, Slots(oldValues[..], oldKeys[..], oldCounts[..]), contents, Root(numBucketsIdx),
                     CountLimit(countsWidth), 0, Buckets(), map[])
      requires forall i | 0 <= i < oldCounts.Length :: oldCounts[i] <= CountLimit(countsWidth)
      requires LiveCount(oldValues[..]) <= values.Length
      modifies values, keys, counts
      ensures Models(layout, Buckets(), contents) && AllReached(layout, Buckets(), Root(numBucketsIdx))
      ensures LiveCount(values[..]) == LiveCount(oldValues[..]) && TombCount(values[..]) == 0
      ensures forall i | 0 <= i < counts.Length :: counts[i] <= CountLimit(countsWidth)
      ensures oldValues[..] == old(oldValues[..])
    {
      hide Models, LiveCount, TombCount, Covers, AllReached, PathTo, Size, Root;
      ghost var s := Slots(oldValues[..], oldKeys[..], oldCounts[..]);
      ghost var done: Contents := map[];
      ghost var limit, root := CountLimit(countsWidth), Root(numBucketsIdx);
      ModelsShape(layout, s, contents);
      var i := 0;
      while i < oldValues.Length
        invariant i <= oldValues.Length
        invariant Slots(oldValues[..], oldKeys[..], oldCounts[..]) == s
        invariant Moved(layout, s, contents, root, limit, i, Buckets(), done)
      {
        ghost var t := Buckets();
        ModelsShape(layout, t, done);
        if Live(oldValues[i]) {
          var value := Decode(oldValues[i]);
          var key := if layout.hasKeys then Decode(oldKeys[i]) else value;
          CountsOfPrefix(s.values, i);
          var b := FindBucketNoCollision(key);
          MoveStep(layout, s, contents, root, limit, i, t, done, b);
          done := done[ClassAt(layout, s, i) := EntryAt(layout, s, i)];
          values[b] := Encode(value);
          if layout.hasKeys {
            keys[b] := Encode(key);
          }
          if layout.hasCounts {
            counts[b] := oldCounts[i];
          }
          assert Buckets() == Write(layout, t, b, key, value, EntryAt(layout, s, i).count);
        } else {
          MoveSkip(layout, s, contents, root, limit, i, t, done);
        }
        i := i + 1;
      }
      MoveEnd(layout, s, contents, root, limit, Buckets(), done);
    }

    /** The size that a rehash for the given number of further items moves to. */
    method ChooseIndex(newItemCount: int) returns (idx: nat)
      requires Core()
      requires newItemCount > 0 ==> used + newItemCount <= LargestCapacity()
      requires newItemCount == 1 ==> used < MaxLoad()
      ensures idx < UsableSizes(layout.style) && used <= Capacity(idx) <= Size(idx)
      ensures newItemCount > 0 ==> used + newItemCount <= Capacity(idx)
      ensures newItemCount == 0 ==> idx == numBucketsIdx
      ensures newItemCount < 0 ==> LeastFor(idx, used)
      ensures newItemCount == 1 && fastGrow ==> idx > 0 && LeastFor(idx - 1, used + 1)
      ensures newItemCount > 1 || (newItemCount == 1 && !fastGrow) ==> LeastFor(idx, used + newItemCount)
    {
      hide Models, AllReached, ProbesCover, LiveCount, Size, Capacity;
      idx := numBucketsIdx;
      CapacityBounded(numBucketsIdx);
      CapacityBounded(UsableSizes(layout.style) - 1);
      if newItemCount != 0 {
        idx := IndexForCapacity(used + if newItemCount < 0 then 0 else newItemCount);
        if newItemCount == 1 && fastGrow {
          CapacityGrows(idx);
          idx := idx + 1;
        }
      }
      LoadFits(idx);
    }

    method AllocateBuckets(size: nat)
      modifies this`values, this`keys, this`counts
      ensures fresh(values) && fresh(keys) && fresh(counts) && values != keys
      ensures values.Length == size && Shaped(layout, Buckets())
      ensures forall i | 0 <= i < values.Length :: values[i] == EMPTY
      ensures forall i | 0 <= i < keys.Length :: keys[i] == EMPTY
      ensures forall i | 0 <= i < counts.Length :: counts[i] == 0
    {
      values := new Word[size](_ => EMPTY);
      keys := new Word[if layout.hasKeys then size else 0](_ => EMPTY);
      counts := new nat[if layout.hasCounts then size else 0](_ => 0);
    }

    /** Moves the table to buckets for the given number of further items, and drops all tombstones. */
    method Rehash(newItemCount: int)
      requires Core()
      requires newItemCount > 0 ==> used + newItemCount <= LargestCapacity()
      requires newItemCount == 1 ==> used < MaxLoad()
      modifies this
      ensures Valid() && fresh(Repr() - {this}) && contents == old(contents)
      ensures used == old(used) && countsWidth == old(countsWidth) && deleted == 0
      ensures newItemCount > 0 ==> used + newItemCount <= Capacity(numBucketsIdx)
      ensures newItemCount == 0 ==> numBucketsIdx == old(numBucketsIdx)
      ensures newItemCount < 0 ==> LeastFor(numBucketsIdx, used)
      ensures newItemCount == 1 && fastGrow ==> numBucketsIdx > 0 && LeastFor(numBucketsIdx - 1, used + 1)
      ensures newItemCount > 1 || (newItemCount == 1 && !fastGrow) ==> LeastFor(numBucketsIdx, used + newItemCount)
    {
      hide Models, Sound, Capacity, Size, Root, LiveCount, TombCount, CountLimit, AllReached, Covers, LeastFor;
      var newIdx := ChooseIndex(newItemCount);
      ghost var s := Buckets();
      SoundFacts(layout, s, contents, numBucketsIdx, used, countsWidth);
      var oldValues, oldKeys, oldCounts := values, keys, counts;
      numBucketsIdx := newIdx;
      deleted := 0;
      CoversSize(layout.style, newIdx);
      AllocateBuckets(Size(newIdx));
      MoveStart(layout, s, contents, Root(numBucketsIdx), CountLimit(countsWidth), Buckets());
      Reinsert(oldValues, oldKeys, oldCounts);
      SoundAgain(layout, Buckets(), contents, numBucketsIdx, used, countsWidth);
    }

    method BumpCounts()
      requires countsWidth < 3
      modifies this`countsWidth, this`counts
      ensures countsWidth == old(countsWidth) + 1 && fresh(counts) && counts[..] == old(counts[..])
    {
      var wider := new nat[counts.Length];
      for i := 0 to counts.Length
        invariant counts == old(counts) && countsWidth == old(countsWidth) && counts[..] == old(counts[..])
        invariant wider[..i] == counts[..i]
      {
        wider[i] := counts[i];
      }
      countsWidth := countsWidth + 1;
      counts := wider;
    }

    /** Adds one to a count, widening all counts first when this one has reached its limit. */
    method IncSlotCount(i: nat)
      requires countsWidth < 4 && i < counts.Length
      requires counts[i] < LONG_MAX
      modifies this`countsWidth, this`counts, counts
      ensures old(countsWidth) <= countsWidth < 4
      ensures counts[..] == old(counts[..])[i := old(counts[i]) + 1] && counts[i] <= CountLimit(countsWidth)
      ensures countsWidth == old(countsWidth) || CountLimit(countsWidth - 1) < counts[i]
      ensures counts == old(counts) || fresh(counts)
      decreases 3 - countsWidth
    {
      if counts[i] < CountLimit(countsWidth) {
        counts[i] := counts[i] + 1;
      } else {
        BumpCounts();
        IncSlotCount(i);
      }
    }

    /** `__CFBasicHashSetValue` and `__CFBasicHashSetKey` */
    method SetSlot(i: nat, key: Word, value: Word)
      requires values != keys && i < values.Length && (layout.hasKeys ==> i < keys.Length)
      modifies values, keys
      ensures values[..] == old(values[..])[i := Encode(value)]
      ensures keys[..] == if layout.hasKeys then old(keys[..])[i := Encode(key)] else old(keys[..])
    {
      values[i] := Encode(value);
      if layout.hasKeys {
        keys[i] := Encode(key);
      }
    }

    /** Writes a new key and value into a bucket that is free. */
    method FillBucket(i: nat, key: Word, value: Word)
      requires Core() && Fits(layout, key, value)
      requires layout.keyClass(key) !in contents && used < Capacity(numBucketsIdx)
      requires Fillable(layout, Buckets(), Root(numBucketsIdx), layout.keyClass(key), i)
      requires deleted == TombCount(values[..]) - (if values[i] == DELETED then 1 else 0) < DELETED_LIMIT
      modifies this, values, keys, counts
      ensures Valid() && fresh(Repr() - old(Repr()))
      ensures contents == old(contents)[layout.keyClass(key) := Entry(key, value, 1)]
      ensures used == old(used) + 1 && numBucketsIdx == old(numBucketsIdx)
    {
      hide Models, Sound, LiveCount, TombCount, Encode;
      ghost var s := Buckets();
      SoundFacts(layout, s, contents, numBucketsIdx, used, countsWidth);
      FreeCountIsZero(layout, s, contents, i);
      AddSound(layout, s, contents, numBucketsIdx, used, countsWidth, i, key, value);
      ghost var width := countsWidth;
      SetSlot(i, key, value);
      if layout.hasCounts {
        IncSlotCount(i);
      }
      used := used + 1;
      contents := contents[layout.keyClass(key) := Entry(key, value, 1)];
      assert Buckets() == Write(layout, s, i, key, value, 1);
      WiderSound(layout, Buckets(), contents, numBucketsIdx, used, width, countsWidth);
    }

    /** Grows the table by one entry, and finds the bucket for a key that is absent. */
    method GrowFor(key: Word) returns (idx: nat)
      requires Valid() && used < MaxLoad()
      modifies this
      ensures Valid() && fresh(Repr() - {this})
      ensures contents == old(contents) && used == old(used) < Capacity(numBucketsIdx)
      ensures Fillable(layout, Buckets(), Root(numBucketsIdx), layout.keyClass(key), idx) && values[idx] == EMPTY
    {
      hide Models, Sound, LiveCount, TombCount, PathTo, Covers, AllReached, Size;
      Rehash(1);
      SoundFacts(layout, Buckets(), contents, numBucketsIdx, used, countsWidth);
      LoadFits(numBucketsIdx);
      ManyBuckets(numBucketsIdx);
      idx := FindBucketNoCollision(key);
    }

    /** Makes room for one more entry, or takes a tombstone that will be filled out of the count. */
    method MakeRoom(bucket: int, key: Word) returns (idx: nat)
      requires Valid() && used < MaxLoad() && layout.keyClass(key) !in contents
      requires used < Capacity(numBucketsIdx) ==>
                 bucket >= 0 && Fillable(layout, Buckets(), Root(numBucketsIdx), layout.keyClass(key), bucket)
      modifies this
      ensures Core() && fresh(Repr() - old(Repr()))
      ensures contents == old(contents) && used == old(used) < Capacity(numBucketsIdx)
      ensures Fillable(layout, Buckets(), Root(numBucketsIdx), layout.keyClass(key), idx)
      ensures deleted == TombCount(values[..]) - (if values[idx] == DELETED then 1 else 0) < DELETED_LIMIT
    {
      hide Models, Sound, LiveCount, TombCount, PathTo, Covers, AllReached, Size;
      SoundFacts(layout, Buckets(), contents, numBucketsIdx, used, countsWidth);
      if Capacity(numBucketsIdx) < used + 1 {
        idx := GrowFor(key);
      } else {
        idx := bucket;
        if values[idx] == DELETED {
          HasTomb(values[..], idx);
          deleted := deleted - 1;
        }
      }
    }

    /** `__CFBasicHashAddValue`: adds an absent key, at the given bucket unless the table must grow. */
    method AddAt(bucket: int, key: Word, value: Word)
      requires Valid() && used < MaxLoad() && Fits(layout, key, value) && layout.keyClass(key) !in contents
      requires used < Capacity(numBucketsIdx) ==>
                 bucket >= 0 && Fillable(layout, Buckets(), Root(numBucketsIdx), layout.keyClass(key), bucket)
      modifies this, values, keys, counts
      ensures Valid() && fresh(Repr() - old(Repr()))
      ensures contents == old(contents)[layout.keyClass(key) := Entry(key, value, 1)]
      ensures used == old(used) + 1
    {
      hide Models, Sound, LiveCount, TombCount, PathTo, Covers, AllReached, Size;
      var idx := MakeRoom(bucket, key);
      FillBucket(idx, key, value);
    }

    /** `__CFBasicHashReplaceValue` */
    method ReplaceAt(i: nat, key: Word, value: Word)
      requires Valid() && Fits(layout, key, value) && SlotOf(layout, Buckets(), i, layout.keyClass(key))
      modifies this`contents, values, keys
      ensures Valid() && layout.keyClass(key) in old(contents)
      ensures contents == Replaced(layout, old(contents), key, value)
      ensures var k := layout.keyClass(key);
        && k in contents && contents[k].key == key && contents[k].value == value
        && contents[k].count == old(contents)[k].count
      ensures forall c | c != layout.keyClass(key) ::
                (c in contents <==> c in old(contents)) && (c in contents ==> contents[c] == old(contents)[c])
    {
      ReplacedSays(layout, contents, key, value);
      hide Models, Sound, LiveCount, TombCount, Encode;
      ghost var s := Buckets();
      SoundFacts(layout, s, contents, numBucketsIdx, used, countsWidth);
      ReplaceSound(layout, s, contents, numBucketsIdx, used, countsWidth, i, key, value);
      SetSlot(i, key, value);
      contents := contents[layout.keyClass(key) := Entry(key, value, EntryAt(layout, s, i).count)];
      assert Buckets() == Write(layout, s, i, key, value, EntryAt(layout, s, i).count);
    }

    /** Puts a tombstone in a live bucket whose count is one. */
    method EraseBucket(i: nat)
      requires Valid() && LiveAt(Buckets(), i) && CountIn(i) == 1
      modifies this`contents, this`used, values, keys, counts
      ensures Core() && TombCount(values[..]) == old(TombCount(values[..])) + 1
      ensures contents == old(contents) - {old(ClassAt(layout, Buckets(), i))} && used == old(used) - 1
    {
      hide Models, Sound, LiveCount, TombCount, Encode;
      ghost var s := Buckets();
      SoundFacts(layout, s, contents, numBucketsIdx, used, countsWidth);
      EraseSound(layout, s, contents, numBucketsIdx, used, countsWidth, i);
      values[i] := DELETED;
      if layout.hasKeys {
        keys[i] := DELETED;
      }
      if layout.hasCounts {
        counts[i] := counts[i] - 1;
      }
      used := used - 1;
      contents := contents - {ClassAt(layout, s, i)};
      assert Buckets() == Erase(layout, s, i);
    }

    /**
      * The end of a removal: the table shrinks when its load would fit a much smaller size, and
      * is cleaned when tombstones fill a quarter of it or their 16-bit count has rolled over.
      */
    method Tidy()
      requires Core() && TombCount(values[..]) <= DELETED_LIMIT && deleted == TombCount(values[..]) % DELETED_LIMIT
      requires TombCount(values[..]) > 0
      modifies this
      ensures Valid() && fresh(Repr() - old(Repr()))
      ensures contents == old(contents) && used == old(used)
      ensures values.Length < 20 || deleted == 0 || deleted < values.Length / 4
      ensures var step, idx := if fastGrow then 5 else 2, old(numBucketsIdx);
        if step < idx < NUM_SIZES && used < Capacity(idx - step) then LeastFor(numBucketsIdx, used) && deleted == 0
        else
          && numBucketsIdx == idx
          && deleted == if 20 <= values.Length && values.Length / 4 <= old(deleted) then 0 else old(deleted)
    {
      hide Models, Sound, LiveCount, TombCount, Capacity, Size, LeastFor;
      SoundFacts(layout, Buckets(), contents, numBucketsIdx, used, countsWidth);
      var step := if fastGrow then 5 else 2;
      if step < numBucketsIdx && used < Capacity(numBucketsIdx - step) {
        Rehash(-1);
      } else if deleted == 0 || (20 <= Size(numBucketsIdx) && Size(numBucketsIdx) / 4 <= deleted) {
        Rehash(0);
        SoundFacts(layout, Buckets(), contents, numBucketsIdx, used, countsWidth);
      }
    }

    /** `__CFBasicHashRemoveValue` */
    method RemoveAt(i: nat)
      requires Valid() && LiveAt(Buckets(), i) && CountIn(i) == 1
      modifies this, values, keys, counts
      ensures Valid() && fresh(Repr() - old(Repr()))
      ensures contents == old(contents) - {old(ClassAt(layout, Buckets(), i))} && used == old(used) - 1
      ensures values.Length < 20 || deleted == 0 || deleted < values.Length / 4
    {
      hide Models, Sound, LiveCount, TombCount, Encode;
      EraseBucket(i);
      deleted := (deleted + 1) % DELETED_LIMIT;
      Tidy();
    }

    /** Adds one to the count of a present key. */
    method IncAt(i: nat, key: Word)
      requires Valid() && layout.hasCounts && SlotOf(layout, Buckets(), i, layout.keyClass(key))
      requires counts[i] < LONG_MAX
      modifies this`contents, this`countsWidth, this`counts, counts
      ensures Valid() && fresh(Repr() - old(Repr()))
      ensures layout.keyClass(key) in old(contents) && contents == Added(layout, old(contents), key, key)
    {
      hide Models, Sound, LiveCount, TombCount;
      ghost var s, k, width := Buckets(), layout.keyClass(key), countsWidth;
      SoundFacts(layout, s, contents, numBucketsIdx, used, countsWidth);
      LiveFacts(layout, s, contents, i);
      IncSlotCount(i);
      WiderSound(layout, s, contents, numBucketsIdx, used, width, countsWidth);
      RecountSound(layout, s, contents, numBucketsIdx, used, countsWidth, i, s.counts[i] + 1);
      contents := contents[k := contents[k].(count := s.counts[i] + 1)];
      assert Buckets() == Recount(s, i, s.counts[i] + 1);
    }

    /** `__CFBasicHashDecSlotCount` on a count above one. */
    method DecAt(i: nat, key: Word)
      requires Valid() && layout.hasCounts && SlotOf(layout, Buckets(), i, layout.keyClass(key))
      requires 1 < counts[i]
      modifies this`contents, counts
      ensures Valid()
      ensures var k := layout.keyClass(key);
        k in old(contents) && contents == old(contents)[k := old(contents)[k].(count := old(counts[i]) - 1)]
    {
      hide Models, Sound, LiveCount, TombCount;
      ghost var s, k := Buckets(), layout.keyClass(key);
      SoundFacts(layout, s, contents, numBucketsIdx, used, countsWidth);
      RecountSound(layout, s, contents, numBucketsIdx, used, countsWidth, i, s.counts[i] - 1);
      counts[i] := counts[i] - 1;
      contents := contents[k := contents[k].(count := s.counts[i] - 1)];
      assert Buckets() == Recount(s, i, s.counts[i] - 1);
    }

    /** A search of a sound table with room to grow into finds a bucket that an addition can use. */
    lemma RoomFound(key: Word, idx: int, count: nat)
      requires Valid() && Located(layout, Buckets(), contents, Root(numBucketsIdx), key, idx, count)
      requires layout.keyClass(key) !in contents
      ensures numBucketsIdx < NUM_SIZES
      ensures used < Capacity(numBucketsIdx) ==>
                idx >= 0 && Fillable(layout, Buckets(), Root(numBucketsIdx), layout.keyClass(key), idx)
    {
      hide Models;
      LoadFits(numBucketsIdx);
    }

    /** What a search that found the key says about its bucket. */
    lemma KeyFound(key: Word, idx: int, count: nat)
      requires Valid() && Located(layout, Buckets(), contents, Root(numBucketsIdx), key, idx, count)
      ensures count > 0 <==> layout.keyClass(key) in contents
      ensures count > 0 ==> idx >= 0 && SlotOf(layout, Buckets(), idx, layout.keyClass(key))
                            && count == contents[layout.keyClass(key)].count == CountIn(idx)
    {
    }

    lemma CountsInTable()
      requires Valid()
      ensures forall c | c in contents :: contents[c].count > 0 && (!layout.hasCounts ==> contents[c].count == 1)
    {
      forall c | c in contents
        ensures contents[c].count > 0 && (!layout.hasCounts ==> contents[c].count == 1)
      {
        var i :| SlotOf(layout, Buckets(), i, c);
      }
    }

    /** `CFBasicHashAddValue` */
    method AddValue(key: Word, value: Word) returns (added: bool)
      requires Valid() && Fits(layout, key, value)
      requires layout.keyClass(key) in contents || used < MaxLoad()
      modifies this, values, keys, counts
      ensures Valid() && fresh(Repr() - old(Repr()))
      ensures contents == Added(layout, old(contents), key, value)
      ensures added <==> contents != old(contents)
      ensures var k := layout.keyClass(key);
        && k in contents
        && (k !in old(contents) ==> contents[k].key == key && contents[k].value == value && contents[k].count == 1)
        && (k in old(contents) ==>
              && contents[k].key == old(contents)[k].key && contents[k].value == old(contents)[k].value
              && contents[k].count ==
                   old(contents)[k].count + if layout.hasCounts && old(contents)[k].count < LONG_MAX then 1 else 0)
      ensures forall c | c != layout.keyClass(key) ::
                (c in contents <==> c in old(contents)) && (c in contents ==> contents[c] == old(contents)[c])
    {
      AddedSays(layout, contents, key, value);
      hide Models, Sound, LiveCount, TombCount, Located;
      var idx, count := FindBucket(key);
      KeyFound(key, idx, count);
      if 0 < count {
        if layout.hasCounts && count < LONG_MAX {
          IncAt(idx, key);
          return true;
        }
      } else {
        RoomFound(key, idx, count);
        AddAt(idx, key, value);
        return true;
      }
      return false;
    }

    /** `CFBasicHashReplaceValue` */
    method ReplaceValue(key: Word, value: Word)
      requires Valid() && Fits(layout, key, value)
      modifies this`contents, values, keys
      ensures Valid() && contents == Replaced(layout, old(contents), key, value)
      ensures var k := layout.keyClass(key);
        && (k in contents <==> k in old(contents))
        && (k in contents ==>
              contents[k].key == key && contents[k].value == value && contents[k].count == old(contents)[k].count)
      ensures forall c | c != layout.keyClass(key) ::
                (c in contents <==> c in old(contents)) && (c in contents ==> contents[c] == old(contents)[c])
    {
      ReplacedSays(layout, contents, key, value);
      hide Models, Sound, LiveCount, TombCount, Located;
      var idx, count := FindBucket(key);
      KeyFound(key, idx, count);
      if 0 < count {
        ReplaceAt(idx, key, value);
      }
    }

    /** `CFBasicHashSetValue` */
    method SetValue(key: Word, value: Word)
      requires Valid() && Fits(layout, key, value)
      requires layout.keyClass(key) in contents || used < MaxLoad()
      modifies this, values, keys, counts
      ensures Valid() && fresh(Repr() - old(Repr()))
      ensures contents == Assigned(layout, old(contents), key, value)
      ensures var k := layout.keyClass(key);
        && k in contents && contents[k].key == key && contents[k].value == value
        && contents[k].count == if k in old(contents) then old(contents)[k].count else 1
      ensures forall c | c != layout.keyClass(key) ::
                (c in contents <==> c in old(contents)) && (c in contents ==> contents[c] == old(contents)[c])
    {
      AssignedSays(layout, contents, key, value);
      hide Models, Sound, LiveCount, TombCount, Located;
      var idx, count := FindBucket(key);
      KeyFound(key, idx, count);
      if 0 < count {
        ReplaceAt(idx, key, value);
      } else {
        RoomFound(key, idx, count);
        AddAt(idx, key, value);
      }
    }

    /** What a removal does with the bucket that the search found. */
    method RemoveFound(key: Word, idx: int, count: nat)
      requires Valid() && Storable(key)
      requires Located(layout, Buckets(), contents, Root(numBucketsIdx), key, idx, count)
      modifies this, values, keys, counts
      ensures Valid() && fresh(Repr() - old(Repr()))
      ensures contents == Removed(layout, old(contents), key)
    {
      hide Models, Sound, LiveCount, TombCount, Located;
      KeyFound(key, idx, count);
      if 1 < count {
        if layout.hasCounts && count < LONG_MAX {
          DecAt(idx, key);
        }
      } else if 0 < count {
        RemoveAt(idx);
      }
    }

    /** `CFBasicHashRemoveValue`, which returns the count from before. */
    method RemoveValue(key: Word) returns (count: nat)
      requires Valid()
      modifies this, values, keys, counts
      ensures Valid() && fresh(Repr() - old(Repr()))
      ensures contents == Removed(layout, old(contents), key)
      ensures var k := layout.keyClass(key);
        && count == (if Storable(key) && k in old(contents) then old(contents)[k].count else 0)
        && (k in contents <==> k in old(contents) && (!Storable(key) || old(contents)[k].count > 1))
        && (k in contents ==>
              && contents[k].key == old(contents)[k].key && contents[k].value == old(contents)[k].value
              && contents[k].count ==
                   old(contents)[k].count - if Storable(key) && old(contents)[k].count < LONG_MAX then 1 else 0)
      ensures forall c | c != layout.keyClass(key) ::
                (c in contents <==> c in old(contents)) && (c in contents ==> contents[c] == old(contents)[c])
    {
      CountsInTable();
      RemovedSays(layout, contents, key);
      hide Models, Sound, LiveCount, TombCount, Located;
      if !Storable(key) {
        assert Removed(layout, contents, key) == contents;
        return 0;
      }
      hide Removed;
      var idx;
      idx, count := FindBucket(key);
      RemoveFound(key, idx, count);
    }

    /** `CFBasicHashGetCountOfKey` */
    method GetCountOfKey(key: Word) returns (count: nat)
      requires Valid()
      ensures count ==
                if Storable(key) && layout.keyClass(key) in contents then contents[layout.keyClass(key)].count else 0
    {
      hide Models, LiveCount, TombCount, Located;
      if !Storable(key) || used == 0 {
        return 0;
      }
      var idx;
      idx, count := FindBucket(key);
      KeyFound(key, idx, count);
    }

    /** `CFBasicHashRemoveAllValues`, which drains the table back to having no buckets. */
    method RemoveAllValues()
      requires Valid()
      modifies this
      ensures Valid() && fresh(Repr() - old(Repr()))
      ensures contents == map[] && numBucketsIdx == 0
    {
      hide Models;
      LoadFits(0);
      if numBucketsIdx == 0 {
        return;
      }
      AllocateBuckets(0);
      numBucketsIdx, used, deleted, contents := 0, 0, 0, map[];
      NoSlotsModelNothing(layout, Buckets());
      CountsOfEmpty(values[..]);
    }

    /** `CFBasicHashSetCapacity` */
    method SetCapacity(capacity: nat)
      requires Valid() && capacity <= LargestCapacity() && (capacity == used + 1 ==> used < MaxLoad())
      modifies this
      ensures Valid() && fresh(Repr() - old(Repr())) && contents == old(contents)
      ensures capacity <= used ==> numBucketsIdx == old(numBucketsIdx)
      ensures used < capacity ==> capacity <= Capacity(numBucketsIdx)
      ensures used + 1 < capacity || (used + 1 == capacity && !fastGrow) ==> LeastFor(numBucketsIdx, capacity)
      ensures used + 1 == capacity && fastGrow ==> numBucketsIdx > 0 && LeastFor(numBucketsIdx - 1, capacity)
    {
      hide Models, Sound, LiveCount, TombCount;
      if used < capacity {
        Rehash(capacity - used);
      }
    }
  }
}
