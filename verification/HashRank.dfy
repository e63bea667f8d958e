/**
  * Tables whose values are ranks: insertion at a rank moves the later ranks up, and removal of a
  * rank moves them down again, so the values stay a numbering of the keys.
  */
module HashRank {
  import HashCover
  import opened HashProbe
  import opened HashSlots
  import opened HashSizes
  import opened HashState
  import opened HashTable

  /** Move the ranks from the pivot on up by one, or the ranks above the pivot down by one. */
  datatype Shift = Up(pivot: Word) | Down(pivot: Word)

  function Shifted(sh: Shift, w: Word): Word {
    match sh
    case Up(pivot) => if pivot <= w then (w + 1) % WORD else w
    case Down(pivot) => if pivot < w then w - 1 else w
  }

  /** What a shifted value reads as: renumbering stores it without the interface's check for substitutes. */
  function Moved(sh: Shift, w: Word): Word {
    if Shifted(sh, w) == w then w else Decode(Encode(Shifted(sh, w)))
  }

  function MovedSlot(sh: Shift, slot: Word): Word {
    if Live(slot) && Shifted(sh, Decode(slot)) != Decode(slot) then Encode(Shifted(sh, Decode(slot))) else slot
  }

  function Renumbered(sh: Shift, m: Contents): Contents {
    map c | c in m :: m[c].(value := Moved(sh, m[c].value))
  }

  lemma {:induction false} ShiftKeepsCounts(sh: Shift, s: seq<Word>, t: seq<Word>)
    requires |t| == |s| && forall i | 0 <= i < |s| :: t[i] == MovedSlot(sh, s[i])
    ensures LiveCount(t) == LiveCount(s) && TombCount(t) == TombCount(s)
  {
    if s != [] {
      ShiftKeepsCounts(sh, s[..|s| - 1], t[..|s| - 1]);
    }
  }

  /** Slots that differ in the values of live slots only. */
  ghost predicate SameClasses(l: Layout, s: Slots, t: Slots) {
    && Shaped(l, s) && Shaped(l, t) && |s.values| == |t.values|
    && (forall i: nat | i < |s.values| :: LiveAt(t, i) <==> LiveAt(s, i))
    && (forall i: nat | i < |s.values| :: ClassAt(l, t, i) == ClassAt(l, s, i))
    && (forall i: nat | i < |s.values| :: t.values[i] == EMPTY <==> s.values[i] == EMPTY)
  }

  lemma ShiftKeepsClasses(l: Layout, s: Slots, sh: Shift, t: Slots)
    requires l.hasKeys && Shaped(l, s)
    requires t.keys == s.keys && t.counts == s.counts && |t.values| == |s.values|
    requires forall i | 0 <= i < |s.values| :: t.values[i] == MovedSlot(sh, s.values[i])
    ensures SameClasses(l, s, t)
    ensures forall i | LiveAt(s, i) ::
              EntryAt(l, t, i) == EntryAt(l, s, i).(value := Moved(sh, EntryAt(l, s, i).value))
    ensures Paired(l, s) ==> Paired(l, t)
  {
  }

  lemma RenumberModels(l: Layout, s: Slots, m: Contents, sh: Shift, t: Slots)
    requires Models(l, s, m) && l.hasKeys
    requires t.keys == s.keys && t.counts == s.counts && |t.values| == |s.values|
    requires forall i | 0 <= i < |s.values| :: t.values[i] == MovedSlot(sh, s.values[i])
    ensures Models(l, t, Renumbered(sh, m))
  {
    ShiftKeepsClasses(l, s, sh, t);
    hide Moved, MovedSlot, ClassAt, EntryAt, Paired;
    forall c | c in Renumbered(sh, m)
      ensures exists i :: SlotOf(l, t, i, c)
    {
      var i :| SlotOf(l, s, i, c);
      assert SlotOf(l, t, i, c);
    }
  }

  lemma RenumberReached(l: Layout, s: Slots, root: nat, t: Slots)
    requires SameClasses(l, s, t) && AllReached(l, s, root)
    ensures AllReached(l, t, root)
  {
    forall j | LiveAt(t, j)
      ensures Reached(l, t, root, j)
    {
      assert LiveAt(s, j);
      LiveReached(l, s, root, j);
      PathStays(l, s, t, root, l.hash(ClassAt(l, t, j)), j);
    }
  }

  lemma RenumberSound(l: Layout, s: Slots, m: Contents, idx: nat, used: nat, width: nat, sh: Shift, t: Slots)
    requires Sound(l, s, m, idx, used, width) && l.hasKeys
    requires t.keys == s.keys && t.counts == s.counts && |t.values| == |s.values|
    requires forall i | 0 <= i < |s.values| :: t.values[i] == MovedSlot(sh, s.values[i])
    ensures Sound(l, t, Renumbered(sh, m), idx, used, width) && TombCount(t.values) == TombCount(s.values)
    ensures SameClasses(l, s, t)
  {
    hide Models, AllReached;
    ModelsShape(l, s, m);
    RenumberModels(l, s, m, sh, t);
    ShiftKeepsClasses(l, s, sh, t);
    RenumberReached(l, s, Root(idx), t);
    ShiftKeepsCounts(sh, s.values, t.values);
    assert Renumbered(sh, m).Keys == m.Keys;
    SameSize(Renumbered(sh, m), m);
  }

  lemma SameSize(a: Contents, b: Contents)
    requires a.Keys == b.Keys
    ensures |a| == |b|
  {
    assert |a| == |a.Keys| && |b| == |b.Keys|;
  }

  predicate HeldAt(s: Slots, i: nat, value: Word) {
    LiveAt(s, i) && Decode(s.values[i]) == value
  }

  /** Slot `at` is the last one that holds the value, or there is none. */
  ghost predicate Holds(s: Slots, at: int, value: Word) {
    && -1 <= at < |s.values| && (at >= 0 ==> HeldAt(s, at, value))
    && forall j: nat | at < j < |s.values| :: !HeldAt(s, j, value)
  }

  /** The loop over the values; also finds the last bucket that holds the pivot rank. */
  method ShiftValues(values: array<Word>, sh: Shift, ghost s: Slots) returns (at: int)
    requires s.values == values[..]
    modifies values
    ensures Holds(s, at, sh.pivot)
    ensures forall j | 0 <= j < values.Length :: values[j] == MovedSlot(sh, s.values[j])
  {
    hide Shifted, Encode, Decode;
    at := -1;
    var i := 0;
    while i < values.Length
      invariant i <= values.Length
      invariant forall j | 0 <= j < i :: values[j] == MovedSlot(sh, s.values[j])
      invariant forall j | i <= j < values.Length :: values[j] == s.values[j]
      invariant -1 <= at < i && (at >= 0 ==> HeldAt(s, at, sh.pivot))
      invariant forall j: nat | at < j < i :: !HeldAt(s, j, sh.pivot)
    {
      if Live(values[i]) {
        var value := Decode(values[i]);
        if value == sh.pivot {
          at := i;
        }
        if Shifted(sh, value) != value {
          values[i] := Encode(Shifted(sh, value));
        }
      }
      i := i + 1;
    }
  }

  /** The renumbering of both operations. */
  method Renumber(t: BasicHash, sh: Shift) returns (at: int)
    requires t.Valid() && t.layout.hasKeys
    modifies t`contents, t.values
    ensures t.Valid() && t.contents == Renumbered(sh, old(t.contents))
    ensures Holds(old(t.Buckets()), at, sh.pivot)
    ensures SameClasses(t.layout, old(t.Buckets()), t.Buckets())
  {
    hide Models, Sound, LiveCount, TombCount, MovedSlot, AllReached, ProbesCover, SameClasses, Holds;
    ghost var s := t.Buckets();
    SoundFacts(t.layout, s, t.contents, t.numBucketsIdx, t.used, t.countsWidth);
    at := ShiftValues(t.values, sh, s);
    RenumberSound(t.layout, s, t.contents, t.numBucketsIdx, t.used, t.countsWidth, sh, t.Buckets());
    t.contents := Renumbered(sh, t.contents);
  }

  /** What inserting a key at a rank does to the numbering. */
  function Inserted(l: Layout, m: Contents, key: Word, rank: Word): Contents {
    Renumbered(Up(rank), m)[l.keyClass(key) := Entry(key, rank, 1)]
  }

  lemma StillFillable(l: Layout, s: Slots, t: Slots, root: nat, k: int, i: nat)
    requires Fillable(l, s, root, k, i) && SameClasses(l, s, t)
    ensures Fillable(l, t, root, k, i)
  {
    PathStays(l, s, t, root, l.hash(k), i);
  }

  /** `CFBasicHashAddIntValueAndInc` */
  method AddIntValueAndInc(t: BasicHash, key: Word, rank: Word) returns (added: bool)
    requires t.Valid() && t.layout.hasKeys && Fits(t.layout, key, rank)
    requires t.layout.keyClass(key) in t.contents || t.used < t.MaxLoad()
    modifies t, t.values, t.keys, t.counts
    ensures t.Valid() && fresh(t.Repr() - old(t.Repr()))
    ensures added <==> t.layout.keyClass(key) !in old(t.contents)
    ensures t.contents == if added then Inserted(t.layout, old(t.contents), key, rank) else old(t.contents)
  {
    hide Models, Sound, LiveCount, TombCount, Located, Encode, Shifted, Fillable, ProbesCover;
    var idx, count := t.FindBucket(key);
    t.KeyFound(key, idx, count);
    if 0 < count {
      return false;
    }
    t.RoomFound(key, idx, count);
    InsertAt(t, idx, key, rank);
    return true;
  }

  /** The insertion of an absent key: the table must grow before it is renumbered. */
  method InsertAt(t: BasicHash, bucket: int, key: Word, rank: Word)
    requires t.Valid() && t.layout.hasKeys && Fits(t.layout, key, rank)
    requires t.layout.keyClass(key) !in t.contents && t.used < t.MaxLoad()
    requires t.used < Capacity(t.numBucketsIdx) ==>
               bucket >= 0 && Fillable(t.layout, t.Buckets(), Root(t.numBucketsIdx), t.layout.keyClass(key), bucket)
    modifies t, t.values, t.keys, t.counts
    ensures t.Valid() && fresh(t.Repr() - old(t.Repr()))
    ensures t.contents == Inserted(t.layout, old(t.contents), key, rank)
  {
    hide Models, Sound, LiveCount, TombCount, Located, Encode, Shifted, Fillable, ProbesCover, SameClasses, Moved;
    var idx := bucket;
    if Capacity(t.numBucketsIdx) < t.used + 1 {
      idx := t.GrowFor(key);
    }
    ghost var s := t.Buckets();
    var _ := Renumber(t, Up(rank));
    StillFillable(t.layout, s, t.Buckets(), Root(t.numBucketsIdx), t.layout.keyClass(key), idx);
    t.AddAt(idx, key, rank);
  }

  /** What removing a rank does to the numbering, `c` being the class of the key that has it. */
  function Withdrawn(m: Contents, c: int, rank: Word): Contents {
    Renumbered(Down(rank), m) - {c}
  }

  /** `CFBasicHashRemoveIntValueAndDec`: of the keys with the rank, the one in the last bucket goes. */
  method RemoveIntValueAndDec(t: BasicHash, rank: Word, ghost at: nat)
    requires t.Valid() && t.layout.hasKeys
    requires Holds(t.Buckets(), at, rank) && t.CountIn(at) == 1
    modifies t, t.values, t.keys, t.counts
    ensures t.Valid() && fresh(t.Repr() - old(t.Repr()))
    ensures t.contents == Withdrawn(old(t.contents), old(ClassAt(t.layout, t.Buckets(), at)), rank)
  {
    hide Models, Sound, LiveCount, TombCount, Located, Encode, Shifted, ProbesCover, AllReached;
    ghost var s := t.Buckets();
    SoundFacts(t.layout, s, t.contents, t.numBucketsIdx, t.used, t.countsWidth);
    var found := Renumber(t, Down(rank));
    assert found == at;
    t.RemoveAt(found);
  }

  /** A rank that one key has stands in that key's bucket. */
  lemma RankFound(l: Layout, s: Slots, m: Contents, rank: Word, c: int) returns (at: nat)
    requires Models(l, s, m)
    requires c in m && forall d | d in m :: m[d].value == rank <==> d == c
    ensures Holds(s, at, rank) && SlotOf(l, s, at, c) && EntryAt(l, s, at).count == m[c].count
  {
    at :| SlotOf(l, s, at, c);
    assert HeldAt(s, at, rank);
  }

  /** The values number the keys: a bijection onto 0..n-1. */
  ghost predicate Ranking(m: Contents, n: nat) {
    && (forall c | c in m :: m[c].value < n)
    && (forall c, d | c in m && d in m && m[c].value == m[d].value :: c == d)
    && (forall r: nat | r < n :: HasRank(m, r))
  }

  ghost predicate HasRank(m: Contents, r: nat) {
    exists c :: c in m && m[c].value == r
  }

  /** Two numberings put the keys that they share in the same order. */
  ghost predicate SameOrder(a: Contents, b: Contents) {
    forall c, d | c in a && d in a && c in b && d in b :: a[c].value < a[d].value <==> b[c].value < b[d].value
  }

  /** A table can hold a numbering of no more keys than the first substitute. */
  lemma NumberingFits(t: BasicHash, n: nat)
    requires t.Valid() && Ranking(t.contents, n)
    ensures n <= SUB_ONE
  {
    ValuesAreStorable(t);
    assert n > SUB_ONE ==> HasRank(t.contents, SUB_ONE);
  }

  lemma ValuesAreStorable(t: BasicHash)
    requires t.Valid()
    ensures forall c | c in t.contents :: Storable(t.contents[c].value)
  {
    forall c | c in t.contents
      ensures Storable(t.contents[c].value)
    {
      var i: nat :| SlotOf(t.layout, t.Buckets(), i, c);
      DecodingIsFaithful(t.values[i]);
    }
  }

  lemma MovedUp(rank: Word, w: Word)
    requires w < SUB_ONE
    ensures Moved(Up(rank), w) == if w < rank then w else if w == SUB_ONE - 1 then DELETED else w + 1
  {
  }

  /** What each value becomes, as long as the first substitute is not reached. */
  lemma InsertedRanks(l: Layout, m: Contents, n: nat, key: Word, rank: Word)
    requires l.keyClass(key) !in m && n <= SUB_ONE && forall c | c in m :: m[c].value < n
    ensures var k := l.keyClass(key); var m' := Inserted(l, m, key, rank);
      && m'.Keys == m.Keys + {k} && m'[k].value == rank
      && forall c | c in m :: m'[c].value == if m[c].value < rank then m[c].value
                                             else if m[c].value == SUB_ONE - 1 then DELETED else m[c].value + 1
  {
    hide Moved;
    var m' := Inserted(l, m, key, rank);
    forall c | c in m
      ensures m'[c].value == if m[c].value < rank then m[c].value
                             else if m[c].value == SUB_ONE - 1 then DELETED else m[c].value + 1
    {
      MovedUp(rank, m[c].value);
    }
  }

  /** Keys and counts are not renumbered. */
  lemma InsertedFields(l: Layout, m: Contents, key: Word, rank: Word)
    requires l.keyClass(key) !in m
    ensures var k, r := l.keyClass(key), Inserted(l, m, key, rank);
      && k in r && r[k] == Entry(key, rank, 1)
      && forall c | c in m :: c in r && r[c].key == m[c].key && r[c].count == m[c].count
  {
  }

  /**
    * Insertion gives a numbering of one more key, which keeps the order of the others, exactly as
    * long as there are fewer keys than the first substitute: the last value would turn into it.
    */
  lemma InsertKeepsRanking(l: Layout, m: Contents, n: nat, key: Word, rank: Word)
    requires Ranking(m, n) && n <= SUB_ONE && rank <= n && Storable(rank) && l.keyClass(key) !in m
    ensures Ranking(Inserted(l, m, key, rank), n + 1) <==> n < SUB_ONE
    ensures n < SUB_ONE ==> SameOrder(m, Inserted(l, m, key, rank))
    ensures Inserted(l, m, key, rank).Keys == m.Keys + {l.keyClass(key)}
    ensures Inserted(l, m, key, rank)[l.keyClass(key)] == Entry(key, rank, 1)
    ensures n < SUB_ONE ==> forall c | c in m ::
              Inserted(l, m, key, rank)[c] == m[c].(value := m[c].value + if m[c].value < rank then 0 else 1)
  {
    InsertedFields(l, m, key, rank);
    hide Inserted, Renumbered, Shifted, Moved;
    InsertedRanks(l, m, n, key, rank);
    var k := l.keyClass(key);
    var m' := Inserted(l, m, key, rank);
    if n == SUB_ONE {
      assert HasRank(m, n - 1);
      var c :| c in m && m[c].value == n - 1;
      assert c in m'.Keys && m'[c].value == DELETED;
    } else {
      InsertedRanking(l, m, n, key, rank);
    }
  }

  lemma InsertedRanking(l: Layout, m: Contents, n: nat, key: Word, rank: Word)
    requires Ranking(m, n) && n < SUB_ONE && rank <= n && l.keyClass(key) !in m
    ensures Ranking(Inserted(l, m, key, rank), n + 1) && SameOrder(m, Inserted(l, m, key, rank))
  {
    hide Inserted, Renumbered, Shifted, Moved;
    InsertedRanks(l, m, n, key, rank);
    var k := l.keyClass(key);
    var m' := Inserted(l, m, key, rank);
    forall r: nat | r < n + 1
      ensures HasRank(m', r)
    {
      if r == rank {
        assert k in m'.Keys;
      } else {
        var o := if r < rank then r else r - 1;
        assert HasRank(m, o);
        var c :| c in m && m[c].value == o;
        assert c in m'.Keys && m'[c].value == r;
      }
    }
    assert forall c | c in m' :: c in m.Keys + {k};
  }

  lemma WithdrawnFields(m: Contents, c: int, rank: Word)
    ensures forall d | d in m && d != c ::
              var r := Withdrawn(m, c, rank); d in r && r[d].key == m[d].key && r[d].count == m[d].count
  {
  }

  lemma WithdrawnRanks(m: Contents, n: nat, c: int, rank: Word)
    requires n <= SUB_ONE && forall d | d in m :: m[d].value < n
    ensures var m' := Withdrawn(m, c, rank);
      && m'.Keys == m.Keys - {c}
      && forall d | d in m' :: m'[d].value == if m[d].value <= rank then m[d].value else m[d].value - 1
  {
  }

  /** Removal gives a numbering of one key less, which keeps the order of the others. */
  lemma WithdrawKeepsRanking(m: Contents, n: nat, c: int, rank: Word)
    requires Ranking(m, n) && n <= SUB_ONE && c in m && m[c].value == rank
    ensures n > 0 && Ranking(Withdrawn(m, c, rank), n - 1)
    ensures SameOrder(m, Withdrawn(m, c, rank))
    ensures Withdrawn(m, c, rank).Keys == m.Keys - {c}
    ensures forall d | d in m && d != c :: d in Withdrawn(m, c, rank) &&
              Withdrawn(m, c, rank)[d] == m[d].(value := m[d].value - if m[d].value <= rank then 0 else 1)
  {
    WithdrawnFields(m, c, rank);
    hide Withdrawn, Renumbered, Shifted, Moved;
    WithdrawnRanks(m, n, c, rank);
    var m' := Withdrawn(m, c, rank);
    assert forall d | d in m' :: d in m.Keys - {c};
    forall r: nat | r < n - 1
      ensures HasRank(m', r)
    {
      var o := if r < rank then r else r + 1;
      assert HasRank(m, o);
      var d :| d in m && m[d].value == o;
      assert d in m'.Keys && m'[d].value == r;
    }
  }

  /** Removing the rank that was just inserted restores the numbering, as long as insertion keeps one. */
  lemma WithdrawUndoesInsert(l: Layout, m: Contents, n: nat, key: Word, rank: Word)
    requires Ranking(m, n) && n <= SUB_ONE && rank <= n && Storable(rank) && l.keyClass(key) !in m
    ensures Withdrawn(Inserted(l, m, key, rank), l.keyClass(key), rank) == m <==> n < SUB_ONE
  {
    hide Ranking;
    RankingBelow(m, n);
    InsertedRanks(l, m, n, key, rank);
    var k, m' := l.keyClass(key), Inserted(l, m, key, rank);
    var r := Withdrawn(m', k, rank);
    if n < SUB_ONE {
      WithdrawnRanks(m', n + 1, k, rank);
      InsertedElsewhere(l, m, key, rank);
      hide Inserted, Withdrawn, Renumbered, Moved, Shifted;
      assert m'.Keys - {k} == m.Keys;
      SameEntries(r, m);
    } else {
      LastRank(m, n);
      var c :| c in m && m[c].value == n - 1;
      assert m'[c].value == DELETED;
      assert r[c].value == DELETED - 1;
    }
  }

  lemma LastRank(m: Contents, n: nat)
    requires Ranking(m, n) && n > 0
    ensures exists c :: c in m && m[c].value == n - 1
  {
    assert HasRank(m, n - 1);
  }

  /** Neither operation touches the other fields of the entries that stay. */
  lemma InsertedElsewhere(l: Layout, m: Contents, key: Word, rank: Word)
    requires l.keyClass(key) !in m
    ensures var k := l.keyClass(key); var r := Withdrawn(Inserted(l, m, key, rank), k, rank);
      forall c | c in m :: c in r && r[c].key == m[c].key && r[c].count == m[c].count
  {
  }

  lemma RankingBelow(m: Contents, n: nat)
    requires Ranking(m, n)
    ensures forall c | c in m :: m[c].value < n
  {
  }

  /** What removal asks of the table after an insertion, and what it gives. */
  lemma InsertedAlone(l: Layout, m: Contents, n: nat, key: Word, rank: Word)
    requires Ranking(m, n) && n <= SUB_ONE && rank <= n && Storable(rank) && l.keyClass(key) !in m
    ensures var k := l.keyClass(key); var m' := Inserted(l, m, key, rank);
      && k in m' && m'[k].count == 1 && (forall d | d in m' :: m'[d].value == rank <==> d == k)
      && (Withdrawn(m', k, rank) == m <==> n < SUB_ONE)
  {
    hide Ranking, Renumbered, Moved, Shifted, Withdrawn;
    WithdrawUndoesInsert(l, m, n, key, rank);
    RankingBelow(m, n);
    InsertedRanks(l, m, n, key, rank);
    assert forall d | d in Inserted(l, m, key, rank) :: d in m.Keys + {l.keyClass(key)};
  }

  /**
    * Inserting a new key at a rank and removing that rank leaves the table standing for the same,
    * exactly as long as there are fewer keys than the first substitute.
    */
  method InsertThenRemove(t: BasicHash, n: nat, key: Word, rank: Word)
    requires t.Valid() && t.layout.hasKeys && Fits(t.layout, key, rank)
    requires Ranking(t.contents, n) && rank <= n && t.used < t.MaxLoad()
    requires t.layout.keyClass(key) !in t.contents
    modifies t, t.values, t.keys, t.counts
    ensures t.Valid() && fresh(t.Repr() - old(t.Repr()))
    ensures t.contents == old(t.contents) <==> n < SUB_ONE
  {
    hide Models, Sound, LiveCount, TombCount, Inserted, Withdrawn, Renumbered, Moved, Ranking, ProbesCover, Capacity;
    NumberingFits(t, n);
    InsertedAlone(t.layout, t.contents, n, key, rank);
    BothWays(t, key, rank);
  }

  method BothWays(t: BasicHash, key: Word, rank: Word)
    requires t.Valid() && t.layout.hasKeys && Fits(t.layout, key, rank)
    requires t.used < t.MaxLoad() && t.layout.keyClass(key) !in t.contents
    requires var k := t.layout.keyClass(key); var m' := Inserted(t.layout, t.contents, key, rank);
      k in m' && m'[k].count == 1 && forall d | d in m' :: m'[d].value == rank <==> d == k
    modifies t, t.values, t.keys, t.counts
    ensures t.Valid() && fresh(t.Repr() - old(t.Repr()))
    ensures t.contents == Withdrawn(Inserted(t.layout, old(t.contents), key, rank), t.layout.keyClass(key), rank)
  {
    hide Models, Sound, LiveCount, TombCount, Inserted, Withdrawn, Renumbered, Moved, ProbesCover, Capacity;
    var _ := AddIntValueAndInc(t, key, rank);
    SoundFacts(t.layout, t.Buckets(), t.contents, t.numBucketsIdx, t.used, t.countsWidth);
    ghost var at := RankFound(t.layout, t.Buckets(), t.contents, rank, t.layout.keyClass(key));
    RemoveIntValueAndDec(t, rank, at);
  }

  /** The keys 0 to n-1, numbered. */
  ghost predicate Numbered(t: BasicHash, n: nat)
    reads t, t.values, t.keys, t.counts
  {
    && t.Valid() && Ranking(t.contents, n) && |t.contents| == n && t.layout.hasKeys
    && t.layout.style == Linear && !t.fastGrow && (forall w: Word :: t.layout.keyClass(w) == w)
    && forall c | c in t.contents :: c < n
  }

  /** Numbers one more key, at the end. */
  method NumberNext(t: BasicHash, n: Word)
    requires n < SUB_ONE && Numbered(t, n)
    modifies t, t.values, t.keys, t.counts
    ensures fresh(t.Repr() - old(t.Repr())) && Numbered(t, n + 1)
  {
    hide Models, Sound, LiveCount, TombCount, Ranking, Inserted, ProbesCover;
    SoundFacts(t.layout, t.Buckets(), t.contents, t.numBucketsIdx, t.used, t.countsWidth);
    InsertKeepsRanking(t.layout, t.contents, n, n, n);
    ghost var m := t.contents;
    var _ := AddIntValueAndInc(t, n, n);
    OneMore(t.contents, m, n);
  }

  lemma OneMore(a: Contents, b: Contents, c: int)
    requires a.Keys == b.Keys + {c} && c !in b
    ensures |a| == |b| + 1 && forall d | d in a :: d in b || d == c
  {
    assert |a| == |a.Keys| && |b| == |b.Keys|;
    assert forall d | d in a :: d in a.Keys;
  }

  lemma NothingRanked()
    ensures Ranking(map[], 0)
  {
  }

  /** A table of as many keys as the first substitute. */
  method NumberAll() returns (t: BasicHash)
    ensures fresh(t.Repr()) && Numbered(t, SUB_ONE)
  {
    hide Models, Sound, LiveCount, TombCount, Ranking, ProbesCover;
    HashCover.LinearProbesCover();
    t := new BasicHash(Layout(true, false, (w: Word) => w, (c: int) => 0, Linear), false);
    NothingRanked();
    assert Numbered(t, 0);
    hide Numbered;
    for n := 0 to SUB_ONE
      invariant fresh(t.Repr()) && Numbered(t, n)
    {
      NumberNext(t, n);
    }
  }

  /**
    * The failing case of insertion, on a table: with as many keys as the first substitute, one more at
    * the front leaves no numbering.
    */
  method FullNumbering() returns (t: BasicHash)
    ensures fresh(t.Repr()) && t.Valid() && |t.contents| == SUB_ONE + 1 && !Ranking(t.contents, SUB_ONE + 1)
  {
    hide Models, Sound, LiveCount, TombCount, Ranking, Inserted, ProbesCover;
    t := NumberAll();
    SoundFacts(t.layout, t.Buckets(), t.contents, t.numBucketsIdx, t.used, t.countsWidth);
    InsertKeepsRanking(t.layout, t.contents, SUB_ONE, SUB_ONE + 1, 0);
    ghost var m := t.contents;
    var _ := AddIntValueAndInc(t, SUB_ONE + 1, 0);
    OneMore(t.contents, m, SUB_ONE + 1);
  }
}
