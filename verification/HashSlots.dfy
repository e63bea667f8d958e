/**
  * The buckets of a CFBasicHash: sentinel-encoded slots, and what a set of slots stands for.
  */
module HashSlots {
  import opened HashProbe

  const EMPTY: Word := 0
  const DELETED: Word := WORD - 1
  const SUB_ZERO: Word := 0xa7baadb1   // stands for a stored 0
  const SUB_ONE: Word := 0xa5baadb9    // stands for a stored word of ones
  const LONG_MAX: nat := 0x7fff_ffff_ffff_ffff

  /** The two substitutes cannot themselves be stored. */
  predicate Storable(w: Word) {
    w != SUB_ZERO && w != SUB_ONE
  }

  function Encode(w: Word): Word {
    if w == EMPTY then SUB_ZERO else if w == DELETED then SUB_ONE else w
  }

  function Decode(w: Word): Word {
    if w == SUB_ZERO then EMPTY else if w == SUB_ONE then DELETED else w
  }

  /** Every storable word survives in a slot, and never looks like a sentinel. */
  lemma EncodingIsFaithful(w: Word)
    ensures Live(Encode(w))
    ensures Storable(w) <==> Decode(Encode(w)) == w
    ensures Decode(Encode(w)) == w <==> w != 0xa7baadb1 && w != 0xa5baadb9
    ensures Live(w) <==> w != 0 && w != 0xffff_ffff_ffff_ffff
  {
  }

  /** A live slot holds the code of a storable word. */
  lemma DecodingIsFaithful(slot: Word)
    ensures Storable(Decode(slot))
    ensures Live(slot) ==> Encode(Decode(slot)) == slot
  {
  }

  /** Neither empty nor a tombstone. */
  predicate Live(slot: Word) {
    slot != EMPTY && slot != DELETED
  }

  function LiveCount(values: seq<Word>): (n: nat)
    ensures n <= |values|
  {
    if values == [] then 0
    else LiveCount(values[..|values| - 1]) + (if Live(values[|values| - 1]) then 1 else 0)
  }

  function TombCount(values: seq<Word>): (n: nat)
    ensures n <= |values|
  {
    if values == [] then 0
    else TombCount(values[..|values| - 1]) + (if values[|values| - 1] == DELETED then 1 else 0)
  }

  lemma {:induction false} CountsAfterUpdate(values: seq<Word>, i: nat, w: Word)
    requires i < |values|
    ensures LiveCount(values[i := w]) ==
            LiveCount(values) - (if Live(values[i]) then 1 else 0) + (if Live(w) then 1 else 0)
    ensures TombCount(values[i := w]) ==
            TombCount(values) - (if values[i] == DELETED then 1 else 0) + (if w == DELETED then 1 else 0)
  {
    var n := |values| - 1;
    if i < n {
      CountsAfterUpdate(values[..n], i, w);
      assert values[i := w][..n] == values[..n][i := w];
    } else {
      assert values[i := w][..n] == values[..n];
    }
  }

  /** What one more slot adds to the counts of a prefix, which never pass the count of the whole. */
  lemma {:induction false} CountsOfPrefix(values: seq<Word>, i: nat)
    requires i < |values|
    ensures LiveCount(values[..i + 1]) == LiveCount(values[..i]) + (if Live(values[i]) then 1 else 0)
    ensures LiveCount(values[..i + 1]) <= LiveCount(values)
    decreases |values| - i
  {
    assert values[..i + 1][..i] == values[..i];
    if i + 1 < |values| {
      CountsOfPrefix(values, i + 1);
    } else {
      assert values[..i + 1] == values;
    }
  }

  lemma {:induction false} CountsOfEmpty(values: seq<Word>)
    requires forall i | 0 <= i < |values| :: values[i] == EMPTY
    ensures LiveCount(values) == 0 && TombCount(values) == 0
  {
    if values != [] {
      CountsOfEmpty(values[..|values| - 1]);
    }
  }

  /** A table that is not full of live slots has a slot to fill. */
  lemma {:induction false} FindFree(values: seq<Word>) returns (i: nat)
    requires LiveCount(values) < |values|
    ensures i < |values| && !Live(values[i])
  {
    var n := |values| - 1;
    if !Live(values[n]) {
      i := n;
    } else {
      i := FindFree(values[..n]);
    }
  }

  lemma {:induction false} NoTombs(values: seq<Word>)
    requires TombCount(values) == 0
    ensures forall i | 0 <= i < |values| :: values[i] != DELETED
  {
    if values != [] {
      NoTombs(values[..|values| - 1]);
    }
  }

  lemma {:induction false} HasTomb(values: seq<Word>, i: nat)
    requires i < |values| && values[i] == DELETED
    ensures TombCount(values) > 0
  {
    if i < |values| - 1 {
      HasTomb(values[..|values| - 1], i);
    }
  }

  lemma {:induction false} HasLive(values: seq<Word>, i: nat)
    requires i < |values| && Live(values[i])
    ensures LiveCount(values) > 0
  {
    if i < |values| - 1 {
      HasLive(values[..|values| - 1], i);
    }
  }

  /**
    * What a table is parameterised by: separate keys (dictionaries), counts (bags), the key equality
    * callback, given by the class that it puts each key in, the hash callback, which agrees on equal
    * keys and so is given on classes, and the hashing style.
    */
  datatype Layout = Layout(hasKeys: bool, hasCounts: bool, keyClass: Word -> int, hash: int -> Word, style: Style)

  datatype Slots = Slots(values: seq<Word>, keys: seq<Word>, counts: seq<nat>)

  datatype Entry = Entry(key: Word, value: Word, count: nat)

  /** What a table stands for: an entry for each key class present. */
  type Contents = map<int, Entry>

  predicate Shaped(l: Layout, s: Slots) {
    && |s.keys| == (if l.hasKeys then |s.values| else 0)
    && |s.counts| == (if l.hasCounts then |s.values| else 0)
  }

  function KeyAt(l: Layout, s: Slots, i: nat): Word
    requires Shaped(l, s) && i < |s.values|
  {
    Decode(if l.hasKeys then s.keys[i] else s.values[i])
  }

  function EntryAt(l: Layout, s: Slots, i: nat): Entry
    requires Shaped(l, s) && i < |s.values|
  {
    Entry(KeyAt(l, s, i), Decode(s.values[i]), if l.hasCounts then s.counts[i] else 1)
  }

  function ClassAt(l: Layout, s: Slots, i: nat): int
    requires Shaped(l, s) && i < |s.values|
  {
    l.keyClass(KeyAt(l, s, i))
  }

  predicate LiveAt(s: Slots, i: nat) {
    i < |s.values| && Live(s.values[i])
  }

  /** Slot `i` is the live slot of class `c`. */
  predicate SlotOf(l: Layout, s: Slots, i: nat, c: int)
    requires Shaped(l, s)
  {
    LiveAt(s, i) && ClassAt(l, s, i) == c
  }

  /** The word that a search looks at. */
  function KeySlot(l: Layout, s: Slots, i: nat): Word
    requires Shaped(l, s) && i < |s.values|
  {
    if l.hasKeys then s.keys[i] else s.values[i]
  }

  /** Keys and values are empty or deleted together. */
  predicate Paired(l: Layout, s: Slots)
    requires Shaped(l, s)
  {
    forall i: nat | i < |s.values| ::
      (KeySlot(l, s, i) == EMPTY <==> s.values[i] == EMPTY) && (KeySlot(l, s, i) == DELETED <==> s.values[i] == DELETED)
  }

  /** The slots hold exactly the contents, one live slot for each key class. */
  ghost predicate Models(l: Layout, s: Slots, m: Contents) {
    && Shaped(l, s) && Paired(l, s)
    && (forall i | LiveAt(s, i) :: ClassAt(l, s, i) in m && m[ClassAt(l, s, i)] == EntryAt(l, s, i))
    && (forall i, j | LiveAt(s, i) && LiveAt(s, j) && i != j :: ClassAt(l, s, i) != ClassAt(l, s, j))
    && (forall c | c in m :: exists i :: SlotOf(l, s, i, c))
    && (l.hasCounts ==> forall i | 0 <= i < |s.counts| :: LiveAt(s, i) <==> s.counts[i] > 0)
  }

  /** The slots after writing an encoded key and value, and a count, at `i`. */
  function Write(l: Layout, s: Slots, i: nat, key: Word, value: Word, count: nat): Slots
    requires Shaped(l, s) && i < |s.values|
  {
    Slots(s.values[i := Encode(value)],
          if l.hasKeys then s.keys[i := Encode(key)] else s.keys,
          if l.hasCounts then s.counts[i := count] else s.counts)
  }

  predicate Fits(l: Layout, key: Word, value: Word) {
    Storable(key) && Storable(value) && (!l.hasKeys ==> key == value)
  }

  lemma ModelsShape(l: Layout, s: Slots, m: Contents)
    requires Models(l, s, m)
    ensures Shaped(l, s) && Paired(l, s)
  {
  }

  lemma WrittenEntry(l: Layout, s: Slots, i: nat, key: Word, value: Word, count: nat)
    requires Shaped(l, s) && i < |s.values| && Fits(l, key, value)
    ensures var s' := Write(l, s, i, key, value, count);
      && Shaped(l, s') && |s'.values| == |s.values| && LiveAt(s', i)
      && EntryAt(l, s', i) == Entry(key, value, if l.hasCounts then count else 1)
      && ClassAt(l, s', i) == l.keyClass(key)
      && forall j: nat | j < |s.values| && j != i ::
           (LiveAt(s', j) <==> LiveAt(s, j)) && EntryAt(l, s', j) == EntryAt(l, s, j)
               && ClassAt(l, s', j) == ClassAt(l, s, j)
  {
  }

  /** Filling a free slot with a new key adds its entry. */
  lemma AddModels(l: Layout, s: Slots, m: Contents, i: nat, key: Word, value: Word, count: nat)
    requires Models(l, s, m) && i < |s.values| && !LiveAt(s, i) && Fits(l, key, value)
    requires l.keyClass(key) !in m && count > 0
    ensures Models(l, Write(l, s, i, key, value, count),
                   m[l.keyClass(key) := Entry(key, value, if l.hasCounts then count else 1)])
  {
    WrittenEntry(l, s, i, key, value, count);
    var s' := Write(l, s, i, key, value, count);
    var k := l.keyClass(key);
    var m' := m[k := Entry(key, value, if l.hasCounts then count else 1)];
    forall c | c in m'
      ensures exists j :: SlotOf(l, s', j, c)
    {
      if c == k {
        assert SlotOf(l, s', i, c);
      } else {
        var j :| SlotOf(l, s, j, c);
        assert SlotOf(l, s', j, c);
      }
    }
  }

  /** Overwriting the live slot of a key with an equal key changes its entry. */
  lemma ReplaceModels(l: Layout, s: Slots, m: Contents, i: nat, key: Word, value: Word, count: nat)
    requires Models(l, s, m) && Fits(l, key, value) && count > 0
    requires SlotOf(l, s, i, l.keyClass(key))
    ensures Models(l, Write(l, s, i, key, value, count),
                   m[l.keyClass(key) := Entry(key, value, if l.hasCounts then count else 1)])
  {
    WrittenEntry(l, s, i, key, value, count);
    var s' := Write(l, s, i, key, value, count);
    var k := l.keyClass(key);
    var m' := m[k := Entry(key, value, if l.hasCounts then count else 1)];
    forall c | c in m'
      ensures exists j :: SlotOf(l, s', j, c)
    {
      if c == k {
        assert SlotOf(l, s', i, c);
      } else {
        var j :| SlotOf(l, s, j, c);
        assert SlotOf(l, s', j, c);
      }
    }
  }

  /** The slots after a tombstone is put at `i`. */
  function Erase(l: Layout, s: Slots, i: nat): Slots
    requires Shaped(l, s) && i < |s.values|
  {
    Slots(s.values[i := DELETED],
          if l.hasKeys then s.keys[i := DELETED] else s.keys,
          if l.hasCounts then s.counts[i := 0] else s.counts)
  }

  lemma ErasedEntries(l: Layout, s: Slots, i: nat)
    requires Shaped(l, s) && i < |s.values|
    ensures var s' := Erase(l, s, i);
      && Shaped(l, s') && |s'.values| == |s.values| && !LiveAt(s', i) && (l.hasCounts ==> s'.counts[i] == 0)
      && (Paired(l, s) ==> Paired(l, s'))
      && forall j: nat | j < |s.values| && j != i ::
           && (LiveAt(s', j) <==> LiveAt(s, j)) && (l.hasCounts ==> s'.counts[j] == s.counts[j])
           && EntryAt(l, s', j) == EntryAt(l, s, j) && ClassAt(l, s', j) == ClassAt(l, s, j)
  {
  }

  lemma EraseModels(l: Layout, s: Slots, m: Contents, i: nat)
    requires Models(l, s, m) && LiveAt(s, i)
    ensures ClassAt(l, s, i) in m
    ensures Models(l, Erase(l, s, i), m - {ClassAt(l, s, i)})
  {
    ErasedEntries(l, s, i);
    hide Erase, EntryAt, ClassAt, KeyAt, Paired;
    var s' := Erase(l, s, i);
    var m' := m - {ClassAt(l, s, i)};
    forall c | c in m'
      ensures exists j :: SlotOf(l, s', j, c)
    {
      var j :| SlotOf(l, s, j, c);
      assert SlotOf(l, s', j, c);
    }
  }

  /** The slots after the source's removal, which takes one from the count whatever it was. */
  function EraseOne(l: Layout, s: Slots, i: nat): Slots
    requires Shaped(l, s) && i < |s.values| && (l.hasCounts ==> s.counts[i] > 0)
  {
    Slots(s.values[i := DELETED],
          if l.hasKeys then s.keys[i := DELETED] else s.keys,
          if l.hasCounts then s.counts[i := s.counts[i] - 1] else s.counts)
  }

  /** It removes the entry exactly where the count was one; any other count is left behind on the tombstone. */
  lemma CountIsLeftBehind(l: Layout, s: Slots, m: Contents, i: nat)
    requires Models(l, s, m) && LiveAt(s, i)
    ensures l.hasCounts ==> s.counts[i] > 0
    ensures Models(l, EraseOne(l, s, i), m - {ClassAt(l, s, i)}) <==> l.hasCounts ==> s.counts[i] == 1
  {
    if !l.hasCounts || s.counts[i] == 1 {
      EraseModels(l, s, m, i);
      assert EraseOne(l, s, i) == Erase(l, s, i);
    } else {
      var t := EraseOne(l, s, i);
      assert t.counts[i] > 0 && !LiveAt(t, i);
    }
  }

  /** The slots after the count at `i` is changed. */
  function Recount(s: Slots, i: nat, count: nat): Slots
    requires i < |s.counts|
  {
    s.(counts := s.counts[i := count])
  }

  lemma RecountedEntries(l: Layout, s: Slots, i: nat, count: nat)
    requires Shaped(l, s) && i < |s.counts|
    ensures var s' := Recount(s, i, count);
      && Shaped(l, s') && s'.values == s.values && s'.counts == s.counts[i := count]
      && (Paired(l, s) ==> Paired(l, s')) && i < |s.values|
      && EntryAt(l, s', i) == EntryAt(l, s, i).(count := count)
      && forall j: nat | j < |s.values| ::
           ClassAt(l, s', j) == ClassAt(l, s, j) && (j != i ==> EntryAt(l, s', j) == EntryAt(l, s, j))
  {
  }

  lemma RecountModels(l: Layout, s: Slots, m: Contents, i: nat, count: nat)
    requires Models(l, s, m) && LiveAt(s, i) && l.hasCounts && count > 0
    ensures ClassAt(l, s, i) in m && m[ClassAt(l, s, i)] == EntryAt(l, s, i)
    ensures Models(l, Recount(s, i, count), m[ClassAt(l, s, i) := EntryAt(l, s, i).(count := count)])
  {
    RecountedEntries(l, s, i, count);
    hide Recount, EntryAt, ClassAt, KeyAt, Paired;
    var s' := Recount(s, i, count);
    var k := ClassAt(l, s, i);
    var m' := m[k := EntryAt(l, s, i).(count := count)];
    forall c | c in m'
      ensures exists j :: SlotOf(l, s', j, c)
    {
      var j :| SlotOf(l, s, j, c);
      assert SlotOf(l, s', j, c);
    }
  }

  lemma NoSlotsModelNothing(l: Layout, s: Slots)
    requires Shaped(l, s) && forall i | 0 <= i < |s.values| :: s.values[i] == EMPTY
    requires l.hasKeys ==> forall i | 0 <= i < |s.keys| :: s.keys[i] == EMPTY
    requires l.hasCounts ==> forall i | 0 <= i < |s.counts| :: s.counts[i] == 0
    ensures Models(l, s, map[])
  {
  }

  /** The probes for the hash code `h` come to slot `i` at turn `d`, before any empty slot. */
  ghost predicate PathAt(l: Layout, s: Slots, root: nat, h: Word, i: nat, d: nat)
    requires |s.values| > 1
  {
    && d < |s.values| && ProbeAt(l.style, |s.values|, root, h, d) == i
    && forall e: nat | e < d :: s.values[ProbeAt(l.style, |s.values|, root, h, e)] != EMPTY
  }

  ghost predicate PathTo(l: Layout, s: Slots, root: nat, h: Word, i: nat) {
    |s.values| > 1 && exists d: nat :: PathAt(l, s, root, h, i, d)
  }

  /** The probes for a slot's own key come to it. */
  ghost predicate Reached(l: Layout, s: Slots, root: nat, i: nat)
    requires Shaped(l, s) && i < |s.values|
  {
    PathTo(l, s, root, l.hash(ClassAt(l, s, i)), i)
  }

  ghost predicate AllReached(l: Layout, s: Slots, root: nat)
    requires Shaped(l, s)
  {
    forall i | LiveAt(s, i) :: Reached(l, s, root, i)
  }

  /** No slot has become empty. */
  predicate StaysFilled(s: Slots, t: Slots) {
    |t.values| == |s.values| && forall i | 0 <= i < |s.values| :: s.values[i] != EMPTY ==> t.values[i] != EMPTY
  }

  /** A path outlasts every change that empties no slot. */
  lemma PathStays(l: Layout, s: Slots, t: Slots, root: nat, h: Word, i: nat)
    requires PathTo(l, s, root, h, i) && StaysFilled(s, t)
    ensures PathTo(l, t, root, h, i)
  {
    var d: nat :| PathAt(l, s, root, h, i, d);
    assert PathAt(l, t, root, h, i, d);
  }

  /** Filling or overwriting a slot on the path of its new key keeps all keys reachable. */
  lemma WriteReached(l: Layout, s: Slots, root: nat, i: nat, key: Word, value: Word, count: nat)
    requires Shaped(l, s) && AllReached(l, s, root) && i < |s.values| && Fits(l, key, value)
    requires PathTo(l, s, root, l.hash(l.keyClass(key)), i)
    ensures AllReached(l, Write(l, s, i, key, value, count), root)
  {
    WrittenEntry(l, s, i, key, value, count);
    var t := Write(l, s, i, key, value, count);
    forall j | LiveAt(t, j)
      ensures Reached(l, t, root, j)
    {
      assert j != i ==> Reached(l, s, root, j);
      PathStays(l, s, t, root, l.hash(ClassAt(l, t, j)), j);
    }
  }

  /** A tombstone keeps the keys behind it reachable. */
  lemma EraseReached(l: Layout, s: Slots, root: nat, i: nat)
    requires Shaped(l, s) && AllReached(l, s, root) && i < |s.values|
    ensures AllReached(l, Erase(l, s, i), root)
  {
    var t := Erase(l, s, i);
    forall j | LiveAt(t, j)
      ensures Reached(l, t, root, j)
    {
      assert Reached(l, s, root, j) && ClassAt(l, t, j) == ClassAt(l, s, j);
      PathStays(l, s, t, root, l.hash(ClassAt(l, t, j)), j);
    }
  }

  /**
    * An empty slot would not: behind it a key is lost to the search, though the slots still hold
    * exactly the contents. Here two keys share a hash code, and the first one is taken out.
    */
  lemma EmptyingLosesKeys(root: nat)
    ensures var l := Layout(false, false, (w: Word) => w, (c: int) => 0, Linear);
      var s, t := Slots([5, 7, EMPTY], [], []), Slots([EMPTY, 7, EMPTY], [], []);
      && Models(l, s, map[5 := Entry(5, 5, 1), 7 := Entry(7, 7, 1)]) && AllReached(l, s, root)
      && Models(l, t, map[7 := Entry(7, 7, 1)]) && !AllReached(l, t, root)
  {
    var l := Layout(false, false, (w: Word) => w, (c: int) => 0, Linear);
    var s, t := Slots([5, 7, EMPTY], [], []), Slots([EMPTY, 7, EMPTY], [], []);
    LinearClosedForm(3, root, 0, 0);
    LinearClosedForm(3, root, 0, 1);
    LinearClosedForm(3, root, 0, 2);
    assert SlotOf(l, s, 0, 5) && SlotOf(l, s, 1, 7) && SlotOf(l, t, 1, 7);
    assert PathAt(l, s, root, 0, 0, 0) && PathAt(l, s, root, 0, 1, 1);
    assert !Reached(l, t, root, 1);
  }

  lemma RecountReached(l: Layout, s: Slots, root: nat, i: nat, count: nat)
    requires Shaped(l, s) && AllReached(l, s, root) && i < |s.counts|
    ensures AllReached(l, Recount(s, i, count), root)
  {
    var t := Recount(s, i, count);
    forall j | LiveAt(t, j)
      ensures Reached(l, t, root, j)
    {
      assert Reached(l, s, root, j) && ClassAt(l, t, j) == ClassAt(l, s, j);
      PathStays(l, s, t, root, l.hash(ClassAt(l, t, j)), j);
    }
  }
}
