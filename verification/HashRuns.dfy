/** Whole runs of operations on a CFBasicHash. */
module HashRuns {
  import opened HashCover
  import opened HashProbe
  import opened HashSizes
  import opened HashSlots
  import opened HashState
  import opened HashTable

  datatype Op =
    | Add(key: Word, value: Word)
    | Replace(key: Word, value: Word)
    | Assign(key: Word, value: Word)
    | Remove(key: Word)
    | RemoveAll
    | Reserve(capacity: nat)

  function Step(l: Layout, m: Contents, op: Op): Contents {
    match op
    case Add(key, value) => Added(l, m, key, value)
    case Replace(key, value) => Replaced(l, m, key, value)
    case Assign(key, value) => Assigned(l, m, key, value)
    case Remove(key) => Removed(l, m, key)
    case RemoveAll => map[]
    case Reserve(_) => m
  }

  function After(l: Layout, m: Contents, ops: seq<Op>): Contents
    decreases |ops|
  {
    if ops == [] then m else After(l, Step(l, m, ops[0]), ops[1..])
  }

  /** What the table asks of a caller: storable words, and room for a key that is new. */
  predicate Allowed(l: Layout, m: Contents, maxLoad: nat, largest: nat, op: Op) {
    match op
    case Add(key, value) => Fits(l, key, value) && (l.keyClass(key) in m || |m| < maxLoad)
    case Assign(key, value) => Fits(l, key, value) && (l.keyClass(key) in m || |m| < maxLoad)
    case Replace(key, value) => Fits(l, key, value)
    case Reserve(capacity) => capacity <= largest && (capacity == |m| + 1 ==> |m| < maxLoad)
    case _ => true
  }

  predicate AllAllowed(l: Layout, m: Contents, maxLoad: nat, largest: nat, ops: seq<Op>)
    decreases |ops|
  {
    || ops == []
    || (Allowed(l, m, maxLoad, largest, ops[0]) && AllAllowed(l, Step(l, m, ops[0]), maxLoad, largest, ops[1..]))
  }

  method Perform(t: BasicHash, op: Op)
    requires t.Valid() && Allowed(t.layout, t.contents, t.MaxLoad(), t.LargestCapacity(), op)
    modifies t, t.values, t.keys, t.counts
    ensures t.Valid() && fresh(t.Repr() - old(t.Repr()))
    ensures t.contents == Step(t.layout, old(t.contents), op)
  {
    hide Models, LiveCount, TombCount, Added, Replaced, Assigned, Removed;
    match op
    case Add(key, value) => var _ := t.AddValue(key, value);
    case Replace(key, value) => t.ReplaceValue(key, value);
    case Assign(key, value) => t.SetValue(key, value);
    case Remove(key) => var _ := t.RemoveValue(key);
    case RemoveAll => t.RemoveAllValues();
    case Reserve(capacity) => t.SetCapacity(capacity);
  }

  /** Every run keeps the table sound and refines the same run on maps. */
  method Run(t: BasicHash, ops: seq<Op>)
    requires t.Valid() && AllAllowed(t.layout, t.contents, t.MaxLoad(), t.LargestCapacity(), ops)
    modifies t, t.values, t.keys, t.counts
    ensures t.Valid() && fresh(t.Repr() - old(t.Repr()))
    ensures t.contents == After(t.layout, old(t.contents), ops)
    decreases |ops|
  {
    hide Models, Sound, LiveCount, TombCount, Step, Allowed;
    if ops != [] {
      Perform(t, ops[0]);
      Run(t, ops[1..]);
    }
  }

  /**
    * Every run on a new table with linear probing, as dictionaries, sets and bags have it, gives a sound
    * table that stands for the same run from the empty map.
    */
  method RunLinear(layout: Layout, fastGrow: bool, ops: seq<Op>) returns (t: BasicHash)
    requires layout.style == Linear
    requires AllAllowed(layout, map[], Capacity(NUM_SIZES - if fastGrow then 2 else 1), Capacity(NUM_SIZES - 1), ops)
    ensures fresh(t.Repr()) && t.Valid() && t.layout == layout && t.contents == After(layout, map[], ops)
  {
    hide Models, Sound, LiveCount, TombCount, Step, Allowed, ProbesCover, Capacity;
    LinearProbesCover();
    t := new BasicHash(layout, fastGrow);
    Run(t, ops);
  }

  /** Counts as a table can hold them. */
  predicate WellCounted(l: Layout, m: Contents) {
    forall c | c in m :: 0 < m[c].count <= LONG_MAX && (!l.hasCounts ==> m[c].count == 1)
  }

  lemma TablesAreWellCounted(t: BasicHash)
    requires t.Valid()
    ensures WellCounted(t.layout, t.contents)
  {
    var s := t.Buckets();
    forall c | c in t.contents
      ensures 0 < t.contents[c].count <= LONG_MAX && (!t.layout.hasCounts ==> t.contents[c].count == 1)
    {
      var i :| SlotOf(t.layout, s, i, c);
    }
  }

  /**
    * Removing a key undoes adding it exactly when the key was new, or is counted and the addition
    * did not fill its count: a full count stays full.
    */
  lemma RemoveUndoesAdd(l: Layout, m: Contents, key: Word, value: Word)
    requires WellCounted(l, m) && Fits(l, key, value)
    ensures Removed(l, Added(l, m, key, value), key) == m <==>
            l.keyClass(key) !in m || (l.hasCounts && m[l.keyClass(key)].count != LONG_MAX - 1)
  {
    var k := l.keyClass(key);
    var m' := Added(l, m, key, value);
    if k !in m {
      assert m' - {k} == m;
    } else if l.hasCounts && m[k].count < LONG_MAX - 1 {
      assert Removed(l, m', key)[k] == m[k];
      assert Removed(l, m', key) == m;
    }
  }

  /** The failing case: the addition that fills a count is not undone, since a full count stays full. */
  lemma FullCountStays(l: Layout, key: Word)
    requires l.hasCounts && Storable(key)
    ensures var k := l.keyClass(key);
      var m := map[k := Entry(key, key, LONG_MAX - 1)];
      && Added(l, m, key, key) == map[k := Entry(key, key, LONG_MAX)]
      && Removed(l, Added(l, m, key, key), key) == map[k := Entry(key, key, LONG_MAX)] != m
  {
    var k := l.keyClass(key);
    var m := map[k := Entry(key, key, LONG_MAX - 1)];
    assert m[k].count != Added(l, m, key, key)[k].count;
  }
}
