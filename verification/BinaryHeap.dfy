/** CFBinaryHeap: a heap in an array whose sift loops move a hole instead of swapping. */
module BinaryHeap {
  import opened ArrayDeque

  /** A comparator that says which of two items is greater must be a total preorder. */
  ghost predicate TotalPreorder(greater: (int, int) -> bool) {
    && (forall a, b :: AtMost(greater, a, b) || AtMost(greater, b, a))
    && (forall a, b, c :: AtMost(greater, a, b) && AtMost(greater, b, c) ==> AtMost(greater, a, c))
  }

  predicate AtMost(greater: (int, int) -> bool, a: int, b: int) {
    !greater(a, b)
  }

  function Parent(i: nat): nat
    requires i > 0
  {
    (i - 1) / 2
  }

  /** No parent is greater than its child. */
  ghost predicate Ordered(greater: (int, int) -> bool, s: seq<int>) {
    forall i | 0 < i < |s| :: AtMost(greater, s[Parent(i)], s[i])
  }

  /** Heap order, by the comparator: the parent of bucket `i` is bucket `(i - 1) / 2`. */
  lemma OrderedSays(greater: (int, int) -> bool, s: seq<int>)
    ensures Ordered(greater, s) <==> forall p, i | 0 < i < |s| && p == (i - 1) / 2 :: !greater(s[p], s[i])
  {
    if Ordered(greater, s) {
      forall p, i | 0 < i < |s| && p == (i - 1) / 2
        ensures !greater(s[p], s[i])
      {
        assert AtMost(greater, s[Parent(i)], s[i]);
      }
    } else {
      var i :| 0 < i < |s| && !AtMost(greater, s[Parent(i)], s[i]);
      assert greater(s[(i - 1) / 2], s[i]);
    }
  }

  lemma {:induction false} RootIsMinimum(greater: (int, int) -> bool, s: seq<int>, i: nat)
    requires TotalPreorder(greater) && Ordered(greater, s) && i < |s|
    ensures AtMost(greater, s[0], s[i]) && !greater(s[0], s[i])
  {
    if i == 0 {
      assert AtMost(greater, s[0], s[0]);
    } else {
      RootIsMinimum(greater, s, Parent(i));
    }
  }

  /** A heap but for an item at `i` that may be too small for its place. */
  ghost predicate OrderedAbove(greater: (int, int) -> bool, s: seq<int>, i: nat) {
    && i < |s|
    && (forall j | 0 < j < |s| && j != i :: AtMost(greater, s[Parent(j)], s[j]))
    && (forall j | 0 < j < |s| && Parent(j) == i && i > 0 :: AtMost(greater, s[Parent(i)], s[j]))
  }

  /** A heap but for an item at `i` that may be too great for its place. */
  ghost predicate OrderedBelow(greater: (int, int) -> bool, s: seq<int>, i: nat) {
    && i < |s|
    && (forall j | 0 < j < |s| && Parent(j) != i :: AtMost(greater, s[Parent(j)], s[j]))
    && (forall j | 0 < j < |s| && Parent(j) == i && i > 0 :: AtMost(greater, s[Parent(i)], s[j]))
  }

  function Swapped(s: seq<int>, i: nat, j: nat): (t: seq<int>)
    requires i < |s| && j < |s|
    ensures multiset(t) == multiset(s)
  {
    s[i := s[j]][j := s[i]]
  }

  lemma SiftUp(greater: (int, int) -> bool, s: seq<int>, i: nat)
    requires TotalPreorder(greater) && OrderedAbove(greater, s, i) && i > 0
    requires !AtMost(greater, s[Parent(i)], s[i])
    ensures OrderedAbove(greater, Swapped(s, i, Parent(i)), Parent(i))
  {
    var p, t := Parent(i), Swapped(s, i, Parent(i));
    forall j | 0 < j < |t| && j != p
      ensures AtMost(greater, t[Parent(j)], t[j])
      ensures Parent(j) == p && p > 0 ==> AtMost(greater, t[Parent(p)], t[j])
    {
      assert AtMost(greater, s[i], s[p]);
      if p > 0 {
        assert AtMost(greater, s[Parent(p)], s[p]);
      }
    }
  }

  /** The child of `i` that a sift down continues with. */
  predicate SmallerChild(greater: (int, int) -> bool, s: seq<int>, i: nat, c: nat) {
    && 0 < c < |s| && Parent(c) == i
    && forall j | 0 < j < |s| && Parent(j) == i :: AtMost(greater, s[c], s[j])
  }

  lemma SiftDown(greater: (int, int) -> bool, s: seq<int>, i: nat, c: nat)
    requires TotalPreorder(greater) && OrderedBelow(greater, s, i) && SmallerChild(greater, s, i, c)
    requires AtMost(greater, s[c], s[i])
    ensures OrderedBelow(greater, Swapped(s, i, c), c)
  {
    var t := Swapped(s, i, c);
    forall j | 0 < j < |t|
      ensures Parent(j) != c ==> AtMost(greater, t[Parent(j)], t[j])
      ensures Parent(j) == c ==> AtMost(greater, t[Parent(c)], t[j])
    {
    }
  }

  lemma SiftedDown(greater: (int, int) -> bool, s: seq<int>, i: nat, c: nat)
    requires TotalPreorder(greater) && OrderedBelow(greater, s, i)
    requires 2 * i + 1 < |s| ==> SmallerChild(greater, s, i, c) && !AtMost(greater, s[c], s[i])
    ensures Ordered(greater, s)
  {
    forall j | 0 < j < |s|
      ensures AtMost(greater, s[Parent(j)], s[j])
    {
      if Parent(j) == i {
        assert AtMost(greater, s[i], s[c]) && AtMost(greater, s[c], s[j]);
      }
    }
  }

  /** The items of a bucket array whose hole at `i` stands for `value`. */
  function Hole(a: seq<int>, count: nat, i: nat, value: int): (s: seq<int>)
    requires i < count <= |a|
    ensures |s| == count
  {
    a[..count][i := value]
  }

  lemma HoleMoves(a: seq<int>, count: nat, i: nat, j: nat, value: int)
    requires i < count <= |a| && j < count && i != j
    ensures Hole(a, count, i, value)[j] == a[j] && Hole(a, count, i, value)[i] == value
    ensures Hole(a[i := a[j]], count, j, value) == Swapped(Hole(a, count, i, value), i, j)
  {
  }

  lemma HoleFilled(a: seq<int>, count: nat, i: nat, value: int)
    requires i < count <= |a|
    ensures a[i := value][..count] == Hole(a, count, i, value)
    ensures Hole(a, count, i, value)[i] == value
  {
  }

  /** A sift up from the end of `start` that has its hole at `i`. */
  ghost predicate Rising(greater: (int, int) -> bool, s: seq<int>, i: nat, start: seq<int>) {
    && OrderedAbove(greater, s, i) && multiset(s) == multiset(start)
    && (Ordered(greater, start) ==> s == start)
  }

  lemma RisingStart(greater: (int, int) -> bool, s: seq<int>, value: int)
    requires Ordered(greater, s)
    ensures Rising(greater, s + [value], |s|, s + [value])
  {
    var t := s + [value];
    forall j | 0 < j < |t| && j != |s|
      ensures AtMost(greater, t[Parent(j)], t[j])
    {
      assert AtMost(greater, s[Parent(j)], s[j]);
    }
  }

  lemma RisingStep(greater: (int, int) -> bool, s: seq<int>, i: nat, start: seq<int>)
    requires TotalPreorder(greater) && Rising(greater, s, i, start) && i > 0
    ensures i < |s|
    ensures !AtMost(greater, s[Parent(i)], s[i]) ==> Rising(greater, Swapped(s, i, Parent(i)), Parent(i), start)
  {
    if !AtMost(greater, s[Parent(i)], s[i]) {
      SiftUp(greater, s, i);
      assert !Ordered(greater, s);
    }
  }

  /** A heap of the same items, which are left in place if they were a heap already. */
  ghost predicate Settled(greater: (int, int) -> bool, s: seq<int>, start: seq<int>) {
    && Ordered(greater, s) && multiset(s) == multiset(start)
    && (Ordered(greater, start) ==> s == start)
  }

  lemma Risen(greater: (int, int) -> bool, s: seq<int>, i: nat, start: seq<int>)
    requires Rising(greater, s, i, start)
    ensures i < |s|
    ensures i == 0 || AtMost(greater, s[Parent(i)], s[i]) ==> Settled(greater, s, start)
  {
  }

  /** The state of a sift down that has its hole at `i`. */
  ghost predicate Sinking(greater: (int, int) -> bool, s: seq<int>, i: nat, items: multiset<int>) {
    OrderedBelow(greater, s, i) && multiset(s) == items
  }

  lemma SinkingStart(greater: (int, int) -> bool, a: seq<int>, n: nat)
    requires 0 < n < |a| && Ordered(greater, a[..n + 1])
    ensures Sinking(greater, Hole(a, n, 0, a[n]), 0, multiset(a[..n + 1]) - multiset{a[0]})
  {
    var s, t := a[..n + 1], Hole(a, n, 0, a[n]);
    forall j | 0 < j < |t| && Parent(j) != 0
      ensures AtMost(greater, t[Parent(j)], t[j])
    {
      assert AtMost(greater, s[Parent(j)], s[j]);
    }
    assert s == a[..n] + [a[n]];
  }

  lemma SinkingStep(greater: (int, int) -> bool, s: seq<int>, i: nat, c: nat, items: multiset<int>)
    requires TotalPreorder(greater) && Sinking(greater, s, i, items)
    requires 0 < c < |s| && Parent(c) == i
    requires c == 2 * i + 1 && c + 1 < |s| ==> AtMost(greater, s[c], s[c + 1])
    requires c == 2 * i + 2 ==> !AtMost(greater, s[c - 1], s[c])
    ensures AtMost(greater, s[c], s[i]) ==> Sinking(greater, Swapped(s, i, c), c, items)
    ensures !AtMost(greater, s[c], s[i]) ==> Ordered(greater, s) && multiset(s) == items
  {
    assert AtMost(greater, s[c], s[c]);
    assert c == 2 * i + 2 ==> AtMost(greater, s[c], s[c - 1]);
    assert SmallerChild(greater, s, i, c);
    if AtMost(greater, s[c], s[i]) {
      SiftDown(greater, s, i, c);
    } else {
      SiftedDown(greater, s, i, c);
    }
  }

  lemma SunkToLeaf(greater: (int, int) -> bool, s: seq<int>, i: nat, items: multiset<int>)
    requires TotalPreorder(greater) && Sinking(greater, s, i, items)
    ensures 2 * i + 1 >= |s| ==> Ordered(greater, s) && multiset(s) == items
  {
    if 2 * i + 1 >= |s| {
      SiftedDown(greater, s, i, 0);
    }
  }

  lemma NothingLeft(greater: (int, int) -> bool, s: seq<int>)
    requires |s| == 1
    ensures Ordered(greater, []) && multiset(s) - multiset{s[0]} == multiset{}
  {
    assert s == [s[0]];
  }

  lemma PrefixOrdered(greater: (int, int) -> bool, s: seq<int>, n: nat)
    requires Ordered(greater, s) && n <= |s|
    ensures Ordered(greater, s[..n])
  {
    forall i | 0 < i < n
      ensures AtMost(greater, s[..n][Parent(i)], s[..n][i])
    {
      assert AtMost(greater, s[Parent(i)], s[i]);
    }
  }

  ghost predicate Sorted(greater: (int, int) -> bool, s: seq<int>) {
    forall i, j | 0 <= i < j < |s| :: AtMost(greater, s[i], s[j])
  }

  lemma SortedSays(greater: (int, int) -> bool, s: seq<int>)
    requires Sorted(greater, s)
    ensures forall i, j | 0 <= i < j < |s| :: !greater(s[i], s[j])
  {
    forall i, j | 0 <= i < j < |s|
      ensures !greater(s[i], s[j])
    {
      assert AtMost(greater, s[i], s[j]);
    }
  }

  /** What a drain has taken out, against what is left in the heap. */
  ghost predicate Drained(greater: (int, int) -> bool, out: seq<int>, left: seq<int>, all: seq<int>) {
    && Sorted(greater, out)
    && (forall x, y | x in out && y in left :: AtMost(greater, x, y))
    && multiset(out) + multiset(left) == multiset(all)
  }

  lemma DrainStart(greater: (int, int) -> bool, all: seq<int>)
    ensures Drained(greater, [], all, all)
  {
  }

  lemma DrainStep(greater: (int, int) -> bool, out: seq<int>, s: seq<int>, left: seq<int>, all: seq<int>)
    requires TotalPreorder(greater) && Ordered(greater, s) && Drained(greater, out, s, all) && s != []
    requires multiset(left) == multiset(s) - multiset{s[0]}
    ensures Drained(greater, out + [s[0]], left, all)
  {
    assert forall x | x in out :: AtMost(greater, x, s[0]);
    forall y | y in left
      ensures y in s && AtMost(greater, s[0], y)
    {
      assert y in multiset(left);
      assert y in multiset(s);
      var i :| 0 <= i < |s| && s[i] == y;
      RootIsMinimum(greater, s, i);
    }
    hide Ordered, TotalPreorder;
    assert multiset(out + [s[0]]) == multiset(out) + multiset{s[0]};
    assert s[0] in multiset(s);
  }

  lemma DrainEnd(greater: (int, int) -> bool, out: seq<int>, left: seq<int>, all: seq<int>)
    requires Drained(greater, out, left, all) && left == []
    ensures Sorted(greater, out) && multiset(out) == multiset(all)
  {
  }

  class Heap {
    const greater: (int, int) -> bool
    var count: nat
    var buckets: array<int>

    ghost function Contents(): seq<int>
      requires count <= buckets.Length
      reads this, buckets
    {
      buckets[..count]
    }

    ghost predicate Valid()
      reads this, buckets
    {
      TotalPreorder(greater) && count <= buckets.Length < MAX_CAPACITY + 1 && Ordered(greater, Contents())
    }

    constructor (greater: (int, int) -> bool)
      requires TotalPreorder(greater)
      ensures Valid() && fresh(buckets) && Contents() == [] && this.greater == greater
      ensures buckets.Length == RoundUpCapacity(1)
    {
      this.greater := greater;
      count := 0;
      buckets := new int[RoundUpCapacity(1)];
    }

    /** `__CFBinaryHeapGrow` */
    method Grow()
      requires Valid() && count + 1 < MAX_CAPACITY
      modifies this`buckets
      ensures Valid() && fresh(buckets) && Contents() == old(Contents())
      ensures count < buckets.Length == RoundUpCapacity(count + 1)
    {
      RoundUpBounds(count + 1);
      var grown := new int[RoundUpCapacity(count + 1)];
      forall i | 0 <= i < count {
        grown[i] := buckets[i];
      }
      buckets := grown;
    }

    /** Moves a hole for `value` up from the last bucket until its parent is not greater, and fills it. */
    method SiftHoleUp(value: int)
      requires TotalPreorder(greater) && 0 < count <= buckets.Length && Ordered(greater, buckets[..count - 1])
      modifies buckets
      ensures Settled(greater, buckets[..count], old(buckets[..count - 1]) + [value])
    {
      hide Ordered, TotalPreorder, Rising, AtMost, Swapped, Settled;
      ghost var start := buckets[..count - 1] + [value];
      RisingStart(greater, buckets[..count - 1], value);
      var idx := count - 1;
      assert Hole(buckets[..], count, idx, value) == start;
      hide Hole;
      while 0 < idx
        invariant 0 <= idx < count
        invariant Rising(greater, Hole(buckets[..], count, idx, value), idx, start)
      {
        var pidx := (idx - 1) / 2;
        RisingStep(greater, Hole(buckets[..], count, idx, value), idx, start);
        HoleMoves(buckets[..], count, idx, pidx, value);
        var item := buckets[pidx];
        if AtMost(greater, item, value) {
          break;
        }
        ghost var a := buckets[..];
        buckets[idx] := item;
        assert buckets[..] == a[idx := item];
        idx := pidx;
      }
      ghost var a := buckets[..];
      Risen(greater, Hole(a, count, idx, value), idx, start);
      HoleFilled(a, count, idx, value);
      buckets[idx] := value;
      assert buckets[..] == a[idx := value];
      assert buckets[..count] == buckets[..][..count];
    }

    /** `CFBinaryHeapAddValue`; a value that is not less than its parent stays where it was put. */
    method AddValue(value: int)
      requires Valid() && count + 1 < MAX_CAPACITY
      modifies this, buckets
      ensures Valid() && (buckets == old(buckets) || fresh(buckets))
      ensures count == old(count) + 1 && multiset(Contents()) == multiset(old(Contents())) + multiset{value}
      ensures Ordered(greater, old(Contents()) + [value]) ==> Contents() == old(Contents()) + [value]
    {
      hide Ordered, TotalPreorder;
      if count == buckets.Length {
        Grow();
      }
      count := count + 1;
      SiftHoleUp(value);
    }

    /** Moves a hole for `value` down from the root until no child is smaller, and fills it. */
    method SiftHoleDown(value: int, ghost items: multiset<int>)
      requires TotalPreorder(greater) && 0 < count <= buckets.Length
      requires Sinking(greater, Hole(buckets[..], count, 0, value), 0, items)
      modifies buckets
      ensures Ordered(greater, buckets[..count]) && multiset(buckets[..count]) == items
    {
      hide Ordered, TotalPreorder, Sinking, AtMost, Swapped, Hole;
      var idx := 0;
      var cidx := 1;
      while cidx < count
        invariant 0 <= idx < count && cidx == 2 * idx + 1
        invariant Sinking(greater, Hole(buckets[..], count, idx, value), idx, items)
        decreases count - idx
      {
        ghost var a := buckets[..];
        var item := buckets[cidx];
        HoleMoves(a, count, idx, cidx, value);
        if cidx + 1 < count {
          var item2 := buckets[cidx + 1];
          HoleMoves(a, count, idx, cidx + 1, value);
          if !AtMost(greater, item, item2) {
            cidx := cidx + 1;
            item := item2;
          }
        }
        SinkingStep(greater, Hole(a, count, idx, value), idx, cidx, items);
        if !AtMost(greater, item, value) {
          break;
        }
        buckets[idx] := item;
        assert buckets[..] == a[idx := item];
        idx := cidx;
        cidx := 2 * idx + 1;
      }
      ghost var a := buckets[..];
      SunkToLeaf(greater, Hole(a, count, idx, value), idx, items);
      HoleFilled(a, count, idx, value);
      buckets[idx] := value;
      assert buckets[..] == a[idx := value];
      assert buckets[..count] == buckets[..][..count];
    }

    lemma RootIsLeast()
      requires Valid()
      ensures forall i | 0 <= i < count :: !greater(Contents()[0], Contents()[i])
    {
      hide Ordered, TotalPreorder;
      ghost var s := Contents();
      forall i | 0 <= i < |s|
        ensures !greater(s[0], s[i])
      {
        RootIsMinimum(greater, s, i);
      }
    }

    /** `CFBinaryHeapRemoveMinimumValue` */
    method RemoveMinimumValue()
      requires Valid()
      modifies this`count, buckets
      ensures Valid() && count == if old(count) == 0 then 0 else old(count) - 1
      ensures old(count) > 0 ==> multiset(Contents()) == multiset(old(Contents())) - multiset{old(Contents())[0]}
      ensures forall i | 0 <= i < old(count) :: !greater(old(Contents())[0], old(Contents())[i])
    {
      RootIsLeast();
      hide Ordered, TotalPreorder, Sinking, Hole;
      if count == 0 {
        return;
      }
      ghost var s := Contents();
      count := count - 1;
      var value := buckets[count];
      if count == 0 {
        buckets[0] := value;
        NothingLeft(greater, s);
      } else {
        assert buckets[..][..count + 1] == s;
        SinkingStart(greater, buckets[..], count);
        SiftHoleDown(value, multiset(s) - multiset{s[0]});
      }
    }

    /** `CFBinaryHeapGetMinimumIfPresent` */
    method GetMinimumIfPresent() returns (present: bool, value: int)
      requires Valid()
      ensures present <==> Contents() != []
      ensures present ==> value == Contents()[0] && forall i | 0 <= i < count :: !greater(value, Contents()[i])
    {
      if count == 0 {
        return false, 0;
      }
      RootIsLeast();
      return true, buckets[0];
    }

    /** `CFBinaryHeapCreateCopy`: adding the items of a heap in bucket order moves none of them. */
    method CreateCopy() returns (copy: Heap)
      requires Valid() && count + 1 < MAX_CAPACITY
      ensures fresh(copy) && fresh(copy.buckets) && copy.Valid() && copy.greater == greater
      ensures copy.Contents() == Contents()
    {
      hide Ordered, TotalPreorder;
      copy := new Heap(greater);
      var idx := 0;
      while idx < count
        invariant idx <= count && Valid() && copy.Valid() && fresh(copy) && fresh(copy.buckets)
        invariant copy.greater == greater && copy.Contents() == Contents()[..idx]
      {
        PrefixOrdered(greater, Contents(), idx + 1);
        assert Contents()[..idx] + [buckets[idx]] == Contents()[..idx + 1];
        copy.AddValue(buckets[idx]);
        idx := idx + 1;
      }
    }

    /** One turn of a drain: the minimum, which is removed. */
    method TakeMinimum(ghost out: seq<int>, ghost all: seq<int>) returns (value: int)
      requires Valid() && count > 0 && Drained(greater, out, Contents(), all)
      modifies this`count, buckets
      ensures Valid() && count == old(count) - 1 && value == old(Contents()[0])
      ensures Drained(greater, out + [value], Contents(), all)
    {
      hide Ordered, TotalPreorder, Sorted, Drained;
      ghost var s := Contents();
      value := buckets[0];
      RemoveMinimumValue();
      DrainStep(greater, out, s, Contents(), all);
    }

    /** `CFBinaryHeapGetValues`: drains a copy, which sorts, and leaves this heap as it is. */
    method GetValues(values: array<int>)
      requires Valid() && count + 1 < MAX_CAPACITY
      requires count <= values.Length && values != buckets
      modifies values
      ensures Valid() && Contents() == old(Contents())
      ensures forall i, j | 0 <= i < j < count :: !greater(values[i], values[j])
      ensures Sorted(greater, values[..count]) && multiset(values[..count]) == multiset(Contents())
      ensures values[count..] == old(values[count..])
    {
      hide Ordered, TotalPreorder, Sorted, Drained;
      ghost var all, before := Contents(), values[..];
      DrainStart(greater, all);
      if count == 0 {
        DrainEnd(greater, [], all, all);
        SortedSays(greater, values[..0]);
        return;
      }
      var copy := CreateCopy();
      var idx := 0;
      while 0 < copy.count
        invariant copy.Valid() && fresh(copy) && fresh(copy.buckets) && copy.greater == greater
        invariant Contents() == all && idx + copy.count == count
        invariant Drained(greater, values[..idx], copy.Contents(), all)
        invariant values[count..] == before[count..]
        decreases copy.count
      {
        ghost var out, s := values[..idx], copy.Contents();
        values[idx] := copy.TakeMinimum(out, all);
        assert values[..idx + 1] == out + [s[0]];
        idx := idx + 1;
      }
      DrainEnd(greater, values[..idx], copy.Contents(), all);
      SortedSays(greater, values[..count]);
    }
  }
}
