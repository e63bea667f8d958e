/** CFArray.c: the mutable array over a centred deque. */
module ArrayDeque {

  /** Stored pointers; 0 is NULL. */
  type Value = nat

  const NULL: Value := 0

  /** What the retain and release callbacks were called with. */
  datatype Event = Retain(v: Value) | Release(v: Value)

  /** Largest count for which the capacity arithmetic stays within a C int. */
  const MAX_COUNT: nat := 0x3fff_0000
  const MAX_CAPACITY: nat := 0x4000_0000

  function Pow2(n: nat): (p: nat)
    ensures p > 0
  {
    if n == 0 then 1 else 2 * Pow2(n - 1)
  }

  /** `flsl`: the number of binary digits. */
  function Flsl(n: nat): nat {
    if n == 0 then 0 else 1 + Flsl(n / 2)
  }

  lemma {:induction false} FlslBounds(n: nat)
    ensures n < Pow2(Flsl(n))
    ensures n > 0 ==> Flsl(n) > 0 && Pow2(Flsl(n) - 1) <= n
  {
    if n > 0 {
      FlslBounds(n / 2);
      if n / 2 > 0 {
        assert Pow2(Flsl(n) - 1) == 2 * Pow2(Flsl(n / 2) - 1);
      }
    }
  }

  lemma {:induction false} Pow2Monotone(a: nat, b: nat)
    requires a <= b
    ensures Pow2(a) <= Pow2(b)
  {
    if a < b {
      Pow2Monotone(a, b - 1);
    }
  }

  /** `__CFArrayDequeRoundUpCapacity`. */
  function RoundUpCapacity(capacity: nat): nat {
    if capacity < 4 then 4 else Pow2(Flsl(capacity))
  }

  lemma RoundUpBounds(capacity: nat)
    requires capacity < MAX_CAPACITY
    ensures capacity < RoundUpCapacity(capacity) <= MAX_CAPACITY
    ensures capacity >= 4 ==> RoundUpCapacity(capacity) <= 2 * capacity
    ensures if capacity < 4 then RoundUpCapacity(capacity) == 4
            else exists k :: RoundUpCapacity(capacity) == Pow2(k)
  {
    FlslBounds(capacity);
    if capacity >= 4 {
      assert Pow2(Flsl(capacity)) == 2 * Pow2(Flsl(capacity) - 1);
      if Flsl(capacity) > 30 {
        Pow2Monotone(30, Flsl(capacity) - 1);
        assert Pow2(30) == MAX_CAPACITY by { Pow2Of30(); }
      } else {
        Pow2Monotone(Flsl(capacity), 30);
        Pow2Of30();
      }
    }
  }

  lemma Pow2Of30()
    ensures Pow2(30) == MAX_CAPACITY
  {
    Pow2Adds(10, 10);
    Pow2Adds(20, 10);
    assert Pow2(10) == 1024;
  }

  lemma {:induction false} Pow2Adds(a: nat, b: nat)
    ensures Pow2(a + b) == Pow2(a) * Pow2(b)
  {
    if b > 0 {
      Pow2Adds(a, b - 1);
      assert Pow2(a) * Pow2(b) == 2 * (Pow2(a) * Pow2(b - 1));
    }
  }

  /** Outside the window of `n` slots at `left`, a slot is NULL or as allocated. */
  ghost predicate Clean(s: seq<Value>, initial: seq<Value>, left: nat, n: nat)
    requires |s| == |initial|
  {
    forall k | 0 <= k < |s| && !(left <= k < left + n) :: s[k] == NULL || s[k] == initial[k]
  }

  /** `s` holds the contents `c` in a window at `left`, opened up at `loc` for `newCount` in place of `len`. */
  ghost predicate Opened(s: seq<Value>, left: nat, c: seq<Value>, loc: nat, len: nat, newCount: nat)
    requires loc + len <= |c| && left + |c| - len + newCount <= |s|
  {
    && (forall k | left <= k < left + loc :: s[k] == c[k - left])
    && (forall k | left + loc + newCount <= k < left + |c| - len + newCount ::
          s[k] == c[k - left - newCount + len])
  }

  /** The slots of `s` after `n` values from `from` in `src` were copied to `to`. */
  ghost predicate Moved(s: seq<Value>, s': seq<Value>, to: nat, src: seq<Value>, from: nat, n: nat)
    requires to + n <= |s| && from + n <= |src|
  {
    && |s'| == |s|
    && (forall k | to <= k < to + n :: s'[k] == src[k - to + from])
    && (forall k | 0 <= k < |s| && !(to <= k < to + n) :: s'[k] == s[k])
  }

  ghost predicate Zeroed(s: seq<Value>, s': seq<Value>, from: nat, n: nat)
    requires from + n <= |s|
  {
    && |s'| == |s|
    && (forall k | from <= k < from + n :: s'[k] == NULL)
    && (forall k | 0 <= k < |s| && !(from <= k < from + n) :: s'[k] == s[k])
  }

  ghost predicate Cleared(s: seq<Value>, s': seq<Value>, from: nat, n: int)
    requires n > 0 ==> from + n <= |s|
  {
    if n > 0 then Zeroed(s, s', from, n) else s' == s
  }

  lemma ZeroedWindow(s: seq<Value>, s': seq<Value>, initial: seq<Value>, left: nat, n: nat, loc: nat, len: nat)
    requires loc + len <= n && left + n <= |s| == |initial|
    requires Zeroed(s, s', left + loc, len) && Clean(s, initial, left, n)
    ensures |s'| == |s| && Clean(s', initial, left, n)
    ensures var w, w' := s[left..left + n], s'[left..left + n];
      forall i | 0 <= i < n && !(loc <= i < loc + len) :: w'[i] == w[i]
    ensures s[left + loc..left + loc + len] == s[left..left + n][loc..loc + len]
  {
    var want, w := s[left + loc..left + loc + len], s[left..left + n];
    forall i | 0 <= i < len
      ensures want[i] == w[loc..loc + len][i]
    {
    }
  }

  lemma Reallocated(s: seq<Value>, initial: seq<Value>, s1: seq<Value>, s2: seq<Value>, L: nat, newL: nat,
      c: seq<Value>, loc: nat, len: nat, newCount: nat)
    requires loc + len <= |c| && L + |c| <= |s| && newL + |c| - len + newCount <= |initial|
    requires c == s[L..L + |c|]
    requires Moved(initial, s1, newL, s, L, loc)
    requires Moved(s1, s2, newL + loc + newCount, s, L + loc + len, |c| - loc - len)
    ensures Opened(s2, newL, c, loc, len, newCount) && Clean(s2, initial, newL, |c| - len + newCount)
  {
  }

  lemma MovedRight(s: seq<Value>, s1: seq<Value>, s2: seq<Value>, initial: seq<Value>, L: nat, c: seq<Value>,
      loc: nat, len: nat, newCount: nat)
    requires loc + len <= |c| && L + |c| <= |s| == |initial| && L + |c| - len + newCount <= |s|
    requires c == s[L..L + |c|] && Clean(s, initial, L, |c|)
    requires Moved(s, s1, L + loc + newCount, s, L + loc + len, |c| - loc - len)
    requires Cleared(s1, s2, L + |c| - len + newCount, len - newCount)
    ensures Opened(s2, L, c, loc, len, newCount) && Clean(s2, initial, L, |c| - len + newCount)
  {
  }

  lemma MovedLeft(s: seq<Value>, s1: seq<Value>, s2: seq<Value>, initial: seq<Value>, L: nat, c: seq<Value>, loc: nat,
      len: nat, newCount: nat)
    requires loc + len <= |c| && L + |c| <= |s| == |initial| && newCount <= len + L
    requires c == s[L..L + |c|] && Clean(s, initial, L, |c|)
    requires Moved(s, s1, L + len - newCount, s, L, loc)
    requires Cleared(s1, s2, L, len - newCount)
    ensures Opened(s2, L + len - newCount, c, loc, len, newCount)
    ensures Clean(s2, initial, L + len - newCount, |c| - len + newCount)
  {
  }

  lemma RecenteredLeft(s: seq<Value>, s1: seq<Value>, s2: seq<Value>, s3: seq<Value>, initial: seq<Value>,
                       L: nat, newL: nat, c: seq<Value>, loc: nat, len: nat, newCount: nat)
    requires loc + len <= |c| && L + |c| <= |s| == |initial| && newL + |c| - len + newCount <= |s|
    requires newL < L && len <= newCount
    requires c == s[L..L + |c|] && Clean(s, initial, L, |c|)
    requires Moved(s, s1, newL, s, L, loc)
    requires Moved(s1, s2, newL + loc + newCount, s1, L + loc + len, |c| - loc - len)
    requires Cleared(s2, s3, newL + |c| - len + newCount, L + len - newL - newCount)
    ensures Opened(s3, newL, c, loc, len, newCount) && Clean(s3, initial, newL, |c| - len + newCount)
  {
    forall k | newL + loc + newCount <= k < newL + |c| - len + newCount
      ensures s3[k] == c[k - newL - newCount + len]
    {
      var j := k - (newL + loc + newCount) + (L + loc + len);
      assert s2[k] == s1[j] && s1[j] == s[j];
    }
    forall k | newL <= k < newL + loc
      ensures s3[k] == c[k - newL]
    {
      assert s3[k] == s2[k] == s1[k] == s[k - newL + L];
    }
  }

  lemma RecenteredRight(s: seq<Value>, s1: seq<Value>, s2: seq<Value>, s3: seq<Value>, initial: seq<Value>,
                        L: nat, newL: nat, c: seq<Value>, loc: nat, len: nat, newCount: nat)
    requires loc + len <= |c| && L + |c| <= |s| == |initial| && newL + |c| - len + newCount <= |s|
    requires L <= newL && len <= newCount
    requires c == s[L..L + |c|] && Clean(s, initial, L, |c|)
    requires Moved(s, s1, newL + loc + newCount, s, L + loc + len, |c| - loc - len)
    requires Moved(s1, s2, newL, s1, L, loc)
    requires Cleared(s2, s3, L, newL - L)
    ensures Opened(s3, newL, c, loc, len, newCount) && Clean(s3, initial, newL, |c| - len + newCount)
  {
    forall k | newL <= k < newL + loc
      ensures s3[k] == c[k - newL]
    {
      var j := k - newL + L;
      assert s3[k] == s2[k] == s1[j] && s1[j] == s[j];
    }
    forall k | newL + loc + newCount <= k < newL + |c| - len + newCount
      ensures s3[k] == c[k - newL - newCount + len]
    {
      assert s3[k] == s2[k] == s1[k] == s[k - (newL + loc + newCount) + (L + loc + len)];
    }
  }

  /** `struct __CFArrayDeque`. */
  class Deque {
    var leftIdx: nat
    const buckets: array<Value>
    ghost const initial: seq<Value>   // what allocation left in the buckets

    constructor (capacity: nat, leftIdx: nat)
      ensures this.leftIdx == leftIdx && buckets.Length == capacity && fresh(buckets)
      ensures initial == buckets[..]
    {
      var memory := new Value[capacity];
      this.leftIdx, this.buckets := leftIdx, memory;
      this.initial := memory[..];
    }

    /** `memmove` between bucket arrays: correct for overlapping regions. */
    static method Move(dst: array<Value>, to: nat, src: array<Value>, from: nat, n: nat)
      requires to + n <= dst.Length && from + n <= src.Length
      modifies dst
      ensures Moved(old(dst[..]), dst[..], to, old(src[..]), from, n)
    {
      forall i | 0 <= i < n {
        dst[to + i] := src[from + i];
      }
      forall k | to <= k < to + n
        ensures dst[k] == old(src[k - to + from])
      {
        assert dst[to + (k - to)] == old(src[from + (k - to)]);
      }
    }

    /** `memset` with zero of `n` newly exposed buckets, if any. */
    static method Zero(dst: array<Value>, from: nat, n: int)
      requires n > 0 ==> from + n <= dst.Length
      modifies dst
      ensures Cleared(old(dst[..]), dst[..], from, n)
    {
      if n > 0 {
        forall i | from <= i < from + n {
          dst[i] := NULL;
        }
      }
    }
  }

  class MutableArray {
    var count: nat
    var mutations: nat
    var store: Deque?
    const retains: bool                    // a retain callback is present
    const releases: bool                   // a release callback is present
    const retained: Value -> Value         // what the retain callback returns
    var events: seq<Event>                 // callback invocations so far

    /** The array and its store. */
    ghost function Repr(): set<object>
      reads this
    {
      {this} + if store == null then {} else {store, store.buckets}
    }

    /** The live window lies inside the buckets. */
    ghost predicate Shaped()
      reads this, store
    {
      if store == null then count == 0
      else
        && store.leftIdx + count <= store.buckets.Length <= MAX_CAPACITY
        && |store.initial| == store.buckets.Length
    }

    /** No stale pointers: outside the window, a bucket is NULL or as allocated. */
    ghost predicate SlackClean()
      reads this, store, if store == null then {} else {store.buckets}
      requires Shaped()
    {
      store != null ==> Clean(store.buckets[..], store.initial, store.leftIdx, count)
    }

    ghost predicate Valid()
      reads this, store, if store == null then {} else {store.buckets}
    {
      Shaped() && SlackClean()
    }

    /** The sequence the array stands for. */
    ghost function Contents(): (s: seq<Value>)
      reads this, store, if store == null then {} else {store.buckets}
      requires Shaped()
      ensures |s| == count
    {
      if store == null then [] else store.buckets[store.leftIdx..store.leftIdx + count]
    }

    constructor (retains: bool, releases: bool, retained: Value -> Value)
      ensures Valid() && Contents() == [] && events == [] && store == null
      ensures this.retains == retains && this.releases == releases && this.retained == retained
    {
      this.count, this.mutations, this.store, this.events := 0, 0, null, [];
      this.retains, this.releases, this.retained := retains, releases, retained;
    }

    function Wiggle(capacity: nat): nat {
      if capacity / 0x2_0000 < 4 then 4 else capacity / 0x2_0000
    }

    /** The window has been opened up for `newCount` values in place of the range. */
    twostate predicate Repositioned(loc: nat, len: nat, newCount: nat)
      reads this, store, if store == null then {} else {store.buckets}
      requires old(Shaped()) && old(store) != null && loc + len <= old(count)
    {
      var futureCnt := old(count) - len + newCount;
      && store != null && count == old(count)
      && store.leftIdx + futureCnt <= store.buckets.Length <= MAX_CAPACITY
      && |store.initial| == store.buckets.Length
      && Opened(store.buckets[..], store.leftIdx, old(Contents()), loc, len, newCount)
      && Clean(store.buckets[..], store.initial, store.leftIdx, futureCnt)
    }

    /** First branch: allocate, and centre. */
    method Reallocate(loc: nat, len: nat, newCount: nat)
      requires Valid() && store != null && loc + len <= count && count - len + newCount <= MAX_COUNT
      modifies this`store
      ensures Repositioned(loc, len, newCount)
      ensures fresh(store) && fresh(store.buckets)
      ensures var futureCnt := count - len + newCount; var right := store.buckets.Length - store.leftIdx - futureCnt;
        && store.buckets.Length == RoundUpCapacity(futureCnt + Wiggle(old(store.buckets.Length)))
        && store.leftIdx <= right <= store.leftIdx + 1
    {
      hide Opened, Clean, Moved, Zeroed;
      var cnt, L, A, B, C := count, store.leftIdx, loc, len, count - len - loc;
      var futureCnt := cnt - len + newCount;
      var wiggle := Wiggle(store.buckets.Length);
      RoundUpBounds(futureCnt + wiggle);
      var capacity := RoundUpCapacity(futureCnt + wiggle);
      var newL := (capacity - futureCnt) / 2;
      var newDeque := new Deque(capacity, newL);
      Deque.Move(newDeque.buckets, newL, store.buckets, L, A);
      ghost var s1 := newDeque.buckets[..];
      Deque.Move(newDeque.buckets, newL + A + newCount, store.buckets, L + A + B, C);
      Reallocated(store.buckets[..], newDeque.initial, s1, newDeque.buckets[..], L, newL, Contents(), loc, len,
          newCount);
      store := newDeque;
    }

    /** Second branch: move the values to the right of the range. */
    method MoveC(loc: nat, len: nat, newCount: nat)
      requires Valid() && store != null && loc + len <= count
      requires newCount <= len + (store.buckets.Length - count - store.leftIdx)
      modifies store.buckets
      ensures Repositioned(loc, len, newCount)
    {
      hide Opened, Clean, Moved, Cleared;
      ghost var s, c := store.buckets[..], Contents();
      var L, A, B, C := store.leftIdx, loc, len, count - len - loc;
      var oldC0, newC0 := L + A + B, L + A + newCount;
      Deque.Move(store.buckets, newC0, store.buckets, oldC0, C);
      ghost var s1 := store.buckets[..];
      Deque.Zero(store.buckets, newC0 + C, oldC0 - newC0);
      MovedRight(s, s1, store.buckets[..], store.initial, L, c, loc, len, newCount);
    }

    /** Third branch: move the values to the left of the range. */
    method MoveA(loc: nat, len: nat, newCount: nat)
      requires Valid() && store != null && loc + len <= count
      requires newCount <= len + store.leftIdx
      modifies store`leftIdx, store.buckets
      ensures Repositioned(loc, len, newCount)
      ensures store.leftIdx + newCount == old(store.leftIdx) + len
    {
      hide Opened, Clean, Moved, Cleared;
      ghost var s, c := store.buckets[..], Contents();
      var oldL, A := store.leftIdx, loc;
      var newL := oldL + len - newCount;
      store.leftIdx := newL;
      Deque.Move(store.buckets, newL, store.buckets, oldL, A);
      ghost var s1 := store.buckets[..];
      Deque.Zero(store.buckets, oldL, newL - oldL);
      MovedLeft(s, s1, store.buckets[..], store.initial, oldL, c, loc, len, newCount);
    }

    /** Last branch, shifting left: A goes first. */
    method RecenterLeft(loc: nat, len: nat, newCount: nat, newL: nat)
      requires Valid() && store != null && loc + len <= count
      requires len <= newCount && newL < store.leftIdx
      requires newL + count - len + newCount <= store.buckets.Length
      modifies store`leftIdx, store.buckets
      ensures Repositioned(loc, len, newCount)
    {
      hide Opened, Clean, Moved, Cleared;
      ghost var s, c := store.buckets[..], Contents();
      var oldL, A, B, C := store.leftIdx, loc, len, count - len - loc;
      var oldC0, newC0 := oldL + A + B, newL + A + newCount;
      store.leftIdx := newL;
      Deque.Move(store.buckets, newL, store.buckets, oldL, A);
      ghost var s1 := store.buckets[..];
      Deque.Move(store.buckets, newC0, store.buckets, oldC0, C);
      ghost var s2 := store.buckets[..];
      Deque.Zero(store.buckets, newC0 + C, oldC0 - newC0);
      RecenteredLeft(s, s1, s2, store.buckets[..], store.initial, oldL, newL, c, loc, len, newCount);
    }

    /** Last branch, shifting right or not at all: C goes first. */
    method RecenterRight(loc: nat, len: nat, newCount: nat, newL: nat)
      requires Valid() && store != null && loc + len <= count
      requires len <= newCount && store.leftIdx <= newL
      requires newL + count - len + newCount <= store.buckets.Length
      modifies store`leftIdx, store.buckets
      ensures Repositioned(loc, len, newCount)
    {
      hide Opened, Clean, Moved, Cleared;
      ghost var s, c := store.buckets[..], Contents();
      var oldL, A, B, C := store.leftIdx, loc, len, count - len - loc;
      var oldC0, newC0 := oldL + A + B, newL + A + newCount;
      store.leftIdx := newL;
      Deque.Move(store.buckets, newC0, store.buckets, oldC0, C);
      ghost var s1 := store.buckets[..];
      Deque.Move(store.buckets, newL, store.buckets, oldL, A);
      ghost var s2 := store.buckets[..];
      Deque.Zero(store.buckets, oldL, newL - oldL);
      RecenteredRight(s, s1, s2, store.buckets[..], store.initial, oldL, newL, c, loc, len, newCount);
    }

    /** Last branch: move both sides, in the order that keeps them from overwriting each other. */
    method Recenter(loc: nat, len: nat, newCount: nat)
      requires Valid() && store != null && loc + len <= count
      requires len <= newCount && count - len + newCount <= store.buckets.Length
      modifies store`leftIdx, store.buckets
      ensures Repositioned(loc, len, newCount)
    {
      hide Opened, Clean;
      var oldL := store.leftIdx;
      var R := store.buckets.Length - count - oldL;
      var newL := (oldL + R - (newCount - len)) / 2;
      newL := newL - newL / 2;
      if newL < oldL {
        RecenterLeft(loc, len, newCount, newL);
      } else {
        RecenterRight(loc, len, newCount, newL);
      }
    }

    /** `__CFArrayRepositionDequeRegions`. */
    method RepositionDequeRegions(loc: nat, len: nat, newCount: nat)
      requires Valid() && store != null && loc + len <= count && newCount != len
      requires count - len + newCount <= MAX_COUNT
      modifies this`store, store`leftIdx, store.buckets
      ensures Repositioned(loc, len, newCount)
      ensures (store == old(store) && store.buckets == old(store.buckets)) || (fresh(store) && fresh(store.buckets))
      ensures var capacity, future := old(store.buckets.Length), count - len + newCount;
        store == old(store) <==>
          && future <= capacity
          && (future <= count || (if capacity / 0x2_0000 < 4 then 4 else capacity / 0x2_0000) <= capacity - count)
    {
      var capacity := store.buckets.Length;
      var futureCnt := count - len + newCount;
      var L, A := store.leftIdx, loc;
      var C := count - len - A;
      var R := capacity - count - L;
      var numNewElems := newCount - len;
      var wiggle := Wiggle(capacity);
      if capacity < futureCnt || (count < futureCnt && L + R < wiggle) {
        Reallocate(loc, len, newCount);
      } else if (numNewElems < 0 && C < A) || (numNewElems <= R && C < A) {
        MoveC(loc, len, newCount);
      } else if numNewElems < 0 || (numNewElems <= L && A <= C) {
        MoveA(loc, len, newCount);
      } else {
        Recenter(loc, len, newCount);
      }
    }

    /** What is stored for the given values. */
    function Stored(values: seq<Value>): (s: seq<Value>)
      ensures |s| == |values|
    {
      if retains then seq(|values|, i requires 0 <= i < |values| => retained(values[i])) else values
    }

    function Retains(values: seq<Value>): seq<Event> {
      if retains then RetainAll(Stored(values)) else []
    }

    function Releases(values: seq<Value>): seq<Event> {
      if releases then ReleaseAll(values) else []
    }

    lemma EmptyMiddle<T>(a: seq<T>, b: seq<T>)
      ensures a + [] + b == a + b
    {
    }

    /** A value is stored as it is, or as the callback returns it, and logged only if there is a callback. */
    lemma StoredOne(value: Value)
      ensures Stored([value]) == [if retains then retained(value) else value]
      ensures Retains([value]) == if retains then [Retain(retained(value))] else []
      ensures Releases([value]) == if releases then [Release(value)] else []
    {
    }

    /** The contents of a splice, value by value. */
    lemma ContentsSay(c: seq<Value>, loc: nat, len: nat, values: seq<Value>, now: seq<Value>)
      requires loc + len <= |c| && now == c[..loc] + Stored(values) + c[loc + len..]
      ensures |now| == |c| - len + |values| && now[..loc] == c[..loc] && now[loc + |values|..] == c[loc + len..]
      ensures !retains ==> now[loc..loc + |values|] == values
      ensures retains ==> forall j | loc <= j < loc + |values| :: now[j] == retained(values[j - loc])
    {
    }

    /** Its log, callback by callback: first what comes in, then what goes out. */
    lemma LogSays(log: seq<Event>, values: seq<Value>, out: seq<Value>, after: seq<Event>)
      requires after == log + Retains(values) + Releases(out)
      ensures var mid := |log| + if retains then |values| else 0;
        && |after| == mid + (if releases then |out| else 0) && after[..|log|] == log
        && (forall j | |log| <= j < mid :: after[j] == Retain(retained(values[j - |log|])))
        && (forall j | mid <= j < |after| :: after[j] == Release(out[j - mid]))
    {
      RetainsSay(values);
      ReleasesSay(out);
      hide Retains, Releases;
    }

    lemma RetainsSay(values: seq<Value>)
      ensures |Retains(values)| == if retains then |values| else 0
      ensures forall i | 0 <= i < |Retains(values)| :: Retains(values)[i] == Retain(retained(values[i]))
    {
    }

    lemma ReleasesSay(values: seq<Value>)
      ensures |Releases(values)| == if releases then |values| else 0
      ensures forall i | 0 <= i < |Releases(values)| :: Releases(values)[i] == Release(values[i])
    {
    }

    lemma NothingStored()
      ensures Stored([]) == [] && Retains([]) == []
    {
    }

    /** The loop of `__CFArrayReleaseValues`: release and clear bucket by bucket. */
    method ReleaseBuckets(first: nat, len: nat)
      requires store != null && first + len <= store.buckets.Length
      modifies this`events, store.buckets
      ensures Zeroed(old(store.buckets[..]), store.buckets[..], first, len)
      ensures events == old(events) + Releases(old(store.buckets[..])[first..first + len])
    {
      ghost var s := store.buckets[..];
      for idx := 0 to len
        invariant Zeroed(s, store.buckets[..], first, idx)
        invariant events == old(events) + Releases(s[first..first + idx])
      {
        ReleaseBucket(first + idx);
        assert s[first..first + idx + 1] == s[first..first + idx] + [s[first + idx]];
        ReleasesStep(s[first..first + idx], s[first + idx]);
      }
    }

    /** `__CFArrayReleaseValues` on part of the array. */
    method ReleaseRange(loc: nat, len: nat)
      requires Valid() && loc + len <= count
      modifies this`events, if store == null then {} else {store.buckets}
      ensures Shaped() && SlackClean()
      ensures forall i | 0 <= i < count && !(loc <= i < loc + len) :: Contents()[i] == old(Contents())[i]
      ensures events == old(events) + Releases(old(Contents())[loc..loc + len])
    {
      hide Zeroed, Clean, Releases;
      if 0 < len && store != null {
        ghost var s := store.buckets[..];
        ghost var w := s[store.leftIdx..store.leftIdx + count];
        assert w == old(Contents());
        ReleaseBuckets(store.leftIdx + loc, len);
        ZeroedWindow(s, store.buckets[..], store.initial, store.leftIdx, count, loc, len);
        assert Contents() == store.buckets[..][store.leftIdx..store.leftIdx + count];
      } else {
        assert old(Contents())[loc..loc + len] == [];
        assert Releases([]) == [] by { NoReleases(); }
      }
    }

    lemma NoReleases()
      ensures Releases([]) == []
    {
    }

    /** Release one stored value, and clear its bucket. */
    method ReleaseBucket(k: nat)
      requires store != null && k < store.buckets.Length
      modifies this`events, store.buckets
      ensures store.buckets[..] == old(store.buckets[..])[k := NULL]
      ensures events == old(events) + Releases([old(store.buckets[k])])
    {
      if releases {
        events := events + [Release(store.buckets[k])];
      }
      store.buckets[k] := NULL;
    }

    lemma ReleasesStep(vs: seq<Value>, v: Value)
      ensures Releases(vs + [v]) == Releases(vs) + Releases([v])
    {
    }

    /** `__CFArrayReleaseValues` with `releaseStorageIfPossible`, on the whole array. */
    method ReleaseEverything()
      requires Valid()
      modifies this`events, this`count, this`store, if store == null then {} else {store.buckets}
      ensures Valid() && store == null && Contents() == []
      ensures events == old(events) + Releases(old(Contents()))
    {
      assert old(Contents())[0..count] == old(Contents());
      ReleaseRange(0, count);
      count := 0;
      store := null;
    }

    /** The retaining loop of `_CFArrayReplaceValues`. */
    method RetainNew(newValues: seq<Value>) returns (newv: seq<Value>)
      modifies this`events
      ensures newv == Stored(newValues) && events == old(events) + Retains(newValues)
    {
      if !retains { return newValues; }
      newv := [];
      for idx := 0 to |newValues|
        invariant newv == Stored(newValues)[..idx]
        invariant events == old(events) + RetainAll(newv)
      {
        var v := retained(newValues[idx]);
        events := events + [Retain(v)];
        assert Stored(newValues)[..idx + 1] == newv + [v];
        newv := newv + [v];
      }
    }

    /** Room for the new values: allocate, reposition, or leave as it is. */
    method MakeRoom(loc: nat, len: nat, newCount: nat)
      requires Valid() && loc + len <= count && count - len + newCount <= MAX_COUNT
      modifies this`store, if store == null then {} else {store, store.buckets}
      ensures count == old(count) && store != null
      ensures store.leftIdx + count - len + newCount <= store.buckets.Length <= MAX_CAPACITY
      ensures |store.initial| == store.buckets.Length
      ensures Opened(store.buckets[..], store.leftIdx, old(Contents()), loc, len, newCount)
      ensures Clean(store.buckets[..], store.initial, store.leftIdx, count - len + newCount)
      ensures (old(store) != null && store == old(store)) || fresh(store)
      ensures (old(store) != null && store.buckets == old(store.buckets)) || fresh(store.buckets)
    {
      if store == null {
        RoundUpBounds(newCount);
        var capacity := RoundUpCapacity(newCount);
        store := new Deque(capacity, (capacity - newCount) / 2);
      } else if len != newCount {
        RepositionDequeRegions(loc, len, newCount);
      }
    }

    /** The second half of `_CFArrayReplaceValues`: room, copy, new count. */
    method Splice(loc: nat, len: nat, newv: seq<Value>)
      requires Valid() && loc + len <= count && count - len + |newv| <= MAX_COUNT
      modifies this`count, this`store, if store == null then {} else {store, store.buckets}
      ensures Valid() && store != null
      ensures fresh(Repr() - old(Repr()))
      ensures Contents() == old(Contents())[..loc] + newv + old(Contents())[loc + len..]
    {
      hide Opened, Clean;
      ghost var c := Contents();
      MakeRoom(loc, len, |newv|);
      Fill(loc, len, newv, c);
    }

    /** Copy the new values into the gap, and set the count. */
    method Fill(loc: nat, len: nat, newv: seq<Value>, ghost c: seq<Value>)
      requires store != null && loc + len <= count == |c|
      requires store.leftIdx + count - len + |newv| <= store.buckets.Length <= MAX_CAPACITY
      requires |store.initial| == store.buckets.Length
      requires Opened(store.buckets[..], store.leftIdx, c, loc, len, |newv|)
      requires Clean(store.buckets[..], store.initial, store.leftIdx, count - len + |newv|)
      modifies this`count, store.buckets
      ensures Valid() && Contents() == c[..loc] + newv + c[loc + len..]
    {
      hide Opened, Clean, Moved;
      ghost var room := store.buckets[..];
      CopyIn(store.leftIdx + loc, newv);
      count := count - len + |newv|;
      Filled(room, store.buckets[..], store.initial, store.leftIdx, c, loc, len, newv);
      assert Contents() == store.buckets[..][store.leftIdx..store.leftIdx + count];
    }

    /** `_CFArrayReplaceValues`: splice, retaining what comes in before releasing what goes out. */
    method ReplaceRange(loc: nat, len: nat, newValues: seq<Value>)
      requires Valid() && loc + len <= count && count - len + |newValues| <= MAX_COUNT
      modifies this`count, this`mutations, this`store, this`events, if store == null then {} else {store, store.buckets}
      ensures Valid() && store != null && mutations == old(mutations) + 1
      ensures fresh(Repr() - old(Repr()))
      ensures Contents() == old(Contents())[..loc] + Stored(newValues) + old(Contents())[loc + len..]
      ensures events == old(events) + Retains(newValues) + Releases(old(Contents())[loc..loc + len])
    {
      hide Clean, Stored, Retains, Releases;
      ghost var c := Contents();
      var newv := RetainNew(newValues);
      mutations := mutations + 1;
      ReleaseRange(loc, len);
      assert Contents()[..loc] == c[..loc] && Contents()[loc + len..] == c[loc + len..];
      Splice(loc, len, newv);
    }

    /** `CFArrayReplaceValues`: the same, value by value and callback by callback. */
    method ReplaceValues(loc: nat, len: nat, newValues: seq<Value>)
      requires Valid() && loc + len <= count && count - len + |newValues| <= MAX_COUNT
      modifies this`count, this`mutations, this`store, this`events, if store == null then {} else {store, store.buckets}
      ensures Valid() && store != null && mutations == old(mutations) + 1
      ensures fresh(Repr() - old(Repr()))
      ensures |Contents()| == old(count) - len + |newValues|
      ensures Contents()[..loc] == old(Contents())[..loc]
      ensures Contents()[loc + |newValues|..] == old(Contents())[loc + len..]
      ensures !retains ==> Contents()[loc..loc + |newValues|] == newValues
      ensures retains ==> forall j | loc <= j < loc + |newValues| :: Contents()[j] == retained(newValues[j - loc])
      ensures var log, mid := old(events), |old(events)| + if retains then |newValues| else 0;
        && |events| == mid + (if releases then len else 0) && events[..|log|] == log
        && (forall j | |log| <= j < mid :: events[j] == Retain(retained(newValues[j - |log|])))
        && (forall j | mid <= j < |events| :: events[j] == Release(old(Contents())[loc + j - mid]))
    {
      hide Clean, Stored, Retains, Releases, MutableArray.Contents;
      ghost var c, log := Contents(), events;
      ReplaceRange(loc, len, newValues);
      ContentsSay(c, loc, len, newValues, Contents());
      LogSays(log, newValues, c[loc..loc + len], events);
    }

    /** `CFArrayAppendValue`. */
    method AppendValue(value: Value)
      requires Valid() && count < MAX_COUNT
      modifies this`count, this`mutations, this`store, this`events, if store == null then {} else {store, store.buckets}
      ensures Valid()
      ensures fresh(Repr() - old(Repr()))
      ensures Contents() == old(Contents()) + [if retains then retained(value) else value]
      ensures events == old(events) + if retains then [Retain(retained(value))] else []
    {
      hide Clean, Stored, Retains, Releases;
      NoReleases();
      StoredOne(value);
      ghost var c := Contents();
      ReplaceRange(count, 0, [value]);
      assert c[..|c|] == c && c[|c|..] == [] && c[|c|..|c|] == [];
    }

    /** `CFArrayInsertValueAtIndex`. */
    method InsertValueAtIndex(idx: nat, value: Value)
      requires Valid() && idx <= count < MAX_COUNT
      modifies this`count, this`mutations, this`store, this`events, if store == null then {} else {store, store.buckets}
      ensures Valid()
      ensures fresh(Repr() - old(Repr()))
      ensures var stored := if retains then retained(value) else value;
        Contents() == old(Contents())[..idx] + [stored] + old(Contents())[idx..]
      ensures events == old(events) + if retains then [Retain(retained(value))] else []
    {
      hide Clean, Stored, Retains, Releases;
      NoReleases();
      StoredOne(value);
      ghost var c := Contents();
      ReplaceRange(idx, 0, [value]);
      assert c[idx..idx] == [];
    }

    /** `CFArrayRemoveValueAtIndex`. */
    method RemoveValueAtIndex(idx: nat)
      requires Valid() && idx < count <= MAX_COUNT
      modifies this`count, this`mutations, this`store, this`events, if store == null then {} else {store, store.buckets}
      ensures Valid()
      ensures fresh(Repr() - old(Repr()))
      ensures Contents() == old(Contents())[..idx] + old(Contents())[idx + 1..]
      ensures events == old(events) + if releases then [Release(old(Contents())[idx])] else []
    {
      hide Clean, Stored, Retains, Releases;
      NothingStored();
      StoredOne(Contents()[idx]);
      ghost var c, log := Contents(), events;
      assert c[idx..idx + 1] == [c[idx]];
      EmptyMiddle(c[..idx], c[idx + 1..]);
      EmptyMiddle(log, Releases([c[idx]]));
      ReplaceRange(idx, 1, []);
    }

    /** `CFArraySetValueAtIndex`. */
    method SetValueAtIndex(idx: nat, value: Value)
      requires Valid() && idx <= count < MAX_COUNT
      modifies this`count, this`mutations, this`store, this`events, if store == null then {} else {store, store.buckets}
      ensures Valid()
      ensures fresh(Repr() - old(Repr()))
      ensures idx == old(count) ==>
        && Contents() == old(Contents()) + [if retains then retained(value) else value]
        && events == old(events) + if retains then [Retain(retained(value))] else []
      ensures idx < old(count) ==>
        && Contents() == old(Contents())[idx := if retains then retained(value) else value]
        && events == old(events) + (if retains then [Retain(retained(value))] else [])
                     + (if releases then [Release(old(Contents())[idx])] else [])
    {
      hide Stored, Retains, Releases;
      StoredOne(value);
      if idx == count {
        AppendValue(value);
      } else {
        var newv := RetainNew([value]);
        var oldValue := store.buckets[store.leftIdx + idx];
        assert oldValue == old(Contents())[idx];
        store.buckets[store.leftIdx + idx] := newv[0];
        if releases {
          events := events + [Release(oldValue)];
        }
        mutations := mutations + 1;
      }
    }

    /** `CFArrayExchangeValuesAtIndices`: no value is retained or released. */
    method ExchangeValuesAtIndices(idx1: nat, idx2: nat)
      requires Valid() && idx1 < count && idx2 < count
      modifies this`mutations, if store == null then {} else {store.buckets}
      ensures Valid() && count == old(count) && events == old(events)
      ensures Contents() == old(Contents())[idx1 := old(Contents())[idx2]][idx2 := old(Contents())[idx1]]
    {
      var tmp := store.buckets[store.leftIdx + idx1];
      store.buckets[store.leftIdx + idx1] := store.buckets[store.leftIdx + idx2];
      store.buckets[store.leftIdx + idx2] := tmp;
      mutations := mutations + 1;
    }

    /** `CFArrayRemoveAllValues`. */
    method RemoveAllValues()
      requires Valid()
      modifies this`count, this`mutations, this`store, this`events, if store == null then {} else {store.buckets}
      ensures Valid() && Contents() == [] && store == null
      ensures fresh(Repr() - old(Repr()))
      ensures |events| == |old(events)| + (if releases then old(count) else 0)
      ensures events[..|old(events)|] == old(events)
      ensures forall j | |old(events)| <= j < |events| :: events[j] == Release(old(Contents())[j - |old(events)|])
    {
      hide Releases;
      ReleasesSay(Contents());
      ReleaseEverything();
      count := 0;
      mutations := mutations + 1;
    }

    /** The final copy of the new values into the gap. */
    method CopyIn(at: nat, newv: seq<Value>)
      requires store != null && at + |newv| <= store.buckets.Length
      modifies store.buckets
      ensures Moved(old(store.buckets[..]), store.buckets[..], at, newv, 0, |newv|)
    {
      forall i | 0 <= i < |newv| {
        store.buckets[at + i] := newv[i];
      }
      forall k | at <= k < at + |newv|
        ensures store.buckets[k] == newv[k - at + 0]
      {
        assert store.buckets[at + (k - at)] == newv[k - at];
      }
    }
  }

  function RetainAll(values: seq<Value>): (s: seq<Event>)
    ensures |s| == |values|
  {
    seq(|values|, i requires 0 <= i < |values| => Retain(values[i]))
  }

  function ReleaseAll(values: seq<Value>): (s: seq<Event>)
    ensures |s| == |values|
  {
    seq(|values|, i requires 0 <= i < |values| => Release(values[i]))
  }

  lemma Filled(room: seq<Value>, s: seq<Value>, initial: seq<Value>, left: nat, c: seq<Value>,
               loc: nat, len: nat, newv: seq<Value>)
    requires loc + len <= |c| && left + |c| - len + |newv| <= |room| == |initial|
    requires Opened(room, left, c, loc, len, |newv|) && Clean(room, initial, left, |c| - len + |newv|)
    requires Moved(room, s, left + loc, newv, 0, |newv|)
    ensures s[left..left + |c| - len + |newv|] == c[..loc] + newv + c[loc + len..]
    ensures Clean(s, initial, left, |c| - len + |newv|)
  {
    var want := c[..loc] + newv + c[loc + len..];
    forall i | 0 <= i < |want|
      ensures s[left + i] == want[i]
    {
      if i < loc {
        assert room[left + i] == c[left + i - left];
      } else if i < loc + |newv| {
        assert s[left + i] == newv[left + i - (left + loc) + 0];
      } else {
        assert room[left + i] == c[left + i - left - |newv| + len];
      }
    }
  }
}
