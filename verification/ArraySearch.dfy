/** `CFArrayBSearchValues`: binary search with power-of-two probes. */
module ArraySearch {
  import opened ArrayDeque

  /** A comparator that orders all values, with a sign that flips when its arguments do. */
  ghost predicate Orders(compare: (Value, Value) -> int) {
    && (forall a, b :: compare(a, b) < 0 <==> compare(b, a) > 0)
    && (forall a, b, c :: compare(a, b) <= 0 && compare(b, c) <= 0 ==> compare(a, c) <= 0)
  }

  ghost predicate Sorted(compare: (Value, Value) -> int, s: seq<Value>) {
    forall i, j | 0 <= i < j < |s| :: compare(s[i], s[j]) <= 0
  }

  /** How many values of `s` come before `value`. */
  function CountLess(compare: (Value, Value) -> int, s: seq<Value>, value: Value): (n: nat)
    ensures n <= |s|
  {
    if s == [] then 0
    else CountLess(compare, s[..|s| - 1], value) + (if compare(s[|s| - 1], value) < 0 then 1 else 0)
  }

  /** In a sorted sequence, what comes before a lesser value is lesser. */
  lemma LessIsPrefix(compare: (Value, Value) -> int, s: seq<Value>, value: Value, i: nat, j: nat)
    requires Orders(compare) && Sorted(compare, s) && i <= j < |s|
    ensures compare(s[j], value) < 0 ==> compare(s[i], value) < 0
  {
    var a, b := s[i], s[j];
    assert i < j ==> compare(a, b) <= 0;
    assert compare(value, a) <= 0 && compare(a, b) <= 0 ==> compare(value, b) <= 0;
  }

  /** The boundary between lesser and other values is the number of lesser values. */
  lemma {:induction false} CountAtBoundary(compare: (Value, Value) -> int, s: seq<Value>, value: Value, k: nat)
    requires k <= |s|
    requires forall i | 0 <= i < k :: compare(s[i], value) < 0
    requires forall i | k <= i < |s| :: compare(s[i], value) >= 0
    ensures CountLess(compare, s, value) == k
  {
    if s != [] {
      var init := s[..|s| - 1];
      CountAtBoundary(compare, init, value, if k == |s| then k - 1 else k);
    }
  }

  lemma AllLess(compare: (Value, Value) -> int, s: seq<Value>, value: Value)
    requires Orders(compare) && Sorted(compare, s) && s != [] && compare(s[|s| - 1], value) < 0
    ensures CountLess(compare, s, value) == |s| && forall i | 0 <= i < |s| :: compare(s[i], value) < 0
  {
    forall i | 0 <= i < |s|
      ensures compare(s[i], value) < 0
    {
      LessIsPrefix(compare, s, value, i, |s| - 1);
    }
    CountAtBoundary(compare, s, value, |s|);
  }

  lemma NoneLess(compare: (Value, Value) -> int, s: seq<Value>, value: Value)
    requires Orders(compare) && Sorted(compare, s) && s != [] && compare(value, s[0]) < 0
    ensures CountLess(compare, s, value) == 0 && forall i | 0 <= i < |s| :: compare(s[i], value) >= 0
  {
    forall i | 0 <= i < |s|
      ensures compare(s[i], value) >= 0
    {
      LessIsPrefix(compare, s, value, 0, i);
    }
    CountAtBoundary(compare, s, value, 0);
  }

  /** Everything up to `idx` is lesser, and nothing from `idx + p` on is. */
  ghost predicate Window(compare: (Value, Value) -> int, s: seq<Value>, value: Value, idx: int, p: nat) {
    && -1 <= idx && 0 < p && idx + p <= |s|
    && (forall i | 0 <= i <= idx && i < |s| :: compare(s[i], value) < 0)
    && (forall i | idx + p <= i < |s| :: compare(s[i], value) >= 0)
  }

  lemma ProbeLess(compare: (Value, Value) -> int, s: seq<Value>, value: Value, idx: int, half: nat)
    requires Orders(compare) && Sorted(compare, s)
    requires Window(compare, s, value, idx, 2 * half) && half > 0
    requires compare(s[idx + half], value) < 0
    ensures Window(compare, s, value, idx + half, half)
  {
    forall i | 0 <= i <= idx + half && i < |s|
      ensures compare(s[i], value) < 0
    {
      LessIsPrefix(compare, s, value, i, idx + half);
    }
  }

  lemma ProbeNotLess(compare: (Value, Value) -> int, s: seq<Value>, value: Value, idx: int, half: nat)
    requires Orders(compare) && Sorted(compare, s)
    requires Window(compare, s, value, idx, 2 * half) && half > 0
    requires compare(s[idx + half], value) >= 0
    ensures Window(compare, s, value, idx, half)
  {
    forall i | idx + half <= i < |s|
      ensures compare(s[i], value) >= 0
    {
      LessIsPrefix(compare, s, value, idx + half, i);
    }
  }

  /**
    * The search, over the values of the range. The first probe splits the range at the largest
    * power of two that fits; when it goes right, the second window overlaps the first.
    */
  method BSearchValues(values: seq<Value>, location: nat, value: Value, compare: (Value, Value) -> int)
      returns (result: nat)
    requires Orders(compare) && Sorted(compare, values) && |values| < 0x8000_0000
    ensures result == location + CountLess(compare, values, value)
    ensures location <= result <= location + |values|
    ensures forall i | 0 <= i < result - location :: compare(values[i], value) < 0
    ensures forall i | result - location <= i < |values| :: compare(values[i], value) >= 0
  {
    hide Orders, Sorted, Flsl, CountLess;
    var length := |values|;
    if length <= 0 {
      CountAtBoundary(compare, values, value, 0);
      return location;
    }
    if compare(values[length - 1], value) < 0 {
      AllLess(compare, values, value);
      return location + length;
    }
    if compare(value, values[0]) < 0 {
      NoneLess(compare, values, value);
      return location;
    }
    FlslBounds(length);
    var lg := Flsl(length) - 1;
    var idx: int;
    idx := FirstProbe(values, value, compare, lg);
    while lg > 0
      invariant lg >= 0 && Window(compare, values, value, idx, Pow2(lg))
    {
      lg := lg - 1;
      var half := Pow2(lg);
      assert Pow2(lg + 1) == 2 * half;
      if compare(values[idx + half], value) < 0 {
        ProbeLess(compare, values, value, idx, half);
        idx := idx + half;
      } else {
        ProbeNotLess(compare, values, value, idx, half);
      }
    }
    idx := idx + 1;
    CountAtBoundary(compare, values, value, idx);
    return idx + location;
  }

  /** The first probe, at position 2^lg - 1. */
  method FirstProbe(values: seq<Value>, value: Value, compare: (Value, Value) -> int, lg: nat) returns (idx: int)
    requires Orders(compare) && Sorted(compare, values)
    requires Pow2(lg) <= |values| < 2 * Pow2(lg)
    ensures Window(compare, values, value, idx, Pow2(lg))
  {
    var p := Pow2(lg);
    if compare(values[p - 1], value) < 0 {
      idx := |values| - p;
      forall i | 0 <= i <= idx
        ensures compare(values[i], value) < 0
      {
        LessIsPrefix(compare, values, value, i, p - 1);
      }
    } else {
      idx := -1;
      forall i | p - 1 <= i < |values|
        ensures compare(values[i], value) >= 0
      {
        LessIsPrefix(compare, values, value, p - 1, i);
      }
    }
  }
}
