/** Signed numbers of five base-billion digits, least significant first. */
module BigNum {

  const LIMIT: nat := 1_000_000_000
  const LIMIT_2: nat := 1_000_000_000_000_000_000
  const LIMIT_3: nat := 1_000_000_000_000_000_000_000_000_000
  const LIMIT_4: nat := 1_000_000_000_000_000_000_000_000_000_000_000_000
  const LIMIT_5: nat := 1_000_000_000_000_000_000_000_000_000_000_000_000_000_000_000

  /** `sign` is 0 or -1. */
  datatype Num = Num(digits: seq<nat>, sign: int)

  datatype Order = Less | Equal | Greater

  predicate Shaped(n: Num) {
    |n.digits| == 5 && (n.sign == 0 || n.sign == -1)
  }

  predicate Below(d: seq<nat>, bound: nat) {
    forall i | 0 <= i < |d| :: d[i] < bound
  }

  predicate Canonical(n: Num) {
    Shaped(n) && Below(n.digits, LIMIT)
  }

  function Magnitude(d: seq<nat>): nat {
    if d == [] then 0 else d[0] + LIMIT * Magnitude(d[1..])
  }

  function Value(n: Num): int {
    var m: int := Magnitude(n.digits);
    if n.sign < 0 then -m else m
  }

  /** How far digit strings of equal length are apart, counted from the position `i` up. */
  function Above(d: seq<nat>, i: nat): nat
    requires i <= |d|
  {
    Magnitude(d[i..])
  }

  lemma AboveUnfolds(d: seq<nat>, i: nat)
    requires i < |d|
    ensures Above(d, i) == d[i] + LIMIT * Above(d, i + 1)
  {
    assert d[i..][1..] == d[i + 1..];
  }

  lemma Compared(a: seq<nat>, b: seq<nat>, i: nat)
    requires |a| == |b| && Below(a, LIMIT) && Below(b, LIMIT) && i <= |a|
    ensures Above(a, i) < Above(b, i) ==> Magnitude(a) < Magnitude(b)
    ensures Above(a, i) > Above(b, i) ==> Magnitude(a) > Magnitude(b)
    decreases i
  {
    if i > 0 {
      AboveUnfolds(a, i - 1);
      AboveUnfolds(b, i - 1);
      Compared(a, b, i - 1);
    } else {
      assert a[0..] == a && b[0..] == b;
    }
  }

  /** `_CFBigNumAbsoluteLessThan` */
  method AbsoluteLessThan(a: Num, b: Num) returns (less: bool)
    requires Canonical(a) && Canonical(b)
    ensures less <==> Magnitude(a.digits) < Magnitude(b.digits)
  {
    var i := 5;
    assert a.digits[5..] == [] && b.digits[5..] == [];
    while i > 0
      invariant 0 <= i <= 5 && Above(a.digits, i) == Above(b.digits, i)
    {
      i := i - 1;
      AboveUnfolds(a.digits, i);
      AboveUnfolds(b.digits, i);
      Compared(a.digits, b.digits, i);
      if a.digits[i] < b.digits[i] {
        return true;
      }
      if a.digits[i] > b.digits[i] {
        return false;
      }
    }
    assert a.digits[0..] == a.digits && b.digits[0..] == b.digits;
    return false;
  }

  function Ordering(x: int, y: int): Order {
    if x < y then Less else if x > y then Greater else Equal
  }

  /** `_CFBigNumCompare` orders by value, but puts a negative zero below zero. */
  method Compare(a: Num, b: Num) returns (order: Order)
    requires Canonical(a) && Canonical(b)
    ensures order == Ordering(Value(a), Value(b)) <==> a.sign == b.sign || Value(a) != 0 || Value(b) != 0
    ensures Value(a) < Value(b) ==> order == Less
    ensures Value(a) > Value(b) ==> order == Greater
    ensures Value(a) == Value(b) && a.sign == b.sign ==> order == Equal
    ensures Value(a) == Value(b) && a.sign != b.sign ==> order == if a.sign < b.sign then Less else Greater
  {
    if a.sign == b.sign {
      var negative := a.sign < 0;
      var i := 5;
      assert a.digits[5..] == [] && b.digits[5..] == [];
      while i > 0
        invariant 0 <= i <= 5 && Above(a.digits, i) == Above(b.digits, i)
      {
        i := i - 1;
        AboveUnfolds(a.digits, i);
        AboveUnfolds(b.digits, i);
        Compared(a.digits, b.digits, i);
        if a.digits[i] < b.digits[i] {
          return if !negative then Less else Greater;
        }
        if a.digits[i] > b.digits[i] {
          return if negative then Less else Greater;
        }
      }
      assert a.digits[0..] == a.digits && b.digits[0..] == b.digits;
      return Equal;
    }
    return if a.sign < b.sign then Less else Greater;
  }

  /** The failing case of the comparison: a negative zero comes before zero. */
  method ZerosOfBothSigns() returns (order: Order)
    ensures Value(Num([0, 0, 0, 0, 0], -1)) == Value(Num([0, 0, 0, 0, 0], 0)) && order == Less
  {
    ZeroDigits([0, 0, 0, 0, 0]);
    order := Compare(Num([0, 0, 0, 0, 0], -1), Num([0, 0, 0, 0, 0], 0));
  }

  lemma {:induction false} ZeroDigits(d: seq<nat>)
    ensures Magnitude(d) == 0 <==> forall i | 0 <= i < |d| :: d[i] == 0
  {
    if d != [] {
      ZeroDigits(d[1..]);
      assert forall i | 1 <= i < |d| :: d[i] == d[1..][i - 1];
    }
  }

  /** `_CFBigNumNeg`, which leaves the sign of a zero alone. */
  method Neg(a: Num) returns (r: Num)
    requires Shaped(a)
    ensures Shaped(r) && r.digits == a.digits && Value(r) == -Value(a)
    ensures Magnitude(a.digits) == 0 ==> r == a
  {
    r := a;
    var aIsZero := true;
    ZeroDigits(a.digits);
    for i := 0 to 5
      invariant aIsZero
      invariant forall j | 0 <= j < i :: a.digits[j] == 0
    {
      if a.digits[i] != 0 {
        aIsZero := false;
        break;
      }
    }
    if !aIsZero {
      r := r.(sign := r.sign * r.sign - 1);
    }
  }

  /** The number whose low digits are `d` and whose part above them is `rest`. */
  function Weighted(d: seq<nat>, rest: int): int {
    if d == [] then rest else d[0] + LIMIT * Weighted(d[1..], rest)
  }

  lemma {:induction false} Push(d: seq<nat>, low: nat, rest: int)
    ensures Weighted(d, low + LIMIT * rest) == Weighted(d + [low], rest)
  {
    if d == [] {
      assert (d + [low])[1..] == [];
    } else {
      Push(d[1..], low, rest);
      assert (d + [low])[1..] == d[1..] + [low];
    }
  }

  lemma WeightedUnfolds(d: seq<nat>, i: nat, rest: int)
    requires i < |d|
    ensures Weighted(d[i..], rest) == d[i] + LIMIT * Weighted(d[i + 1..], rest)
  {
    assert d[i..][1..] == d[i + 1..];
  }

  lemma {:induction false} MagnitudeIsWeighted(d: seq<nat>)
    ensures Weighted(d, 0) == Magnitude(d)
  {
    if d != [] {
      MagnitudeIsWeighted(d[1..]);
    }
  }

  lemma FiveDigits(d: seq<nat>, rest: int)
    requires |d| == 5
    ensures Weighted(d, rest) == d[0] + LIMIT * d[1] + LIMIT_2 * d[2] + LIMIT_3 * d[3] + LIMIT_4 * d[4] + LIMIT_5 * rest
  {
    hide Weighted;
    WeightedUnfolds(d, 0, rest);
    WeightedUnfolds(d, 1, rest);
    WeightedUnfolds(d, 2, rest);
    WeightedUnfolds(d, 3, rest);
    WeightedUnfolds(d, 4, rest);
    WeightedNothing(rest);
    assert d[0..] == d && d[5..] == [];
  }

  lemma WeightedNothing(rest: int)
    ensures Weighted([], rest) == rest
  {
  }

  lemma WeightedFive(d: seq<nat>, rest: int)
    requires |d| == 5
    ensures Weighted(d, rest) == Magnitude(d) + LIMIT_5 * rest
  {
    FiveDigits(d, rest);
    FiveDigits(d, 0);
    MagnitudeIsWeighted(d);
  }

  lemma MagnitudeFits(d: seq<nat>)
    requires |d| == 5 && Below(d, LIMIT)
    ensures Magnitude(d) < LIMIT_5
  {
    FiveDigits(d, 0);
    MagnitudeIsWeighted(d);
  }

  /** The carry into position `i` when the digits of equal signs are added. */
  function CarryInto(a: seq<nat>, b: seq<nat>, i: nat): (carry: nat)
    requires |a| == |b| && i <= |a|
    ensures carry <= 1
  {
    if i > 0 && a[i - 1] + b[i - 1] + CarryInto(a, b, i - 1) > LIMIT then 1 else 0
  }

  /** Some position of the sum comes to exactly one billion, which is not carried. */
  predicate SumHitsLimit(a: seq<nat>, b: seq<nat>)
    requires |a| == |b|
  {
    exists i | 0 <= i < |a| :: a[i] + b[i] + CarryInto(a, b, i) == LIMIT
  }

  /** The digit that the addition leaves at a position. */
  function SumDigit(a: seq<nat>, b: seq<nat>, i: nat): nat
    requires |a| == |b| && i < |a|
  {
    var sum := a[i] + b[i] + CarryInto(a, b, i);
    if sum > LIMIT then sum - LIMIT else sum
  }

  lemma SumDigitsBelow(a: seq<nat>, b: seq<nat>, r: seq<nat>)
    requires |a| == |b| == |r| && forall i | 0 <= i < |a| :: r[i] == SumDigit(a, b, i)
    requires Below(a, LIMIT) && Below(b, LIMIT)
    ensures Below(r, LIMIT + 1) && (Below(r, LIMIT) <==> !SumHitsLimit(a, b))
  {
    forall i | 0 <= i < |a|
      ensures r[i] <= LIMIT && (r[i] == LIMIT <==> a[i] + b[i] + CarryInto(a, b, i) == LIMIT)
    {
    }
    if SumHitsLimit(a, b) {
      var i :| 0 <= i < |a| && a[i] + b[i] + CarryInto(a, b, i) == LIMIT;
      assert r[i] == LIMIT;
    }
  }

  /** The loop of an addition of equal signs, in 32 bits. */
  method AddDigits(a: seq<nat>, b: seq<nat>) returns (r: seq<nat>, carry: nat)
    requires |a| == |b| == 5 && Below(a, 0x8000_0000) && Below(b, 0x8000_0000)
    ensures |r| == 5 && carry <= 1 && Magnitude(a) + Magnitude(b) == Magnitude(r) + LIMIT_5 * carry
    ensures forall i | 0 <= i < 5 :: r[i] == SumDigit(a, b, i)
  {
    hide Weighted, Magnitude, Above;
    r, carry := [], 0;
    AboveAll(a);
    AboveAll(b);
    WeightedNothing(Magnitude(a) + Magnitude(b));
    for i := 0 to 5
      invariant |r| == i && carry == CarryInto(a, b, i)
      invariant Weighted(r, Above(a, i) + Above(b, i) + carry) == Magnitude(a) + Magnitude(b)
      invariant forall j | 0 <= j < i :: r[j] == SumDigit(a, b, j)
    {
      AboveUnfolds(a, i);
      AboveUnfolds(b, i);
      var result := (a[i] + b[i] + carry) % 0x1_0000_0000;
      if result > LIMIT {
        carry := 1;
        result := result - LIMIT;
      } else {
        carry := 0;
      }
      Push(r, result, Above(a, i + 1) + Above(b, i + 1) + carry);
      r := r + [result];
    }
    WeightedFive(r, carry);
  }

  lemma AboveAll(d: seq<nat>)
    ensures Above(d, 0) == Magnitude(d) && Above(d, |d|) == 0
  {
    assert d[0..] == d && d[|d|..] == [];
  }

  method SubDigits(big: seq<nat>, small: seq<nat>) returns (r: seq<nat>, carry: nat)
    requires |big| == |small| == 5 && Below(big, LIMIT) && Below(small, LIMIT)
    requires Magnitude(big) >= Magnitude(small)
    ensures |r| == 5 && Below(r, LIMIT) && carry == 0 && Magnitude(r) == Magnitude(big) - Magnitude(small)
  {
    hide Weighted, Magnitude, Above;
    r, carry := [], 0;
    AboveAll(big);
    AboveAll(small);
    WeightedNothing(Magnitude(big) - Magnitude(small));
    for i := 0 to 5
      invariant |r| == i && carry <= 1 && Below(r, LIMIT)
      invariant Weighted(r, Above(big, i) - Above(small, i) - carry) == Magnitude(big) - Magnitude(small)
    {
      AboveUnfolds(big, i);
      AboveUnfolds(small, i);
      var result: int := big[i] - small[i] - carry;
      if result < 0 {
        carry := 1;
        result := result + LIMIT;
      } else {
        carry := 0;
      }
      Push(r, result, Above(big, i + 1) - Above(small, i + 1) - carry);
      r := r + [result];
    }
    var owed: int := carry;
    WeightedFive(r, -owed);
    MagnitudeFits(r);
  }

  /**
    * `_CFBigNumAdd`: exact on values, up to a carry out of the top digit when the signs are equal.
    * A zero difference takes the sign of the first operand.
    */
  method Add(a: Num, b: Num) returns (r: Num, carry: nat)
    requires Canonical(a) && Canonical(b)
    ensures Shaped(r) && carry <= 1 && Below(r.digits, LIMIT + 1)
    ensures a.sign == b.sign ==> r.sign == a.sign
    ensures a.sign == b.sign ==> forall i | 0 <= i < 5 :: r.digits[i] == SumDigit(a.digits, b.digits, i)
    ensures a.sign == b.sign ==> Magnitude(a.digits) + Magnitude(b.digits) == Magnitude(r.digits) + LIMIT_5 * carry
    ensures a.sign != b.sign ==> carry == 0
    ensures carry == 0 ==> Value(r) == Value(a) + Value(b)
    ensures Canonical(r) <==> a.sign != b.sign || !SumHitsLimit(a.digits, b.digits)
    ensures a.sign != b.sign && Value(r) == 0 ==> r.sign == a.sign
  {
    if a.sign == b.sign {
      var digits;
      digits, carry := AddDigits(a.digits, b.digits);
      SumDigitsBelow(a.digits, b.digits, digits);
      r := Num(digits, a.sign);
    } else {
      var bigNum, smallNum := a, b;
      var less := AbsoluteLessThan(a, b);
      if less {
        bigNum, smallNum := b, a;
      }
      var digits;
      digits, carry := SubDigits(bigNum.digits, smallNum.digits);
      r := Num(digits, if bigNum.sign < 0 then -1 else 0);
    }
  }

  /** `_CFBigNumSub` */
  method Sub(a: Num, b: Num) returns (r: Num, carry: nat)
    requires Canonical(a) && Canonical(b)
    ensures Shaped(r) && carry <= 1 && Below(r.digits, LIMIT + 1)
    ensures carry == 0 ==> Value(r) == Value(a) - Value(b)
    ensures carry == 1 ==> if a.sign < 0 then Value(r) == Value(a) - Value(b) + LIMIT_5
                                          else Value(r) == Value(a) - Value(b) - LIMIT_5
  {
    var nb := Neg(b);
    r, carry := Add(a, nb);
  }

  /** The failing case of the addition: 999999999 and 1 give a first digit of one billion, and no carry. */
  method LimitIsNotCarried() returns (r: Num)
    ensures r.digits == [LIMIT, 0, 0, 0, 0] && !Canonical(r)
  {
    hide Magnitude;
    var a, b: seq<nat> := [999_999_999, 0, 0, 0, 0], [1, 0, 0, 0, 0];
    assert a[0] + b[0] + CarryInto(a, b, 0) == LIMIT;
    assert CarryInto(a, b, 1) == CarryInto(a, b, 2) == CarryInto(a, b, 3) == CarryInto(a, b, 4) == 0;
    var carry;
    r, carry := Add(Num(a, 0), Num(b, 0));
    assert r.digits[0] == LIMIT;
  }
}
