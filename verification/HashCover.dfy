/** Why double hashing and exponential probing come to every bucket of a table of prime size. */
module HashCover {
  import opened HashSizes
  import opened HashProbe

  ghost predicate Divides(d: int, n: int) {
    exists q: int :: Times(d, q) == n
  }

  ghost predicate Prime(n: nat) {
    n > 1 && forall d: nat, q: nat :: Times(d, q) == n ==> d == 1 || d == n
  }

  lemma Grows(n: int, k: int)
    requires n >= 0
    ensures k >= 1 ==> Times(n, k) >= n
    ensures k <= -1 ==> Times(n, k) <= 0 - n
    ensures k < 0 ==> Times(n, k) <= 0
  {
  }

  lemma SmallMultiple(n: int, k: int)
    requires -n < Times(n, k) < n
    ensures k == 0
  {
    Grows(n, k);
  }

  lemma Division(n: nat, x: int)
    requires n > 0
    ensures x == Times(n, x / n) + x % n && 0 <= x % n < n
  {
  }

  lemma DividesSum(n: int, a: int, b: int)
    requires Divides(n, a) && Divides(n, b)
    ensures Divides(n, a + b) && Divides(n, a - b)
  {
    var p: int :| Times(n, p) == a;
    var q: int :| Times(n, q) == b;
    assert Times(n, p + q) == a + b && Times(n, p - q) == a - b;
  }

  lemma DividesMultiple(n: int, a: int, k: int)
    requires Divides(n, a)
    ensures Divides(n, Times(k, a))
  {
    var p: int :| Times(n, p) == a;
    assert Times(n, k * p) == Times(k, a);
  }

  /** The least positive number whose multiple of `s` is a multiple of `n`. */
  ghost predicate Least(s: nat, n: nat, t: nat) {
    t > 0 && Divides(n, Times(s, t)) && forall r: nat | 0 < r < t :: !Divides(n, Times(s, r))
  }

  lemma {:induction false} FindLeast(s: nat, n: nat, u: nat) returns (t: nat)
    requires u > 0 && Divides(n, Times(s, u))
    ensures t <= u && Least(s, n, t)
    decreases u
  {
    if r: nat :| 0 < r < u && Divides(n, Times(s, r)) {
      t := FindLeast(s, n, r);
    } else {
      t := u;
    }
  }

  lemma LeastDivides(s: nat, n: nat, t: nat, k: int)
    requires Least(s, n, t) && Divides(n, Times(s, k))
    ensures Divides(t, k)
  {
    Division(t, k);
    var r := k % t;
    DividesMultiple(n, Times(s, t), k / t);
    DividesSum(n, Times(s, k), Times(k / t, Times(s, t)));
    assert Times(s, k) - Times(k / t, Times(s, t)) == Times(s, r) by {
      assert s * k - k / t * (s * t) == s * (k - t * (k / t));
    }
    assert r == 0;
    assert Times(t, k / t) == k;
  }

  /** A prime that divides a multiple of a smaller number divides the factor. */
  lemma PrimeDividesFactor(n: nat, s: nat, k: int)
    requires Prime(n) && 0 < s < n && Divides(n, Times(s, k))
    ensures Divides(n, k)
  {
    assert Times(n, s) == Times(s, n);
    var t := FindLeast(s, n, n);
    LeastDivides(s, n, t, n);
    var q: int :| Times(t, q) == n;
    Grows(t, q);
    if t == 1 {
      var p: int :| Times(n, p) == Times(s, 1);
      SmallMultiple(n, p);
    }
    LeastDivides(s, n, t, k);
  }

  /** The probe of double hashing at the turn `d`, up to a multiple of the table size. */
  lemma {:induction false} DoubleClosedForm(n: nat, root: nat, h: Word, d: nat)
    requires n > 1
    ensures Divides(n, h % n + Times(H2(h, n), d) - ProbeAt(Double, n, root, h, d))
  {
    var s := H2(h, n);
    if d == 0 {
      assert Times(n, 0) == 0;
    } else {
      DoubleClosedForm(n, root, h, d - 1);
      var before, after := ProbeAt(Double, n, root, h, d - 1), ProbeAt(Double, n, root, h, d);
      assert Times(s, d) == Times(s, d - 1) + s;
      assert Times(n, 0) == 0 && Times(n, 1) == n;
      assert Divides(n, before + s - after);
      DividesSum(n, h % n + Times(s, d - 1) - before, before + s - after);
    }
  }

  lemma DoubleIsInjective(n: nat, root: nat, h: Word, d: nat, e: nat)
    requires Prime(n) && d < e < n
    ensures ProbeAt(Double, n, root, h, d) != ProbeAt(Double, n, root, h, e)
  {
    var s, p, q := H2(h, n), ProbeAt(Double, n, root, h, d), ProbeAt(Double, n, root, h, e);
    if p == q {
      DoubleClosedForm(n, root, h, d);
      DoubleClosedForm(n, root, h, e);
      DividesSum(n, h % n + Times(s, e) - q, h % n + Times(s, d) - p);
      assert Times(s, e - d) == Times(s, e) - Times(s, d);
      PrimeDividesFactor(n, s, e - d);
      var k: int :| Times(n, k) == e - d;
      SmallMultiple(n, k);
      assert false;
    }
  }

  /** As many distinct numbers below `n` as there are numbers below `n` are all of them. */
  lemma Pigeonhole(f: seq<nat>, b: nat)
    requires forall i | 0 <= i < |f| :: f[i] < |f|
    requires forall i, j | 0 <= i < j < |f| :: f[i] != f[j]
    requires b < |f|
    ensures b in f
  {
    DistinctCount(f);
    assert Items(f) <= Range(|f|);
    SameCount(Items(f), Range(|f|));
    assert b in Range(|f|);
  }

  ghost function Range(n: nat): (s: set<nat>)
    ensures |s| == n && forall x: nat :: x in s <==> x < n
  {
    if n == 0 then {} else Range(n - 1) + {n - 1}
  }

  ghost function Items(f: seq<nat>): (s: set<nat>)
    ensures forall x :: x in s <==> x in f
  {
    if f == [] then {} else Items(f[..|f| - 1]) + {f[|f| - 1]}
  }

  lemma {:induction false} DistinctCount(f: seq<nat>)
    requires forall i, j | 0 <= i < j < |f| :: f[i] != f[j]
    ensures |Items(f)| == |f|
  {
    if f != [] {
      var g := f[..|f| - 1];
      DistinctCount(g);
      assert f[|f| - 1] !in g;
    }
  }

  lemma SameCount(a: set<nat>, b: set<nat>)
    requires a <= b && |a| == |b|
    ensures a == b
  {
    if x :| x in b && x !in a {
      Smaller(a, b - {x});
    }
  }

  lemma {:induction false} Smaller(a: set<nat>, b: set<nat>)
    requires a <= b
    ensures |a| <= |b|
  {
    if x :| x in a {
      Smaller(a - {x}, b - {x});
    }
  }

  /** Double hashing comes to every bucket of a table of prime size. */
  lemma DoubleCovers(n: nat, root: nat)
    requires Prime(n)
    ensures Covers(Double, n, root)
  {
    forall h: Word, b: nat | b < n
      ensures ComesTo(Double, n, root, h, b)
    {
      var f := seq(n, d requires 0 <= d => ProbeAt(Double, n, root, h, d));
      forall i, j | 0 <= i < j < n
        ensures f[i] != f[j]
      {
        DoubleIsInjective(n, root, h, i, j);
      }
      Pigeonhole(f, b);
      var d :| 0 <= d < n && f[d] == b;
      assert ProbeAt(Double, n, root, h, d) == b;
    }
  }

  function Pow(g: nat, e: nat): nat {
    if e == 0 then 1 else g * Pow(g, e - 1)
  }

  lemma {:induction false} PowAdds(g: nat, a: nat, b: nat)
    ensures Pow(g, a + b) == Times(Pow(g, a), Pow(g, b))
  {
    if a > 0 {
      PowAdds(g, a - 1, b);
      Associates(g, Pow(g, a - 1), Pow(g, b));
      assert a + b - 1 == a - 1 + b;
    }
  }

  lemma Associates(x: nat, y: nat, z: nat)
    ensures x * Times(y, z) == Times(x * y, z)
  {
  }

  ghost predicate HasLog(g: nat, n: nat, r: nat) {
    exists e: nat :: IsLog(g, n, r, e)
  }

  ghost predicate IsLog(g: nat, n: nat, r: nat, e: nat) {
    0 < e < n && Divides(n, Pow(g, e) - r)
  }

  /** The powers of `g` take every nonzero remainder, and come back to one. */
  ghost predicate PrimitiveRoot(g: nat, n: nat) {
    && 0 < g < n
    && (forall r: nat | 0 < r < n :: HasLog(g, n, r))
    && Divides(n, Pow(g, n - 1) - 1)
  }

  lemma ProductFits(n: nat, a: nat, b: nat, c: nat)
    requires a < n && b < n && c < n <= 0x1_0000_0000
    ensures 0 <= Times(a, b) <= Times(a, b) + c < WORD
  {
    hide Times;
    var m := n - 1;
    Monotone(a, m, b);
    Monotone(b, m, m);
    Commutes(m, b);
    Monotone(m, 0xFFFF_FFFF, m);
    LargestProduct(m);
  }

  lemma Monotone(a: nat, b: nat, c: nat)
    requires a <= b
    ensures 0 <= Times(a, c) <= Times(b, c)
  {
  }

  lemma Commutes(a: int, b: int)
    ensures Times(a, b) == Times(b, a)
  {
  }

  lemma LargestProduct(m: nat)
    requires m <= 0xFFFF_FFFF
    ensures Times(0xFFFF_FFFF, m) + m < WORD
  {
  }

  lemma InWord(x: int)
    requires 0 <= x < WORD
    ensures x % WORD == x
  {
  }

  lemma DividesZero(n: int, x: int)
    ensures Divides(n, x - x)
  {
    assert Times(n, 0) == x - x;
  }

  /** A number differs from its remainder by a multiple. */
  lemma RemainderDivides(n: nat, x: int)
    requires n > 0
    ensures Divides(n, x - x % n)
  {
    Division(n, x);
    assert Times(n, x / n) == x - x % n;
  }

  /** The products of congruent numbers with the same number are congruent. */
  lemma ProductDivides(n: int, x: int, y: int, k: int)
    requires Divides(n, x - y)
    ensures Divides(n, Times(k, x) - Times(k, y))
  {
    DividesMultiple(n, x - y, k);
    assert Times(k, x - y) == Times(k, x) - Times(k, y);
  }

  lemma {:induction false} AccClosedForm(n: nat, root: nat, h: Word, d: nat)
    requires 1 < n <= 0x1_0000_0000 && root < n
    ensures WalkAt(Exponential, n, root, h, d).acc < n
    ensures Divides(n, Pow(root, d + 1) - WalkAt(Exponential, n, root, h, d).acc)
  {
    hide Times, Pow;
    AccNext(n, root, h, d);
    PowNext(root, d);
    PowNothing(root);
    if d == 0 {
      DividesZero(n, root);
    } else {
      AccClosedForm(n, root, h, d - 1);
      hide WalkAt;
      var before, after := WalkAt(Exponential, n, root, h, d - 1).acc, WalkAt(Exponential, n, root, h, d).acc;
      RemainderDivides(n, Times(root, before));
      ProductDivides(n, Pow(root, d), before, root);
      DividesSum(n, Times(root, Pow(root, d)) - Times(root, before), Times(root, before) - after);
    }
  }

  lemma PowNext(g: nat, e: nat)
    ensures Pow(g, e + 1) == Times(g, Pow(g, e))
  {
  }

  lemma PowNothing(g: nat)
    ensures Times(g, Pow(g, 0)) == g
  {
  }

  lemma AccNext(n: nat, root: nat, h: Word, d: nat)
    requires 1 < n <= 0x1_0000_0000 && root < n
    ensures d == 0 ==> WalkAt(Exponential, n, root, h, d).acc == root
    ensures d > 0 ==>
              var before := WalkAt(Exponential, n, root, h, d - 1).acc;
              before < n ==> WalkAt(Exponential, n, root, h, d).acc == Times(root, before) % n
  {
    if d > 0 && WalkAt(Exponential, n, root, h, d - 1).acc < n {
      var before := WalkAt(Exponential, n, root, h, d - 1).acc;
      ProductFits(n, root, before, 0);
      hide Times;
      InWord(Times(root, before));
    }
  }

  lemma ProbeNext(n: nat, root: nat, h: Word, d: nat)
    requires 1 < n <= 0x1_0000_0000 && d > 0
    ensures var acc := WalkAt(Exponential, n, root, h, d - 1).acc;
      acc < n ==> ProbeAt(Exponential, n, root, h, d) == (h % n + Times(H2(h, n), acc)) % n
  {
    var acc := WalkAt(Exponential, n, root, h, d - 1).acc;
    if acc < n {
      ProductFits(n, H2(h, n), acc, h % n);
      hide Times, H2;
      InWord(h % n + Times(H2(h, n), acc));
    }
  }

  lemma ExponentialClosedForm(n: nat, root: nat, h: Word, d: nat)
    requires 1 < n <= 0x1_0000_0000 && root < n && d > 0
    ensures Divides(n, h % n + Times(H2(h, n), Pow(root, d)) - ProbeAt(Exponential, n, root, h, d))
  {
    hide Times, Pow, ProbeAt, WalkAt, H2;
    AccClosedForm(n, root, h, d - 1);
    ProbeNext(n, root, h, d);
    var acc, h1, h2 := WalkAt(Exponential, n, root, h, d - 1).acc, h % n, H2(h, n);
    var probe := ProbeAt(Exponential, n, root, h, d);
    RemainderDivides(n, h1 + Times(h2, acc));
    ProductDivides(n, Pow(root, d), acc, h2);
    DividesSum(n, Times(h2, Pow(root, d)) - Times(h2, acc), h1 + Times(h2, acc) - probe);
  }

  /** Some power of the root, times a nonzero number, leaves a given nonzero remainder. */
  lemma PowerThatLeaves(n: nat, root: nat, a: nat, c: nat) returns (d: nat)
    requires n > 1 && PrimitiveRoot(root, n) && 0 < a < n && 0 < c < n
    ensures 0 < d < n && Divides(n, Times(a, Pow(root, d)) - c)
  {
    assert HasLog(root, n, a) && HasLog(root, n, c);
    var j: nat :| IsLog(root, n, a, j);
    var e: nat :| IsLog(root, n, c, e);
    var e' := e;
    if e <= j {
      e' := e + n - 1;
      PowAdds(root, e, n - 1);
      ProductDivides(n, Pow(root, n - 1), 1, Pow(root, e));
      assert Times(Pow(root, e), 1) == Pow(root, e);
      DividesSum(n, Times(Pow(root, e), Pow(root, n - 1)) - Pow(root, e), Pow(root, e) - c);
    }
    assert Divides(n, Pow(root, e') - c);
    d := e' - j;
    PowAdds(root, j, d);
    ProductDivides(n, Pow(root, j), a, Pow(root, d));
    assert Times(Pow(root, d), Pow(root, j)) == Pow(root, e');
    assert Times(Pow(root, d), a) == Times(a, Pow(root, d));
    DividesSum(n, Pow(root, e') - c, Pow(root, e') - Times(a, Pow(root, d)));
  }

  lemma ExponentialComesTo(n: nat, root: nat, h: Word, b: nat)
    requires 1 < n <= 0x1_0000_0000 && PrimitiveRoot(root, n) && b < n && b != h % n
    ensures ComesTo(Exponential, n, root, h, b)
  {
    var h1, h2 := h % n, H2(h, n);
    var c := if b > h1 then b - h1 else b - h1 + n;
    var d := PowerThatLeaves(n, root, h2, c);
    ExponentialClosedForm(n, root, h, d);
    hide Times, Pow, PrimitiveRoot, ProbeAt;
    var probe, m := ProbeAt(Exponential, n, root, h, d), Times(h2, Pow(root, d));
    DividesSum(n, h1 + m - probe, m - c);
    WholeDivides(n);
    DividesSum(n, h1 + c - probe, b - h1 - c);
    SmallDifference(n, b, probe);
  }

  lemma WholeDivides(n: int)
    ensures Divides(n, 0) && Divides(n, 0 - n)
  {
    assert Times(n, 0) == 0 && Times(n, -1) == 0 - n;
  }

  /**
    * Exponential probing comes to every bucket of a table of prime size, when the products of two
    * indices fit a word.
    */
  lemma ExponentialCovers(n: nat, root: nat)
    requires 1 < n <= 0x1_0000_0000 && PrimitiveRoot(root, n)
    ensures Covers(Exponential, n, root)
  {
    forall h: Word, b: nat | b < n
      ensures ComesTo(Exponential, n, root, h, b)
    {
      if b == h % n {
        assert ProbeAt(Exponential, n, root, h, 0) == b;
      } else {
        ExponentialComesTo(n, root, h, b);
      }
    }
  }

  lemma SmallDifference(n: nat, a: nat, b: nat)
    requires a < n && b < n && Divides(n, a - b)
    ensures a == b
  {
    var q: int :| Times(n, q) == a - b;
    SmallMultiple(n, q);
  }

  lemma DividesTransitive(d: int, n: int, a: int)
    requires Divides(d, n) && Divides(n, a)
    ensures Divides(d, a)
  {
    var p: int :| Times(d, p) == n;
    var q: int :| Times(n, q) == a;
    assert Times(d, p * q) == a;
  }

  /** Only a prime has a primitive root: a factor of it would divide a power of the root, and so one. */
  lemma RootMakesPrime(n: nat, root: nat)
    requires n > 1 && PrimitiveRoot(root, n)
    ensures Prime(n)
  {
    forall d: nat, q: nat | Times(d, q) == n
      ensures d == 1 || d == n
    {
      if 1 < d < n {
        FactorDividesOne(n, root, d);
      } else if d > n {
        Grows(d, q);
      }
    }
  }

  lemma FactorDividesOne(n: nat, root: nat, d: nat)
    requires n > 1 && PrimitiveRoot(root, n) && 1 < d < n
    ensures !Divides(d, n)
  {
    if Divides(d, n) {
      assert HasLog(root, n, d);
      var e: nat :| IsLog(root, n, d, e);
      DividesTransitive(d, n, Pow(root, e) - d);
      DividesTransitive(d, n, Pow(root, n - 1) - 1);
      assert Times(d, 1) == d;
      DividesSum(d, Pow(root, e) - d, d);
      DividesMultiple(d, Pow(root, e), Pow(root, n - 1 - e));
      PowAdds(root, n - 1 - e, e);
      DividesSum(d, Pow(root, n - 1), Pow(root, n - 1) - 1);
      SmallDifference(d, 1, 0);
    }
  }

  /** What the source says of its table of sizes. */
  ghost predicate SizesArePrime() {
    forall idx: nat | 0 < idx < NUM_SIZES :: Prime(Size(idx))
  }

  /** What the source says of its table of roots, for the sizes that exponential probing can use. */
  ghost predicate RootsArePrimitive() {
    forall idx: nat | 0 < idx < UsableSizes(Exponential) :: PrimitiveRoot(Root(idx), Size(idx))
  }

  lemma LinearProbesCover()
    ensures ProbesCover(Linear)
  {
    forall idx: nat | 0 < idx < NUM_SIZES
      ensures Covers(Linear, Size(idx), Root(idx))
    {
      LinearCovers(Size(idx), Root(idx));
    }
  }

  lemma DoubleProbesCover()
    requires SizesArePrime()
    ensures ProbesCover(Double)
  {
    forall idx: nat | 0 < idx < NUM_SIZES
      ensures Covers(Double, Size(idx), Root(idx))
    {
      DoubleCovers(Size(idx), Root(idx));
    }
  }

  lemma ExponentialProbesCover()
    requires RootsArePrimitive()
    ensures ProbesCover(Exponential)
  {
    forall idx: nat | 0 < idx < UsableSizes(Exponential)
      ensures Covers(Exponential, Size(idx), Root(idx))
    {
      SizeFitsHalfWord(idx);
      ExponentialCovers(Size(idx), Root(idx));
    }
  }

  /** Where the roots are primitive, the sizes below the last one need not be known to be prime. */
  lemma RootsMakePrimes()
    requires RootsArePrimitive() && Prime(Size(NUM_SIZES - 1))
    ensures SizesArePrime()
  {
    forall idx: nat | 0 < idx < NUM_SIZES
      ensures Prime(Size(idx))
    {
      if idx < UsableSizes(Exponential) {
        RootMakesPrime(Size(idx), Root(idx));
      }
    }
  }

  /** Primitive roots and one prime are enough for every style. */
  lemma AllProbesCover(style: Style)
    requires style != Linear ==> RootsArePrimitive()
    requires style == Double ==> Prime(Size(NUM_SIZES - 1))
    ensures ProbesCover(style)
  {
    match style
    case Linear => LinearProbesCover();
    case Double =>
      RootsMakePrimes();
      DoubleProbesCover();
    case Exponential => ExponentialProbesCover();
  }

  lemma SizeFitsHalfWord(idx: nat)
    requires idx < UsableSizes(Exponential)
    ensures Size(idx) <= 0x1_0000_0000
  {
  }
}
