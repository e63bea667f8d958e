/**
  * The order in which CFBasicHash looks at its buckets for a hash code, in each of its three
  * styles, and when that order comes to every bucket.
  */
module HashProbe {
  import opened HashSizes

  const WORD: nat := 0x1_0000_0000_0000_0000

  /** A pointer-sized word. */
  type Word = w: int | 0 <= w < WORD

  datatype Style = Linear | Double | Exponential

  /** The loop variables `probe` and `acc`; only exponential probing uses the second. */
  datatype Walk = Walk(probe: nat, acc: nat)

  function Times(a: int, b: int): int {
    a * b
  }

  /** The second hash function, which is never zero. */
  function H2(h: Word, n: nat): (h2: nat)
    requires n > 1
    ensures 0 < h2 < n
    ensures h / n % n != 0 ==> h2 == h / n % n
    ensures h / n % n == 0 ==> h2 == n - 1
  {
    var q := h / n % n;
    if q == 0 then n - 1 else q
  }

  function Wrap(probe: nat, n: nat): nat {
    if n <= probe then probe - n else probe
  }

  function Start(n: nat, root: nat, h: Word): Walk
    requires n > 1
  {
    Walk(h % n, root)
  }

  function Advance(style: Style, n: nat, root: nat, h: Word, w: Walk): Walk
    requires n > 1
  {
    match style
    case Linear => Walk(Wrap(w.probe + 1, n), w.acc)
    case Double => Walk(Wrap(w.probe + H2(h, n), n), w.acc)
    case Exponential => Walk((h % n + Times(H2(h, n), w.acc)) % WORD % n, Times(root, w.acc) % WORD % n)
  }

  /** The loop variables at the turn `d`. */
  function WalkAt(style: Style, n: nat, root: nat, h: Word, d: nat): (w: Walk)
    requires n > 1
    ensures w.probe < n
  {
    if d == 0 then Start(n, root, h) else Advance(style, n, root, h, WalkAt(style, n, root, h, d - 1))
  }

  function ProbeAt(style: Style, n: nat, root: nat, h: Word, d: nat): (probe: nat)
    requires n > 1
    ensures probe < n
  {
    WalkAt(style, n, root, h, d).probe
  }

  lemma WalkUnfolds(style: Style, n: nat, root: nat, h: Word, d: nat)
    requires n > 1
    ensures d == 0 ==> WalkAt(style, n, root, h, d) == Start(n, root, h)
    ensures d > 0 ==> WalkAt(style, n, root, h, d) == Advance(style, n, root, h, WalkAt(style, n, root, h, d - 1))
  {
  }

  /** The probes for a hash code come to a bucket within as many turns as there are buckets. */
  ghost predicate ComesTo(style: Style, n: nat, root: nat, h: Word, b: nat)
    requires n > 1
  {
    exists d: nat :: d < n && ProbeAt(style, n, root, h, d) == b
  }

  ghost predicate Covers(style: Style, n: nat, root: nat)
    requires n > 1
  {
    forall h: Word, b: nat | b < n :: ComesTo(style, n, root, h, b)
  }

  lemma {:induction false} LinearClosedForm(n: nat, root: nat, h: Word, d: nat)
    requires n > 1 && d < n
    ensures ProbeAt(Linear, n, root, h, d) == Wrap(h % n + d, n)
  {
    if d > 0 {
      LinearClosedForm(n, root, h, d - 1);
    }
  }

  /** Linear probing comes to every bucket. */
  lemma LinearCovers(n: nat, root: nat)
    requires n > 1
    ensures Covers(Linear, n, root)
  {
    forall h: Word, b: nat | b < n
      ensures ComesTo(Linear, n, root, h, b)
    {
      var h1 := h % n;
      var d := if h1 <= b then b - h1 else b + n - h1;
      LinearClosedForm(n, root, h, d);
      assert ProbeAt(Linear, n, root, h, d) == b;
    }
  }

  /** How many sizes a style can use: squares of the last one do not fit a word. */
  function UsableSizes(style: Style): nat {
    if style == Exponential then NUM_SIZES - 1 else NUM_SIZES
  }

  /** In every size that a table can take, the probes come to every bucket. */
  ghost predicate ProbesCover(style: Style) {
    forall idx: nat | 0 < idx < UsableSizes(style) :: Covers(style, Size(idx), Root(idx))
  }

  /** A size has no buckets, or the probes come to all of them. */
  lemma CoversSize(style: Style, idx: nat)
    requires ProbesCover(style) && idx < UsableSizes(style)
    ensures Size(idx) == 0 || (Size(idx) > 1 && Covers(style, Size(idx), Root(idx)))
  {
    assert Size(0) == 0;
  }
}
