/** Bytes and big-endian integers, as the binary property list format stores them. */
module PlistBytes {

  type Byte = b: int | 0 <= b < 256

  const TWO_64: nat := 0x1_0000_0000_0000_0000
  const TWO_32: nat := 0x1_0000_0000
  const LONG_MAX: nat := 0x7fff_ffff_ffff_ffff
  const UINT64_MAX: nat := 0xffff_ffff_ffff_ffff

  function Pow256(n: nat): (p: nat)
    ensures p > 0
  {
    if n == 0 then 1 else 256 * Pow256(n - 1)
  }

  /**
    * The bytes that `n` fields of `size` bytes take, n * size, by repeated addition: positions in
    * tables are compared with it without nonlinear arithmetic.
    */
  function Span(n: nat, size: nat): nat {
    if n == 0 then 0 else Span(n - 1, size) + size
  }

  lemma {:induction false} SpanIsProduct(n: nat, size: nat)
    ensures Span(n, size) == n * size
  {
    if n > 0 {
      SpanIsProduct(n - 1, size);
      assert n * size == (n - 1) * size + size;
    }
  }

  lemma {:induction false} FieldInSpan(i: nat, n: nat, size: nat)
    requires i < n
    ensures Span(i, size) + size <= Span(n, size)
  {
    if i < n - 1 {
      FieldInSpan(i, n - 1, size);
    }
  }

  lemma {:induction false} CountBelowSpan(n: nat, size: nat)
    requires size >= 1
    ensures n <= Span(n, size)
  {
    if n > 0 {
      CountBelowSpan(n - 1, size);
    }
  }

  /** The big-endian bytes of the low `width` bytes of `n`. */
  function BigEndian(n: nat, width: nat): (s: seq<Byte>)
    ensures |s| == width
  {
    if width == 0 then [] else BigEndian(n / 256, width - 1) + [n % 256]
  }

  /** The number that a big-endian byte string stands for. */
  function Number(s: seq<Byte>): nat {
    if s == [] then 0 else Number(s[..|s| - 1]) * 256 + s[|s| - 1]
  }

  lemma Pow256Values()
    ensures Pow256(1) == 0x100 && Pow256(2) == 0x1_0000
    ensures Pow256(4) == TWO_32 && Pow256(8) == TWO_64
  {
    assert Pow256(2) == 256 * Pow256(1);
    assert Pow256(3) == 256 * Pow256(2);
    assert Pow256(4) == 256 * Pow256(3);
    assert Pow256(5) == 256 * Pow256(4);
    assert Pow256(6) == 256 * Pow256(5);
    assert Pow256(7) == 256 * Pow256(6);
    assert Pow256(8) == 256 * Pow256(7);
  }

  lemma {:induction false} Pow256Monotone(a: nat, b: nat)
    requires a <= b
    ensures Pow256(a) <= Pow256(b)
  {
    if a < b {
      Pow256Monotone(a, b - 1);
    }
  }

  /** Writing a number in enough bytes and reading it back gives the number. */
  lemma {:induction false} NumberOfBigEndian(n: nat, width: nat)
    requires n < Pow256(width)
    ensures Number(BigEndian(n, width)) == n
  {
    if width > 0 {
      assert n / 256 < Pow256(width - 1);
      NumberOfBigEndian(n / 256, width - 1);
      var s := BigEndian(n, width);
      assert s[..|s| - 1] == BigEndian(n / 256, width - 1);
    }
  }

  lemma {:induction false} NumberBound(s: seq<Byte>)
    ensures Number(s) < Pow256(|s|)
  {
    if s != [] {
      NumberBound(s[..|s| - 1]);
    }
  }

  /** The value of `_getSizedInt`: a big-endian integer of which only the last 64 bits survive. */
  function SizedInt(data: seq<Byte>, at: nat, size: nat): (n: nat)
    requires at + size <= |data|
    ensures n < TWO_64
  {
    Number(data[at..at + size]) % TWO_64
  }

  lemma SizedIntReads(data: seq<Byte>, at: nat, size: nat, n: nat)
    requires at + size <= |data|
    requires size <= 8 && n < Pow256(size)
    requires data[at..at + size] == BigEndian(n, size)
    ensures SizedInt(data, at, size) == n
  {
    NumberOfBigEndian(n, size);
    Pow256Values();
    Pow256Monotone(size, 8);
  }

  lemma ModStep(a: nat, b: nat)
    ensures (a % TWO_64 * 256 + b) % TWO_64 == (a * 256 + b) % TWO_64
  {
    var q := a / TWO_64;
    assert a == q * TWO_64 + a % TWO_64;
    assert a * 256 + b == (q * 256) * TWO_64 + (a % TWO_64 * 256 + b);
    ModAddMultiple(a % TWO_64 * 256 + b, q * 256);
  }

  lemma {:induction false} ModAddMultiple(x: nat, k: nat)
    ensures (k * TWO_64 + x) % TWO_64 == x % TWO_64
  {
    if k > 0 {
      ModAddMultiple(x, k - 1);
      assert k * TWO_64 + x == TWO_64 + ((k - 1) * TWO_64 + x);
    }
  }

  /** `_getSizedInt`: shift and add, byte by byte, in 64-bit arithmetic. */
  method GetSizedInt(data: seq<Byte>, at: nat, size: nat) returns (res: nat)
    requires at + size <= |data|
    ensures res == SizedInt(data, at, size)
  {
    res := 0;
    for idx := 0 to size
      invariant res == Number(data[at..at + idx]) % TWO_64
    {
      assert data[at..at + idx + 1] == data[at..at + idx] + [data[at + idx]];
      ModStep(Number(data[at..at + idx]), data[at + idx]);
      res := (res * 256 + data[at + idx]) % TWO_64;
    }
  }

  /** `size` is the least of 1, 2, 4 and 8 bytes that can hold `count`. */
  ghost predicate LeastWidth(count: nat, size: nat) {
    && size in {1, 2, 4, 8}
    && count < Pow256(size)
    && forall smaller :: smaller in {1, 2, 4} && smaller < size ==> Pow256(smaller) <= count
  }

  lemma LeastWidthUnique(count: nat, a: nat, b: nat)
    requires LeastWidth(count, a) && LeastWidth(count, b)
    ensures a == b
  {
    Pow256Values();
  }

  /** The width `_byteCount` picks, as a function. */
  function ByteWidth(count: nat): nat {
    if count < 0x100 then 1 else if count < 0x1_0000 then 2 else if count < TWO_32 then 4 else 8
  }

  lemma ByteWidthIsLeast(count: nat)
    requires count < TWO_64
    ensures LeastWidth(count, ByteWidth(count))
  {
    Pow256Values();
  }

  /** `_byteCount`: first the least number of bytes, then rounded up to a power of two. */
  method ByteCount(count: nat) returns (size: nat)
    requires count < TWO_64
    ensures LeastWidth(count, size) && size == ByteWidth(count)
  {
    Pow256Values();
    size := 0;
    // `count & mask` is nonzero exactly when some byte at or above `size` is set
    while count / Pow256(size) != 0
      invariant size <= 8
      invariant size > 0 ==> Pow256(size - 1) <= count
      decreases 8 - size
    {
      if size == 8 { assert false; }
      size := size + 1;
    }
    assert count < Pow256(size);
    ghost var needed := size;
    while size != 1 && size != 2 && size != 4 && size != 8 && size <= 8
      invariant needed <= size <= 8
      invariant !(needed <= 1 < size) && !(needed <= 2 < size) && !(needed <= 4 < size)
      decreases 8 - size
    {
      size := size + 1;
    }
    Pow256Monotone(needed, size);
    forall smaller | smaller in {1, 2, 4} && smaller < size
      ensures Pow256(smaller) <= count
    {
      assert smaller < needed;
      Pow256Monotone(smaller, needed - 1);
    }
    ByteWidthIsLeast(count);
    LeastWidthUnique(count, size, ByteWidth(count));
  }
}
