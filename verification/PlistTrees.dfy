/** Property list values, as trees. */
module PlistTrees {
  import opened PlistBytes

  /** A leaf value. Reals and dates are kept as their IEEE bit patterns. */
  datatype Scalar =
    | Null
    | Bool(b: bool)
    | Int(v: int)                     // a signed 64-bit number
    | Int128(high: int, low: nat)     // a 128-bit number, in two halves
    | Real32(bits: nat)
    | Real64(bits: nat)
    | Date(bits: nat)
    | Data(bytes: seq<Byte>)
    | Text(chars: seq<nat>)           // UTF-16 code units
    | UID(value: nat)

  datatype Tag = ArrayTag | SetTag | DictTag

  /**
    * A property list. The kids of a dictionary are its keys followed by its values, in the order
    * in which CFDictionaryGetKeysAndValues lists them and the reader rebuilds them.
    */
  datatype Tree = Leaf(s: Scalar) | Node(tag: Tag, kids: seq<Tree>)

  /** The number of nodes of a tree. */
  function Size(t: Tree): (n: nat)
    ensures n > 0
    decreases t, if t.Node? then |t.kids| + 1 else 0
  {
    match t
    case Leaf(_) => 1
    case Node(_, kids) => 1 + SizeAll(t, |kids|)
  }

  function SizeAll(t: Tree, n: nat): nat
    requires t.Node? && n <= |t.kids|
    decreases t, n
  {
    if n == 0 then 0 else SizeAll(t, n - 1) + Size(t.kids[n - 1])
  }

  lemma {:induction false} KidInSum(t: Tree, n: nat, i: nat)
    requires t.Node? && i < n <= |t.kids|
    ensures Size(t.kids[i]) <= SizeAll(t, n)
  {
    if i < n - 1 {
      KidInSum(t, n - 1, i);
    }
  }

  lemma KidIsSmaller(t: Tree, i: nat)
    requires t.Node? && i < |t.kids|
    ensures Size(t.kids[i]) < Size(t)
  {
    KidInSum(t, |t.kids|, i);
  }

  /** The value ranges of the Core Foundation types behind the leaves; lengths are machine integers. */
  predicate ScalarInRange(s: Scalar) {
    match s
    case Null => true
    case Bool(_) => true
    case Int(v) => -0x8000_0000_0000_0000 <= v < 0x8000_0000_0000_0000
    case Int128(high, low) => -0x8000_0000_0000_0000 <= high < 0x8000_0000_0000_0000 && low < TWO_64
    case Real32(bits) => bits < TWO_32
    case Real64(bits) => bits < TWO_64
    case Date(bits) => bits < TWO_64
    case Data(bytes) => |bytes| < TWO_64
    case Text(chars) => |chars| < TWO_64 && forall i | 0 <= i < |chars| :: chars[i] < 0x1_0000
    case UID(v) => v < TWO_32
  }

  predicate InRange(t: Tree) {
    match t
    case Leaf(s) => ScalarInRange(s)
    case Node(_, kids) => |kids| < TWO_64 && forall i | 0 <= i < |kids| :: InRange(kids[i])
  }

  const NAN_BITS: nat := 0x7ff8_0000_0000_0000
  const POSITIVE_INFINITY_BITS: nat := 0x7ff0_0000_0000_0000
  const NEGATIVE_INFINITY_BITS: nat := 0xfff0_0000_0000_0000

  predicate IsSpecial32(bits: nat) {
    bits / 0x80_0000 % 0x100 == 0xff
  }

  predicate IsNaN64(bits: nat) {
    bits / 0x10_0000_0000_0000 % 0x800 == 0x7ff && bits % 0x10_0000_0000_0000 != 0
  }

  /** `CFNumberCreate` on a 32-bit real: infinities and NaN are shared 64-bit numbers. */
  function Number32(bits: nat): Scalar {
    if !IsSpecial32(bits) then Real32(bits)
    else if bits % 0x80_0000 != 0 then Real64(NAN_BITS)
    else if bits < 0x8000_0000 then Real64(POSITIVE_INFINITY_BITS)
    else Real64(NEGATIVE_INFINITY_BITS)
  }

  /** On a 64-bit real: there is one NaN, and the shared infinities are the infinities. */
  function Number64(bits: nat): Scalar {
    Real64(if IsNaN64(bits) then NAN_BITS else bits)
  }

  /** The shared numbers, and what is taken for them: the largest finite numbers are not. */
  lemma SpecialReals()
    ensures Number32(0x7f80_0000) == Real64(0x7ff0_0000_0000_0000)
    ensures Number32(0xff80_0000) == Real64(0xfff0_0000_0000_0000)
    ensures forall bits: nat | 0x7f80_0000 < bits < 0x8000_0000 || 0xff80_0000 < bits < TWO_32 ::
              Number32(bits) == Real64(0x7ff8_0000_0000_0000)
    ensures forall bits: nat | bits < 0x7f80_0000 || 0x8000_0000 <= bits < 0xff80_0000 :: Number32(bits) == Real32(bits)
    ensures forall bits: nat |
              0x7ff0_0000_0000_0000 < bits < 0x8000_0000_0000_0000 || 0xfff0_0000_0000_0000 < bits < TWO_64 ::
              Number64(bits) == Real64(0x7ff8_0000_0000_0000)
    ensures forall bits: nat |
              bits <= 0x7ff0_0000_0000_0000 || 0x8000_0000_0000_0000 <= bits <= 0xfff0_0000_0000_0000 ::
              Number64(bits) == Real64(bits)
  {
  }

  /** What a round trip keeps of a leaf: the high half of a 128-bit number and the form of special reals are lost. */
  function CanonScalar(s: Scalar): Scalar {
    match s
    case Int128(_, low) => Int128(0, low)
    case Real32(bits) => Number32(bits)
    case Real64(bits) => Number64(bits)
    case _ => s
  }

  function Canon(t: Tree): Tree {
    match t
    case Leaf(s) => Leaf(CanonScalar(s))
    case Node(tag, kids) => Node(tag, seq(|kids|, i requires 0 <= i < |kids| => Canon(kids[i])))
  }

  /** No 128-bit number with a nonzero high half, no 32-bit infinity or NaN, and no 64-bit NaN but one. */
  predicate FitsReader(t: Tree) {
    match t
    case Leaf(s) =>
      && (s.Int128? ==> s.high == 0)
      && (s.Real32? ==> !IsSpecial32(s.bits))
      && (s.Real64? ==> !IsNaN64(s.bits) || s.bits == NAN_BITS)
    case Node(_, kids) => forall i | 0 <= i < |kids| :: FitsReader(kids[i])
  }

  /** Every dictionary key is a leaf. */
  predicate KeysPrimitive(t: Tree) {
    match t
    case Leaf(_) => true
    case Node(tag, kids) =>
      && (tag == DictTag ==> forall i | 0 <= i < |kids| / 2 :: kids[i].Leaf?)
      && forall i | 0 <= i < |kids| :: KeysPrimitive(kids[i])
  }

  /** Every value is of a type the writer supports. */
  predicate Writable(t: Tree) {
    match t
    case Leaf(s) => !s.Null?
    case Node(tag, kids) => tag != SetTag && forall i | 0 <= i < |kids| :: Writable(kids[i])
  }

  /** The reader's loss is visible exactly on those numbers. */
  lemma {:induction false} CanonIsIdentity(t: Tree)
    ensures Canon(t) == t <==> FitsReader(t)
  {
    match t
    case Leaf(_) =>
    case Node(tag, kids) =>
      forall i | 0 <= i < |kids| {
        CanonIsIdentity(kids[i]);
      }
      if FitsReader(t) {
        assert Canon(t).kids == kids;
      } else {
        var i :| 0 <= i < |kids| && !FitsReader(kids[i]);
        assert Canon(t).kids[i] != kids[i];
      }
  }
}
