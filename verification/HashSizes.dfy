/** The prime bucket counts and load limits of CFBasicHash on 64-bit machines. */
module HashSizes {

  const TABLE_SIZES: seq<nat> := [
    0, 3, 7, 13, 23, 41, 71, 127, 191, 251, 383, 631, 1087, 1723,
    2803, 4523, 7351, 11959, 19447, 31231, 50683, 81919, 132607] + [
    214519, 346607, 561109, 907759, 1468927, 2376191, 3845119,
    6221311, 10066421, 16287743, 26354171, 42641881, 68996069,
    111638519, 180634607, 292272623, 472907251,
    765180413, 1238087663, 2003267557, 3241355263, 5244622819]

  const TABLE_CAPACITIES: seq<nat> := [
    0, 3, 6, 11, 19, 32, 52, 85, 118, 155, 237, 390, 672, 1065,
    1732, 2795, 4543, 7391, 12019, 19302, 31324, 50629, 81956] + [
    132580, 214215, 346784, 561026, 907847, 1468567, 2376414,
    3844982, 6221390, 10066379, 16287773, 26354132, 42641916,
    68996399, 111638327, 180634415, 292272755,
    472907503, 765180257, 1238087439, 2003267722, 3241355160]

  const PRIMITIVE_ROOTS: seq<nat> := [
    0, 2, 3, 2, 5, 6, 7, 3, 19, 6, 5, 3, 3, 3,
    2, 5, 6, 3, 3, 6, 2, 3, 3] + [
    3, 5, 10, 3, 3, 22, 3,
    3, 3, 5, 2, 22, 2,
    11, 5, 5, 2,
    3, 10, 2, 3, 10]

  const NUM_SIZES: nat := 45

  /** The most live slots that any table can reach. */
  const MAX_LOAD: nat := 3241355160

  function Size(idx: nat): (size: nat)
    requires idx < NUM_SIZES
    ensures idx > 0 ==> size > 1
  {
    TABLE_SIZES[idx]
  }

  function Root(idx: nat): nat
    requires idx < NUM_SIZES
  {
    PRIMITIVE_ROOTS[idx]
  }

  function Capacity(idx: nat): nat
    requires idx < NUM_SIZES
  {
    TABLE_CAPACITIES[idx]
  }

  /** The load never exceeds the buckets, so a search always meets a free bucket. */
  lemma LoadFits(idx: nat)
    requires idx < NUM_SIZES
    ensures Capacity(idx) <= Size(idx)
  {
  }

  /** A size that carries any load has more than one bucket. */
  lemma ManyBuckets(idx: nat)
    requires idx < NUM_SIZES && Capacity(idx) > 0
    ensures idx > 0 && Size(idx) > 1
  {
    assert Capacity(0) == 0;
  }

  lemma CapacityBounded(idx: nat)
    requires idx < NUM_SIZES
    ensures Capacity(idx) <= MAX_LOAD
  {
  }

  /** A table grown one size past the one that carries the load can still carry it. */
  lemma CapacityGrows(idx: nat)
    requires idx + 1 < NUM_SIZES
    ensures Capacity(idx) < Capacity(idx + 1)
  {
  }

  /** The least size that can carry a load. */
  predicate LeastFor(idx: nat, load: nat) {
    idx < NUM_SIZES && load <= Capacity(idx) && forall i | 0 <= i < idx :: Capacity(i) < load
  }

  lemma LeastForSays(idx: nat, load: nat)
    ensures LeastFor(idx, load) <==>
            idx < NUM_SIZES && load <= Capacity(idx) && !exists i :: 0 <= i < idx && load <= Capacity(i)
  {
  }

  /** `__CFBasicHashGetNumBucketsIndexForCapacity`: the first size that can carry the load. */
  method IndexForCapacity(capacity: nat) returns (idx: nat)
    requires capacity <= MAX_LOAD
    ensures LeastFor(idx, capacity)
    ensures capacity <= Capacity(idx) && forall i | 0 <= i < idx :: Capacity(i) < capacity
  {
    idx := 0;
    while capacity > Capacity(idx)
      invariant idx < NUM_SIZES
      invariant forall i | 0 <= i < idx :: Capacity(i) < capacity
      decreases NUM_SIZES - idx
    {
      assert idx != 44;
      idx := idx + 1;
    }
  }
}
