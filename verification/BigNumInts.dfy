/** Between big numbers and machine integers, with the wrap-around of the machine. */
module BigNumInts {
  import opened BigNum

  const TWO_63: int := 0x8000_0000_0000_0000
  const TWO_127: int := 0x8000_0000_0000_0000_0000_0000_0000_0000

  predicate IsInt64(x: int) {
    -TWO_63 <= x < TWO_63
  }

  predicate IsInt128(x: int) {
    -TWO_127 <= x < TWO_127
  }

  /** The signed 64-bit integer that arithmetic wraps to. */
  function Int64(x: int): (r: int)
    ensures IsInt64(r)
    ensures IsInt64(x) ==> r == x
  {
    (x + TWO_63) % (2 * TWO_63) - TWO_63
  }

  function Int128(x: int): (r: int)
    ensures IsInt128(r)
    ensures IsInt128(x) ==> r == x
  {
    (x + TWO_127) % (2 * TWO_127) - TWO_127
  }

  /** `_CFBigNumInitWithInt64`; the smallest integer negates to itself and is read as unsigned. */
  method InitWithInt64(x: int) returns (r: Num)
    requires IsInt64(x)
    ensures Canonical(r) && Value(r) == x
  {
    var unsigned: nat := if x < 0 then Int64(-x) % (2 * TWO_63) else x;
    assert unsigned == if x < 0 then -x else x;
    var dig2 := unsigned / LIMIT_2;
    unsigned := unsigned - dig2 * LIMIT_2;
    var dig1 := unsigned / LIMIT;
    r := Num([unsigned - dig1 * LIMIT, dig1, dig2, 0, 0], if x < 0 then -1 else 0);
    FiveDigits(r.digits, 0);
    MagnitudeIsWeighted(r.digits);
  }

  /** `_CFBigNumGetInt64`: exact on the numbers that 64 bits can hold, and on no others. */
  method GetInt64(n: Num) returns (r: int)
    requires Canonical(n)
    ensures IsInt64(r)
    ensures r == Value(n) <==> IsInt64(Value(n))
  {
    hide Int64;
    FiveDigits(n.digits, 0);
    MagnitudeIsWeighted(n.digits);
    WrapsToLeast64();
    r := n.digits[0];
    r := Int64(r + Int64(n.digits[1] * LIMIT));
    assert r == n.digits[0] + n.digits[1] * LIMIT;
    r := Int64(r + Int64(n.digits[2] * LIMIT_2));
    assert IsInt64(Value(n)) ==> r == Int64(Magnitude(n.digits));
    if n.sign < 0 {
      r := Int64(-1 * r);
    }
  }

  lemma WrapsToLeast64()
    ensures Int64(TWO_63) == -TWO_63
  {
  }

  lemma WrapsToLeast128()
    ensures Int128(TWO_127) == -TWO_127
  {
  }

  /** `_CFBigNumInitWithInt128` */
  method InitWithInt128(x: int) returns (r: Num)
    requires IsInt128(x)
    ensures Canonical(r) && Value(r) == x
  {
    var unsigned: nat := if x < 0 then Int128(-x) % (2 * TWO_127) else x;
    assert unsigned == if x < 0 then -x else x;
    var dig4 := unsigned / LIMIT_4;
    unsigned := unsigned - dig4 * LIMIT_4;
    var dig3 := unsigned / LIMIT_3;
    unsigned := unsigned - dig3 * LIMIT_3;
    var dig2 := unsigned / LIMIT_2;
    unsigned := unsigned - dig2 * LIMIT_2;
    var dig1 := unsigned / LIMIT;
    r := Num([unsigned - dig1 * LIMIT, dig1, dig2, dig3, dig4], if x < 0 then -1 else 0);
    FiveDigits(r.digits, 0);
    MagnitudeIsWeighted(r.digits);
  }

  /** `_CFBigNumGetInt128`: exact on the numbers that 128 bits can hold, and on no others. */
  method GetInt128(n: Num) returns (r: int)
    requires Canonical(n)
    ensures IsInt128(r)
    ensures r == Value(n) <==> IsInt128(Value(n))
  {
    hide Int128;
    FiveDigits(n.digits, 0);
    MagnitudeIsWeighted(n.digits);
    WrapsToLeast128();
    r := n.digits[0];
    r := Int128(r + Int128(n.digits[1] * LIMIT));
    r := Int128(r + Int128(n.digits[2] * LIMIT_2));
    r := Int128(r + Int128(n.digits[3] * LIMIT_3));
    assert r == n.digits[0] + n.digits[1] * LIMIT + n.digits[2] * LIMIT_2 + n.digits[3] * LIMIT_3;
    r := Int128(r + Int128(n.digits[4] * LIMIT_4));
    assert IsInt128(Value(n)) ==> r == Int128(Magnitude(n.digits));
    if n.sign < 0 {
      r := Int128(-1 * r);
    }
  }
}
