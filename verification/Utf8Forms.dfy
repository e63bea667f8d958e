/**
  * The character forms that the UTF-8 converter translates between: UTF-8 as section 3 of RFC 3629
  * defines it and UTF-16 as section 2 of RFC 2781 does.
  */
module Utf8Forms {

  type Byte = b: int | 0 <= b < 0x100
  type Unit = u: int | 0 <= u < 0x1_0000

  /** A character number that is not a surrogate. */
  type Scalar = c: int | 0 <= c < 0xD800 || 0xE000 <= c <= 0x10_FFFF

  /** Section 3 of RFC 3629: the bits of the number in groups of six. */
  function Utf8Of(c: Scalar): (s: seq<Byte>) {
    var c1 := c / 0x40;
    var c2 := c1 / 0x40;
    if c < 0x80 then [c]
    else if c < 0x800 then [0xC0 + c1, 0x80 + c % 0x40]
    else if c < 0x1_0000 then [0xE0 + c2, 0x80 + c1 % 0x40, 0x80 + c % 0x40]
    else [0xF0 + c2 / 0x40, 0x80 + c2 % 0x40, 0x80 + c1 % 0x40, 0x80 + c % 0x40]
  }

  function Utf16Of(c: Scalar): (s: seq<Unit>) {
    if c < 0x1_0000 then [c]
    else [0xD800 + (c - 0x1_0000) / 0x400, 0xDC00 + (c - 0x1_0000) % 0x400]
  }

  function Utf8(cs: seq<Scalar>): seq<Byte> {
    if cs == [] then [] else Utf8Of(cs[0]) + Utf8(cs[1..])
  }

  function Utf16(cs: seq<Scalar>): seq<Unit> {
    if cs == [] then [] else Utf16Of(cs[0]) + Utf16(cs[1..])
  }

  lemma {:induction false} Utf8Append(a: seq<Scalar>, b: seq<Scalar>)
    ensures Utf8(a + b) == Utf8(a) + Utf8(b)
  {
    hide Utf8Of;
    if a == [] {
      assert a + b == b;
    } else {
      assert (a + b)[0] == a[0] && (a + b)[1..] == a[1..] + b;
      Utf8Append(a[1..], b);
      assert Utf8(a + b) == Utf8Of(a[0]) + (Utf8(a[1..]) + Utf8(b));
    }
  }

  lemma {:induction false} Utf16Append(a: seq<Scalar>, b: seq<Scalar>)
    ensures Utf16(a + b) == Utf16(a) + Utf16(b)
  {
    hide Utf16Of;
    if a == [] {
      assert a + b == b;
    } else {
      assert (a + b)[0] == a[0] && (a + b)[1..] == a[1..] + b;
      Utf16Append(a[1..], b);
      assert Utf16(a + b) == Utf16Of(a[0]) + (Utf16(a[1..]) + Utf16(b));
    }
  }

  lemma {:induction false} LengthsGrow(cs: seq<Scalar>)
    ensures |cs| <= |Utf16(cs)| <= |Utf8(cs)|
  {
    if cs != [] {
      LengthsGrow(cs[1..]);
    }
  }

  lemma AppendOne(cs: seq<Scalar>, c: Scalar)
    ensures Utf8(cs + [c]) == Utf8(cs) + Utf8Of(c)
    ensures Utf16(cs + [c]) == Utf16(cs) + Utf16Of(c)
  {
    hide Utf8Of, Utf16Of;
    Utf8Append(cs, [c]);
    Utf16Append(cs, [c]);
    assert Utf8([c]) == Utf8Of(c) + [] && Utf16([c]) == Utf16Of(c) + [];
  }

  lemma Prepend(c: Scalar, cs: seq<Scalar>)
    ensures Utf8([c] + cs) == Utf8Of(c) + Utf8(cs)
    ensures Utf16([c] + cs) == Utf16Of(c) + Utf16(cs)
  {
    hide Utf8Of, Utf16Of;
    assert ([c] + cs)[1..] == cs;
  }

  /** The buffer holds `done`, and behind it what it held before. */
  ghost predicate Filled<T>(now: seq<T>, done: seq<T>, before: seq<T>) {
    |done| <= |before| && now == done + before[|done|..]
  }

  lemma NothingFilled<T>(before: seq<T>)
    ensures Filled(before, [], before)
  {
  }

  lemma FillMore<T>(before: seq<T>, mid: seq<T>, now: seq<T>, done: seq<T>, more: seq<T>)
    requires Filled(mid, done, before) && |done| + |more| <= |mid|
    requires now == mid[..|done|] + more + mid[|done| + |more|..]
    ensures Filled(now, done + more, before)
  {
  }

  predicate Continues(b: Byte) {
    0x80 <= b < 0xC0
  }

  /** The number that a sequence of one to four bytes spells, whether or not the sequence is legal. */
  function Assembled(s: seq<int>): int
    requires 1 <= |s| <= 4
  {
    match |s|
    case 1 => s[0]
    case 2 => (s[0] - 0xC0) * 0x40 + (s[1] - 0x80)
    case 3 => ((s[0] - 0xE0) * 0x40 + (s[1] - 0x80)) * 0x40 + (s[2] - 0x80)
    case _ => (((s[0] - 0xF0) * 0x40 + (s[1] - 0x80)) * 0x40 + (s[2] - 0x80)) * 0x40 + (s[3] - 0x80)
  }

  lemma AssembledIsInverse(c: Scalar)
    ensures 1 <= |Utf8Of(c)| <= 4 && Assembled(Utf8Of(c)) == c
  {
  }

  /** How many bytes follow a first byte. */
  function Trailing(head: Byte): (n: nat)
    ensures n <= 5
  {
    if head < 0xC0 then 0 else if head < 0xE0 then 1 else if head < 0xF0 then 2
    else if head < 0xF8 then 3 else if head < 0xFC then 4 else 5
  }

  lemma HeadTellsLength(c: Scalar)
    ensures |Utf8Of(c)| == Trailing(Utf8Of(c)[0]) + 1
  {
  }

  /** The sequences that section 4 of RFC 3629 lists. */
  predicate InGrammar(s: seq<Byte>) {
    && 1 <= |s| <= 4
    && (|s| == 1 ==> s[0] < 0x80)
    && (|s| == 2 ==> 0xC2 <= s[0] <= 0xDF)
    && (|s| == 3 ==> 0xE0 <= s[0] <= 0xEF && (s[0] == 0xE0 ==> s[1] >= 0xA0) && (s[0] == 0xED ==> s[1] <= 0x9F))
    && (|s| == 4 ==> 0xF0 <= s[0] <= 0xF4 && (s[0] == 0xF0 ==> s[1] >= 0x90) && (s[0] == 0xF4 ==> s[1] <= 0x8F))
    && forall i | 1 <= i < |s| :: Continues(s[i])
  }

  predicate IsScalar(n: int) {
    0 <= n < 0xD800 || 0xE000 <= n <= 0x10_FFFF
  }

  /** The grammar lists exactly the encodings of scalars. */
  lemma GrammarIsEncoding(s: seq<Byte>)
    requires InGrammar(s)
    ensures IsScalar(Assembled(s)) && Utf8Of(Assembled(s)) == s
  {
    var n, v: seq<int> := Assembled(s), s;
    if |s| == 2 {
      assert n / 0x40 == v[0] - 0xC0;
    } else if |s| == 3 {
      assert n / 0x40 == (v[0] - 0xE0) * 0x40 + (v[1] - 0x80);
    } else if |s| == 4 {
      assert n / 0x40 == ((v[0] - 0xF0) * 0x40 + (v[1] - 0x80)) * 0x40 + (v[2] - 0x80);
    }
  }

  lemma EncodingInGrammar(c: Scalar)
    ensures InGrammar(Utf8Of(c))
  {
  }

  /** Encodings sort as the characters do; section 1 of RFC 3629 lists this among the properties of UTF-8. */
  lemma EncodingKeepsOrder(c: Scalar, d: Scalar)
    requires c < d
    ensures exists k: nat :: FirstDifference(Utf8Of(c), Utf8Of(d), k) && Utf8Of(c)[k] < Utf8Of(d)[k]
  {
    var s, t := Utf8Of(c), Utf8Of(d);
    if s[0] != t[0] {
      assert FirstDifference(s, t, 0);
    } else {
      AssembledIsInverse(c);
      AssembledIsInverse(d);
      HeadTellsLength(c);
      HeadTellsLength(d);
      hide Utf8Of;
      if s[1] != t[1] {
        assert FirstDifference(s, t, 1);
      } else if s[2] != t[2] {
        assert FirstDifference(s, t, 2);
      } else {
        assert FirstDifference(s, t, 3);
      }
    }
  }

  predicate FirstDifference(s: seq<Byte>, t: seq<Byte>, k: nat) {
    k < |s| && k < |t| && s[..k] == t[..k] && s[k] != t[k]
  }

  /** The examples in section 7 of RFC 3629, and one of a surrogate pair from RFC 2781. */
  lemma KnownEncodings()
    ensures Utf8([0x41, 0x2262, 0x391, 0x2E]) == [0x41, 0xE2, 0x89, 0xA2, 0xCE, 0x91, 0x2E]
    ensures Utf8([0x65E5, 0x672C, 0x8A9E]) == [0xE6, 0x97, 0xA5, 0xE6, 0x9C, 0xAC, 0xE8, 0xAA, 0x9E]
    ensures Utf8([0x2_33B4]) == [0xF0, 0xA3, 0x8E, 0xB4]
    ensures Utf16([0x1_2345]) == [0xD808, 0xDF45]
  {
    var a: seq<Scalar>, b: seq<Scalar> := [0x41, 0x2262, 0x391, 0x2E], [0x65E5, 0x672C, 0x8A9E];
    assert a[1..] == [0x2262, 0x391, 0x2E] && a[1..][1..] == [0x391, 0x2E] && a[1..][1..][1..] == [0x2E];
    assert Utf8([0x2E]) == [0x2E];
    assert Utf8([0x391, 0x2E]) == [0xCE, 0x91] + [0x2E];
    assert b[1..] == [0x672C, 0x8A9E] && b[1..][1..] == [0x8A9E];
    assert Utf8([0x8A9E]) == [0xE8, 0xAA, 0x9E];
  }

  /** Some character's encoding stands at the front of the bytes. */
  ghost predicate Begins8(s: seq<Byte>, c: Scalar) {
    Utf8Of(c) <= s
  }

  ghost predicate Begins16(u: seq<Unit>, c: Scalar) {
    Utf16Of(c) <= u
  }

  lemma OneBegins8(s: seq<Byte>, c: Scalar, d: Scalar)
    requires Begins8(s, c) && Begins8(s, d)
    ensures c == d
  {
    AssembledIsInverse(c);
    AssembledIsInverse(d);
    HeadTellsLength(c);
    HeadTellsLength(d);
    assert Utf8Of(c)[0] == s[0] == Utf8Of(d)[0];
    assert Utf8Of(c) == s[..|Utf8Of(c)|] == Utf8Of(d);
  }

  lemma OneBegins16(u: seq<Unit>, c: Scalar, d: Scalar)
    requires Begins16(u, c) && Begins16(u, d)
    ensures c == d
  {
    assert u[0] == Utf16Of(c)[0] == Utf16Of(d)[0];
    if c >= 0x1_0000 {
      assert u[1] == Utf16Of(c)[1] == Utf16Of(d)[1];
    }
  }

  /** A character that stands at the front has the length that the first byte announces. */
  lemma FrontOfBegins(s: seq<Byte>, c: Scalar)
    requires Begins8(s, c)
    ensures s != [] && Trailing(s[0]) < |s| && Utf8Of(c) == s[..Trailing(s[0]) + 1] && InGrammar(Utf8Of(c))
  {
    HeadTellsLength(c);
    EncodingInGrammar(c);
    assert Utf8Of(c)[0] == s[0];
  }
}
