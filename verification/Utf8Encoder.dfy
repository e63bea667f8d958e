/** UTF-16 to UTF-8, in strict mode. */
module Utf8Encoder {
  import opened Utf8Forms

  const HIGH_START: Unit := 0xD800
  const HIGH_END: Unit := 0xDBFF
  const LOW_START: Unit := 0xDC00
  const LOW_END: Unit := 0xDFFF

  /** The characters of the longest well-formed prefix. */
  ghost function ScalarsOf(u: seq<Unit>): seq<Scalar> {
    if c: Scalar :| Begins16(u, c) then [c] + ScalarsOf(u[|Utf16Of(c)|..]) else []
  }

  lemma NextScalar(u: seq<Unit>, c: Scalar)
    requires Begins16(u, c)
    ensures ScalarsOf(u) == [c] + ScalarsOf(u[|Utf16Of(c)|..])
  {
    var d: Scalar :| Begins16(u, d) && ScalarsOf(u) == [d] + ScalarsOf(u[|Utf16Of(d)|..]);
    OneBegins16(u, c, d);
  }

  lemma UnitsAreNotEmpty()
    ensures forall c: Scalar :: |Utf16Of(c)| > 0
  {
  }

  /** It is a prefix, no character begins after it, and so it has every well-formed prefix. */
  lemma {:induction false} ScalarsArePrefix(u: seq<Unit>)
    ensures Utf16(ScalarsOf(u)) <= u
    ensures forall c :: !Begins16(u[|Utf16(ScalarsOf(u))|..], c)
  {
    UnitsAreNotEmpty();
    hide Utf16Of;
    if c: Scalar :| Begins16(u, c) {
      var rest := u[|Utf16Of(c)|..];
      NextScalar(u, c);
      ScalarsArePrefix(rest);
      assert ([c] + ScalarsOf(rest))[1..] == ScalarsOf(rest);
      assert u == Utf16Of(c) + rest;
      assert u[|Utf16(ScalarsOf(u))|..] == rest[|Utf16(ScalarsOf(rest))|..];
    } else {
      assert u[0..] == u;
    }
  }

  lemma {:induction false} ScalarsAreGreatest(u: seq<Unit>, cs: seq<Scalar>)
    requires Utf16(cs) <= u
    ensures cs <= ScalarsOf(u)
  {
    if cs != [] {
      var c := cs[0];
      assert Begins16(u, c) by {
        assert Utf16(cs) == Utf16Of(c) + Utf16(cs[1..]);
      }
      NextScalar(u, c);
      var rest := u[|Utf16Of(c)|..];
      assert Utf16(cs[1..]) <= rest by {
        assert Utf16(cs)[|Utf16Of(c)|..] == Utf16(cs[1..]);
      }
      ScalarsAreGreatest(rest, cs[1..]);
      assert cs == [c] + cs[1..];
    }
  }

  ghost predicate WellFormed16(u: seq<Unit>) {
    exists cs :: Utf16(cs) == u
  }

  lemma WellFormedScalars(u: seq<Unit>, cs: seq<Scalar>)
    requires Utf16(cs) == u
    ensures ScalarsOf(u) == cs
  {
    ScalarsAreGreatest(u, cs);
    ScalarsArePrefix(u);
    var more := ScalarsOf(u)[|cs|..];
    assert ScalarsOf(u) == cs + more;
    Utf16Append(cs, more);
    LengthsGrow(more);
  }

  function BytesToWrite(ch: nat): (n: nat) {
    if ch < 0x80 then 1
    else if ch < 0x800 then 2
    else if ch < 0x1_0000 then 3
    else if ch < 0x20_0000 then 4
    else if ch < 0x400_0000 then 5
    else if ch <= 0x7FFF_FFFF then 6
    else 0
  }

  /** `(ch | byteMark) & byteMask` */
  function TrailingByte(ch: nat): Byte {
    0x80 + ch % 0x40
  }

  /** `ch >>= 6` */
  function NextBits(ch: nat): nat {
    ch / 0x40
  }

  /** The bytes of a code from the last to the first, as the encoder writes them. */
  lemma CodeBytes(c: Scalar)
    ensures var s := Utf8Of(c); var n := |s|; var c1 := NextBits(c); var c2 := NextBits(c1);
      && n == BytesToWrite(c) && 1 <= n <= 4
      && (n == 1 ==> c < 0x80 && s == [c])
      && (n == 2 ==> c1 + 0xC0 < 0x100 && s == [c1 + 0xC0, TrailingByte(c)])
      && (n == 3 ==> c2 + 0xE0 < 0x100 && s == [c2 + 0xE0, TrailingByte(c1), TrailingByte(c)])
      && (n == 4 ==>
            NextBits(c2) + 0xF0 < 0x100 && s == [NextBits(c2) + 0xF0, TrailingByte(c2), TrailingByte(c1),
                TrailingByte(c)])
  {
  }

  /** Writes a character of more than one byte at the given position, or nothing if it does not fit. */
  method ToUtf8Core(character: Scalar, bytes: array<Byte>, at: nat, ghost done: seq<Byte>, ghost start: seq<Byte>)
      returns (written: nat)
    requires at <= bytes.Length && |done| == at && Filled(bytes[..], done, start)
    modifies bytes
    ensures written == if bytes.Length - at < |Utf8Of(character)| then 0 else |Utf8Of(character)|
    ensures Filled(bytes[..], if written == 0 then done else done + Utf8Of(character), start)
  {
    hide Utf8Of, BytesToWrite, TrailingByte, NextBits, Filled;
    CodeBytes(character);
    written := BytesToWrite(character);
    if bytes.Length - at < written {
      return 0;
    }
    ghost var before := bytes[..];
    var ch: nat := character;
    if written >= 4 {
      bytes[at + 3] := TrailingByte(ch);
      ch := NextBits(ch);
    }
    if written >= 3 {
      bytes[at + 2] := TrailingByte(ch);
      ch := NextBits(ch);
    }
    if written >= 2 {
      bytes[at + 1] := TrailingByte(ch);
      ch := NextBits(ch);
    }
    bytes[at] := ch + if written == 1 then 0 else if written == 2 then 0xC0 else if written == 3 then 0xE0 else 0xF0;
    Patched(before, bytes[..], at, Utf8Of(character));
    FillMore(start, before, bytes[..], done, Utf8Of(character));
  }

  lemma Patched(before: seq<Byte>, after: seq<Byte>, at: nat, patch: seq<Byte>)
    requires at + |patch| <= |before| == |after|
    requires forall i | 0 <= i < |patch| :: after[at + i] == patch[i]
    requires forall i | 0 <= i < |before| && !(at <= i < at + |patch|) :: after[i] == before[i]
    ensures after == before[..at] + patch + before[at + |patch|..]
  {
    forall i | 0 <= i < |after|
      ensures after[i] == (before[..at] + patch + before[at + |patch|..])[i]
    {
      if at <= i < at + |patch| {
        assert after[at + (i - at)] == patch[i - at];
      }
    }
  }

  /**
    * The character at a position, as the encoder reads it, and how many units it takes: none for
    * a surrogate that is not half of a pair.
    */
  method ReadUnit(characters: seq<Unit>, at: nat) returns (ch: Scalar, taken: nat)
    requires at < |characters|
    ensures taken > 0 ==> Begins16(characters[at..], ch) && taken == |Utf16Of(ch)|
    ensures taken == 0 ==> forall c :: !Begins16(characters[at..], c)
  {
    var unit: int := characters[at];
    if HIGH_START <= unit {
      if unit <= HIGH_END {
        if at + 1 < |characters| && LOW_START <= characters[at + 1] <= LOW_END {
          var low: int := characters[at + 1];
          return (unit - HIGH_START) * 0x400 + (low - LOW_START) + 0x1_0000, 2;
        }
        return 0, 0;
      } else if unit <= LOW_END {
        return 0, 0;
      }
    }
    return unit, 1;
  }

  /** `cs` are the most leading characters of `all` whose encoding takes at most `room` bytes. */
  ghost predicate MostThatFit(cs: seq<Scalar>, all: seq<Scalar>, room: nat) {
    && cs <= all && |Utf8(cs)| <= room
    && forall ds :: ds <= all && |Utf8(ds)| <= room ==> ds <= cs
  }

  lemma FullMeansMost(cs: seq<Scalar>, all: seq<Scalar>, room: nat)
    requires cs <= all && |Utf8(cs)| <= room
    requires |cs| < |all| ==> |Utf8(cs)| + |Utf8Of(all[|cs|])| > room
    ensures MostThatFit(cs, all, room)
  {
    hide Utf8, Utf8Of;
    forall ds | ds <= all && |Utf8(ds)| <= room
      ensures ds <= cs
    {
      if |ds| > |cs| {
        LongerCodes(cs, ds);
      }
    }
  }

  lemma LongerCodes(cs: seq<Scalar>, ds: seq<Scalar>)
    requires cs < ds
    ensures |Utf8(ds)| >= |Utf8(cs)| + |Utf8Of(ds[|cs|])|
  {
    hide Utf8, Utf8Of;
    var n := |cs|;
    assert ds[..n + 1] == cs + [ds[n]];
    AppendOne(cs, ds[n]);
    assert ds == ds[..n + 1] + ds[n + 1..];
    Utf8Append(ds[..n + 1], ds[n + 1..]);
  }

  /** What the encoder has done when it has encoded the characters `cs`. */
  ghost predicate Encoding(u: seq<Unit>, cs: seq<Scalar>, at: nat, pos: nat) {
    && at <= |u| && u[..at] == Utf16(cs) && pos == |Utf8(cs)|
    && ScalarsOf(u) == cs + ScalarsOf(u[at..])
  }

  lemma EncodingStep(u: seq<Unit>, cs: seq<Scalar>, at: nat, pos: nat, c: Scalar)
    requires Encoding(u, cs, at, pos) && Begins16(u[at..], c)
    ensures Encoding(u, cs + [c], at + |Utf16Of(c)|, pos + |Utf8Of(c)|)
    ensures cs < ScalarsOf(u) && ScalarsOf(u)[|cs|] == c
  {
    hide Utf8Of, Utf16Of, Utf8, Utf16, ScalarsOf;
    var n := |Utf16Of(c)|;
    NextScalar(u[at..], c);
    AppendOne(cs, c);
    assert u[..at + n] == u[..at] + u[at..][..n];
    assert u[at..][n..] == u[at + n..];
    var rest := ScalarsOf(u[at + n..]);
    assert cs + ([c] + rest) == (cs + [c]) + rest;
  }

  lemma EncodingStops(u: seq<Unit>, cs: seq<Scalar>, at: nat, pos: nat)
    requires Encoding(u, cs, at, pos) && forall c :: !Begins16(u[at..], c)
    ensures cs == ScalarsOf(u)
  {
    assert ScalarsOf(u[at..]) == [];
  }

  lemma NoneBeginsAtEnd()
    ensures forall c :: !Begins16([], c)
  {
  }

  /**
    * Strict conversion into a buffer; an empty buffer stands for counting without a limit. It
    * consumes the longest run of whole well-formed characters that fits, and writes its encoding.
    */
  method ToUtf8(characters: seq<Unit>, bytes: array<Byte>) returns (consumed: nat, used: nat, ghost cs: seq<Scalar>)
    modifies bytes
    ensures consumed <= |characters| && characters[..consumed] == Utf16(cs) && used == |Utf8(cs)|
    ensures bytes.Length == 0 ==> cs == ScalarsOf(characters)
    ensures bytes.Length > 0 ==> MostThatFit(cs, ScalarsOf(characters), bytes.Length)
    ensures bytes.Length > 0 ==> Filled(bytes[..], Utf8(cs), old(bytes[..]))
  {
    hide Utf8Of, Utf16Of, Utf8, Utf16, MostThatFit, Begins16, ScalarsOf, Filled, BytesToWrite, Encoding;
    NothingFilled(bytes[..]);
    consumed, used, cs := 0, 0, [];
    ghost var before := bytes[..];
    EncodingStart(characters);
    while consumed < |characters| && (bytes.Length == 0 || used < bytes.Length)
      invariant Encoding(characters, cs, consumed, used) && used == |Utf8(cs)|
      invariant bytes.Length > 0 ==> used <= bytes.Length && Filled(bytes[..], Utf8(cs), before)
    {
      var ch, taken := ReadUnit(characters, consumed);
      if taken == 0 {
        EncodingStops(characters, cs, consumed, used);
        break;
      }
      EncodingStep(characters, cs, consumed, used, ch);
      CodeBytes(ch);
      var written := BytesToWrite(ch);
      if bytes.Length > 0 {
        written := ToUtf8Core(ch, bytes, used, Utf8(cs), before);
        if written == 0 {
          break;
        }
      }
      AppendOne(cs, ch);
      consumed, used, cs := consumed + taken, used + written, cs + [ch];
    }
    EncodingEnds(characters, cs, consumed, used);
    if bytes.Length > 0 {
      CodesAreNotEmpty();
      FullMeansMost(cs, ScalarsOf(characters), bytes.Length);
    }
  }

  lemma EncodingEnds(u: seq<Unit>, cs: seq<Scalar>, at: nat, pos: nat)
    requires Encoding(u, cs, at, pos)
    ensures at <= |u| && u[..at] == Utf16(cs) && pos == |Utf8(cs)| && cs <= ScalarsOf(u)
    ensures at == |u| ==> cs == ScalarsOf(u)
  {
    if at == |u| {
      NoneBeginsAtEnd();
      assert u[at..] == [];
      EncodingStops(u, cs, at, pos);
    }
  }

  lemma CodesAreNotEmpty()
    ensures forall c: Scalar :: |Utf8Of(c)| > 0
  {
  }

  lemma EncodingStart(u: seq<Unit>)
    ensures Encoding(u, [], 0, 0)
  {
    assert u[0..] == u;
  }

  predicate PairAtFront(u: seq<Unit>) {
    |u| >= 2 && HIGH_START <= u[0] <= HIGH_END && LOW_START <= u[1] <= LOW_END
  }

  /** What the length function adds up: a lone surrogate counts like any other unit. */
  function CountedBytes(u: seq<Unit>): (n: nat)
    ensures n <= 3 * |u|
  {
    if u == [] then 0
    else if PairAtFront(u) then 4 + CountedBytes(u[2..])
    else BytesToWrite(u[0]) + CountedBytes(u[1..])
  }

  /** `__CFToUTF8Len`, whose sum is kept in 32 bits. */
  method ToUtf8Len(characters: seq<Unit>) returns (bytesToWrite: nat)
    ensures bytesToWrite == CountedBytes(characters) % 0x1_0000_0000
  {
    hide CountedBytes, BytesToWrite;
    bytesToWrite := 0;
    ghost var sum: nat := 0;
    var at := 0;
    assert characters[0..] == characters;
    while at < |characters|
      invariant at <= |characters| && bytesToWrite == sum % 0x1_0000_0000
      invariant CountedBytes(characters) == sum + CountedBytes(characters[at..])
    {
      CountedNext(characters[at..]);
      ghost var rest := characters[at..];
      var ch: int := characters[at];
      at := at + 1;
      if HIGH_START <= ch <= HIGH_END && at < |characters| && LOW_START <= characters[at] <= LOW_END {
        var low: int := characters[at];
        ch := (ch - HIGH_START) * 0x400 + (low - LOW_START) + 0x1_0000;
        at := at + 1;
        assert PairAtFront(rest) && rest[2..] == characters[at..];
        PairTakesFour(ch);
      } else {
        assert !PairAtFront(rest) && rest[1..] == characters[at..];
      }
      Wrap(sum, BytesToWrite(ch));
      bytesToWrite := (bytesToWrite + BytesToWrite(ch)) % 0x1_0000_0000;
      sum := sum + BytesToWrite(ch);
    }
    CountedNext(characters[at..]);
  }

  lemma CountedNext(u: seq<Unit>)
    ensures u == [] ==> CountedBytes(u) == 0
    ensures PairAtFront(u) ==> CountedBytes(u) == 4 + CountedBytes(u[2..])
    ensures u != [] && !PairAtFront(u) ==> CountedBytes(u) == BytesToWrite(u[0]) + CountedBytes(u[1..])
  {
  }

  lemma PairTakesFour(ch: nat)
    requires 0x1_0000 <= ch <= 0x10_FFFF
    ensures BytesToWrite(ch) == 4
  {
  }

  lemma Wrap(sum: nat, n: nat)
    ensures (sum % 0x1_0000_0000 + n) % 0x1_0000_0000 == (sum + n) % 0x1_0000_0000
  {
  }

  lemma CountedFront(u: seq<Unit>, c: Scalar)
    requires Begins16(u, c)
    ensures CountedBytes(u) == |Utf8Of(c)| + CountedBytes(u[|Utf16Of(c)|..])
  {
    assert PairAtFront(u) <==> c >= 0x1_0000;
  }

  /** The length is the encoder's exactly on well-formed input; elsewhere it is too large. */
  lemma {:induction false} CountedMeetsEncoded(u: seq<Unit>)
    ensures CountedBytes(u) >= |Utf8(ScalarsOf(u))|
    ensures CountedBytes(u) == |Utf8(ScalarsOf(u))| <==> WellFormed16(u)
  {
    if c: Scalar :| Begins16(u, c) {
      var rest := u[|Utf16Of(c)|..];
      CountedFront(u, c);
      NextScalar(u, c);
      assert ([c] + ScalarsOf(rest))[1..] == ScalarsOf(rest);
      CountedMeetsEncoded(rest);
      FrontWellFormed(u, c);
    } else if u == [] {
      assert Utf16([]) == u;
    } else {
      assert BytesToWrite(u[0]) >= 1;
      forall cs | Utf16(cs) == u
        ensures false
      {
        assert Begins16(u, cs[0]);
      }
    }
  }

  /** The failing case: a lone surrogate is counted for three bytes, and nothing is written for it. */
  lemma LoneSurrogateIsCounted()
    ensures CountedBytes([0xD800]) == 3 && Utf8(ScalarsOf([0xD800])) == []
  {
    var u: seq<Unit> := [0xD800];
    forall c: Scalar
      ensures !Begins16(u, c)
    {
      assert Utf16Of(c)[0] != 0xD800 || |Utf16Of(c)| == 2;
    }
    assert u[1..] == [];
  }

  lemma FrontWellFormed(u: seq<Unit>, c: Scalar)
    requires Begins16(u, c)
    ensures WellFormed16(u) <==> WellFormed16(u[|Utf16Of(c)|..])
  {
    var rest := u[|Utf16Of(c)|..];
    assert u == Utf16Of(c) + rest;
    if cs :| Utf16(cs) == u {
      assert Begins16(u, cs[0]);
      OneBegins16(u, c, cs[0]);
      assert Utf16(cs[1..]) == rest;
    }
    if cs :| Utf16(cs) == rest {
      assert ([c] + cs)[1..] == cs;
      assert Utf16([c] + cs) == u;
    }
  }
}
