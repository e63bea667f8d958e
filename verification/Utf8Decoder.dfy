/** UTF-8 to UTF-16, in strict mode and without decomposition. */
module Utf8Decoder {
  import opened Utf8Forms

  const REPLACEMENT: Unit := 0xFFFD

  /** The one illegal byte that is always let through, as a replacement character. */
  const COPYRIGHT: Byte := 0xA9

  /** What the decoder takes at a time: a character, or a stray byte that it replaces. */
  datatype Piece = Char(c: Scalar) | Stray(b: Byte)

  function BytesOf(p: Piece): (s: seq<Byte>)
    ensures |s| > 0
  {
    match p
    case Char(c) => Utf8Of(c)
    case Stray(b) => [b]
  }

  function UnitsOf(p: Piece): (s: seq<Unit>)
    ensures |s| == if p.Char? && p.c >= 0x1_0000 then 2 else 1
  {
    match p
    case Char(c) => Utf16Of(c)
    case Stray(_) => [REPLACEMENT]
  }

  function Bytes(ps: seq<Piece>): seq<Byte> {
    if ps == [] then [] else BytesOf(ps[0]) + Bytes(ps[1..])
  }

  function Units(ps: seq<Piece>): seq<Unit> {
    if ps == [] then [] else UnitsOf(ps[0]) + Units(ps[1..])
  }

  lemma {:induction false} BytesAppend(a: seq<Piece>, b: seq<Piece>)
    ensures Bytes(a + b) == Bytes(a) + Bytes(b)
  {
    hide BytesOf;
    if a == [] {
      assert a + b == b;
    } else {
      assert (a + b)[0] == a[0] && (a + b)[1..] == a[1..] + b;
      BytesAppend(a[1..], b);
      assert Bytes(a + b) == BytesOf(a[0]) + (Bytes(a[1..]) + Bytes(b));
    }
  }

  lemma {:induction false} UnitsAppend(a: seq<Piece>, b: seq<Piece>)
    ensures Units(a + b) == Units(a) + Units(b)
  {
    hide UnitsOf;
    if a == [] {
      assert a + b == b;
    } else {
      assert (a + b)[0] == a[0] && (a + b)[1..] == a[1..] + b;
      UnitsAppend(a[1..], b);
      assert Units(a + b) == UnitsOf(a[0]) + (Units(a[1..]) + Units(b));
    }
  }

  lemma AppendPiece(ps: seq<Piece>, p: Piece)
    ensures Bytes(ps + [p]) == Bytes(ps) + BytesOf(p)
    ensures Units(ps + [p]) == Units(ps) + UnitsOf(p)
  {
    hide BytesOf, UnitsOf;
    BytesAppend(ps, [p]);
    UnitsAppend(ps, [p]);
    assert Bytes([p]) == BytesOf(p) + [] && Units([p]) == UnitsOf(p) + [];
  }

  /** Whether the first byte, which begins no character, is replaced instead of stopping the decoder. */
  predicate StrayBegins(s: seq<Byte>, lossy: bool) {
    s != [] && Trailing(s[0]) < |s| && (s[0] == COPYRIGHT || lossy)
  }

  /** What the decoder takes from the bytes before it stops. */
  ghost function PiecesOf(s: seq<Byte>, lossy: bool): seq<Piece> {
    if c: Scalar :| Begins8(s, c) then [Char(c)] + PiecesOf(s[|Utf8Of(c)|..], lossy)
    else if StrayBegins(s, lossy) then [Stray(s[0])] + PiecesOf(s[1..], lossy)
    else []
  }

  /** A piece stands at the front of the bytes. */
  ghost predicate Next(s: seq<Byte>, lossy: bool, p: Piece) {
    match p
    case Char(c) => Begins8(s, c)
    case Stray(b) => StrayBegins(s, lossy) && s[0] == b && forall c :: !Begins8(s, c)
  }

  /**
    * A byte that begins no character, with as many bytes behind it as it announces, is replaced by U+FFFD if
    * the decoder is lossy or the byte is 0xA9; any other one stops the decoder.
    */
  lemma StrayIsReplaced(s: seq<Byte>, lossy: bool)
    requires s != [] && forall c: Scalar :: !(Utf8Of(c) <= s)
    ensures var head := s[0];
      var announced := if head < 0xC0 then 0 else if head < 0xE0 then 1 else if head < 0xF0 then 2
                       else if head < 0xF8 then 3 else if head < 0xFC then 4 else 5;
      Units(PiecesOf(s, lossy)) ==
        if announced < |s| && (lossy || head == 0xA9) then [0xFFFD] + Units(PiecesOf(s[1..], lossy)) else []
  {
    forall c: Scalar
      ensures !Begins8(s, c)
    {
      assert !(Utf8Of(c) <= s);
    }
    if StrayBegins(s, lossy) {
      var rest := PiecesOf(s[1..], lossy);
      assert ([Stray(s[0])] + rest)[1..] == rest;
    }
  }

  lemma NextPiece(s: seq<Byte>, lossy: bool, p: Piece)
    requires Next(s, lossy, p)
    ensures BytesOf(p) <= s && PiecesOf(s, lossy) == [p] + PiecesOf(s[|BytesOf(p)|..], lossy)
  {
    if p.Char? {
      var d: Scalar :| Begins8(s, d) && PiecesOf(s, lossy) == [Char(d)] + PiecesOf(s[|Utf8Of(d)|..], lossy);
      OneBegins8(s, p.c, d);
    }
  }

  /** The front of the bytes, cut at the length that its first byte announces, decides the next piece. */
  lemma FrontDecides(s: seq<Byte>)
    requires s != [] && Trailing(s[0]) < |s|
    ensures var front := s[..Trailing(s[0]) + 1];
      && (InGrammar(front) ==>
            IsScalar(Assembled(front)) && Begins8(s, Assembled(front)) && Utf8Of(Assembled(front)) == front)
      && (!InGrammar(front) ==> forall c :: !Begins8(s, c))
  {
    var front := s[..Trailing(s[0]) + 1];
    forall c: Scalar | Begins8(s, c)
      ensures InGrammar(front)
    {
      FrontOfBegins(s, c);
    }
    if InGrammar(front) {
      GrammarIsEncoding(front);
    }
  }

  lemma BeginningNeedsRoom(s: seq<Byte>)
    ensures forall c :: Begins8(s, c) ==> s != [] && Trailing(s[0]) < |s|
  {
    forall c: Scalar | Begins8(s, c)
      ensures s != [] && Trailing(s[0]) < |s|
    {
      FrontOfBegins(s, c);
    }
  }

  /** `__CFIsLegalUTF8`: accepts exactly the sequences of the grammar. */
  method IsLegalUtf8(source: seq<Byte>) returns (legal: bool)
    requires source != [] && |source| == Trailing(source[0]) + 1
    ensures legal <==> InGrammar(source)
  {
    if |source| > 4 {
      return false;
    }
    var head := source[0];
    var at := |source| - 1;
    while at > 0
      invariant 0 <= at < |source|
      invariant forall i | at < i < |source| :: Continues(source[i])
    {
      if !Continues(source[at]) {
        return false;
      }
      at := at - 1;
    }
    if (head >= 0x80 && head < 0xC2) || head > 0xF4 {
      return false;
    }
    if (head == 0xE0 && source[1] < 0xA0) || (head == 0xED && source[1] > 0x9F)
       || (head == 0xF0 && source[1] < 0x90) || (head == 0xF4 && source[1] > 0x8F) {
      return false;
    }
    return true;
  }

  const OFFSETS: seq<nat> := [0x0000_0000, 0x0000_3080, 0x000E_2080, 0x03C8_2080]

  /** Arithmetic in 32 bits. */
  function Wrapped(n: int): nat {
    n % 0x1_0000_0000
  }

  lemma InRange(n: int)
    requires 0 <= n < 0x1_0000_0000
    ensures Wrapped(n) == n
  {
  }

  /** The bytes shifted together in 32 bits, less the marks that were shifted with them. */
  method Assemble(source: seq<Byte>) returns (ch: nat)
    requires InGrammar(source)
    ensures ch == Assembled(source)
  {
    hide Wrapped;
    GrammarIsEncoding(source);
    var extra := |source| - 1;
    var at := 0;
    ch := 0;
    if extra >= 3 {
      InRange((ch + source[at]) * 0x40);
      ch := Wrapped((ch + source[at]) * 0x40);
      at := at + 1;
    }
    if extra >= 2 {
      InRange((ch + source[at]) * 0x40);
      ch := Wrapped((ch + source[at]) * 0x40);
      at := at + 1;
    }
    if extra >= 1 {
      InRange((ch + source[at]) * 0x40);
      ch := Wrapped((ch + source[at]) * 0x40);
      at := at + 1;
    }
    ch := ch + source[at];
    assert ch - OFFSETS[extra] == Assembled(source);
    InRange(ch - OFFSETS[extra]);
    ch := Wrapped(ch - OFFSETS[extra]);
  }

  /** The piece at a position, as the decoder reads it, and its size: none where the decoder stops. */
  method ReadPiece(bytes: seq<Byte>, at: nat, lossy: bool) returns (piece: Piece, size: nat)
    requires at < |bytes|
    ensures size > 0 ==> Next(bytes[at..], lossy, piece) && size == |BytesOf(piece)| && at + size <= |bytes|
    ensures size == 0 ==> forall p :: !Next(bytes[at..], lossy, p)
  {
    hide Utf8Of, InGrammar, Assembled, Begins8;
    piece, size := Stray(bytes[at]), 0;
    ghost var rest := bytes[at..];
    var extra := Trailing(bytes[at]);
    BeginningNeedsRoom(rest);
    if extra > |bytes| - at - 1 {
      return;
    }
    FrontDecides(rest);
    var front := bytes[at..at + extra + 1];
    assert front == rest[..extra + 1];
    var legal := IsLegalUtf8(front);
    if !legal {
      if bytes[at] == COPYRIGHT || lossy {
        size := 1;
      }
    } else {
      var ch := Assemble(front);
      piece, size := Char(ch), extra + 1;
    }
  }

  /** What the decoder has done when it has decoded the pieces `ps`. */
  ghost predicate Decoding(s: seq<Byte>, lossy: bool, ps: seq<Piece>, at: nat, used: nat) {
    && at <= |s| && s[..at] == Bytes(ps) && used == |Units(ps)|
    && PiecesOf(s, lossy) == ps + PiecesOf(s[at..], lossy)
  }

  lemma DecodingStart(s: seq<Byte>, lossy: bool)
    ensures Decoding(s, lossy, [], 0, 0)
  {
    assert s[0..] == s;
  }

  lemma DecodingStep(s: seq<Byte>, lossy: bool, ps: seq<Piece>, at: nat, used: nat, p: Piece)
    requires Decoding(s, lossy, ps, at, used) && Next(s[at..], lossy, p)
    ensures Decoding(s, lossy, ps + [p], at + |BytesOf(p)|, used + |UnitsOf(p)|)
    ensures ps < PiecesOf(s, lossy) && PiecesOf(s, lossy)[|ps|] == p
  {
    hide BytesOf, UnitsOf, Bytes, Units, PiecesOf, Next;
    var n := |BytesOf(p)|;
    NextPiece(s[at..], lossy, p);
    AppendPiece(ps, p);
    assert s[..at + n] == s[..at] + s[at..][..n];
    assert s[at..][n..] == s[at + n..];
    var rest := PiecesOf(s[at + n..], lossy);
    assert ps + ([p] + rest) == (ps + [p]) + rest;
  }

  lemma DecodingStops(s: seq<Byte>, lossy: bool, ps: seq<Piece>, at: nat, used: nat)
    requires Decoding(s, lossy, ps, at, used) && forall p :: !Next(s[at..], lossy, p)
    ensures ps == PiecesOf(s, lossy)
  {
    var rest := s[at..];
    forall c: Scalar
      ensures !Begins8(rest, c)
    {
      assert !Next(rest, lossy, Char(c));
    }
    if StrayBegins(rest, lossy) {
      assert Next(rest, lossy, Stray(rest[0]));
    }
  }

  lemma NothingLeft(lossy: bool)
    ensures forall p :: !Next([], lossy, p)
  {
    BeginningNeedsRoom([]);
  }

  /** `ps` are the most leading pieces of `all` that take at most `room` units. */
  ghost predicate MostThatFit(ps: seq<Piece>, all: seq<Piece>, room: nat) {
    && ps <= all && |Units(ps)| <= room
    && forall qs :: qs <= all && |Units(qs)| <= room ==> qs <= ps
  }

  lemma FullMeansMost(ps: seq<Piece>, all: seq<Piece>, room: nat)
    requires ps <= all && |Units(ps)| <= room
    requires |ps| < |all| ==> |Units(ps)| + |UnitsOf(all[|ps|])| > room
    ensures MostThatFit(ps, all, room)
  {
    hide Units, UnitsOf;
    forall qs | qs <= all && |Units(qs)| <= room
      ensures qs <= ps
    {
      if |qs| > |ps| {
        var n := |ps|;
        assert qs[..n + 1] == ps + [qs[n]];
        AppendPiece(ps, qs[n]);
        assert qs == qs[..n + 1] + qs[n + 1..];
        UnitsAppend(qs[..n + 1], qs[n + 1..]);
      }
    }
  }

  /** The k-th piece is a surrogate pair of which just one unit has room. */
  predicate CutAt(all: seq<Piece>, room: nat, k: nat) {
    k < |all| && |Units(all[..k])| == room - 1 && |UnitsOf(all[k])| == 2
  }

  /** Some surrogate pair of the input is cut by the end of the room. */
  ghost predicate PairCut(all: seq<Piece>, room: nat) {
    room > 0 && exists k: nat :: CutAt(all, room, k)
  }

  lemma UnitsGrow(ps: seq<Piece>, all: seq<Piece>, n: nat)
    requires ps <= all && n <= |all|
    ensures n <= |ps| ==> |Units(all[..n])| <= |Units(ps)|
  {
    hide Units;
    if n <= |ps| {
      UnitsAppend(ps[..n], ps[n..]);
      assert ps == ps[..n] + ps[n..] && ps[..n] == all[..n];
    }
  }

  lemma CutHere(ps: seq<Piece>, all: seq<Piece>, room: nat, k: nat)
    requires MostThatFit(ps, all, room) && room > 0 && CutAt(all, room, k)
    ensures k == |ps|
  {
    hide Units, UnitsOf;
    AppendPiece(all[..k], all[k]);
    assert all[..k + 1] == all[..k] + [all[k]];
    UnitsGrow(ps, all, k + 1);
    assert all[..k] <= ps;
  }

  /** A pair that is cut is the first piece that does not fit. */
  lemma CutIsNext(ps: seq<Piece>, all: seq<Piece>, room: nat)
    requires MostThatFit(ps, all, room) && room > 0
    ensures PairCut(all, room) <==> |ps| < |all| && |Units(ps)| == room - 1 && |UnitsOf(all[|ps|])| == 2
  {
    hide Units, UnitsOf, MostThatFit;
    assert ps <= all by { FitsIsPrefix(ps, all, room); }
    assert all[..|ps|] == ps;
    assert CutAt(all, room, |ps|) <==> |ps| < |all| && |Units(ps)| == room - 1 && |UnitsOf(all[|ps|])| == 2;
    if PairCut(all, room) {
      var k: nat :| CutAt(all, room, k);
      CutHere(ps, all, room, k);
    }
  }

  lemma FitsIsPrefix(ps: seq<Piece>, all: seq<Piece>, room: nat)
    requires MostThatFit(ps, all, room)
    ensures ps <= all
  {
  }

  /** Writes the units of a piece, or none if there is a limit and they do not fit. */
  method WriteUnits(piece: Piece, characters: array<Unit>, at: nat, ghost done: seq<Unit>, ghost before: seq<Unit>)
      returns (written: nat)
    requires characters.Length > 0 ==> at < characters.Length && |done| == at && Filled(characters[..], done, before)
    modifies characters
    ensures written == if characters.Length > 0 && at + |UnitsOf(piece)| > characters.Length then 0
        else |UnitsOf(piece)|
    ensures characters.Length > 0 ==>
              Filled(characters[..], if written == 0 then done else done + UnitsOf(piece), before)
  {
    hide Filled;
    ghost var mid := characters[..];
    if piece.Stray? || piece.c < 0x1_0000 {
      if characters.Length > 0 {
        characters[at] := if piece.Stray? then REPLACEMENT else piece.c;
        FillMore(before, mid, characters[..], done, UnitsOf(piece));
      }
      return 1;
    }
    if characters.Length > 0 {
      if at + 2 > characters.Length {
        return 0;
      }
      var ch: int := piece.c - 0x1_0000;
      characters[at] := ch / 0x400 + 0xD800;
      characters[at + 1] := ch % 0x400 + 0xDC00;
      FillMore(before, mid, characters[..], done, UnitsOf(piece));
    }
    return 2;
  }

  /**
    * Conversion into a buffer; an empty buffer stands for counting without a limit. When a pair
    * does not fit, its four bytes are reported as consumed although nothing is written for them.
    */
  method FromUtf8(bytes: seq<Byte>, characters: array<Unit>, lossy: bool)
    returns (consumed: nat, used: nat, ghost ps: seq<Piece>)
    modifies characters
    ensures used == |Units(ps)| && Bytes(ps) <= bytes
    ensures characters.Length == 0 ==> ps == PiecesOf(bytes, lossy) && consumed == |Bytes(ps)|
    ensures characters.Length > 0 ==> MostThatFit(ps, PiecesOf(bytes, lossy), characters.Length)
    ensures characters.Length > 0 ==> Filled(characters[..], Units(ps), old(characters[..]))
    ensures consumed == |Bytes(ps)| + if PairCut(PiecesOf(bytes, lossy), characters.Length) then 4 else 0
  {
    hide BytesOf, UnitsOf, Bytes, Units, PiecesOf, Next, MostThatFit, Filled, Decoding, CutAt;
    NothingFilled(characters[..]);
    consumed, used, ps := 0, 0, [];
    ghost var before, all, cut := characters[..], PiecesOf(bytes, lossy), false;
    ghost var room := characters.Length;
    DecodingStart(bytes, lossy);
    while consumed < |bytes| && (characters.Length == 0 || used < characters.Length)
      invariant Decoding(bytes, lossy, ps, consumed, used) && used == |Units(ps)|
      invariant room > 0 ==> used <= room && Filled(characters[..], Units(ps), before)
    {
      var piece, size := ReadPiece(bytes, consumed, lossy);
      if size == 0 {
        DecodingStops(bytes, lossy, ps, consumed, used);
        break;
      }
      DecodingStep(bytes, lossy, ps, consumed, used, piece);
      var written := WriteUnits(piece, characters, used, Units(ps), before);
      if characters.Length > 0 && written == 0 {
        cut := true;
        PairHasFourBytes(piece);
        DecodingFacts(bytes, lossy, ps, consumed, used);
        consumed := consumed + size;
        break;
      }
      AppendPiece(ps, piece);
      consumed, used, ps := consumed + size, used + written, ps + [piece];
    }
    if !cut {
      DecodingFacts(bytes, lossy, ps, consumed, used);
      DecodingEnds(bytes, lossy, ps, consumed, used);
    }
    if characters.Length > 0 {
      FullMeansMost(ps, all, room);
      CutIsNext(ps, all, room);
    }
  }

  lemma DecodingFacts(s: seq<Byte>, lossy: bool, ps: seq<Piece>, at: nat, used: nat)
    requires Decoding(s, lossy, ps, at, used)
    ensures at == |Bytes(ps)| && Bytes(ps) <= s && used == |Units(ps)| && ps <= PiecesOf(s, lossy)
  {
  }

  lemma DecodingEnds(s: seq<Byte>, lossy: bool, ps: seq<Piece>, at: nat, used: nat)
    requires Decoding(s, lossy, ps, at, used)
    ensures at == |s| ==> ps == PiecesOf(s, lossy)
  {
    if at == |s| {
      NothingLeft(lossy);
      assert s[at..] == [];
      DecodingStops(s, lossy, ps, at, used);
    }
  }

  lemma PairHasFourBytes(p: Piece)
    ensures |UnitsOf(p)| == 2 ==> |BytesOf(p)| == 4
  {
  }

  /** `__CFFromUTF8Len`: the units that the decoder would write without a limit. */
  method FromUtf8Len(bytes: seq<Byte>, lossy: bool) returns (used: nat)
    ensures used == |Units(PiecesOf(bytes, lossy))|
  {
    hide BytesOf, UnitsOf, Bytes, Units, PiecesOf, Next;
    ghost var ps: seq<Piece> := [];
    var at := 0;
    used := 0;
    DecodingStart(bytes, lossy);
    while at < |bytes|
      invariant Decoding(bytes, lossy, ps, at, used)
    {
      var piece, size := ReadPiece(bytes, at, lossy);
      if size == 0 {
        DecodingStops(bytes, lossy, ps, at, used);
        return;
      }
      DecodingStep(bytes, lossy, ps, at, used, piece);
      ps := ps + [piece];
      at := at + size;
      used := used + if piece.Stray? || piece.c < 0x1_0000 then 1 else 2;
    }
    NothingLeft(lossy);
    assert bytes[at..] == [];
    DecodingStops(bytes, lossy, ps, at, used);
  }

  /** The decoder takes everything up to the first place where no piece begins. */
  lemma {:induction false} PiecesArePrefix(s: seq<Byte>, lossy: bool)
    ensures Bytes(PiecesOf(s, lossy)) <= s
    ensures forall p :: !Next(s[|Bytes(PiecesOf(s, lossy))|..], lossy, p)
    decreases |s|
  {
    hide BytesOf, UnitsOf, Next, PiecesOf;
    if p :| Next(s, lossy, p) {
      NextPiece(s, lossy, p);
      var rest := s[|BytesOf(p)|..];
      PiecesArePrefix(rest, lossy);
      assert ([p] + PiecesOf(rest, lossy))[1..] == PiecesOf(rest, lossy);
      assert s == BytesOf(p) + rest;
      assert s[|Bytes(PiecesOf(s, lossy))|..] == rest[|Bytes(PiecesOf(rest, lossy))|..];
    } else {
      assert s[0..] == s;
      DecodingStart(s, lossy);
      DecodingStops(s, lossy, [], 0, 0);
    }
  }
}
