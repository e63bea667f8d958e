/** The two conversions are inverse to each other, each exactly on the input that is well formed. */
module Utf8RoundTrip {
  import opened Utf8Forms
  import Encoder = Utf8Encoder
  import Decoder = Utf8Decoder

  function Chars(cs: seq<Scalar>): (ps: seq<Decoder.Piece>)
    ensures |ps| == |cs| && forall i | 0 <= i < |cs| :: ps[i] == Decoder.Char(cs[i])
  {
    if cs == [] then [] else [Decoder.Char(cs[0])] + Chars(cs[1..])
  }

  lemma {:induction false} CharsSpell(cs: seq<Scalar>)
    ensures Decoder.Bytes(Chars(cs)) == Utf8(cs) && Decoder.Units(Chars(cs)) == Utf16(cs)
  {
    hide Utf8Of, Utf16Of;
    if cs != [] {
      CharsSpell(cs[1..]);
      assert Chars(cs)[1..] == Chars(cs[1..]);
    }
  }

  /** Decoding an encoding finds its characters, and nothing else. */
  lemma {:induction false} EncodingDecodes(cs: seq<Scalar>, lossy: bool)
    ensures Decoder.PiecesOf(Utf8(cs), lossy) == Chars(cs)
  {
    hide Utf8Of, Utf16Of;
    if cs == [] {
      BeginningNothing(lossy);
    } else {
      var s := Utf8(cs);
      assert s == Utf8Of(cs[0]) + Utf8(cs[1..]);
      assert Decoder.Next(s, lossy, Decoder.Char(cs[0]));
      Decoder.NextPiece(s, lossy, Decoder.Char(cs[0]));
      assert s[|Utf8Of(cs[0])|..] == Utf8(cs[1..]);
      EncodingDecodes(cs[1..], lossy);
    }
  }

  lemma BeginningNothing(lossy: bool)
    ensures Decoder.PiecesOf([], lossy) == []
  {
    Decoder.DecodingStart([], lossy);
    Decoder.NothingLeft(lossy);
    Decoder.DecodingStops([], lossy, [], 0, 0);
  }

  /** Decoding what the encoder made of any units gives its input back exactly if that was well formed. */
  lemma DecodeUndoesEncode(u: seq<Unit>, lossy: bool)
    ensures Decoder.Units(Decoder.PiecesOf(Utf8(Encoder.ScalarsOf(u)), lossy)) <= u
    ensures Decoder.Units(Decoder.PiecesOf(Utf8(Encoder.ScalarsOf(u)), lossy)) == u <==> Encoder.WellFormed16(u)
  {
    hide Utf8Of, Utf16Of, Utf8, Utf16;
    var cs := Encoder.ScalarsOf(u);
    EncodingDecodes(cs, lossy);
    CharsSpell(cs);
    Encoder.ScalarsArePrefix(u);
    if ds :| Utf16(ds) == u {
      Encoder.WellFormedScalars(u, ds);
    }
  }

  /** The byte strings of section 4 of RFC 3629. */
  ghost predicate Legal8(s: seq<Byte>) {
    s == [] || exists n: nat :: LegalFront(s, n) && Legal8(s[n..])
  }

  predicate LegalFront(s: seq<Byte>, n: nat) {
    n <= |s| && InGrammar(s[..n])
  }

  lemma {:induction false} EncodingIsLegal(cs: seq<Scalar>)
    ensures Legal8(Utf8(cs))
  {
    if cs != [] {
      var s, n := Utf8(cs), |Utf8Of(cs[0])|;
      EncodingInGrammar(cs[0]);
      hide Utf8Of, InGrammar;
      assert s == Utf8Of(cs[0]) + Utf8(cs[1..]);
      assert s[..n] == Utf8Of(cs[0]) && s[n..] == Utf8(cs[1..]);
      EncodingIsLegal(cs[1..]);
      assert LegalFront(s, n);
    }
  }

  lemma LegalCharacter(s: seq<Byte>) returns (c: Scalar, n: nat)
    requires Legal8(s) && s != []
    ensures 0 < n <= |s| && Utf8Of(c) == s[..n] && Legal8(s[n..])
  {
    hide Utf8Of, Assembled;
    n :| LegalFront(s, n) && Legal8(s[n..]);
    GrammarIsEncoding(s[..n]);
    c := Assembled(s[..n]);
  }

  lemma {:induction false} LegalIsEncoding(s: seq<Byte>) returns (cs: seq<Scalar>)
    requires Legal8(s)
    ensures Utf8(cs) == s
    decreases |s|
  {
    if s == [] {
      cs := [];
    } else {
      hide Utf8, Utf8Of, Legal8;
      var c, n := LegalCharacter(s);
      var rest := LegalIsEncoding(s[n..]);
      cs := [c] + rest;
      Prepend(c, rest);
      assert s == s[..n] + s[n..];
    }
  }

  /** Encoding what the decoder made of any bytes gives them back exactly if they are legal. */
  lemma EncodeUndoesDecode(s: seq<Byte>, lossy: bool)
    ensures Utf8(Encoder.ScalarsOf(Decoder.Units(Decoder.PiecesOf(s, lossy)))) == s <==> Legal8(s)
  {
    hide Utf8Of, Utf16Of, Utf8, Utf16, Legal8;
    var cs := Encoder.ScalarsOf(Decoder.Units(Decoder.PiecesOf(s, lossy)));
    EncodingIsLegal(cs);
    if Legal8(s) {
      var ds := LegalIsEncoding(s);
      EncodingDecodes(ds, lossy);
      CharsSpell(ds);
      Encoder.WellFormedScalars(Utf16(ds), ds);
    }
  }

  /** A buffer of exactly the encoded size takes everything. */
  lemma EverythingFits(cs: seq<Scalar>, all: seq<Scalar>)
    requires Encoder.MostThatFit(cs, all, |Utf8(all)|)
    ensures cs == all
  {
    assert all <= all;
  }

  lemma EveryPieceFits(ps: seq<Decoder.Piece>, all: seq<Decoder.Piece>)
    requires Decoder.MostThatFit(ps, all, |Decoder.Units(all)|)
    ensures ps == all
  {
    assert all <= all;
  }

  /** Through both converters, with buffers of the sizes that the length functions report. */
  method Transcode(u: seq<Unit>) returns (v: seq<Unit>)
    requires Encoder.WellFormed16(u) && 0 < |u| < 0x4000_0000
    ensures v == u
  {
    hide Utf8Of, Utf16Of, Utf8, Utf16, Encoder.ScalarsOf, Encoder.MostThatFit, Encoder.CountedBytes;
    hide Decoder.PiecesOf, Decoder.Units, Decoder.Bytes, Decoder.MostThatFit, Encoder.WellFormed16, Decoder.PairCut;
    ghost var all := Encoder.ScalarsOf(u);
    Encoder.CountedMeetsEncoded(u);
    Encoder.ScalarsArePrefix(u);
    DecodeUndoesEncode(u, false);
    var room := Encoder.ToUtf8Len(u);
    assert room == |Utf8(all)|;
    EncodingDecodes(all, false);
    CharsSpell(all);
    LengthsGrow(all);
    var bytes := new Byte[room](_ => 0);
    var _, used, cs := Encoder.ToUtf8(u, bytes);
    EverythingFits(cs, all);
    var text := bytes[..used];
    assert text == Utf8(all);
    var length := Decoder.FromUtf8Len(text, false);
    var units := new Unit[length](_ => 0);
    var _, decoded, ps := Decoder.FromUtf8(text, units, false);
    EveryPieceFits(ps, Decoder.PiecesOf(text, false));
    v := units[..decoded];
  }

  /**
    * The decoder's report of consumed bytes can be wrong: with room for one unit, a character of
    * four bytes is reported as consumed although nothing is written.
    */
  method CutPairIsConsumed() returns (consumed: nat, used: nat)
    ensures consumed == 4 && used == 0
  {
    var bytes: seq<Byte> := [0xF0, 0x90, 0x80, 0x80];
    assert Utf8([0x1_0000]) == Utf8Of(0x1_0000) + [] == bytes;
    EncodingDecodes([0x1_0000], false);
    ghost var all := Decoder.PiecesOf(bytes, false);
    assert all == [Decoder.Char(0x1_0000)];
    assert all[..0] == [];
    assert Decoder.CutAt(all, 1, 0);
    var characters := new Unit[1](_ => 0);
    ghost var ps;
    consumed, used, ps := Decoder.FromUtf8(bytes, characters, false);
    assert ps != all;
  }
}
