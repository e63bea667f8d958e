/** Decimal text of big numbers. */
module BigNumText {
  import opened BigNum

  predicate IsDigit(c: char) {
    '0' <= c <= '9'
  }

  predicate AllDigits(s: string) {
    forall i | 0 <= i < |s| :: IsDigit(s[i])
  }

  function DigitValue(c: char): nat
    requires IsDigit(c)
  {
    c as int - '0' as int
  }

  /** The number that a string of digits denotes. */
  function Number(s: string): nat
    requires AllDigits(s)
  {
    if s == "" then 0 else Number(s[..|s| - 1]) * 10 + DigitValue(s[|s| - 1])
  }

  function Scale(n: nat, k: nat): nat {
    if k == 0 then n else 10 * Scale(n, k - 1)
  }

  lemma ScaleNine(n: nat)
    ensures Scale(n, 9) == n * LIMIT
  {
    assert Scale(n, 1) == 10 * n;
    assert Scale(n, 2) == 100 * n;
    assert Scale(n, 3) == 1000 * n;
    assert Scale(n, 4) == 1_0000 * n;
    assert Scale(n, 5) == 10_0000 * n;
    assert Scale(n, 6) == 100_0000 * n;
    assert Scale(n, 7) == 1000_0000 * n;
    assert Scale(n, 8) == 1_0000_0000 * n;
  }

  lemma {:induction false} NumberAppend(a: string, b: string)
    requires AllDigits(a) && AllDigits(b)
    ensures AllDigits(a + b) && Number(a + b) == Scale(Number(a), |b|) + Number(b)
  {
    if b == "" {
      assert a + b == a;
    } else {
      var n := |b| - 1;
      NumberAppend(a, b[..n]);
      assert (a + b)[..|a + b| - 1] == a + b[..n];
    }
  }

  lemma {:induction false} NumberBound(s: string)
    requires AllDigits(s)
    ensures Number(s) < Scale(1, |s|)
  {
    if s != "" {
      NumberBound(s[..|s| - 1]);
    }
  }

  lemma {:induction false} ScaleGrows(k: nat, l: nat)
    requires k <= l
    ensures Scale(1, k) <= Scale(1, l)
  {
    if k < l {
      ScaleGrows(k, l - 1);
    }
  }

  lemma NineDigitsFit(s: string)
    requires AllDigits(s) && |s| <= 9
    ensures Number(s) < LIMIT
  {
    NumberBound(s);
    ScaleGrows(|s|, 9);
    ScaleNine(1);
  }

  /** A leading zero does not count. */
  lemma {:induction false} LeadingZero(s: string)
    requires AllDigits(s) && s != "" && s[0] == '0'
    ensures AllDigits(s[1..]) && Number(s) == Number(s[1..])
  {
    var n := |s| - 1;
    if n > 0 {
      LeadingZero(s[..n]);
      assert s[..n][1..] == s[1..][..n - 1];
    } else {
      assert s[..0] == "" && s[1..] == "";
    }
  }

  /** `%09u` of a digit below the limit. */
  function Padded(n: nat, k: nat): (s: string)
    ensures |s| == k && AllDigits(s)
  {
    if k == 0 then "" else Padded(n / 10, k - 1) + [(n % 10 + '0' as int) as char]
  }

  lemma {:induction false} PaddedDenotes(n: nat, k: nat)
    requires n < Scale(1, k)
    ensures Number(Padded(n, k)) == n
  {
    if k > 0 {
      PaddedDenotes(n / 10, k - 1);
      assert Padded(n, k)[..k - 1] == Padded(n / 10, k - 1);
    }
  }

  /** The five digits printed one after the other. */
  function Printed(d: seq<nat>): (s: string)
    requires |d| == 5
    ensures |s| == 45 && AllDigits(s)
  {
    Padded(d[4], 9) + Padded(d[3], 9) + Padded(d[2], 9) + Padded(d[1], 9) + Padded(d[0], 9)
  }

  lemma AppendNine(a: string, n: nat)
    requires AllDigits(a) && n < LIMIT
    ensures AllDigits(a + Padded(n, 9)) && Number(a + Padded(n, 9)) == Number(a) * LIMIT + n
  {
    NumberAppend(a, Padded(n, 9));
    ScaleNine(Number(a));
    ScaleNine(1);
    PaddedDenotes(n, 9);
  }

  lemma PrintedDenotes(d: seq<nat>)
    requires |d| == 5 && Below(d, LIMIT)
    ensures Number(Printed(d)) == Magnitude(d)
  {
    hide Number, Padded;
    ScaleNine(1);
    PaddedDenotes(d[4], 9);
    AppendNine(Padded(d[4], 9), d[3]);
    AppendNine(Padded(d[4], 9) + Padded(d[3], 9), d[2]);
    AppendNine(Padded(d[4], 9) + Padded(d[3], 9) + Padded(d[2], 9), d[1]);
    AppendNine(Padded(d[4], 9) + Padded(d[3], 9) + Padded(d[2], 9) + Padded(d[1], 9), d[0]);
    FiveDigits(d, 0);
    MagnitudeIsWeighted(d);
  }

  function Zeros(k: nat): (s: string)
    ensures |s| == k && forall i | 0 <= i < k :: s[i] == '0'
  {
    if k == 0 then "" else ['0'] + Zeros(k - 1)
  }

  lemma {:induction false} ZerosDoNotCount(k: nat, s: string)
    requires AllDigits(s)
    ensures AllDigits(Zeros(k) + s) && Number(Zeros(k) + s) == Number(s)
  {
    if k == 0 {
      assert Zeros(0) + s == s;
    } else {
      ZerosDoNotCount(k - 1, s);
      assert (Zeros(k) + s)[1..] == Zeros(k - 1) + s;
      LeadingZero(Zeros(k) + s);
    }
  }

  function StripZeros(s: string): (t: string)
    ensures |t| <= |s| && t == s[|s| - |t|..] && (t == "" || t[0] != '0')
  {
    if s != "" && s[0] == '0' then StripZeros(s[1..]) else s
  }

  lemma {:induction false} StrippedNumber(s: string)
    requires AllDigits(s)
    ensures AllDigits(StripZeros(s)) && Number(StripZeros(s)) == Number(s)
  {
    if s != "" && s[0] == '0' {
      LeadingZero(s);
      StrippedNumber(s[1..]);
    }
  }

  /** The decimal numeral of five digits, with no leading zero but a single one for zero. */
  function Numeral(d: seq<nat>): (s: string)
    requires |d| == 5
    ensures 0 < |s| <= 45 && (|s| > 1 ==> s[0] != '0')
  {
    var t := StripZeros(Printed(d));
    if t == "" then "0" else t
  }

  lemma NumeralDenotes(d: seq<nat>)
    requires |d| == 5 && Below(d, LIMIT)
    ensures AllDigits(Numeral(d)) && Number(Numeral(d)) == Magnitude(d)
  {
    hide Number, Magnitude, Printed;
    PrintedDenotes(d);
    StrippedNumber(Printed(d));
    NoDigits();
    OneZero();
  }

  /** The digits, each in its place. */
  lemma DigitsCount()
    ensures AllDigits("1234567890") && Number("1234567890") == 1_234_567_890
  {
    assert "1"[..0] == "" && "12"[..1] == "1" && "123"[..2] == "12" && "1234"[..3] == "123";
    assert "12345"[..4] == "1234" && "123456"[..5] == "12345" && "1234567"[..6] == "123456";
    assert "12345678"[..7] == "1234567" && "123456789"[..8] == "12345678" && "1234567890"[..9] == "123456789";
    assert Number("123") == 123;
    assert Number("12345") == 12345;
    assert Number("1234567") == 1234567;
    assert Number("123456789") == 123456789;
  }

  lemma OneZero()
    ensures AllDigits("0") && Number("0") == 0
  {
    assert "0"[..0] == "";
  }

  lemma NoDigits()
    ensures Number("") == 0
  {
  }

  method SkipZeros(tmp: string) returns (s: nat)
    ensures s <= |tmp| && tmp[s..] == StripZeros(tmp) && (s > 0 ==> tmp[s - 1] == '0')
  {
    s := 0;
    assert tmp[0..] == tmp;
    while s < |tmp| && tmp[s] == '0'
      invariant s <= |tmp| && StripZeros(tmp[s..]) == StripZeros(tmp)
      invariant s > 0 ==> tmp[s - 1] == '0'
    {
      assert tmp[s..][1..] == tmp[s + 1..];
      s := s + 1;
    }
  }

  /** Skips leading zeros, but leaves the last one when there is nothing else. */
  method FirstSignificant(tmp: string) returns (s: nat)
    requires |tmp| == 45 && AllDigits(tmp)
    ensures s < 45 && tmp[s..] == if StripZeros(tmp) == "" then "0" else StripZeros(tmp)
  {
    hide StripZeros;
    s := SkipZeros(tmp);
    if s == 45 {
      s := s - 1;
      assert tmp[44..] == "0";
    }
  }

  function SignText(n: Num, leadingPlus: bool): string {
    if n.sign < 0 then "-" else if leadingPlus then "+" else ""
  }

  /** What the buffer must hold: a sign, 45 digits and the terminator. */
  const ENOUGH: nat := 47

  /** The zero-filled form shows the last digits of the number, as many as the buffer holds. */
  ghost predicate ZeroFilled(d: seq<nat>, body: string) {
    && AllDigits(body) && Number(body) < Scale(1, |body|)
    && exists high: nat :: Magnitude(d) == Scale(high, |body|) + Number(body)
  }

  lemma FillZeros(d: seq<nat>, k: nat, copied: nat)
    requires |d| == 5 && Below(d, LIMIT) && copied <= 45 && (k > 0 ==> copied == 45)
    ensures ZeroFilled(d, Zeros(k) + Printed(d)[45 - copied..])
    ensures copied == 45 ==> Number(Zeros(k) + Printed(d)[45 - copied..]) == Magnitude(d)
  {
    hide Number, Magnitude, Printed, Scale;
    var tmp := Printed(d);
    var high, low := tmp[..45 - copied], tmp[45 - copied..];
    PrintedDenotes(d);
    assert tmp == high + low;
    ZerosDoNotCount(k, low);
    var body := Zeros(k) + low;
    NumberBound(body);
    NumberAppend(high, body);
    NumberAppend(high, low);
    if copied == 45 {
      assert high == "" && high + body == body && low == tmp;
    } else {
      assert body == low;
    }
    assert Magnitude(d) == Scale(Number(high), |body|) + Number(body);
  }

  /** With leading zeros: the end of the padded digits at the end of a buffer of zeros. */
  method FillBuffer(digits: seq<nat>, tmp: string, room: nat) returns (body: string)
    requires |digits| == 5 && Below(digits, LIMIT) && tmp == Printed(digits) && room > 0
    ensures |body| == room - 1 && ZeroFilled(digits, body)
    ensures room >= 46 ==> Number(body) == Magnitude(digits)
  {
    hide Number, Magnitude, Printed, ZeroFilled;
    var copied := if 46 < room then 46 else room;
    body := Zeros(room - copied) + tmp[46 - copied..];
    FillZeros(digits, room - copied, copied - 1);
  }

  /** Without: as much of the numeral as fits. */
  method CopyNumeral(digits: seq<nat>, tmp: string, room: nat) returns (body: string)
    requires |digits| == 5 && Below(digits, LIMIT) && tmp == Printed(digits) && room > 0
    ensures body <= Numeral(digits) && (|body| == room - 1 || body == Numeral(digits)) && |body| < room
    ensures room >= 46 ==> body == Numeral(digits)
  {
    hide Number, Magnitude, Printed, StripZeros;
    var s := FirstSignificant(tmp);
    var copied := if 45 - s < room - 1 then 45 - s else room - 1;
    body := tmp[s..s + copied];
    assert tmp[s..] == Numeral(digits) && body == tmp[s..][..copied];
  }

  /**
    * `_CFBigNumToCString`: the string that it leaves in a buffer with room for the sign and the
    * terminator. The numeral loses its last digits in a short buffer, the zero-filled form its first.
    */
  method ToCString(n: Num, leadingZeros: bool, leadingPlus: bool, buflen: nat)
      returns (text: string, ghost body: string)
    requires Canonical(n) && buflen > if n.sign < 0 || leadingPlus then 1 else 0
    ensures n.sign < 0 ==> text == "-" + body
    ensures n.sign >= 0 && leadingPlus ==> text == "+" + body
    ensures n.sign >= 0 && !leadingPlus ==> text == body
    ensures |text| < buflen && AllDigits(body)
    ensures leadingZeros ==> |text| == buflen - 1 && ZeroFilled(n.digits, body)
    ensures !leadingZeros ==> body <= Numeral(n.digits) && (|text| == buflen - 1 || body == Numeral(n.digits))
    ensures buflen >= ENOUGH ==> Number(body) == Magnitude(n.digits)
  {
    hide Number, Magnitude, Printed, Numeral;
    text := SignText(n, leadingPlus);
    var room := buflen - |text|;
    var tmp := Printed(n.digits);
    NumeralDenotes(n.digits);
    var shown;
    if leadingZeros {
      shown := FillBuffer(n.digits, tmp, room);
    } else {
      shown := CopyNumeral(n.digits, tmp, room);
    }
    body := shown;
    text := text + shown;
  }

  /** The part of a numeral behind its sign. */
  function Unsigned(text: string): string {
    if text != "" && (text[0] == '-' || text[0] == '+') then text[1..] else text
  }

  function SignOf(text: string): int {
    if text != "" && text[0] == '-' then -1 else 0
  }

  const LONG_MAX: nat := 0x7FFF_FFFF_FFFF_FFFF

  predicate IsSpace(c: char) {
    c == ' ' || 9 <= c as int <= 13
  }

  function AfterSpaces(s: string): string {
    if s != "" && IsSpace(s[0]) then AfterSpaces(s[1..]) else s
  }

  function LeadingDigits(s: string): (t: string)
    ensures AllDigits(t) && (AllDigits(s) ==> t == s)
  {
    if s != "" && IsDigit(s[0]) then [s[0]] + LeadingDigits(s[1..]) else ""
  }

  function Clamped(n: int): int {
    if n > LONG_MAX then LONG_MAX else if n + LONG_MAX < -1 then -1 - LONG_MAX as int else n
  }

  /** `atol`: white space, a sign and digits; what follows is ignored, and overflow is clamped. */
  function Atol(s: string): int {
    var t := AfterSpaces(s);
    var n: int := Number(LeadingDigits(Unsigned(t)));
    Clamped(if SignOf(t) < 0 then -n else n)
  }

  /** `atol`, kept in 32 bits. */
  function AtolWord(s: string): (n: nat)
    ensures n < 0x1_0000_0000
  {
    Atol(s) % 0x1_0000_0000
  }

  lemma AtolOfDigits(s: string)
    requires AllDigits(s)
    ensures AtolWord(s) == Number(s) <==> Number(s) < 0x1_0000_0000
  {
    hide Number;
    assert AfterSpaces(s) == s && Unsigned(s) == s && SignOf(s) == 0;
    assert LeadingDigits(s) == s;
    WordOf(Number(s));
  }

  lemma WordOf(n: nat)
    ensures Clamped(n) % 0x1_0000_0000 == n <==> n < 0x1_0000_0000
  {
  }

  /** The nine characters that the digit `i` is read from; the last digit is read from all the rest. */
  function Chunk(s: string, i: nat): string {
    var hi := if 9 * i <= |s| then |s| - 9 * i else 0;
    var lo := if i < 4 && 9 * (i + 1) <= |s| then |s| - 9 * (i + 1) else 0;
    s[lo..hi]
  }

  /** What any text is parsed as. */
  function Parsed(text: string): Num {
    var s := StripZeros(Unsigned(text));
    Num([AtolWord(Chunk(s, 0)), AtolWord(Chunk(s, 1)), AtolWord(Chunk(s, 2)), AtolWord(Chunk(s, 3)),
        AtolWord(Chunk(s, 4))],
        SignOf(text))
  }

  /** The value of the digits found so far and of the digits still to be cut into nines. */
  ghost predicate Cut(digits: seq<nat>, rest: string, all: string) {
    && AllDigits(rest) && AllDigits(all) && Below(digits, LIMIT)
    && Weighted(digits, Number(rest)) == Number(all)
  }

  lemma CutNine(digits: seq<nat>, rest: string, all: string)
    requires Cut(digits, rest, all) && |rest| > 9
    ensures var chunk := rest[|rest| - 9..];
      AllDigits(chunk) && Number(chunk) < LIMIT && Cut(digits + [Number(chunk)], rest[..|rest| - 9], all)
  {
    hide Number, Weighted;
    var high, chunk := rest[..|rest| - 9], rest[|rest| - 9..];
    assert rest == high + chunk;
    NumberAppend(high, chunk);
    ScaleNine(Number(high));
    NineDigitsFit(chunk);
    Push(digits, Number(chunk), Number(high));
  }

  function ZeroDigitsOf(k: nat): (d: seq<nat>)
    ensures |d| == k && forall i | 0 <= i < k :: d[i] == 0
  {
    if k == 0 then [] else [0] + ZeroDigitsOf(k - 1)
  }

  lemma {:induction false} PaddedMagnitude(digits: seq<nat>, top: nat, k: nat)
    ensures Magnitude(digits + [top] + ZeroDigitsOf(k)) == Weighted(digits, top)
  {
    var d := digits + [top] + ZeroDigitsOf(k);
    if digits == [] {
      assert d == [top] + ZeroDigitsOf(k);
      assert d[1..] == ZeroDigitsOf(k);
      ZeroDigits(ZeroDigitsOf(k));
    } else {
      PaddedMagnitude(digits[1..], top, k);
      assert d[1..] == digits[1..] + [top] + ZeroDigitsOf(k);
    }
  }

  lemma {:induction false} TopDecides(digits: seq<nat>, x: int, y: int)
    ensures Weighted(digits, x) == Weighted(digits, y) <==> x == y
  {
    if digits != [] {
      TopDecides(digits[1..], x, y);
    }
  }

  /** With all of the digits cut, the value is right exactly if the top digit was not truncated. */
  lemma CutDone(digits: seq<nat>, rest: string, all: string, d: seq<nat>)
    requires Cut(digits, rest, all) && |digits| <= 4 && (|digits| < 4 ==> |rest| <= 9)
    requires d == digits + [AtolWord(rest)] + ZeroDigitsOf(4 - |digits|)
    ensures |d| == 5
    ensures Magnitude(d) == Number(all) <==> Number(all) < 0x1_0000_0000 * LIMIT_4
    ensures Number(all) < LIMIT_5 ==> Below(d, LIMIT)
  {
    hide Number, Weighted, Magnitude, Atol;
    var top := AtolWord(rest);
    AtolOfDigits(rest);
    PaddedMagnitude(digits, top, 4 - |digits|);
    TopDecides(digits, top, Number(rest));
    FiveDigits(d, 0);
    MagnitudeIsWeighted(d);
    if |digits| < 4 {
      NineDigitsFit(rest);
    } else {
      var full := digits + [Number(rest)];
      PaddedMagnitude(digits, Number(rest), 0);
      assert digits + [Number(rest)] + ZeroDigitsOf(0) == full;
      FiveDigits(full, 0);
      MagnitudeIsWeighted(full);
    }
  }

  /** The digits read so far, from the back. */
  predicate ReadOff(digits: seq<nat>, s: string) {
    forall i | 0 <= i < |digits| :: digits[i] == AtolWord(Chunk(s, i))
  }

  /** The next nine characters: their number, and for a numeral the value so far. */
  lemma ReadNine(digits: seq<nat>, length: nat, s: string)
    requires ReadOff(digits, s) && |digits| < 4 && 9 < length == |s| - 9 * |digits|
    requires AllDigits(s) ==> Cut(digits, s[..length], s)
    ensures var chunk := s[length - 9..length]; var digits' := digits + [AtolWord(chunk)];
      ReadOff(digits', s) && (AllDigits(s) ==> Cut(digits', s[..length - 9], s))
  {
    hide Cut, Atol, AtolWord;
    var chunk := s[length - 9..length];
    assert Chunk(s, |digits|) == chunk;
    if AllDigits(s) {
      CutNine(digits, s[..length], s);
      assert s[..length][..length - 9] == s[..length - 9];
      assert s[..length][length - 9..] == chunk;
      AtolOfDigits(chunk);
    }
  }

  /** The rest goes into one more digit, and the digits above it stay zero. */
  lemma ReadRest(digits: seq<nat>, length: nat, s: string, d: seq<nat>)
    requires ReadOff(digits, s) && |digits| <= 4 && length == |s| - 9 * |digits| && (|digits| < 4 ==> length <= 9)
    requires d == digits + [AtolWord(s[..length])] + ZeroDigitsOf(4 - |digits|)
    ensures |d| == 5 && ReadOff(d, s)
  {
    hide AtolWord, Atol;
    assert Chunk(s, |digits|) == s[..length];
    NothingIsZero();
    forall i | 0 <= i < 5
      ensures d[i] == AtolWord(Chunk(s, i))
    {
      if i > |digits| {
        assert Chunk(s, i) == "";
      }
    }
  }

  lemma NothingIsZero()
    ensures AtolWord("") == 0
  {
    assert LeadingDigits("") == "";
    NoDigits();
  }

  /**
    * `_CFBigNumFromCString`. For a numeral the value is exact as long as the part above 36 digits fits
    * the top digit's 32 bits, and canonical for up to 45 significant digits; any other text is read
    * nine characters at a time, each as far as it goes.
    */
  method FromCString(text: string) returns (r: Num)
    ensures r == Parsed(text) && Shaped(r) && r.sign == SignOf(text)
    ensures AllDigits(Unsigned(text)) ==>
              (Magnitude(r.digits) == Number(Unsigned(text)) <==> Number(Unsigned(text)) < 0x1_0000_0000 * LIMIT_4)
    ensures AllDigits(Unsigned(text)) && Number(Unsigned(text)) < LIMIT_5 ==> Canonical(r)
  {
    hide Number, Magnitude, Atol, AtolWord, Chunk, ReadOff, StripZeros, Parsed;
    var all := Unsigned(text);
    if AllDigits(all) {
      StrippedNumber(all);
    }
    var working := SkipZeros(all);
    var digits := CutUp(all[working..]);
    r := Num(digits, SignOf(text));
    SameDigits(text, digits);
  }

  lemma SameDigits(text: string, digits: seq<nat>)
    requires |digits| == 5 && ReadOff(digits, StripZeros(Unsigned(text)))
    ensures Parsed(text) == Num(digits, SignOf(text))
  {
    hide AtolWord, Chunk;
  }

  /** The loop over nine characters at a time, and the rest. */
  method CutUp(significant: string) returns (d: seq<nat>)
    ensures |d| == 5 && ReadOff(d, significant)
    ensures AllDigits(significant) ==>
              && (Magnitude(d) == Number(significant) <==> Number(significant) < 0x1_0000_0000 * LIMIT_4)
              && (Number(significant) < LIMIT_5 ==> Below(d, LIMIT))
  {
    hide Number, Weighted, Magnitude, Cut, Atol, AtolWord, Chunk, ReadOff;
    var length := |significant|;
    d := [0, 0, 0, 0, 0];
    if length == 0 {
      NoDigits();
      ZeroDigits(d);
      NothingRead();
      return;
    }
    var digits: seq<nat> := [];
    if AllDigits(significant) {
      CutStart(significant);
    }
    ReadNothing(significant);
    assert significant[..length] == significant;
    while |digits| + 1 < 5 && 9 < length
      invariant 0 < length == |significant| - 9 * |digits| && |digits| <= 4
      invariant ReadOff(digits, significant)
      invariant AllDigits(significant) ==> Cut(digits, significant[..length], significant)
      decreases length
    {
      ReadNine(digits, length, significant);
      digits := digits + [AtolWord(significant[length - 9..length])];
      length := length - 9;
    }
    d := digits + [AtolWord(significant[..length])] + ZeroDigitsOf(4 - |digits|);
    ReadRest(digits, length, significant, d);
    if AllDigits(significant) {
      CutDone(digits, significant[..length], significant, d);
    }
  }

  lemma NothingRead()
    ensures ReadOff([0, 0, 0, 0, 0], "")
  {
    hide AtolWord;
    NothingIsZero();
  }

  lemma ReadNothing(s: string)
    ensures ReadOff([], s)
  {
  }

  lemma CutStart(all: string)
    requires AllDigits(all)
    ensures Cut([], all, all)
  {
  }

  lemma {:induction false} DigitsAreUnique(a: seq<nat>, b: seq<nat>)
    requires |a| == |b| && Below(a, LIMIT) && Below(b, LIMIT) && Magnitude(a) == Magnitude(b)
    ensures a == b
  {
    if a != [] {
      assert a[0] == b[0] && Magnitude(a[1..]) == Magnitude(b[1..]);
      DigitsAreUnique(a[1..], b[1..]);
      assert a == [a[0]] + a[1..] && b == [b[0]] + b[1..];
    }
  }

  /** Printing any canonical number and parsing the text gives the same digits and the same sign. */
  method PrintThenParse(n: Num, leadingZeros: bool, leadingPlus: bool, buflen: nat) returns (r: Num)
    requires Canonical(n) && buflen >= ENOUGH
    ensures r == n
  {
    hide Number, Magnitude, Numeral, ZeroFilled, Parsed, Below;
    var text, body := ToCString(n, leadingZeros, leadingPlus, buflen);
    assert SignOf(text) == n.sign && Unsigned(text) == body;
    r := FromCString(text);
    MagnitudeFits(n.digits);
    DigitsAreUnique(r.digits, n.digits);
  }

  /** The failing case of parsing: of 5 followed by 45 zeros, the top digit keeps 32 bits. */
  lemma TopIsTruncated()
    ensures var text := "5" + Zeros(45);
      && AllDigits(text) && Number(text) == 5 * LIMIT_5
      && Parsed(text) == Num([0, 0, 0, 0, 705_032_704], 0)
  {
    hide Number, Atol;
    var text, head := "5" + Zeros(45), "5" + Zeros(9);
    ManyZeros(45);
    ManyZeros(9);
    FiveAndZeros(45);
    FiveAndZeros(9);
    Scale45();
    AtolOfFive();
    hide AllDigits;
    assert Unsigned(text) == text && StripZeros(text) == text;
    ChunksOfFive();
    hide AtolWord, Chunk, StripZeros, Unsigned, Zeros;
  }

  lemma ChunksOfFive()
    ensures var text := "5" + Zeros(45);
      Chunk(text, 4) == "5" + Zeros(9) && forall i: nat | i < 4 :: Chunk(text, i) == Zeros(9)
  {
    var text := "5" + Zeros(45);
    forall i: nat | i < 4
      ensures Chunk(text, i) == Zeros(9)
    {
      assert |Chunk(text, i)| == 9;
      assert forall j | 0 <= j < 9 :: Chunk(text, i)[j] == '0';
    }
    assert Chunk(text, 4) == text[0..10];
  }

  lemma FiveAndZeros(k: nat)
    ensures AllDigits("5" + Zeros(k)) && Number("5" + Zeros(k)) == Scale(5, k)
  {
    ManyZeros(k);
    assert "5"[..0] == "";
    NumberAppend("5", Zeros(k));
  }

  lemma AtolOfFive()
    ensures AtolWord("5" + Zeros(9)) == 705_032_704
  {
    hide Number;
    var s := "5" + Zeros(9);
    FiveAndZeros(9);
    ScaleNine(5);
    assert AfterSpaces(s) == s && Unsigned(s) == s && SignOf(s) == 0 && LeadingDigits(s) == s;
  }

  lemma {:induction false} ScaleJoin(n: nat, k: nat, l: nat)
    ensures Scale(n, k + l) == Scale(Scale(n, k), l)
  {
    if l > 0 {
      ScaleJoin(n, k, l - 1);
    }
  }

  lemma Scale45()
    ensures Scale(5, 45) == 5 * LIMIT_5
  {
    hide Scale;
    ScaleNine(5);
    ScaleJoin(5, 9, 9);
    ScaleNine(5 * LIMIT);
    ScaleJoin(5, 18, 9);
    ScaleNine(5 * LIMIT_2);
    ScaleJoin(5, 27, 9);
    ScaleNine(5 * LIMIT_3);
    ScaleJoin(5, 36, 9);
    ScaleNine(5 * LIMIT_4);
  }

  lemma {:induction false} ManyZeros(k: nat)
    ensures AllDigits(Zeros(k)) && Number(Zeros(k)) == 0 && AtolWord(Zeros(k)) == 0
  {
    hide AtolWord;
    assert Zeros(k) + "" == Zeros(k);
    ZerosDoNotCount(k, "");
    NoDigits();
    AtolOfDigits(Zeros(k));
  }
}
