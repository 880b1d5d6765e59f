/** How JSON strings are written (valueToQuotedStringN) and read back (decodeString). */
module JsonStrings {
  import opened Bytes

  const REPLACEMENT_CHARACTER := 0xFFFD

  const QUOTE: byte := 0x22
  const BACKSLASH: byte := 0x5C

  // ----- UTF-8 as the code reads and writes it -----

  /** A decoded code point and the number of bytes it took. */
  datatype Scan = Scan(codePoint: int, width: nat)

  /** The six payload bits of a continuation byte; the code masks any byte this way, continuation or not. */
  function Low6(c: byte): (r: int)
    ensures 0 <= r < 0x40
  {
    c % 0x40
  }

  function Two(a: int, b: int): int {
    a * 0x40 + b
  }

  function Three(a: int, b: int, c: int): int {
    a * 0x1000 + b * 0x40 + c
  }

  function Four(a: int, b: int, c: int, d: int): int {
    a * 0x4_0000 + b * 0x1000 + c * 0x40 + d
  }

  /** utf8ToCodepoint: every byte string is read, malformed sequences included. */
  function ToCodepoint(s: bytes): (r: Scan)
    requires s != []
    ensures 1 <= r.width <= |s|
    ensures IsEmittable(r.codePoint)
    ensures r.codePoint < 0x80 ==> r == Scan(s[0], 1)
    ensures s[0] < 0x80 <==> r.codePoint < 0x80
  {
    var first: int := s[0];
    if first < 0x80 then Scan(first, 1)
    else if first < 0xE0 then
      if |s| < 2 then Scan(REPLACEMENT_CHARACTER, 1)
      else
        var c := Two(first % 0x20, Low6(s[1]));
        Scan(if c < 0x80 then REPLACEMENT_CHARACTER else c, 2)
    else if first < 0xF0 then
      if |s| < 3 then Scan(REPLACEMENT_CHARACTER, 1)
      else
        var c := Three(first % 0x10, Low6(s[1]), Low6(s[2]));
        Scan(if 0xD800 <= c <= 0xDFFF || c < 0x800 then REPLACEMENT_CHARACTER else c, 3)
    else if first < 0xF8 then
      if |s| < 4 then Scan(REPLACEMENT_CHARACTER, 1)
      else
        var c := Four(first % 8, Low6(s[1]), Low6(s[2]), Low6(s[3]));
        Scan(if c < 0x1_0000 then REPLACEMENT_CHARACTER else c, 4)
    else Scan(REPLACEMENT_CHARACTER, 1)
  }

  /** What ToCodepoint can yield: no surrogates, but up to 21 bits. */
  predicate IsEmittable(cp: int) {
    0 <= cp < 0x20_0000 && !(0xD800 <= cp <= 0xDFFF)
  }

  /** The Unicode scalar values (section 3 of RFC 3629). */
  predicate IsScalar(cp: int) {
    0 <= cp <= 0x10_FFFF && !(0xD800 <= cp <= 0xDFFF)
  }

  function CodePoints(s: bytes): (cps: seq<int>)
    ensures forall i :: 0 <= i < |cps| ==> IsEmittable(cps[i])
  {
    if s == [] then [] else [ToCodepoint(s).codePoint] + CodePoints(s[ToCodepoint(s).width..])
  }

  /** codePointToUTF8: code points above U+10FFFF yield nothing. */
  function CodePointToUtf8(cp: nat): bytes {
    if cp <= 0x7F then [cp]
    else if cp <= 0x7FF then [0xC0 + cp / 0x40, 0x80 + cp % 0x40]
    else if cp <= 0xFFFF then [0xE0 + cp / 0x1000, 0x80 + (cp / 0x40) % 0x40, 0x80 + cp % 0x40]
    else if cp <= 0x10_FFFF then
      [0xF0 + cp / 0x4_0000, 0x80 + (cp / 0x1000) % 0x40, 0x80 + (cp / 0x40) % 0x40, 0x80 + cp % 0x40]
    else []
  }

  /** The surrogate pair keeps 20 bits, so code points beyond U+10FFFF wrap into the planes above the first. */
  function Wrap(cp: int): (r: int)
    requires IsEmittable(cp)
    ensures IsScalar(r)
    ensures IsScalar(cp) ==> r == cp
  {
    if cp < 0x1_0000 then cp else 0x1_0000 + (cp - 0x1_0000) % 0x10_0000
  }

  function Utf8(cps: seq<int>): bytes
    requires forall i :: 0 <= i < |cps| ==> IsEmittable(cps[i])
  {
    if cps == [] then [] else CodePointToUtf8(Wrap(cps[0])) + Utf8(cps[1..])
  }

  /** The string that comes back after writing and reading s. */
  function Canon(s: bytes): bytes {
    Utf8(CodePoints(s))
  }

  // ----- Writing -----

  function HexDigit(d: int): byte
    requires 0 <= d < 16
  {
    if d < 10 then 0x30 + d else 0x61 + d - 10
  }

  /** appendHex: "\u" and four digits of the low 16 bits. */
  function HexEscape(x: nat): bytes {
    var hi := (x / 0x100) % 0x100;
    var lo := x % 0x100;
    [BACKSLASH, 0x75, HexDigit(hi / 16), HexDigit(hi % 16), HexDigit(lo / 16), HexDigit(lo % 16)]
  }

  /** The single letter that follows the backslash in a short escape; 0 when there is none. */
  function ShortEscape(cp: int): (r: byte)
    ensures r != 0 ==> 0 <= cp < 0x80 && Unescape(r) == Some(cp)
  {
    if cp == 0x22 then 0x22
    else if cp == 0x5C then 0x5C
    else if cp == 0x08 then 0x62
    else if cp == 0x0C then 0x66
    else if cp == 0x0A then 0x6E
    else if cp == 0x0D then 0x72
    else if cp == 0x09 then 0x74
    else 0
  }

  function Escape(cp: int): bytes
    requires IsEmittable(cp)
  {
    if ShortEscape(cp) != 0 then [BACKSLASH, ShortEscape(cp)]
    else if cp < 0x20 then HexEscape(cp)
    else if cp < 0x80 then [cp]
    else if cp < 0x1_0000 then HexEscape(cp)
    else HexEscape(HighSurrogate(cp)) + HexEscape(LowSurrogate(cp))
  }

  function HighSurrogate(cp: int): (r: nat)
    ensures 0xD800 <= r <= 0xDBFF
  {
    0xD800 + ((cp - 0x1_0000) / 0x400) % 0x400
  }

  function LowSurrogate(cp: int): (r: nat)
    ensures 0xDC00 <= r <= 0xDFFF
  {
    0xDC00 + (cp - 0x1_0000) % 0x400
  }

  function EscapeAll(cps: seq<int>): bytes
    requires forall i :: 0 <= i < |cps| ==> IsEmittable(cps[i])
  {
    if cps == [] then [] else Escape(cps[0]) + EscapeAll(cps[1..])
  }

  function Quote(s: bytes): bytes {
    [QUOTE] + EscapeAll(CodePoints(s)) + [QUOTE]
  }

  /** doesAnyCharRequireEscaping */
  predicate RequiresEscaping(c: byte) {
    c == BACKSLASH || c == QUOTE || c < 0x20 || c > 0x7F
  }

  lemma {:induction false} UnescapedIsItself(s: bytes)
    requires forall i :: 0 <= i < |s| ==> !RequiresEscaping(s[i])
    ensures EscapeAll(CodePoints(s)) == s
  {
    if s != [] {
      assert CodePoints(s) == [s[0]] + CodePoints(s[1..]);
      UnescapedIsItself(s[1..]);
      assert Escape(s[0]) == [s[0]];
    }
  }

  /** valueToQuotedStringN with emitUTF8 off, as the writers call it. */
  method ValueToQuotedStringN(value: bytes) returns (result: bytes)
    ensures result == Quote(value)
  {
    var needed := AnyRequiresEscaping(value);
    if !needed {
      UnescapedIsItself(value);
      return [QUOTE] + value + [QUOTE];
    }
    result := [QUOTE];
    var c := 0;
    assert value[0..] == value;
    while c != |value|
      invariant 0 <= c <= |value|
      invariant result + EscapeAll(CodePoints(value[c..])) == [QUOTE] + EscapeAll(CodePoints(value))
      decreases |value| - c
    {
      result, c := EscapeNext(value, c, result);
    }
    assert value[c..] == [];
    result := result + [QUOTE];
  }

  /** One round of valueToQuotedStringN's loop: the switch on the next byte. */
  method EscapeNext(value: bytes, c: nat, text: bytes) returns (result: bytes, next: nat)
    requires c < |value|
    ensures c < next <= |value|
    ensures result + EscapeAll(CodePoints(value[next..])) == text + EscapeAll(CodePoints(value[c..]))
  {
    hide EscapeAll, CodePoints;
    var step := ToCodepoint(value[c..]);
    if ShortEscape(value[c]) != 0 {
      result := text + [BACKSLASH, ShortEscape(value[c])];
      next := c + 1;
    } else {
      result := AppendCodepoint(text, step.codePoint);
      next := c + step.width;
    }
    assert value[c..][step.width..] == value[next..];
    EscapeAllStep(value[c..]);
  }

  lemma EscapeAllStep(s: bytes)
    requires s != []
    ensures EscapeAll(CodePoints(s)) == Escape(ToCodepoint(s).codePoint) + EscapeAll(CodePoints(s[ToCodepoint(s).width..]))
  {
    assert CodePoints(s)[1..] == CodePoints(s[ToCodepoint(s).width..]);
  }

  /** The default branch of valueToQuotedStringN's switch. */
  method AppendCodepoint(text: bytes, cp: int) returns (result: bytes)
    requires IsEmittable(cp) && ShortEscape(cp) == 0
    ensures result == text + Escape(cp)
  {
    if cp < 0x20 {
      result := text + HexEscape(cp);
    } else if cp < 0x80 {
      result := text + [cp];
    } else if cp < 0x1_0000 {
      result := text + HexEscape(cp);
    } else {
      result := text + HexEscape(HighSurrogate(cp));
      result := result + HexEscape(LowSurrogate(cp));
      assert Escape(cp) == HexEscape(HighSurrogate(cp)) + HexEscape(LowSurrogate(cp));
    }
  }

  method AnyRequiresEscaping(value: bytes) returns (r: bool)
    ensures r <==> exists i :: 0 <= i < |value| && RequiresEscaping(value[i])
  {
    for i := 0 to |value|
      invariant forall k :: 0 <= k < i ==> !RequiresEscaping(value[k])
    {
      if RequiresEscaping(value[i]) {
        return true;
      }
    }
    return false;
  }

  // ----- Reading -----

  /** The character a one-letter escape stands for; None when the letter is not one of them. */
  function Unescape(c: byte): Option<byte> {
    if c == 0x22 then Some(0x22)
    else if c == 0x2F then Some(0x2F)
    else if c == 0x5C then Some(0x5C)
    else if c == 0x62 then Some(0x08)
    else if c == 0x66 then Some(0x0C)
    else if c == 0x6E then Some(0x0A)
    else if c == 0x72 then Some(0x0D)
    else if c == 0x74 then Some(0x09)
    else None
  }

  function HexValue(c: byte): (r: Option<nat>)
    ensures r.Some? ==> r.value < 16
  {
    if 0x30 <= c <= 0x39 then Some(c - 0x30)
    else if 0x61 <= c <= 0x66 then Some(c - 0x61 + 10)
    else if 0x41 <= c <= 0x46 then Some(c - 0x41 + 10)
    else None
  }

  /** decodeUnicodeEscapeSequence: four hexadecimal digits at the front of s. */
  function UnicodeEscape(s: bytes): (r: Option<nat>)
    ensures r.Some? ==> |s| >= 4 && r.value < 0x1_0000
  {
    if |s| < 4 || HexValue(s[0]).None? || HexValue(s[1]).None? || HexValue(s[2]).None? || HexValue(s[3]).None? then None
    else Some(((HexValue(s[0]).value * 16 + HexValue(s[1]).value) * 16 + HexValue(s[2]).value) * 16 + HexValue(s[3]).value)
  }

  /** decodeUnicodeCodePoint: the text after "\u"; a high surrogate takes a second escape with it. */
  function UnicodeCodePoint(s: bytes): (r: Option<Scan>)
    ensures r.Some? ==> 4 <= r.value.width <= |s| && 0 <= r.value.codePoint <= 0x10_FFFF
  {
    match UnicodeEscape(s)
    case None => None
    case Some(u) =>
      if 0xD800 <= u <= 0xDBFF then
        if |s| < 10 || s[4] != BACKSLASH || s[5] != 0x75 || UnicodeEscape(s[6..]).None? then None
        else Some(Scan(0x1_0000 + (u % 0x400) * 0x400 + UnicodeEscape(s[6..]).value % 0x400, 10))
      else Some(Scan(u, 4))
  }

  function Prepend(s: bytes, r: Option<bytes>): Option<bytes> {
    if r.Some? then Some(s + r.value) else None
  }

  /** decodeString on the text between the quotes. */
  function Decode(body: bytes): Option<bytes> {
    if body == [] then Some([])
    else if body[0] == QUOTE then Some([])
    else if body[0] != BACKSLASH then Prepend([body[0]], Decode(body[1..]))
    else if |body| == 1 then None
    else if body[1] == 0x75 then
      match UnicodeCodePoint(body[2..])
      case None => None
      case Some(scan) => Prepend(CodePointToUtf8(scan.codePoint), Decode(body[2 + scan.width..]))
    else
      match Unescape(body[1])
      case None => None
      case Some(c) => Prepend([c], Decode(body[2..]))
  }

  /** Decoding never makes a text longer. */
  lemma {:induction false} DecodeIsShorter(body: bytes)
    ensures Decode(body).Some? ==> |Decode(body).value| <= |body|
    decreases |body|
  {
    hide UnicodeCodePoint, CodePointToUtf8, Unescape;
    if body == [] || body[0] == QUOTE {
    } else if body[0] != BACKSLASH {
      DecodeIsShorter(body[1..]);
    } else if |body| > 1 && body[1] == 0x75 {
      match UnicodeCodePoint(body[2..])
      case None =>
      case Some(scan) =>
        Utf8IsShort(scan.codePoint);
        DecodeIsShorter(body[2 + scan.width..]);
    } else if |body| > 1 {
      DecodeIsShorter(body[2..]);
    }
  }

  lemma Utf8IsShort(cp: int)
    requires 0 <= cp <= 0x10_FFFF
    ensures |CodePointToUtf8(cp)| <= 4
  {
  }

  /** decodeUnicodeEscapeSequence, with the pointer it advances. */
  method DecodeUnicodeEscapeSequence(s: bytes, current: nat) returns (ok: bool, next: nat, unicode: nat)
    requires current <= |s|
    ensures ok <==> UnicodeEscape(s[current..]).Some?
    ensures ok ==> unicode == UnicodeEscape(s[current..]).value && next == current + 4 <= |s|
  {
    next, unicode := current, 0;
    if |s| - current < 4 {
      return false, next, 0;
    }
    ghost var t := s[current..];
    for index := 0 to 4
      invariant next == current + index
      invariant forall k :: 0 <= k < index ==> HexValue(t[k]).Some?
      invariant index == 1 ==> unicode == HexValue(t[0]).value
      invariant index == 2 ==> unicode == HexValue(t[0]).value * 16 + HexValue(t[1]).value
      invariant index == 3 ==> unicode == (HexValue(t[0]).value * 16 + HexValue(t[1]).value) * 16 + HexValue(t[2]).value
      invariant index == 4 ==> UnicodeEscape(t) == Some(unicode)
      invariant index == 0 ==> unicode == 0
    {
      var c := s[next];
      assert c == t[index];
      next := next + 1;
      unicode := unicode * 16;
      if 0x30 <= c <= 0x39 {
        unicode := unicode + c - 0x30;
      } else if 0x61 <= c <= 0x66 {
        unicode := unicode + c - 0x61 + 10;
      } else if 0x41 <= c <= 0x46 {
        unicode := unicode + c - 0x41 + 10;
      } else {
        return false, next, unicode;
      }
    }
    ok := true;
  }

  /** decodeUnicodeCodePoint: one escape, or two when the first is a high surrogate. */
  method DecodeUnicodeCodePoint(s: bytes, current: nat) returns (ok: bool, next: nat, unicode: nat)
    requires current <= |s|
    ensures ok <==> UnicodeCodePoint(s[current..]).Some?
    ensures ok ==> current <= next <= |s| && UnicodeCodePoint(s[current..]) == Some(Scan(unicode, next - current))
  {
    ok, next, unicode := DecodeUnicodeEscapeSequence(s, current);
    if ok && 0xD800 <= unicode <= 0xDBFF {
      if |s| - next < 6 || s[next] != BACKSLASH || s[next + 1] != 0x75 {
        return false, next, unicode;
      }
      next := next + 2;
      assert s[current..][6..] == s[next..];
      var pair: nat;
      ok, next, pair := DecodeUnicodeEscapeSequence(s, next);
      unicode := 0x1_0000 + (unicode % 0x400) * 0x400 + pair % 0x400;
    }
  }

  /** decodeString: the text between the quotes, decoded in one pass. */
  method DecodeString(body: bytes) returns (ok: bool, decoded: bytes)
    ensures ok <==> Decode(body).Some?
    ensures ok ==> Decode(body) == Some(decoded)
  {
    decoded := [];
    var current := 0;
    assert body[0..] == body;
    PrependNothing(Decode(body));
    while current != |body|
      invariant 0 <= current <= |body|
      invariant Decode(body) == Prepend(decoded, Decode(body[current..]))
      decreases |body| - current
    {
      var c := body[current];
      if c == QUOTE {
        assert decoded + [] == decoded;
        return true, decoded;
      }
      if c == BACKSLASH {
        if current + 1 == |body| {
          return false, decoded;
        }
        var piece;
        ok, current, piece := DecodeEscape(body, current);
        if !ok {
          return false, decoded;
        }
        PrependTwice(decoded, piece, Decode(body[current..]));
        decoded := decoded + piece;
      } else {
        assert body[current..][1..] == body[current + 1..];
        current := current + 1;
        PrependTwice(decoded, [c], Decode(body[current..]));
        decoded := decoded + [c];
      }
    }
    assert body[current..] == [] && decoded + [] == decoded;
    ok := true;
  }

  /** The switch on the character after a backslash. */
  method DecodeEscape(body: bytes, current: nat) returns (ok: bool, next: nat, piece: bytes)
    requires current + 1 < |body| && body[current] == BACKSLASH
    ensures current < next <= |body|
    ensures ok ==> Decode(body[current..]) == Prepend(piece, Decode(body[next..]))
    ensures !ok ==> Decode(body[current..]).None?
  {
    var escape := body[current + 1];
    assert body[current..][2..] == body[current + 2..];
    if escape == 0x75 {
      var unicode;
      ok, next, unicode := DecodeUnicodeCodePoint(body, current + 2);
      if !ok {
        return false, current + 2, [];
      }
      piece := CodePointToUtf8(unicode);
      assert body[current..][next - current..] == body[next..];
    } else {
      match Unescape(escape)
      case None => return false, current + 2, [];
      case Some(plain) => return true, current + 2, [plain];
    }
  }

  lemma PrependNothing(r: Option<bytes>)
    ensures Prepend([], r) == r
  {
    if r.Some? {
      assert [] + r.value == r.value;
    }
  }

  lemma PrependTwice(a: bytes, b: bytes, r: Option<bytes>)
    ensures Prepend(a, Prepend(b, r)) == Prepend(a + b, r)
  {
    if r.Some? {
      assert a + (b + r.value) == (a + b) + r.value;
    }
  }

  // ----- Reading back what was written -----

  lemma HexRoundTrip(x: nat, rest: bytes)
    requires x < 0x1_0000
    ensures UnicodeEscape(HexEscape(x)[2..] + rest) == Some(x)
  {
    var hi := (x / 0x100) % 0x100;
    var lo := x % 0x100;
    assert x == (((hi / 16) * 16 + hi % 16) * 16 + lo / 16) * 16 + lo % 16;
    var t := HexEscape(x)[2..] + rest;
    assert t[0] == HexDigit(hi / 16) && t[1] == HexDigit(hi % 16) && t[2] == HexDigit(lo / 16) && t[3] == HexDigit(lo % 16);
    DigitValue(hi / 16);
    DigitValue(hi % 16);
    DigitValue(lo / 16);
    DigitValue(lo % 16);
    hide HexDigit, HexValue;
  }

  lemma DigitValue(d: int)
    requires 0 <= d < 16
    ensures HexValue(HexDigit(d)) == Some(d)
  {
  }

  lemma PairRoundTrip(cp: int, rest: bytes)
    requires 0x1_0000 <= cp < 0x20_0000
    ensures UnicodeCodePoint((Escape(cp) + rest)[2..]) == Some(Scan(Wrap(cp), 10))
  {
    var high, low := HighSurrogate(cp), LowSurrogate(cp);
    var t := (Escape(cp) + rest)[2..];
    assert t == HexEscape(high)[2..] + (HexEscape(low) + rest);
    HexRoundTrip(high, HexEscape(low) + rest);
    assert t[6..] == HexEscape(low)[2..] + rest;
    HexRoundTrip(low, rest);
    SurrogatePair(cp);
  }

  /** One escaped code point followed by anything decodes to its UTF-8 form followed by that. */
  lemma EscapeRoundTrip(cp: int, rest: bytes)
    requires IsEmittable(cp)
    ensures Decode(Escape(cp) + rest) == Prepend(CodePointToUtf8(Wrap(cp)), Decode(rest))
  {
    hide *;
    if ShortEscape(cp) != 0 || 0x20 <= cp < 0x80 {
      PlainRoundTrip(cp, rest);
    } else if cp < 0x1_0000 {
      UnitRoundTrip(cp, rest);
    } else {
      UnitsRoundTrip(cp, rest);
    }
  }

  lemma PlainRoundTrip(cp: int, rest: bytes)
    requires IsEmittable(cp) && (ShortEscape(cp) != 0 || 0x20 <= cp < 0x80)
    ensures Decode(Escape(cp) + rest) == Prepend(CodePointToUtf8(Wrap(cp)), Decode(rest))
  {
    var t := Escape(cp) + rest;
    if ShortEscape(cp) != 0 {
      assert t[2..] == rest;
    } else {
      assert t[1..] == rest;
    }
  }

  /** Written as one UTF-16 unit. */
  lemma UnitRoundTrip(cp: int, rest: bytes)
    requires IsEmittable(cp) && ShortEscape(cp) == 0 && !(0x20 <= cp < 0x80) && cp < 0x1_0000
    ensures Decode(Escape(cp) + rest) == Prepend(CodePointToUtf8(Wrap(cp)), Decode(rest))
  {
    var t := Escape(cp) + rest;
    HexRoundTrip(cp, rest);
    hide UnicodeEscape, CodePointToUtf8;
    assert t[2..] == HexEscape(cp)[2..] + rest;
    assert t[6..] == rest;
  }

  /** Written as two. */
  lemma UnitsRoundTrip(cp: int, rest: bytes)
    requires IsEmittable(cp) && cp >= 0x1_0000
    ensures Decode(Escape(cp) + rest) == Prepend(CodePointToUtf8(Wrap(cp)), Decode(rest))
  {
    hide UnicodeCodePoint, CodePointToUtf8, HighSurrogate, LowSurrogate, Wrap;
    var t := Escape(cp) + rest;
    PairRoundTrip(cp, rest);
    assert t[12..] == rest;
  }

  lemma SurrogatePair(cp: int)
    requires 0x1_0000 <= cp < 0x20_0000
    ensures 0x1_0000 + (HighSurrogate(cp) % 0x400) * 0x400 + LowSurrogate(cp) % 0x400 == Wrap(cp)
  {
    var d := cp - 0x1_0000;
    TwentyBits(d);
    assert HighSurrogate(cp) % 0x400 == (d / 0x400) % 0x400;
    assert LowSurrogate(cp) % 0x400 == d % 0x400;
  }

  lemma TwentyBits(d: nat)
    ensures (d / 0x400) % 0x400 * 0x400 + d % 0x400 == d % 0x10_0000
  {
    var q := d / 0x400;
    Remainder(d, q / 0x400, q % 0x400 * 0x400 + d % 0x400);
  }

  lemma Remainder(d: nat, k: nat, r: nat)
    requires d == k * 0x10_0000 + r && r < 0x10_0000
    ensures d % 0x10_0000 == r
  {
  }

  lemma {:induction false} DecodeEscapeAll(cps: seq<int>)
    requires forall i :: 0 <= i < |cps| ==> IsEmittable(cps[i])
    ensures Decode(EscapeAll(cps)) == Some(Utf8(cps))
  {
    if cps != [] {
      EscapeRoundTrip(cps[0], EscapeAll(cps[1..]));
      DecodeEscapeAll(cps[1..]);
    }
  }

  /** Any byte string is written so that it reads back without error, as Canon of itself. */
  lemma StringRoundTrip(s: bytes)
    ensures |Quote(s)| >= 2
    ensures Decode(Quote(s)[1..|Quote(s)| - 1]) == Some(Canon(s))
  {
    assert Quote(s)[1..|Quote(s)| - 1] == EscapeAll(CodePoints(s));
    DecodeEscapeAll(CodePoints(s));
  }

  /** Only ASCII is written. */
  lemma {:induction false} EscapeAllIsAscii(cps: seq<int>)
    requires forall i :: 0 <= i < |cps| ==> IsEmittable(cps[i])
    ensures AllBelow(EscapeAll(cps), 0x80)
  {
    if cps != [] {
      EscapeAllIsAscii(cps[1..]);
      assert AllBelow(Escape(cps[0]), 0x80);
    }
  }

  lemma QuoteIsAscii(s: bytes)
    ensures AllBelow(Quote(s), 0x80)
  {
    EscapeAllIsAscii(CodePoints(s));
  }

  // ----- Well-formed UTF-8, from the table in section 4 of RFC 3629 -----

  predicate Tail(c: byte) {
    0x80 <= c <= 0xBF
  }

  /** The length of the well-formed character at the front of s; 0 when there is none. */
  function CharLength(s: bytes): (n: nat)
    ensures n <= 4 && n <= |s|
  {
    if |s| >= 1 && s[0] <= 0x7F then 1
    else if |s| >= 2 && 0xC2 <= s[0] <= 0xDF && Tail(s[1]) then 2
    else if |s| >= 3 && Tail(s[2]) &&
            (|| (s[0] == 0xE0 && 0xA0 <= s[1] <= 0xBF)
             || (0xE1 <= s[0] <= 0xEC && Tail(s[1]))
             || (s[0] == 0xED && 0x80 <= s[1] <= 0x9F)
             || (0xEE <= s[0] <= 0xEF && Tail(s[1]))) then 3
    else if |s| >= 4 && Tail(s[2]) && Tail(s[3]) &&
            (|| (s[0] == 0xF0 && 0x90 <= s[1] <= 0xBF)
             || (0xF1 <= s[0] <= 0xF3 && Tail(s[1]))
             || (s[0] == 0xF4 && 0x80 <= s[1] <= 0x8F)) then 4
    else 0
  }

  predicate WellFormed(s: bytes) {
    s == [] || (CharLength(s) > 0 && WellFormed(s[CharLength(s)..]))
  }

  lemma TwoParts(a: int, b: int)
    requires 0 <= a && 0 <= b < 0x40
    ensures Two(a, b) / 0x40 == a && Two(a, b) % 0x40 == b
  {
  }

  lemma ThreeParts(a: int, b: int, c: int)
    requires 0 <= a && 0 <= b < 0x40 && 0 <= c < 0x40
    ensures Three(a, b, c) / 0x1000 == a && (Three(a, b, c) / 0x40) % 0x40 == b && Three(a, b, c) % 0x40 == c
  {
    assert Three(a, b, c) == Two(Two(a, b), c);
    TwoParts(Two(a, b), c);
    TwoParts(a, b);
  }

  lemma FourParts(a: int, b: int, c: int, d: int)
    requires 0 <= a && 0 <= b < 0x40 && 0 <= c < 0x40 && 0 <= d < 0x40
    ensures Four(a, b, c, d) / 0x4_0000 == a && (Four(a, b, c, d) / 0x1000) % 0x40 == b
    ensures (Four(a, b, c, d) / 0x40) % 0x40 == c && Four(a, b, c, d) % 0x40 == d
  {
    assert Four(a, b, c, d) == Two(Three(a, b, c), d);
    TwoParts(Three(a, b, c), d);
    ThreeParts(a, b, c);
    ThreeParts(Two(a, b), c, d);
    TwoParts(a, b);
  }

  /** Every code point is made of its six-bit groups. */
  lemma Groups(cp: nat)
    ensures cp == Two(cp / 0x40, cp % 0x40)
    ensures cp == Three(cp / 0x1000, (cp / 0x40) % 0x40, cp % 0x40)
    ensures cp == Four(cp / 0x4_0000, (cp / 0x1000) % 0x40, (cp / 0x40) % 0x40, cp % 0x40)
  {
    assert cp / 0x1000 == cp / 0x40 / 0x40;
    assert cp / 0x4_0000 == cp / 0x1000 / 0x40;
  }

  lemma TwoByteChar(s: bytes)
    requires CharLength(s) == 2
    ensures ToCodepoint(s) == Scan(Two(s[0] - 0xC0, s[1] - 0x80), 2)
  {
    assert s[0] % 0x20 == s[0] - 0xC0;
  }

  lemma ThreeByteChar(s: bytes)
    requires CharLength(s) == 3
    ensures ToCodepoint(s) == Scan(Three(s[0] - 0xE0, s[1] - 0x80, s[2] - 0x80), 3)
  {
    assert s[0] % 0x10 == s[0] - 0xE0;
    assert Low6(s[1]) == s[1] - 0x80 && Low6(s[2]) == s[2] - 0x80;
  }

  lemma FourByteChar(s: bytes)
    requires CharLength(s) == 4
    ensures ToCodepoint(s) == Scan(Four(s[0] - 0xF0, s[1] - 0x80, s[2] - 0x80, s[3] - 0x80), 4)
    ensures 0x1_0000 <= ToCodepoint(s).codePoint <= 0x10_FFFF
  {
    assert s[0] % 8 == s[0] - 0xF0;
    assert Low6(s[1]) == s[1] - 0x80 && Low6(s[2]) == s[2] - 0x80 && Low6(s[3]) == s[3] - 0x80;
  }

  /** The writer's reading of a well-formed character agrees with the standard's. */
  lemma WellFormedChar(s: bytes)
    requires CharLength(s) > 0
    ensures ToCodepoint(s).width == CharLength(s)
    ensures IsScalar(ToCodepoint(s).codePoint)
    ensures CodePointToUtf8(ToCodepoint(s).codePoint) == s[..CharLength(s)]
  {
    hide *;
    match CharLength(s)
    case 1 => WellFormedOne(s);
    case 2 => WellFormedTwo(s);
    case 3 => WellFormedThree(s);
    case _ => WellFormedFour(s);
  }

  lemma WellFormedOne(s: bytes)
    requires CharLength(s) == 1
    ensures var cp := ToCodepoint(s).codePoint; ToCodepoint(s).width == 1 && IsScalar(cp) && CodePointToUtf8(cp) == s[..1]
  {
  }

  lemma WellFormedTwo(s: bytes)
    requires CharLength(s) == 2
    ensures var cp := ToCodepoint(s).codePoint; ToCodepoint(s).width == 2 && IsScalar(cp) && CodePointToUtf8(cp) == s[..2]
  {
    TwoByteChar(s);
    TwoParts(s[0] - 0xC0, s[1] - 0x80);
    hide ToCodepoint;
  }

  lemma WellFormedThree(s: bytes)
    requires CharLength(s) == 3
    ensures var cp := ToCodepoint(s).codePoint; ToCodepoint(s).width == 3 && IsScalar(cp) && CodePointToUtf8(cp) == s[..3]
  {
    ThreeByteChar(s);
    ThreeParts(s[0] - 0xE0, s[1] - 0x80, s[2] - 0x80);
    hide ToCodepoint;
  }

  lemma WellFormedFour(s: bytes)
    requires CharLength(s) == 4
    ensures var cp := ToCodepoint(s).codePoint; ToCodepoint(s).width == 4 && IsScalar(cp) && CodePointToUtf8(cp) == s[..4]
  {
    FourByteChar(s);
    FourParts(s[0] - 0xF0, s[1] - 0x80, s[2] - 0x80, s[3] - 0x80);
    hide ToCodepoint;
  }

  lemma Utf8CharLength(cp: int, rest: bytes)
    requires IsScalar(cp)
    ensures CharLength(CodePointToUtf8(cp) + rest) == |CodePointToUtf8(cp)| > 0
  {
    hide CharLength, CodePointToUtf8;
    var t := CodePointToUtf8(cp) + rest;
    if cp <= 0x7FF {
      ShortChar(cp, t);
    } else if cp <= 0xFFFF {
      ThreeBytes(cp, t);
    } else {
      FourBytes(cp, t);
    }
  }

  lemma ShortChar(cp: int, t: bytes)
    requires IsScalar(cp) && cp <= 0x7FF && CodePointToUtf8(cp) <= t
    ensures CharLength(t) == |CodePointToUtf8(cp)| > 0
  {
    if cp <= 0x7F {
      assert t[0] == cp;
    } else {
      assert t[0] == 0xC0 + cp / 0x40 && t[1] == 0x80 + cp % 0x40;
    }
  }

  lemma ThreeBytes(cp: int, t: bytes)
    requires IsScalar(cp) && 0x7FF < cp <= 0xFFFF && CodePointToUtf8(cp) <= t
    ensures CharLength(t) == 3 == |CodePointToUtf8(cp)|
  {
    assert t[0] == 0xE0 + cp / 0x1000 && t[1] == 0x80 + (cp / 0x40) % 0x40 && t[2] == 0x80 + cp % 0x40;
    hide CodePointToUtf8;
    Groups(cp);
  }

  lemma FourBytes(cp: int, t: bytes)
    requires IsScalar(cp) && 0xFFFF < cp && CodePointToUtf8(cp) <= t
    ensures CharLength(t) == 4 == |CodePointToUtf8(cp)|
  {
    assert t[0] == 0xF0 + cp / 0x4_0000 && t[1] == 0x80 + (cp / 0x1000) % 0x40;
    assert t[2] == 0x80 + (cp / 0x40) % 0x40 && t[3] == 0x80 + cp % 0x40;
    hide CodePointToUtf8;
    Groups(cp);
  }

  lemma Utf8IsWellFormed(cp: int, rest: bytes)
    requires IsScalar(cp)
    ensures CharLength(CodePointToUtf8(cp) + rest) == |CodePointToUtf8(cp)| > 0
    ensures ToCodepoint(CodePointToUtf8(cp) + rest) == Scan(cp, |CodePointToUtf8(cp)|)
  {
    Groups(cp);
    var t := CodePointToUtf8(cp) + rest;
    Utf8CharLength(cp, rest);
    if cp <= 0x7F {
    } else if cp <= 0x7FF {
      TwoByteChar(t);
    } else if cp <= 0xFFFF {
      ThreeByteChar(t);
    } else {
      FourByteChar(t);
    }
  }

  lemma {:induction false} Utf8RoundTrip(cps: seq<int>)
    requires forall i :: 0 <= i < |cps| ==> IsEmittable(cps[i])
    ensures WellFormed(Utf8(cps))
    ensures CodePoints(Utf8(cps)) == seq(|cps|, i requires 0 <= i < |cps| => Wrap(cps[i]))
  {
    if cps != [] {
      hide WellFormed, CodePoints, CodePointToUtf8, IsEmittable, IsScalar, Wrap;
      Utf8RoundTrip(cps[1..]);
      ReadsOne(Wrap(cps[0]), Utf8(cps[1..]));
    }
  }

  lemma ReadsOne(cp: int, tail: bytes)
    requires IsScalar(cp)
    ensures WellFormed(CodePointToUtf8(cp) + tail) <==> WellFormed(tail)
    ensures CodePoints(CodePointToUtf8(cp) + tail) == [cp] + CodePoints(tail)
  {
    Utf8IsWellFormed(cp, tail);
    hide ToCodepoint, CharLength, CodePointToUtf8;
    assert (CodePointToUtf8(cp) + tail)[|CodePointToUtf8(cp)|..] == tail;
  }

  lemma CanonStep(s: bytes)
    requires s != []
    ensures Canon(s) == CodePointToUtf8(Wrap(ToCodepoint(s).codePoint)) + Canon(s[ToCodepoint(s).width..])
  {
    assert CodePoints(s)[1..] == CodePoints(s[ToCodepoint(s).width..]);
  }

  lemma {:induction false} CanonOfWellFormed(s: bytes)
    requires WellFormed(s)
    ensures Canon(s) == s
  {
    hide ToCodepoint, CodePointToUtf8, CharLength;
    if s != [] {
      WellFormedChar(s);
      var n := CharLength(s);
      CanonOfWellFormed(s[n..]);
      CanonStep(s);
      assert s == s[..n] + s[n..];
    }
  }

  /** Writing and reading always yields well-formed UTF-8, and loses nothing exactly on well-formed UTF-8. */
  lemma CanonIdentity(s: bytes)
    ensures WellFormed(Canon(s))
    ensures Canon(s) == s <==> WellFormed(s)
  {
    Utf8RoundTrip(CodePoints(s));
    if WellFormed(s) {
      CanonOfWellFormed(s);
    }
  }

  /** Writing and reading again changes nothing: neither the value nor the text. */
  lemma CanonIsProjection(s: bytes)
    ensures Canon(Canon(s)) == Canon(s)
    ensures Quote(Canon(s)) == Quote(s)
  {
    CanonIdentity(s);
    CanonIdentity(Canon(s));
    Utf8RoundTrip(CodePoints(s));
    EscapeIgnoresWrap(CodePoints(s), CodePoints(Canon(s)));
  }

  lemma {:induction false} EscapeIgnoresWrap(cps: seq<int>, wrapped: seq<int>)
    requires |cps| == |wrapped|
    requires forall i :: 0 <= i < |cps| ==> IsEmittable(cps[i])
    requires forall i :: 0 <= i < |wrapped| ==> IsEmittable(wrapped[i])
    requires forall i :: 0 <= i < |cps| ==> wrapped[i] == Wrap(cps[i])
    ensures EscapeAll(wrapped) == EscapeAll(cps)
  {
    if cps != [] {
      EscapeIgnoresWrap(cps[1..], wrapped[1..]);
      SurrogatesIgnoreWrap(cps[0]);
    }
  }

  lemma SurrogatesIgnoreWrap(cp: int)
    requires IsEmittable(cp)
    ensures Escape(Wrap(cp)) == Escape(cp)
  {
    if cp >= 0x11_0000 {
      HighIgnoresWrap(cp);
    }
  }

  lemma HighIgnoresWrap(cp: int)
    requires 0x11_0000 <= cp < 0x20_0000
    ensures 0x1_0000 <= Wrap(cp)
    ensures HighSurrogate(Wrap(cp)) == HighSurrogate(cp)
    ensures LowSurrogate(Wrap(cp)) == LowSurrogate(cp)
  {
    var d := cp - 0x1_0000;
    var q, r := d / 0x400, d % 0x400;
    assert Wrap(cp) - 0x1_0000 == (q - 0x400) * 0x400 + r;
    assert ((q - 0x400) * 0x400 + r) / 0x400 == q - 0x400;
  }

  /** The four-byte decoder accepts code points beyond U+10FFFF; such a byte string comes back changed. */
  lemma BeyondUnicodeIsLost()
    ensures Canon([0xF4, 0x90, 0x80, 0x80]) == [0xF0, 0x90, 0x80, 0x80]
  {
    var s: bytes := [0xF4, 0x90, 0x80, 0x80];
    assert Low6(0x90) == 0x10 && Low6(0x80) == 0;
    assert ToCodepoint(s) == Scan(0x11_0000, 4);
    assert s[4..] == [];
    assert CodePoints(s) == [0x11_0000];
    assert Wrap(0x11_0000) == 0x1_0000;
    assert Utf8([0x11_0000]) == CodePointToUtf8(0x1_0000) + Utf8([]);
  }
}
