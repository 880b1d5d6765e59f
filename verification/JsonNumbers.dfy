/** Integers in JSON text: uintToString and valueToString write them, decodeNumber reads them. */
module JsonNumbers {
  import opened Bytes

  newtype uint64 = x: int | 0 <= x < 0x1_0000_0000_0000_0000
  newtype int64 = x: int | -0x8000_0000_0000_0000 <= x < 0x8000_0000_0000_0000

  const MAX_INT := 0x7FFF_FFFF
  const MAX_LARGEST_INT: int64 := 0x7FFF_FFFF_FFFF_FFFF
  const MIN_LARGEST_INT: int64 := -0x8000_0000_0000_0000
  const MAX_LARGEST_UINT: uint64 := 0xFFFF_FFFF_FFFF_FFFF

  const ZERO: byte := 0x30
  const MINUS: byte := 0x2D

  /** uintToStringBufferSize: three characters for each byte of the integer, and a terminator. */
  const BUFFER_SIZE := 3 * 8 + 1

  // ----- Writing -----

  function Digits(v: nat): (s: bytes)
    ensures s != [] && AllDigits(s)
  {
    if v < 10 then [ZERO + v] else Digits(v / 10) + [ZERO + v % 10]
  }

  function PrintInteger(i: int): bytes {
    if i < 0 then [MINUS] + Digits(-i) else Digits(i)
  }

  function Pow10(k: nat): nat {
    if k == 0 then 1 else 10 * Pow10(k - 1)
  }

  lemma {:induction false} DigitCount(v: nat, k: nat)
    requires 1 <= k && v < Pow10(k)
    ensures |Digits(v)| <= k
  {
    assert k == 1 ==> Pow10(k) == 10 * Pow10(0);
    if v >= 10 {
      DigitCount(v / 10, k - 1);
    }
  }

  lemma TwentyDigits(v: uint64)
    ensures |Digits(v as int)| <= 20
  {
    assert Pow10(5) == 10 * 10 * 10 * 10 * 10 * Pow10(0);
    assert Pow10(10) == 10 * 10 * 10 * 10 * 10 * Pow10(5);
    assert Pow10(15) == 10 * 10 * 10 * 10 * 10 * Pow10(10);
    assert Pow10(20) == 10 * 10 * 10 * 10 * 10 * Pow10(15);
    DigitCount(v as int, 20);
  }

  /** uintToString: writes backwards from `end` and returns where the text starts. */
  method UintToString(value: uint64, buffer: array<byte>, end: nat) returns (current: nat)
    requires 21 <= end <= buffer.Length
    modifies buffer
    ensures end - 21 <= current < end
    ensures buffer[current..end - 1] == Digits(value as int) && buffer[end - 1] == 0
    ensures forall k :: 0 <= k < buffer.Length && !(current <= k < end) ==> buffer[k] == old(buffer[k])
  {
    TwentyDigits(value);
    current := end - 1;
    buffer[current] := 0;
    var rest := value;
    assert buffer[current..end - 1] == [];
    while true
      invariant end - 21 <= current < end
      invariant current - (end - 21) >= |Digits(rest as int)|
      invariant Digits(value as int) == Digits(rest as int) + buffer[current..end - 1]
      invariant buffer[end - 1] == 0
      invariant forall k :: 0 <= k < buffer.Length && !(current <= k < end) ==> buffer[k] == old(buffer[k])
      decreases rest
    {
      ghost var written := buffer[current..end - 1];
      current := current - 1;
      buffer[current] := (rest % 10) as int + ZERO;
      assert buffer[current..end - 1] == [ZERO + rest as int % 10] + written;
      rest := rest / 10;
      if rest == 0 {
        break;
      }
    }
  }

  /** valueToString(LargestInt) */
  method SignedToString(value: int64) returns (text: bytes)
    ensures text == PrintInteger(value as int)
  {
    hide Digits;
    var buffer := new byte[BUFFER_SIZE](_ => 0);
    var current := BUFFER_SIZE;
    if value == MIN_LARGEST_INT {
      current := UintToString(MAX_LARGEST_INT as uint64 + 1, buffer, current);
      current := current - 1;
      buffer[current] := MINUS;
    } else if value < 0 {
      current := UintToString((-value) as uint64, buffer, current);
      current := current - 1;
      buffer[current] := MINUS;
    } else {
      current := UintToString(value as uint64, buffer, current);
    }
    text := buffer[current..BUFFER_SIZE - 1];
    assert value < 0 ==> text[1..] == buffer[current + 1..BUFFER_SIZE - 1];
  }

  /** valueToString(LargestUInt) */
  method UnsignedToString(value: uint64) returns (text: bytes)
    ensures text == PrintInteger(value as int)
  {
    var buffer := new byte[BUFFER_SIZE](_ => 0);
    var current := UintToString(value, buffer, BUFFER_SIZE);
    text := buffer[current..BUFFER_SIZE - 1];
  }

  // ----- Reading -----

  predicate IsDigit(c: int) {
    0x30 <= c <= 0x39
  }

  predicate AllDigits(s: bytes) {
    forall i :: 0 <= i < |s| ==> IsDigit(s[i])
  }

  /** The number a run of digits denotes. */
  function DigitsValue(s: bytes): nat
    requires AllDigits(s)
  {
    if s == [] then 0 else DigitsValue(s[..|s| - 1]) * 10 + (s[|s| - 1] - ZERO)
  }

  /** What a number token decodes to; the double path is left unexamined. */
  datatype Number = Signed(i: int) | Unsigned(u: nat) | Double {
    predicate IsInteger() {
      !Double?
    }

    function Numeral(): int
      requires IsInteger()
    {
      if Signed? then i else u
    }
  }

  function Negative(token: bytes): bool {
    token != [] && token[0] == MINUS
  }

  function Magnitude(token: bytes): bytes {
    if Negative(token) then token[1..] else token
  }

  function Limit(negative: bool): nat {
    if negative then 0x8000_0000_0000_0000 else 0xFFFF_FFFF_FFFF_FFFF
  }

  /** Reader::decodeNumber: an integer exactly when the token is digits that fit. */
  function NumberOf(token: bytes): Number {
    var ds := Magnitude(token);
    if !AllDigits(ds) then Double
    else
      var v: int := DigitsValue(ds);
      if v > Limit(Negative(token)) then Double
      else if Negative(token) then Signed(-v)
      else if v <= MAX_INT then Signed(v)
      else Unsigned(v)
  }

  lemma {:induction false} MoreDigits(s: bytes, k: nat)
    requires AllDigits(s) && k < |s|
    ensures DigitsValue(s) >= DigitsValue(s[..k + 1]) == DigitsValue(s[..k]) * 10 + (s[k] - ZERO)
    decreases |s|
  {
    assert s[..k + 1][..k] == s[..k];
    if k + 1 == |s| {
      assert s[..k + 1] == s;
    } else {
      var shorter := s[..|s| - 1];
      MoreDigits(shorter, k);
      assert shorter[..k + 1] == s[..k + 1];
    }
  }

  /** The test the loop makes before it multiplies: it never rejects a number that fits. */
  lemma TooLarge(s: bytes, k: nat, limit: nat)
    requires AllDigits(s) && k < |s| && limit >= 10
    requires DigitsValue(s[..k]) >= limit / 10
    requires DigitsValue(s[..k]) > limit / 10 || k + 1 != |s| || s[k] - ZERO > limit % 10
    ensures DigitsValue(s) > limit
  {
    MoreDigits(s, k);
    if k + 1 != |s| {
      MoreDigits(s, k + 1);
    }
  }

  /** The accumulation loop both readers share; `value` is 64 bits wide and never wraps. */
  method Accumulate(token: bytes, start: nat, limit: uint64, lastDigit: uint64) returns (fits: bool, value: uint64)
    requires start <= |token| && limit >= 10 && lastDigit == limit % 10
    ensures fits <==> AllDigits(token[start..]) && DigitsValue(token[start..]) <= limit as int
    ensures fits ==> value as int == DigitsValue(token[start..])
  {
    var threshold := limit / 10;
    value := 0;
    var current := start;
    ghost var ds := token[start..];
    while current < |token|
      invariant start <= current <= |token|
      invariant AllDigits(ds[..current - start])
      invariant value as int == DigitsValue(ds[..current - start])
      invariant value <= limit
    {
      ghost var k := current - start;
      var c := token[current];
      current := current + 1;
      assert c == ds[k];
      if c < 0x30 || c > 0x39 {
        return false, value;
      }
      var digit := (c - ZERO) as uint64;
      if value >= threshold {
        if value > threshold || current != |token| || digit > lastDigit {
          if AllDigits(ds) {
            TooLarge(ds, k, limit as int);
          }
          return false, value;
        }
      }
      assert ds[..k + 1][..k] == ds[..k];
      value := value * 10 + digit;
    }
    assert ds[..current - start] == ds;
    fits := true;
  }

  /** Reader::decodeNumber */
  method DecodeNumber(token: bytes) returns (r: Number)
    requires token != []
    ensures r == NumberOf(token)
  {
    var isNegative := token[0] == MINUS;
    var current := if isNegative then 1 else 0;
    var maxIntegerValue := if isNegative then MAX_LARGEST_INT as uint64 + 1 else MAX_LARGEST_UINT;
    assert token[current..] == Magnitude(token);
    var fits, value := Accumulate(token, current, maxIntegerValue, maxIntegerValue % 10);
    if !fits {
      return Double;
    }
    if isNegative && value == maxIntegerValue {
      r := Signed(MIN_LARGEST_INT as int);
    } else if isNegative {
      r := Signed((-(value as int64)) as int);
    } else if value <= MAX_INT as uint64 {
      r := Signed(value as int);
    } else {
      r := Unsigned(value as int);
    }
  }

  /** OurReader::decodeNumber computes the limits and the sign another way, and keeps the signed tag up to 2^63 - 1. */
  method OurDecodeNumber(token: bytes) returns (r: Number)
    requires token != []
    ensures r.IsInteger() <==> NumberOf(token).IsInteger()
    ensures r.IsInteger() ==> r.Numeral() == NumberOf(token).Numeral()
    ensures r.IsInteger() ==> (r.Signed? <==> r.Numeral() <= MAX_LARGEST_INT as int)
  {
    var isNegative := token[0] == MINUS;
    var current := if isNegative then 1 else 0;
    // C++ division truncates towards zero: the quotient and the remainder of the minimum are both negative.
    var negativeThreshold: uint64 := 922337203685477580;
    var negativeLastDigit: uint64 := 8;
    assert MIN_LARGEST_INT as int == -(negativeThreshold as int) * 10 - negativeLastDigit as int;
    var limit := if isNegative then negativeThreshold * 10 + negativeLastDigit else MAX_LARGEST_UINT;
    assert token[current..] == Magnitude(token);
    var fits, value := Accumulate(token, current, limit, if isNegative then negativeLastDigit else MAX_LARGEST_UINT % 10);
    if !fits {
      return Double;
    }
    if isNegative {
      var lastDigit := (value % 10) as int64;
      r := Signed((-((value / 10) as int64) * 10 - lastDigit) as int);
    } else if value <= MAX_LARGEST_INT as uint64 {
      r := Signed((value as int64) as int);
    } else {
      r := Unsigned(value as int);
    }
  }

  // ----- Reading back what was written -----

  lemma {:induction false} DigitsRoundTrip(v: nat)
    ensures DigitsValue(Digits(v)) == v
  {
    if v >= 10 {
      DigitsRoundTrip(v / 10);
      assert Digits(v)[..|Digits(v)| - 1] == Digits(v / 10);
    } else {
      assert Digits(v)[..0] == [];
    }
  }

  /** The tag a number comes back with: signed up to 2^31 - 1, unsigned above. */
  function Retag(i: int): Number {
    if i <= MAX_INT then Signed(i) else Unsigned(i)
  }

  /** Every 64-bit integer, signed or unsigned, survives writing and reading. */
  lemma IntegerRoundTrip(i: int)
    requires MIN_LARGEST_INT as int <= i <= MAX_LARGEST_UINT as int
    ensures NumberOf(PrintInteger(i)) == Retag(i)
  {
    DigitsRoundTrip(if i < 0 then -i else i);
    assert i < 0 ==> PrintInteger(i)[1..] == Digits(-i);
    assert i >= 0 ==> IsDigit(Digits(i)[0]);
  }

  /** A lone minus sign is a number token, and decodes to zero. */
  lemma LoneMinus()
    ensures NumberOf([MINUS]) == Signed(0)
  {
    assert Magnitude([MINUS]) == [];
  }
}
