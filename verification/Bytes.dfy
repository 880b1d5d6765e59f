/** Byte strings, the common currency of the JSON text, the DNS packets and the framed stream. */
module Bytes {
  type byte = x: int | 0 <= x < 256

  type bytes = seq<byte>

  datatype Option<+T> = None | Some(value: T)

  /** A C string's contents: no zero byte. */
  predicate NulFree(s: bytes) {
    forall k :: 0 <= k < |s| ==> s[k] != 0
  }

  predicate AllBelow(s: bytes, limit: int) {
    forall i :: 0 <= i < |s| ==> s[i] < limit
  }

  lemma Associative<T>(a: seq<T>, b: seq<T>, c: seq<T>)
    ensures a + b + c == a + (b + c)
  {
  }

  // ----- Numbers in network order -----

  function U16(v: nat): (s: bytes)
    ensures |s| == 2
  {
    [(v / 0x100) % 0x100, v % 0x100]
  }

  function U32(v: nat): (s: bytes)
    ensures |s| == 4
  {
    [(v / 0x100_0000) % 0x100, (v / 0x1_0000) % 0x100, (v / 0x100) % 0x100, v % 0x100]
  }

  function Read16(b: bytes, p: nat): (v: nat)
    requires p + 2 <= |b|
    ensures v < 0x1_0000
  {
    b[p] as int * 0x100 + b[p + 1]
  }

  function Read32(b: bytes, p: nat): (v: nat)
    requires p + 4 <= |b|
    ensures v < 0x1_0000_0000
  {
    ((b[p] as int * 0x100 + b[p + 1]) * 0x100 + b[p + 2]) * 0x100 + b[p + 3]
  }

  lemma LowByte(v: nat, h: nat, l: nat)
    requires v == h * 0x100 + l && l < 0x100
    ensures v % 0x100 == l
  {
  }

  /** Dropping all but 14 bits keeps the low byte. */
  lemma LowByteOf14(v: nat)
    ensures v % 0x4000 % 0x100 == v % 0x100
  {
    var k, q := v / 0x4000, v % 0x4000;
    LowByte(v, k * 0x40 + q / 0x100, q % 0x100);
  }

  /** What is written is read back, up to the width of the field. */
  lemma Read16Back(b: bytes, p: nat, v: nat)
    requires p + 2 <= |b| && b[p..p + 2] == U16(v)
    ensures Read16(b, p) == v % 0x1_0000
  {
    assert b[p] == b[p..p + 2][0] && b[p + 1] == b[p..p + 2][1];
    assert v / 0x100 == (v / 0x1_0000) * 0x100 + (v / 0x100) % 0x100;
  }

  lemma Read32Back(b: bytes, p: nat, v: nat)
    requires p + 4 <= |b| && b[p..p + 4] == U32(v)
    ensures Read32(b, p) == v % 0x1_0000_0000
  {
    assert b[p] == b[p..p + 4][0] && b[p + 1] == b[p..p + 4][1] && b[p + 2] == b[p..p + 4][2] && b[p + 3] == b[p..p + 4][3];
    FourDigits(v);
  }

  lemma FourDigits(v: nat)
    ensures (((v / 0x100_0000) % 0x100 * 0x100 + (v / 0x1_0000) % 0x100) * 0x100 + (v / 0x100) % 0x100) * 0x100 + v % 0x100 == v % 0x1_0000_0000
  {
    var a, b, c, d := (v / 0x100_0000) % 0x100, (v / 0x1_0000) % 0x100, (v / 0x100) % 0x100, v % 0x100;
    assert v == (v / 0x100) * 0x100 + d;
    assert v / 0x100 == (v / 0x1_0000) * 0x100 + c;
    assert v / 0x1_0000 == (v / 0x100_0000) * 0x100 + b;
    assert v / 0x100_0000 == (v / 0x1_0000_0000) * 0x100 + a;
  }
}
