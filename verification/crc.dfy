/** CRC-8 used by SmartAudio frames: polynomial 0xD5, bit-serial, MSB first,
    seeded with 0 and processed one byte at a time. */
module Crc {
  import opened Bytes

  const Poly: bv8 := 0xD5

  /** One iteration of the bit loop: shift left, XOR in the polynomial when
      the bit shifted out was set. */
  function CrcStep(c: bv8): bv8 {
    if c & 0x80 != 0 then (c << 1) ^ Poly else c << 1
  }

  /** `n` iterations of the bit loop. */
  function CrcShift(c: bv8, n: nat): bv8
    decreases n
  {
    if n == 0 then c else CrcShift(CrcStep(c), n - 1)
  }

  /** Bitwise exclusive or of two bytes. */
  function Xor(a: byte, b: byte): byte {
    (a as bv8 ^ b as bv8) as byte
  }

  /** `crc8(crc, input)`: XOR the byte in, then run the bit loop eight times. */
  function Crc8(crc: byte, input: byte): byte {
    CrcShift(crc as bv8 ^ input as bv8, 8) as byte
  }

  /** Folding `crc8` over a byte sequence from the left, starting at `c`. */
  function Crc8Fold(c: byte, s: seq<byte>): byte
    decreases |s|
  {
    if s == [] then c else Crc8Fold(Crc8(c, s[0]), s[1..])
  }

  /** `crc8_data` over a whole sequence: the fold seeded with 0. */
  function Crc8Data(s: seq<byte>): byte {
    Crc8Fold(0, s)
  }

  /** Sign-extending conversion to `int8_t` (two's complement wrap). */
  function ToInt8(x: int): (r: int)
    ensures -128 <= r <= 127
    ensures (r - x) % 256 == 0
    ensures -128 <= x <= 127 ==> r == x
  {
    (x + 128) % 256 - 128
  }

  /** The C `crc8`: the bit loop over a local. */
  method Crc8Loop(crc: byte, input: byte) returns (r: byte)
    ensures r == Crc8(crc, input)
  {
    var c: bv8 := crc as bv8 ^ input as bv8;
    for i := 0 to 8
      invariant CrcShift(c, 8 - i) == CrcShift(crc as bv8 ^ input as bv8, 8)
    {
      if c & 0x80 != 0 {
        c := (c << 1) ^ Poly;
      } else {
        c := c << 1;
      }
    }
    r := c as byte;
  }

  /** The C `crc8_data(data, len)`: `len` is an `int8_t`, so a negative
      length runs the loop zero times and gives 0. */
  method Crc8DataLoop(data: seq<byte>, len: int) returns (r: byte)
    requires -128 <= len <= 127
    requires len <= |data|
    ensures len <= 0 ==> r == 0
    ensures len >= 0 ==> r == Crc8Data(data[..len])
  {
    r := 0;
    var i := 0;
    ghost var n := if len < 0 then 0 else len;
    while i < len
      invariant 0 <= i <= n
      invariant Crc8Fold(r, data[i..n]) == Crc8Data(data[..n])
    {
      assert data[i..n] == [data[i]] + data[i + 1..n];
      r := Crc8Loop(r, data[i]);
      i := i + 1;
    }
  }

  // ---------------------------------------------------------------------
  // Properties

  /** One bit iteration is linear over GF(2). */
  lemma CrcStepLinear(x: bv8, y: bv8)
    ensures CrcStep(x ^ y) == CrcStep(x) ^ CrcStep(y)
  {
    ShiftXor(x, y);
    TopBitXor(x, y);
    var sx, sy := x << 1, y << 1;
    if x & 0x80 != 0 && y & 0x80 != 0 {
      XorCancel(sx, sy, Poly);
    } else if x & 0x80 != 0 {
      XorAssoc(sx, Poly, sy);
    } else if y & 0x80 != 0 {
      XorAssoc(sx, sy, Poly);
    }
  }

  lemma XorCancel(a: bv8, b: bv8, p: bv8)
    ensures (a ^ p) ^ (b ^ p) == a ^ b
  {
  }

  lemma XorAssoc(a: bv8, b: bv8, c: bv8)
    ensures (a ^ b) ^ c == a ^ (c ^ b) && (a ^ b) ^ c == (a ^ c) ^ b
  {
  }

  lemma ShiftXor(x: bv8, y: bv8)
    ensures (x ^ y) << 1 == (x << 1) ^ (y << 1)
  {
  }

  lemma TopBitXor(x: bv8, y: bv8)
    ensures ((x ^ y) & 0x80 != 0) == ((x & 0x80 != 0) != (y & 0x80 != 0))
  {
  }

  /** The bit loop is linear over GF(2). */
  lemma {:induction false} CrcShiftLinear(x: bv8, y: bv8, n: nat)
    ensures CrcShift(x ^ y, n) == CrcShift(x, n) ^ CrcShift(y, n)
    decreases n
  {
    if n > 0 {
      var sx, sy := CrcStep(x), CrcStep(y);
      CrcStepLinear(x, y);
      assert CrcStep(x ^ y) == sx ^ sy;
      CrcShiftLinear(sx, sy, n - 1);
      assert CrcShift(x ^ y, n) == CrcShift(sx ^ sy, n - 1);
      assert CrcShift(x, n) == CrcShift(sx, n - 1);
      assert CrcShift(y, n) == CrcShift(sy, n - 1);
    }
  }

  /** The bit loop maps zero to zero. */
  lemma {:induction false} CrcShiftZero(n: nat)
    ensures CrcShift(0, n) == 0
    decreases n
  {
    if n > 0 {
      assert CrcStep(0) == 0;
      CrcShiftZero(n - 1);
    }
  }

  /** `crc8(c, b)` depends only on `c ^ b`. */
  lemma Crc8OnlyXor(c: byte, b: byte)
    ensures Crc8(c, b) == Crc8(Xor(c, b), 0)
  {
    var x := c as bv8 ^ b as bv8;
    assert Xor(c, b) as bv8 == x;
    assert x ^ 0 == x;
  }

  /** Folding a byte equal to the running value gives 0. */
  lemma Crc8Self(x: byte)
    ensures Crc8(x, x) == 0
  {
    assert x as bv8 ^ x as bv8 == 0;
    CrcShiftZero(8);
  }

  /** The fold over a concatenation is the fold over the second part,
      seeded with the fold over the first. */
  lemma {:induction false} Crc8FoldAppend(c: byte, s: seq<byte>, t: seq<byte>)
    ensures Crc8Fold(c, s + t) == Crc8Fold(Crc8Fold(c, s), t)
    decreases |s|
  {
    if s == [] {
      assert s + t == t;
    } else {
      assert (s + t)[1..] == s[1..] + t;
      Crc8FoldAppend(Crc8(c, s[0]), s[1..], t);
    }
  }

  /** Folding one more byte is one more `crc8` step. */
  lemma Crc8FoldSnoc(c: byte, s: seq<byte>, b: byte)
    ensures Crc8Fold(c, s + [b]) == Crc8(Crc8Fold(c, s), b)
  {
    Crc8FoldAppend(c, s, [b]);
  }

  /** `crc8_data` of the empty sequence is the seed, 0. */
  lemma Crc8DataEmpty()
    ensures Crc8Data([]) == 0
  {
  }

  /** Appending the CRC of a sequence to it gives a sequence whose CRC is 0. */
  lemma Crc8DataWithTrailer(s: seq<byte>)
    ensures Crc8Data(s + [Crc8Data(s)]) == 0
  {
    Crc8FoldSnoc(0, s, Crc8Data(s));
    Crc8Self(Crc8Data(s));
  }

  /** The fold over four bytes, step by step. */
  lemma Crc8DataOfFour(a: byte, b: byte, c: byte, d: byte)
    ensures Crc8Data([a, b, c, d]) == Crc8(Crc8(Crc8(Crc8(0, a), b), c), d)
  {
    var s := [a, b, c, d];
    assert s[1..] == [b, c, d] && s[1..][1..] == [c, d] && s[1..][1..][1..] == [d];
    var c1 := Crc8(0, a);
    var c2 := Crc8(c1, b);
    var c3 := Crc8(c2, c);
    assert Crc8Fold(c3, [d]) == Crc8(c3, d);
    assert Crc8Fold(c2, [c, d]) == Crc8Fold(c3, [d]);
    assert Crc8Fold(c1, [b, c, d]) == Crc8Fold(c2, [c, d]);
    assert Crc8Fold(0, s) == Crc8Fold(c1, [b, c, d]);
  }

  /** The fold over two bytes, step by step. */
  lemma Crc8DataOfTwo(a: byte, b: byte)
    ensures Crc8Data([a, b]) == Crc8(Crc8(0, a), b)
  {
    var s := [a, b];
    assert s[1..] == [b];
    assert Crc8Fold(Crc8(0, a), [b]) == Crc8(Crc8(0, a), b);
  }

  /** The CRC is sensitive to byte order. */
  lemma Crc8DataOrderSensitive()
    ensures Crc8Data([0x01, 0x02]) != Crc8Data([0x02, 0x01])
  {
    Crc8DataOfTwo(0x01, 0x02);
    Crc8DataOfTwo(0x02, 0x01);
    OrderSteps();
  }

  lemma OrderSteps()
    ensures Crc8(Crc8(0, 0x01), 0x02) == 0x74
    ensures Crc8(Crc8(0, 0x02), 0x01) == 0xC3
  {
    assert Crc8(0x00, 0x01) == 0xD5;
    assert Crc8(0x00, 0x02) == 0x7F;
  }

  /** Reference vector: the SmartAudio GET_SETTINGS request checksums to 0x9F. */
  lemma Crc8DataReferenceVector()
    ensures Crc8Data([0xAA, 0x55, 0x03, 0x00]) == 0x9F
  {
    Crc8DataOfFour(0xAA, 0x55, 0x03, 0x00);
    ReferenceSteps();
  }

  lemma ReferenceSteps()
    ensures Crc8(Crc8(Crc8(Crc8(0, 0xAA), 0x55), 0x03), 0x00) == 0x9F
  {
    assert Crc8(0x00, 0xAA) == 0x1D;
    assert Crc8(0x1D, 0x55) == 0xB4;
    assert Crc8(0xB4, 0x03) == 0x4D;
  }
}
