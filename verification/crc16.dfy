/** CRC-16/ARC, the telegram checksum of section 6.2 of the DSMR P1 Companion
    Standard: generator x^16 + x^15 + x^2 + 1, bits processed least
    significant first, initial register 0, no final XOR.

    The decoder obtains it from a CRC crate configured with the reflected
    polynomial constant `USB` (0xA001), initial value 0, final XOR 0 and the
    `Reverse` (LSB-first) update. The bitwise register below stands for that
    configuration. */
module Crc16 {
  import opened Common

  /** 0x8005 with its 16 bits reversed. */
  const ReflectedPoly: bv16 := 0xA001

  /** One LSB-first step of the division register. */
  function ShiftBit(c: bv16): bv16 {
    if c & 1 == 1 then (c >> 1) ^ ReflectedPoly else c >> 1
  }

  /** Eight register steps: one input byte's worth. */
  function ShiftByte(c: bv16): bv16 {
    ShiftBit(ShiftBit(ShiftBit(ShiftBit(ShiftBit(ShiftBit(ShiftBit(ShiftBit(c))))))))
  }

  /** Xors one input byte into the low end of the register and shifts it through. */
  function UpdateByte(crc: bv16, b: byte): bv16 {
    ShiftByte(crc ^ (b as bv16))
  }

  /** Feeds `data` into the register, first byte first (`Digest::write`). */
  function Update(crc: bv16, data: seq<byte>): bv16
    decreases |data|
  {
    if |data| == 0 then crc else Update(UpdateByte(crc, data[0]), data[1..])
  }

  /** The checksum of `data`, the `u16` that `sum16` returns. */
  function Crc16Arc(data: seq<byte>): u16 {
    Update(0, data)
  }

  /** Feeding two pieces one after the other is feeding their concatenation
      (the digest may be written in any number of slices). */
  lemma {:induction false} UpdateAppend(crc: bv16, a: seq<byte>, b: seq<byte>)
    ensures Update(crc, a + b) == Update(Update(crc, a), b)
    decreases |a|
  {
    if |a| == 0 {
      assert a + b == b;
    } else {
      assert (a + b)[1..] == a[1..] + b;
      UpdateAppend(UpdateByte(crc, a[0]), a[1..], b);
    }
  }

  // ---------------------------------------------------------------------
  // Known answer

  /** The check value of the CRC-16/ARC catalogue entry: the checksum of the
      nine ASCII digits "123456789" is 0xBB3D. */
  lemma CheckValue()
    ensures Crc16Arc([0x31, 0x32, 0x33, 0x34, 0x35, 0x36, 0x37, 0x38, 0x39]) == 0xBB3D
  {
    assert UpdateByte(0x0000, 0x31) == 0xD4C1;
    assert UpdateByte(0xD4C1, 0x32) == 0x4594;
    assert UpdateByte(0x4594, 0x33) == 0xBA04;
    assert UpdateByte(0xBA04, 0x34) == 0x14BA;
    assert UpdateByte(0x14BA, 0x35) == 0xA455;
    assert UpdateByte(0xA455, 0x36) == 0x29E4;
    assert UpdateByte(0x29E4, 0x37) == 0x9D68;
    assert UpdateByte(0x9D68, 0x38) == 0x3C9D;
    assert UpdateByte(0x3C9D, 0x39) == 0xBB3D;
  }

  // ---------------------------------------------------------------------
  // Error detection

  /** One register step loses nothing: the bit shifted out is recovered
      from the top bit, which only the polynomial sets. */
  lemma ShiftBitInjective(x: bv16, y: bv16)
    requires ShiftBit(x) == ShiftBit(y)
    ensures x == y
  {
  }

  lemma ShiftByteInjective(x: bv16, y: bv16)
    requires ShiftByte(x) == ShiftByte(y)
    ensures x == y
  {
    var x1, y1 := ShiftBit(x), ShiftBit(y);
    var x2, y2 := ShiftBit(x1), ShiftBit(y1);
    var x3, y3 := ShiftBit(x2), ShiftBit(y2);
    var x4, y4 := ShiftBit(x3), ShiftBit(y3);
    var x5, y5 := ShiftBit(x4), ShiftBit(y4);
    var x6, y6 := ShiftBit(x5), ShiftBit(y5);
    var x7, y7 := ShiftBit(x6), ShiftBit(y6);
    ShiftBitInjective(x7, y7);
    ShiftBitInjective(x6, y6);
    ShiftBitInjective(x5, y5);
    ShiftBitInjective(x4, y4);
    ShiftBitInjective(x3, y3);
    ShiftBitInjective(x2, y2);
    ShiftBitInjective(x1, y1);
    ShiftBitInjective(x, y);
  }

  /** Two different bytes fed into the same register leave different registers. */
  lemma UpdateByteInjective(c: bv16, x: byte, y: byte)
    requires x != y
    ensures UpdateByte(c, x) != UpdateByte(c, y)
  {
    if ShiftByte(c ^ (x as bv16)) == ShiftByte(c ^ (y as bv16)) {
      ShiftByteInjective(c ^ (x as bv16), c ^ (y as bv16));
      assert false;
    }
  }

  /** Different registers stay different whatever bytes follow. */
  lemma {:induction false} UpdateInjective(c1: bv16, c2: bv16, data: seq<byte>)
    requires Update(c1, data) == Update(c2, data)
    ensures c1 == c2
    decreases |data|
  {
    if |data| > 0 {
      UpdateInjective(UpdateByte(c1, data[0]), UpdateByte(c2, data[0]), data[1..]);
      ShiftByteInjective(c1 ^ (data[0] as bv16), c2 ^ (data[0] as bv16));
    }
  }

  /** Replacing any single byte of the input by a different byte changes the
      checksum. */
  lemma SingleByteChangeDetected(data: seq<byte>, i: nat, x: byte)
    requires i < |data| && x != data[i]
    ensures Crc16Arc(data[i := x]) != Crc16Arc(data)
  {
    var pre, post := data[..i], data[i + 1..];
    assert data == pre + ([data[i]] + post);
    assert data[i := x] == pre + ([x] + post);
    UpdateAppend(0, pre, [data[i]] + post);
    UpdateAppend(0, pre, [x] + post);
    var c := Update(0, pre);
    assert ([data[i]] + post)[1..] == post;
    assert ([x] + post)[1..] == post;
    UpdateByteInjective(c, x, data[i]);
    if Update(UpdateByte(c, x), post) == Update(UpdateByte(c, data[i]), post) {
      UpdateInjective(UpdateByte(c, x), UpdateByte(c, data[i]), post);
      assert false;
    }
  }
}
