/** The checksum stage of the P1 decoder (`src/p1/mod.rs`): a complete
    datagram ends in four ASCII hex digits that must equal the CRC-16/ARC of
    every byte before them, from the leading `/` up to and including `!`. */
module P1 {
  import opened Common
  import Crc16

  /** What the decoder hands on per telegram. The reader produces only the
      first two; the checksum stage turns a `Datagram` whose trailer does not
      match into `InvalidCrc`. The bytes are always the telegram as received. */
  datatype ReadDatagram =
    | Datagram(datagram: seq<byte>)
    | IncompleteDatagram(datagram: seq<byte>)
    | InvalidCrc(datagram: seq<byte>, expectedCrc: Option<u16>, actualCrc: u16)

  // ---------------------------------------------------------------------
  // Hex text, as Rust's `u16::from_str_radix(_, 16)` reads it

  /** `char::to_digit(16)`: decimal digits and both cases of `a` to `f`. */
  predicate IsHexDigit(b: byte) {
    (0x30 <= b <= 0x39) || (0x41 <= b <= 0x46) || (0x61 <= b <= 0x66)
  }

  predicate AllHex(s: seq<byte>) {
    forall i :: 0 <= i < |s| ==> IsHexDigit(s[i])
  }

  function DigitValue(b: byte): (v: u16)
    requires IsHexDigit(b)
    ensures v < 16
  {
    if b <= 0x39 then (b as bv16) - 0x30
    else if b <= 0x46 then (b as bv16) - 0x37
    else (b as bv16) - 0x57
  }

  /** The digit for a nibble, upper or lower case. */
  function HexChar(n: u16, upper: bool): (b: byte)
    requires n < 16
    ensures IsHexDigit(b) && DigitValue(b) == n
  {
    if n < 10 then (n + 0x30) as bv8
    else if upper then (n + 0x37) as bv8
    else (n + 0x57) as bv8
  }

  /** Four hex digits for `v`, most significant first: the checksum field as
      the meter writes it. */
  function Hex4(v: u16, upper: bool): (s: seq<byte>)
    ensures |s| == 4 && AllHex(s)
  {
    [HexChar(v >> 12, upper), HexChar((v >> 8) & 0xF, upper),
     HexChar((v >> 4) & 0xF, upper), HexChar(v & 0xF, upper)]
  }

  /** Digit accumulation with checked arithmetic: a digit that is not hex, or
      a multiplication by 16 that leaves the `u16` range, gives `None`. */
  function Accumulate(acc: u16, digits: seq<byte>): Option<u16>
    decreases |digits|
  {
    if |digits| == 0 then Some(acc)
    else if !IsHexDigit(digits[0]) then None
    else if acc >= 0x1000 then None
    else Accumulate((acc << 4) | DigitValue(digits[0]), digits[1..])
  }

  /** The digits `from_str_radix` reads: a leading `+` is skipped unless it is
      the whole text. */
  function Unsigned(text: seq<byte>): seq<byte> {
    if |text| > 1 && text[0] == Plus then text[1..] else text
  }

  /** The number that hex digits written after the value `acc` denote, in
      unbounded integers: a reference reading with no range check. */
  function HexValueFrom(acc: nat, digits: seq<byte>): nat
    requires AllHex(digits)
    decreases |digits|
  {
    if |digits| == 0 then acc
    else HexValueFrom(acc * 16 + DigitValue(digits[0]) as int, digits[1..])
  }

  /** The number hex digits denote, most significant first. */
  function HexValue(digits: seq<byte>): nat
    requires AllHex(digits)
  {
    HexValueFrom(0, digits)
  }

  /** `parse_crc_text`: the trailer read as a hexadecimal `u16`. Text that is
      not UTF-8 cannot consist of hex digits, so the UTF-8 check folds into
      the digit check. A value comes back exactly when the digits (after an
      optional `+`) are hex and denote a number below 2^16, and it is that
      number. */
  function ParseCrcText(crc: seq<byte>): (r: Option<u16>)
    ensures r.Some? <==>
              && |Unsigned(crc)| > 0 && AllHex(Unsigned(crc))
              && HexValue(Unsigned(crc)) < 0x10000
    ensures r.Some? ==> AllHex(Unsigned(crc)) && r.value as int == HexValue(Unsigned(crc))
    ensures 0 < |Unsigned(crc)| <= 4 && AllHex(Unsigned(crc)) ==> r.Some?
  {
    var digits := Unsigned(crc);
    if |digits| == 0 then None
    else
      AccumulateRejects(0, digits);
      AccumulateFits(0, digits);
      if AllHex(digits) then
        AccumulateValue(0, digits);
        Accumulate(0, digits)
      else Accumulate(0, digits)
  }

  /** A leading `+` is ignored, unless a second sign follows it. */
  lemma PlusIgnored(h: seq<byte>)
    requires |h| > 0 && h[0] != Plus
    ensures ParseCrcText([Plus] + h) == ParseCrcText(h)
  {
    assert ([Plus] + h)[1..] == h;
  }

  /** The reference reading never decreases as digits are appended. */
  lemma {:induction false} HexValueFromGrows(acc: nat, digits: seq<byte>)
    requires AllHex(digits)
    ensures HexValueFrom(acc, digits) >= acc
    decreases |digits|
  {
    if |digits| > 0 {
      HexValueFromGrows(acc * 16 + DigitValue(digits[0]) as int, digits[1..]);
    }
  }

  /** Shifting a digit into a register with room for it is arithmetic on the
      number it holds. */
  lemma ShiftInValue(acc: u16, d: u16)
    requires acc < 0x1000 && d < 16
    ensures ((acc << 4) | d) as int == acc as int * 16 + d as int
  {
    assert (acc << 4) | d == acc * 16 + d;
  }

  /** The checked accumulation succeeds exactly when the reference value
      stays below 2^16, and then gives that value: overflow checks reject
      exactly the texts whose number does not fit a `u16`. */
  lemma {:induction false} AccumulateValue(acc: u16, digits: seq<byte>)
    requires AllHex(digits)
    ensures Accumulate(acc, digits).Some? <==> HexValueFrom(acc as int, digits) < 0x10000
    ensures Accumulate(acc, digits).Some? ==> Accumulate(acc, digits).value as int == HexValueFrom(acc as int, digits)
    decreases |digits|
  {
    if |digits| > 0 {
      var d := DigitValue(digits[0]);
      var rest := digits[1..];
      HexTail(digits);
      if acc >= 0x1000 {
        AboveAsInt(acc);
        Overflows(acc as int, digits);
      } else {
        var next := (acc << 4) | d;
        ShiftInValue(acc, d);
        AccumulateStep(acc, digits, d, next);
        AccumulateValue(next, rest);
        assert HexValueFrom(acc as int, digits) == HexValueFrom(next as int, rest);
      }
    }
  }

  lemma HexTail(digits: seq<byte>)
    requires |digits| > 0 && AllHex(digits)
    ensures AllHex(digits[1..])
  {
    var rest := digits[1..];
    forall i | 0 <= i < |rest| ensures IsHexDigit(rest[i]) {
      assert rest[i] == digits[i + 1];
    }
  }

  /** A number too large for another digit: the reference reading of any
      further digits leaves the `u16` range. */
  lemma Overflows(a: nat, digits: seq<byte>)
    requires |digits| > 0 && AllHex(digits) && a >= 0x1000
    ensures HexValueFrom(a, digits) >= 0x10000
  {
    HexTail(digits);
    HexValueFromGrows(a * 16 + DigitValue(digits[0]) as int, digits[1..]);
  }

  lemma AboveAsInt(acc: u16)
    requires acc >= 0x1000
    ensures acc as int >= 0x1000
  {
  }

  lemma {:induction false} AccumulateRejects(acc: u16, digits: seq<byte>)
    ensures Accumulate(acc, digits).Some? ==> AllHex(digits)
    decreases |digits|
  {
    if |digits| > 0 && IsHexDigit(digits[0]) && acc < 0x1000 {
      AccumulateRejects((acc << 4) | DigitValue(digits[0]), digits[1..]);
    }
  }

  /** The largest accumulator that still takes `k` more digits without
      overflowing. */
  function Headroom(k: nat): u16
    requires k <= 4
  {
    if k == 0 then 0xFFFF else if k == 1 then 0x0FFF else if k == 2 then 0x00FF else if k == 3 then 0x000F else 0
  }

  lemma ShiftInWithinHeadroom(acc: u16, d: u16, k: nat)
    requires k < 4 && acc <= Headroom(k + 1) && d < 16
    ensures acc < 0x1000 && (acc << 4) | d <= Headroom(k)
  {
  }

  /** Up to four hex digits never overflow: the `Some` half of the
      characterisation of `ParseCrcText`. */
  lemma AccumulateFits(acc: u16, digits: seq<byte>)
    ensures |digits| <= 4 && acc <= Headroom(|digits|) && AllHex(digits) ==> Accumulate(acc, digits).Some?
  {
    if |digits| <= 4 && acc <= Headroom(|digits|) && AllHex(digits) {
      AccumulateWithinHeadroom(acc, digits);
    }
  }

  lemma {:induction false} AccumulateWithinHeadroom(acc: u16, digits: seq<byte>)
    requires |digits| <= 4 && acc <= Headroom(|digits|) && AllHex(digits)
    ensures Accumulate(acc, digits).Some?
    decreases |digits|
  {
    if |digits| > 0 {
      var d := DigitValue(digits[0]);
      var next := (acc << 4) | d;
      ShiftInWithinHeadroom(acc, d, |digits| - 1);
      AccumulateStep(acc, digits, d, next);
      var rest := digits[1..];
      assert AllHex(rest) by {
        forall i | 0 <= i < |rest| ensures IsHexDigit(rest[i]) {
          assert rest[i] == digits[i + 1];
        }
      }
      AccumulateWithinHeadroom(next, rest);
    }
  }

  lemma AccumulateStep(acc: u16, digits: seq<byte>, d: u16, next: u16)
    requires |digits| > 0 && IsHexDigit(digits[0]) && DigitValue(digits[0]) == d && acc < 0x1000
    requires next == (acc << 4) | d
    ensures Accumulate(acc, digits) == Accumulate(next, digits[1..])
  {
  }

  lemma NibbleBounds(n1: u16, n2: u16, n3: u16)
    requires n1 < 16 && n2 < 16 && n3 < 16
    ensures (n1 << 4) | n2 < 0x100
    ensures (((n1 << 4) | n2) << 4) | n3 < 0x1000
  {
  }

  lemma Nibbles(v: u16)
    ensures ((((((v >> 12) << 4) | ((v >> 8) & 0xF)) << 4) | ((v >> 4) & 0xF)) << 4) | (v & 0xF) == v
  {
  }

  lemma AccumulateFour(h: seq<byte>, n1: u16, n2: u16, n3: u16, n4: u16)
    requires |h| == 4 && AllHex(h)
    requires DigitValue(h[0]) == n1 && DigitValue(h[1]) == n2 && DigitValue(h[2]) == n3 && DigitValue(h[3]) == n4
    ensures Accumulate(0, h) == Some((((((n1 << 4) | n2) << 4) | n3) << 4) | n4)
  {
    var a2 := (n1 << 4) | n2;
    var a3 := (a2 << 4) | n3;
    var a4 := (a3 << 4) | n4;
    NibbleBounds(n1, n2, n3);
    var t1, t2, t3 := h[1..], h[2..], h[3..];
    assert t1[0] == h[1] && t2[0] == h[2] && t3[0] == h[3];
    assert t1[1..] == t2 && t2[1..] == t3 && t3[1..] == [];
    assert (0 << 4) | n1 == n1;
    AccumulateStep(0, h, n1, n1);
    AccumulateStep(n1, t1, n2, a2);
    AccumulateStep(a2, t2, n3, a3);
    AccumulateStep(a3, t3, n4, a4);
  }

  /** Reading back the four digits the meter writes gives the value written,
      in either letter case. */
  lemma ParseHex4(v: u16, upper: bool)
    ensures ParseCrcText(Hex4(v, upper)) == Some(v)
  {
    var h := Hex4(v, upper);
    assert Unsigned(h) == h;
    AccumulateFour(h, v >> 12, (v >> 8) & 0xF, (v >> 4) & 0xF, v & 0xF);
    Nibbles(v);
  }

  /** Examples of what `from_str_radix` tolerates and refuses: "+ABC" is
      0xABC, lower case is accepted, "+" alone and "-ABC" are refused. */
  lemma ParseCrcTextExamples()
    ensures ParseCrcText([0x2B, 0x41, 0x42, 0x43]) == Some(0x0ABC)
    ensures ParseCrcText([0x62, 0x62, 0x33, 0x64]) == Some(0xBB3D)
    ensures ParseCrcText([0x2B]) == None
    ensures ParseCrcText([0x2D, 0x41, 0x42, 0x43]) == None
    ensures ParseCrcText([0x31, 0x32, 0x33, 0x47]) == None
  {
    var plus: seq<byte> := [0x2B, 0x41, 0x42, 0x43];
    assert Unsigned(plus) == plus[1..];
    AccumulateFour([0x30] + plus[1..], 0, 0xA, 0xB, 0xC);
    assert Accumulate(0, [0x30] + plus[1..]) == Accumulate(0, plus[1..]) by {
      assert ([0x30] + plus[1..])[1..] == plus[1..];
    }
    AccumulateFour([0x62, 0x62, 0x33, 0x64], 0xB, 0xB, 0x3, 0xD);
  }

  // ---------------------------------------------------------------------
  // Verification

  /** `verify_datagram_crc`. The source takes `datagram.len() - 4` without a
      guard, so it needs at least four bytes. */
  function VerifyDatagramCrc(datagram: seq<byte>): (r: ReadDatagram)
    requires |datagram| >= 4
    ensures r.datagram == datagram
    ensures r.Datagram? || r.InvalidCrc?
    ensures r.Datagram?
        <==> ParseCrcText(datagram[|datagram| - 4..]) == Some(Crc16.Crc16Arc(datagram[..|datagram| - 4]))
    ensures r.InvalidCrc? ==>
              && r.expectedCrc == ParseCrcText(datagram[|datagram| - 4..])
              && r.actualCrc == Crc16.Crc16Arc(datagram[..|datagram| - 4])
  {
    var actual := Crc16.Crc16Arc(datagram[..|datagram| - 4]);
    var expected := ParseCrcText(datagram[|datagram| - 4..]);
    if expected == Some(actual) then Datagram(datagram)
    else InvalidCrc(datagram, expected, actual)
  }

  /** `verify_crc`: only complete datagrams are checked; everything else
      passes through unchanged. */
  function VerifyCrc(d: ReadDatagram): (r: ReadDatagram)
    requires d.Datagram? ==> |d.datagram| >= 4
    ensures r.datagram == d.datagram
    ensures !d.Datagram? ==> r == d
    ensures d.Datagram? ==> r == VerifyDatagramCrc(d.datagram)
  {
    match d
    case Datagram(data) => VerifyDatagramCrc(data)
    case _ => d
  }

  /** What the meter sends: `data` followed by its checksum in four hex digits. */
  function Seal(data: seq<byte>, upper: bool): seq<byte> {
    data + Hex4(Crc16.Crc16Arc(data), upper)
  }

  /** A telegram whose trailer is the checksum of everything before it is
      accepted, byte for byte. */
  lemma SealedVerifies(data: seq<byte>, upper: bool)
    ensures VerifyDatagramCrc(Seal(data, upper)) == Datagram(Seal(data, upper))
  {
    var s := Seal(data, upper);
    assert s[..|s| - 4] == data;
    assert s[|s| - 4..] == Hex4(Crc16.Crc16Arc(data), upper);
    ParseHex4(Crc16.Crc16Arc(data), upper);
  }

  /** Changing one byte before the trailer of a correct telegram is caught:
      the outcome is `InvalidCrc` carrying the altered bytes, the checksum the
      trailer announces and the differing checksum of what arrived. */
  lemma CorruptionDetected(data: seq<byte>, upper: bool, i: nat, x: byte)
    requires i < |data| && x != data[i]
    ensures var bad := Seal(data, upper)[i := x];
            VerifyDatagramCrc(bad)
            == InvalidCrc(bad, Some(Crc16.Crc16Arc(data)), Crc16.Crc16Arc(data[i := x]))
    ensures Crc16.Crc16Arc(data[i := x]) != Crc16.Crc16Arc(data)
  {
    var bad := Seal(data, upper)[i := x];
    assert bad[..|bad| - 4] == data[i := x];
    assert bad[|bad| - 4..] == Hex4(Crc16.Crc16Arc(data), upper);
    ParseHex4(Crc16.Crc16Arc(data), upper);
    Crc16.SingleByteChangeDetected(data, i, x);
  }
}
