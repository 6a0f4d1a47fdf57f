/** Fixed-width integers of the ESP32 / AVR targets and their little-endian byte images.
    Both targets store multi-byte integers least significant byte first, which is the
    order `memcpy` of a packed struct puts on the wire. */
module Bytes {

  newtype uint8 = x: int | 0 <= x < 0x100
  newtype int8 = x: int | -0x80 <= x < 0x80
  newtype uint16 = x: int | 0 <= x < 0x1_0000
  newtype int16 = x: int | -0x8000 <= x < 0x8000
  newtype uint32 = x: int | 0 <= x < 0x1_0000_0000
  newtype int32 = x: int | -0x8000_0000 <= x < 0x8000_0000

  /** A six-byte station (MAC) address. */
  type Mac = s: seq<uint8> | |s| == 6 witness [0, 0, 0, 0, 0, 0]

  const TWO16: int := 0x1_0000
  const TWO32: int := 0x1_0000_0000

  /** Unsigned 32-bit wrap-around, as C arithmetic on `uint32_t` does. */
  function Wrap32(x: int): (r: uint32)
    ensures 0 <= x < TWO32 ==> r as int == x
    ensures (r as int - x) % TWO32 == 0
  {
    (x % TWO32) as uint32
  }

  /** Narrowing of an `int` to `uint8_t` (keeps the low byte). */
  function Wrap8(x: int): (r: uint8)
    ensures 0 <= x < 0x100 ==> r as int == x
    ensures (r as int - x) % 0x100 == 0
  {
    (x % 0x100) as uint8
  }

  /** Narrowing of an `int` to `int16_t`: two's complement, as GCC defines it. */
  function ToInt16(x: int): (r: int16)
    ensures -0x8000 <= x < 0x8000 ==> r as int == x
    ensures (r as int - x) % TWO16 == 0
  {
    ((x + 0x8000) % TWO16 - 0x8000) as int16
  }

  /** C's `/` on `int`: the quotient truncated toward zero (Dafny's `/` floors for a
      positive divisor). */
  function CDiv(a: int, b: int): (q: int)
    requires b > 0
    ensures a >= 0 ==> q == a / b
    ensures a < 0 ==> q == -((-a) / b)
    ensures q * b <= a < (q + 1) * b || (q - 1) * b < a <= q * b
  {
    if a >= 0 then a / b else -((-a) / b)
  }

  /** Adding one after a wrap is wrapping after adding one. */
  lemma Wrap32Succ(x: int)
    ensures Wrap32(Wrap32(x) as int + 1) == Wrap32(x + 1)
  {
  }

  // ---------------------------------------------------------------------
  // Little-endian images

  function LE16(x: uint16): (r: seq<uint8>)
    ensures |r| == 2
  {
    [(x % 0x100) as uint8, (x / 0x100) as uint8]
  }

  function U16Of(b: seq<uint8>): (r: uint16)
    requires |b| == 2
  {
    (b[0] as int + 0x100 * b[1] as int) as uint16
  }

  function LE32(x: uint32): (r: seq<uint8>)
    ensures |r| == 4
  {
    var v := x as int;
    [(v % 0x100) as uint8, (v / 0x100 % 0x100) as uint8,
     (v / 0x1_0000 % 0x100) as uint8, (v / 0x100_0000) as uint8]
  }

  function U32Of(b: seq<uint8>): (r: uint32)
    requires |b| == 4
  {
    (b[0] as int + 0x100 * b[1] as int + 0x1_0000 * b[2] as int + 0x100_0000 * b[3] as int) as uint32
  }

  /** Two's complement bit patterns of the signed types. */
  function Bits8(v: int8): (r: uint8)
    ensures v >= 0 ==> r as int == v as int
    ensures v < 0 ==> r as int == v as int + 0x100
  {
    if v >= 0 then v as int as uint8 else (v as int + 0x100) as uint8
  }

  function Signed8(b: uint8): (r: int8)
    ensures b < 0x80 ==> r as int == b as int
    ensures b >= 0x80 ==> r as int == b as int - 0x100
  {
    if b < 0x80 then b as int as int8 else (b as int - 0x100) as int8
  }

  function Bits16(v: int16): (r: uint16)
    ensures v >= 0 ==> r as int == v as int
    ensures v < 0 ==> r as int == v as int + TWO16
  {
    if v >= 0 then v as int as uint16 else (v as int + TWO16) as uint16
  }

  function Signed16(u: uint16): (r: int16)
    ensures u < 0x8000 ==> r as int == u as int
    ensures u >= 0x8000 ==> r as int == u as int - TWO16
  {
    if u < 0x8000 then u as int as int16 else (u as int - TWO16) as int16
  }

  function Bits32(v: int32): (r: uint32)
    ensures v >= 0 ==> r as int == v as int
    ensures v < 0 ==> r as int == v as int + TWO32
  {
    if v >= 0 then v as int as uint32 else (v as int + TWO32) as uint32
  }

  function Signed32(u: uint32): (r: int32)
  {
    if u < 0x8000_0000 then u as int as int32 else (u as int - TWO32) as int32
  }

  /** `int16_t` as it lies in memory. */
  function LEI16(v: int16): (r: seq<uint8>)
    ensures |r| == 2
  {
    LE16(Bits16(v))
  }

  function I16Of(b: seq<uint8>): (r: int16)
    requires |b| == 2
  {
    Signed16(U16Of(b))
  }

  /** `int32_t` as it lies in memory. */
  function LEI32(v: int32): (r: seq<uint8>)
    ensures |r| == 4
  {
    LE32(Bits32(v))
  }

  // ---------------------------------------------------------------------
  // Round trips

  lemma LE16RoundTrip(x: uint16)
    ensures U16Of(LE16(x)) == x
  {
  }

  lemma U16OfInjective(b: seq<uint8>)
    requires |b| == 2
    ensures LE16(U16Of(b)) == b
  {
    var v := b[0] as int + 0x100 * b[1] as int;
    assert v % 0x100 == b[0] as int;
    assert v / 0x100 == b[1] as int;
  }

  lemma LE32RoundTrip(x: uint32)
    ensures U32Of(LE32(x)) == x
  {
    var v := x as int;
    var b0, b1, b2, b3 := v % 0x100, v / 0x100 % 0x100, v / 0x1_0000 % 0x100, v / 0x100_0000;
    assert v / 0x100 == b1 + 0x100 * (v / 0x1_0000);
    assert v / 0x1_0000 == b2 + 0x100 * b3;
  }

  lemma U32OfInjective(b: seq<uint8>)
    requires |b| == 4
    ensures LE32(U32Of(b)) == b
  {
    var v := b[0] as int + 0x100 * b[1] as int + 0x1_0000 * b[2] as int + 0x100_0000 * b[3] as int;
    var hi := b[1] as int + 0x100 * b[2] as int + 0x1_0000 * b[3] as int;
    assert v == b[0] as int + 0x100 * hi;
    assert v % 0x100 == b[0] as int && v / 0x100 == hi;
    var hi2 := b[2] as int + 0x100 * b[3] as int;
    assert hi == b[1] as int + 0x100 * hi2;
    assert hi % 0x100 == b[1] as int && hi / 0x100 == hi2;
    assert v / 0x1_0000 == hi2 by {
      assert v / 0x1_0000 == (v / 0x100) / 0x100;
    }
    assert v / 0x100_0000 == b[3] as int by {
      assert v / 0x100_0000 == (v / 0x1_0000) / 0x100;
    }
  }

  lemma I16RoundTrip(v: int16)
    ensures I16Of(LEI16(v)) == v
  {
    LE16RoundTrip(Bits16(v));
  }

  lemma I16OfInjective(b: seq<uint8>)
    requires |b| == 2
    ensures LEI16(I16Of(b)) == b
  {
    U16OfInjective(b);
  }

  lemma Int8RoundTrip(v: int8)
    ensures Signed8(Bits8(v)) == v
  {
  }

  lemma Bits8OfSigned(b: uint8)
    ensures Bits8(Signed8(b)) == b
  {
  }
}

/** The optional value the codecs and callbacks return. */
module Wrappers {
  datatype Option<+T> = None | Some(value: T)
}
