/** Fixed-point decoding of a TMP102 temperature register on the sensor mote.

    The register value is a signed 16-bit two's-complement number whose upper byte of
    the magnitude is whole degrees and whose next nibble is sixteenths of a degree.
    The decoder splits it into an integer part, a fractional part in 1/10000 of a degree
    and a `minus` marker that keeps "-0.x" readings visibly negative.
 */
module Temperature {

  /** The sensor driver's raw reading: a C `int16_t`. */
  newtype int16 = x: int | -0x8000 <= x < 0x8000

  /** The decoded reading (`temp_t`). */
  datatype Temp = Temp(tempint: int, tempfrac: int, minus: char)

  function Pow2(n: nat): (p: nat)
    ensures p >= 1
  {
    if n == 0 then 1 else 2 * Pow2(n - 1)
  }

  lemma Pow2Sixteen()
    ensures Pow2(16) == 0x1_0000
  {
    assert Pow2(2) == 4;
    assert Pow2(4) == 16;
    assert Pow2(6) == 64;
    assert Pow2(8) == 256;
    assert Pow2(10) == 1024;
    assert Pow2(12) == 4096;
    assert Pow2(14) == 16384;
  }

  /** Bitwise exclusive or of the low `width` bits of `a` and `b`, one bit at a time. */
  function XorBits(a: nat, b: nat, width: nat): nat
  {
    if width == 0 then 0
    else 2 * XorBits(a / 2, b / 2, width - 1) + (if a % 2 == b % 2 then 0 else 1)
  }

  /** Exclusive or with an all-ones mask is the one's complement. */
  lemma {:induction false} XorAllOnes(a: nat, width: nat)
    requires a < Pow2(width)
    ensures XorBits(a, Pow2(width) - 1, width) == Pow2(width) - 1 - a
  {
    if width > 0 {
      XorAllOnes(a / 2, width - 1);
    }
  }

  /** Exclusive or with the 16-bit mask `0xFFFF` is the 16-bit one's complement. */
  lemma XorMask16(a: nat)
    requires a < 0x1_0000
    ensures XorBits(a, 0xFFFF, 16) == 0xFFFF - a
  {
    Pow2Sixteen();
    XorAllOnes(a, 16);
  }

  /** The conversion of a C integer to `uint16_t`: reduction modulo 2^16. */
  function Low16(x: int): (r: nat)
    ensures r < 0x1_0000
    ensures (x - r) % 0x1_0000 == 0
    ensures 0 <= x < 0x1_0000 ==> r == x
  {
    x % 0x1_0000
  }

  /** `absraw`: the raw value itself when non-negative, otherwise its two's-complement
      negation `(raw ^ 0xFFFF) + 1` stored back into a `uint16_t`. Only the low 16 bits of
      the C `int` expression survive the store, and those depend only on the low 16 bits
      of `raw`, so the exclusive or is taken over 16 bits. */
  function AbsRaw(raw: int16): (absraw: nat)
    ensures absraw == if raw < 0 then -(raw as int) else raw as int
  {
    if raw < 0 then
      XorMask16(Low16(raw as int));
      Low16(XorBits(Low16(raw as int), 0xFFFF, 16) + 1)
    else
      Low16(raw as int)
  }

  /** `sign`: -1 for a negative reading, +1 otherwise; with `absraw` it gives the reading
      back exactly. */
  function Sign(raw: int16): (sign: int)
    ensures sign == -1 || sign == 1
    ensures sign == -1 <==> raw < 0
    ensures sign * AbsRaw(raw) == raw as int
  {
    if raw < 0 then -1 else 1
  }

  /** `temperature_read`, with the sensor read passed in as `raw`. A right shift of the
      non-negative `absraw` is a division by a power of two. */
  function TemperatureRead(raw: int16): (t: Temp)
    ensures -128 <= t.tempint <= 127
    ensures raw < 0 ==> t.tempint <= 0
    ensures raw >= 0 ==> t.tempint >= 0
    ensures 0 <= t.tempfrac <= 9375 && t.tempfrac % 625 == 0
    ensures t.minus == '-' || t.minus == ' '
  {
    var absraw := AbsRaw(raw);
    var sign := Sign(raw);
    var tempint := (absraw / 256) * sign;
    var tempfrac := ((absraw / 16) % 16) * 625;
    Temp(tempint, tempfrac, if tempint == 0 && sign == -1 then '-' else ' ')
  }

  /** The magnitude of a decoded reading in sixteenths of a degree. */
  function Sixteenths(t: Temp): (n: int)
    ensures t.tempfrac >= 0 ==> n >= 0
  {
    (if t.tempint < 0 then -t.tempint else t.tempint) * 16 + t.tempfrac / 625
  }

  /** The sign a reader recovers from a decoded reading. */
  predicate IsNegative(t: Temp)
  {
    t.tempint < 0 || t.minus == '-'
  }

  /** The integer part is the whole-degree byte of the magnitude, with the reading's sign. */
  lemma IntegerPart(raw: int16)
    ensures TemperatureRead(raw).tempint == Sign(raw) * (AbsRaw(raw) / 256)
    ensures raw < 0 ==> TemperatureRead(raw).tempint == -((-(raw as int)) / 256)
    ensures raw >= 0 ==> TemperatureRead(raw).tempint == raw as int / 256
  {
    var m: int := AbsRaw(raw);
    if raw < 0 {
      assert Sign(raw) == -1;
      assert Sign(raw) * (m / 256) == -(m / 256);
    } else {
      assert Sign(raw) == 1;
    }
  }

  /** The fractional part is the sixteenths nibble of the reading's magnitude (bits 4..7),
      scaled to 1/10000 degree: the low byte of |raw| divided by 16, times 625. */
  lemma FractionalPart(raw: int16)
    ensures var m := if raw < 0 then -(raw as int) else raw as int;
            TemperatureRead(raw).tempfrac == ((m % 256) / 16) * 625
    ensures TemperatureRead(raw).tempfrac / 625 == (AbsRaw(raw) / 16) % 16
  {
    var m := AbsRaw(raw);
    assert m == 256 * (m / 256) + m % 256;
    assert (m / 16) % 16 == (m % 256) / 16 by { NibbleOfByte(m); }
  }

  /** Bits 4..7 of a number are the high nibble of its low byte. */
  lemma NibbleOfByte(m: nat)
    ensures (m / 16) % 16 == (m % 256) / 16
  {
    var q, r := m / 256, m % 256;
    assert m == 256 * q + r && 0 <= r < 256;
    assert m / 16 == 16 * q + r / 16;
  }

  /** The decoder keeps exactly the upper 12 bits of the magnitude and drops the low nibble. */
  lemma Reconstruction(raw: int16)
    ensures Sixteenths(TemperatureRead(raw)) == AbsRaw(raw) / 16
    ensures Sixteenths(TemperatureRead(raw)) * 16 == AbsRaw(raw) - AbsRaw(raw) % 16
  {
    var m, t := AbsRaw(raw), TemperatureRead(raw);
    IntegerPart(raw);
    FractionalPart(raw);
    assert (if t.tempint < 0 then -t.tempint else t.tempint) == m / 256;
    assert m / 256 == (m / 16) / 16;
    assert (m / 16) == 16 * (m / 256) + (m / 16) % 16;
  }

  /** `minus` is set exactly when the reading is negative and its integer part is zero,
      that is for raw values -255 .. -1. */
  lemma MinusMarker(raw: int16)
    ensures TemperatureRead(raw).minus == '-' <==> raw < 0 && TemperatureRead(raw).tempint == 0
    ensures TemperatureRead(raw).minus == '-' <==> -256 < raw < 0
  {
  }

  /** Together, the integer part and the marker always give the reading's sign back,
      including the "-0.x" readings whose integer part is zero. */
  lemma SignRecovered(raw: int16)
    ensures IsNegative(TemperatureRead(raw)) <==> raw < 0
  {
  }

  /** Two readings decode alike exactly when they have the same sign and agree on all but
      the lowest nibble of the magnitude. */
  lemma {:induction false} DecodeInjectiveUpToNibble(r1: int16, r2: int16)
    ensures TemperatureRead(r1) == TemperatureRead(r2) <==>
              (r1 < 0 <==> r2 < 0) && AbsRaw(r1) / 16 == AbsRaw(r2) / 16
  {
    var t1, t2 := TemperatureRead(r1), TemperatureRead(r2);
    Reconstruction(r1);
    Reconstruction(r2);
    SignRecovered(r1);
    SignRecovered(r2);
    if (r1 < 0 <==> r2 < 0) && AbsRaw(r1) / 16 == AbsRaw(r2) / 16 {
      var m1, m2 := AbsRaw(r1), AbsRaw(r2);
      assert m1 / 256 == (m1 / 16) / 16 && m2 / 256 == (m2 / 16) / 16;
    }
  }

  /** Readings from -15/16 to -1/16 of a degree decode as integer part 0, no fraction and
      the marker set: "-0.0000" rather than "0.0000". */
  lemma JustBelowZero(raw: int16)
    requires -16 < raw < 0
    ensures TemperatureRead(raw) == Temp(0, 0, '-')
  {
    var m := AbsRaw(raw);
    assert 0 < m < 16;
    assert m / 256 == 0 && m / 16 == 0;
    assert TemperatureRead(raw).tempint == 0 by { IntegerPart(raw); }
    assert TemperatureRead(raw).tempfrac == 0 by { FractionalPart(raw); }
    MinusMarker(raw);
  }

  /** The most negative reading, -32768, has magnitude 0x8000 and decodes to -128 degrees. */
  lemma MostNegative(raw: int16)
    requires raw as int == -0x8000
    ensures AbsRaw(raw) == 0x8000
    ensures TemperatureRead(raw) == Temp(-128, 0, ' ')
  {
    var m := AbsRaw(raw);
    assert m == 0x8000;
    assert m / 256 == 128 && (m / 16) % 16 == 0;
    assert TemperatureRead(raw).tempint == -128 by { IntegerPart(raw); }
    assert TemperatureRead(raw).tempfrac == 0 by { FractionalPart(raw); }
    MinusMarker(raw);
  }
}
