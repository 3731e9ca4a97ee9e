/**
 * Conversions between the desk's warmth byte (0..255) and the hub's colour
 * temperature in mireds, bounded by the entity's fixed minimum and maximum.
 * The source computes both with floating point and truncates the result with
 * int(); on the ranges below that equals integer floor division.
 */
module Warmth {
  import opened Basics

  const MinMireds: int := 166
  const MaxMireds: int := 400
  /** Width of the mireds range, computed once by the entity's constructor. */
  const MiredsRange: int := MaxMireds - MinMireds

  predicate InMiredsRange(m: int) {
    MinMireds <= m <= MaxMireds
  }

  /** Warmth byte to mireds: the byte's fraction of 255, scaled onto the range. */
  function ByteToMireds(b: Byte): (m: int)
    ensures InMiredsRange(m)
    ensures b == 0 ==> m == MinMireds
    ensures b == 255 ==> m == MaxMireds
  {
    b * MiredsRange / 255 + MinMireds
  }

  /** Mireds to warmth byte: the position within the range, scaled onto 0..255. */
  function MiredsToByte(m: int): (b: Byte)
    requires InMiredsRange(m)
    ensures m == MinMireds ==> b == 0
    ensures m == MaxMireds ==> b == 255
  {
    255 * (m - MinMireds) / MiredsRange
  }

  lemma ByteToMiredsMonotone(b1: Byte, b2: Byte)
    requires b1 <= b2
    ensures ByteToMireds(b1) <= ByteToMireds(b2)
  {
  }

  lemma MiredsToByteMonotone(m1: int, m2: int)
    requires InMiredsRange(m1) && InMiredsRange(m2) && m1 <= m2
    ensures MiredsToByte(m1) <= MiredsToByte(m2)
  {
  }

  /** Going byte -> mireds -> byte never overshoots and loses at most two steps. */
  lemma ByteRoundTripBounds(b: Byte)
    ensures b - 2 <= MiredsToByte(ByteToMireds(b)) <= b
  {
  }

  /** Going mireds -> byte -> mireds never overshoots and loses at most one mired. */
  lemma MiredsRoundTripBounds(m: int)
    requires InMiredsRange(m)
    ensures m - 1 <= ByteToMireds(MiredsToByte(m)) <= m
  {
  }

  /** The conversions are not inverse to each other: 167 mireds come back as 166. */
  lemma MiredsRoundTripIsLossy()
    ensures MiredsToByte(167) == 1 && ByteToMireds(1) == 166
  {
  }

  /**
   * Re-converting a reported temperature can move it: byte 2 reads as 167
   * mireds, which is written back as byte 1 and then reads as 166.
   */
  lemma ReportedTemperatureDrifts()
    ensures ByteToMireds(2) == 167
    ensures ByteToMireds(MiredsToByte(ByteToMireds(2))) == 166
  {
  }

  /** The drift of a re-converted temperature is at most one mired, downwards. */
  lemma ReportedTemperatureDriftBound(b: Byte)
    ensures ByteToMireds(b) - 1 <= ByteToMireds(MiredsToByte(ByteToMireds(b))) <= ByteToMireds(b)
  {
  }
}
